/** What the incremental keyword index must hold: the counts a full rescan of the documents would give. */
module Bm25 {

  type Tokens = seq<string>

  datatype Index = Index(tf: map<string, map<string, nat>>, df: map<string, nat>, totalLen: nat)

  const EMPTY_INDEX := Index(map[], map[], 0)

  /** The sum of all values of a map. */
  ghost function Total(m: map<string, nat>): nat
    decreases |m|
  {
    if m == map[] then 0 else
      var k :| k in m;
      m[k] + Total(m - {k})
  }

  lemma {:induction false} TotalRemove(m: map<string, nat>, k: string)
    requires k in m
    ensures Total(m) == m[k] + Total(m - {k})
    decreases |m|
  {
    var j :| j in m && Total(m) == m[j] + Total(m - {j});
    if j != k {
      TotalRemove(m - {j}, k);
      TotalRemove(m - {k}, j);
      assert m - {j} - {k} == m - {k} - {j};
    }
  }

  lemma TotalUpdate(m: map<string, nat>, k: string, v: nat)
    ensures Total(m[k := v]) == v + Total(m - {k})
    ensures Total(m[k := v]) == Total(m) + v - (if k in m then m[k] else 0)
  {
    TotalRemove(m[k := v], k);
    assert m[k := v] - {k} == m - {k};
    if k in m { TotalRemove(m, k); } else { assert m - {k} == m; }
  }

  /** The map holds how often each token occurs. */
  ghost predicate Counts(m: map<string, nat>, toks: Tokens) {
    && (forall t | t in m :: m[t] == multiset(toks)[t] > 0)
    && (forall t | t in toks :: t in m)
  }

  lemma CountsStep(m: map<string, nat>, toks: Tokens, t: string)
    requires Counts(m, toks)
    ensures Counts(m[t := (if t in m then m[t] else 0) + 1], toks + [t])
    ensures Total(m[t := (if t in m then m[t] else 0) + 1]) == Total(m) + 1
  {
    TotalUpdate(m, t, (if t in m then m[t] else 0) + 1);
    CountsMore(m, toks, t);
  }

  lemma CountsMore(m: map<string, nat>, toks: Tokens, t: string)
    requires Counts(m, toks)
    ensures Counts(m[t := (if t in m then m[t] else 0) + 1], toks + [t])
  {
    assert multiset(toks + [t]) == multiset(toks) + multiset{t};
    if t !in m { assert t !in toks; }
  }

  /** The documents whose tokens contain t. */
  ghost function Containing(docs: map<string, Tokens>, t: string): set<string> {
    set id | id in docs && t in docs[id]
  }

  ghost function Lengths(docs: map<string, Tokens>): map<string, nat> {
    map id | id in docs :: |docs[id]|
  }

  /** The index is what a full rescan of the documents gives. */
  ghost predicate Rescan(ix: Index, docs: map<string, Tokens>) {
    && ix.tf.Keys == docs.Keys
    && (forall id | id in docs :: Counts(ix.tf[id], docs[id]))
    && (forall t: string :: DocFrequency(ix.df, t) == |Containing(docs, t)|)
    && (forall t | t in ix.df :: ix.df[t] > 0)
    && ix.totalLen == Total(Lengths(docs))
  }

  ghost function DocFrequency(df: map<string, nat>, t: string): nat {
    if t in df then df[t] else 0
  }

  lemma EmptyRescan()
    ensures Rescan(EMPTY_INDEX, map[])
  {
    forall t: string ensures DocFrequency(map[], t) == |Containing(map[], t)| {
      assert Containing(map[], t) == {};
    }
  }

  lemma ContainingAdd(docs: map<string, Tokens>, id: string, toks: Tokens, t: string)
    requires id !in docs
    ensures |Containing(docs[id := toks], t)| == |Containing(docs, t)| + (if t in toks then 1 else 0)
  {
    if t in toks {
      assert Containing(docs[id := toks], t) == Containing(docs, t) + {id};
    } else {
      assert Containing(docs[id := toks], t) == Containing(docs, t);
    }
  }

  lemma LengthsAdd(docs: map<string, Tokens>, id: string, toks: Tokens)
    requires id !in docs
    ensures Total(Lengths(docs[id := toks])) == Total(Lengths(docs)) + |toks|
  {
    TotalUpdate(Lengths(docs), id, |toks|);
    assert Lengths(docs)[id := |toks|] == Lengths(docs[id := toks]);
  }

  /** The document frequencies after one more document with the given term counts. */
  ghost predicate Counted(before: map<string, nat>, counts: map<string, nat>, after: map<string, nat>) {
    && after.Keys == before.Keys + counts.Keys
    && forall t | t in after :: after[t] == DocFrequency(before, t) + (if t in counts then 1 else 0)
  }

  /** Indexing a new document keeps the index equal to a full rescan. */
  lemma RescanAdd(ix: Index, docs: map<string, Tokens>, id: string, toks: Tokens, counts: map<string, nat>, next: Index)
    requires Rescan(ix, docs) && id !in docs && Counts(counts, toks)
    requires next.tf == ix.tf[id := counts] && next.totalLen == ix.totalLen + |toks|
    requires Counted(ix.df, counts, next.df)
    ensures Rescan(next, docs[id := toks])
  {
    FrequenciesAdd(ix.df, docs, id, toks, counts, next.df);
    LengthsAdd(docs, id, toks);
  }

  lemma FrequenciesAdd(df: map<string, nat>, docs: map<string, Tokens>, id: string, toks: Tokens,
                       counts: map<string, nat>, next: map<string, nat>)
    requires forall t: string :: DocFrequency(df, t) == |Containing(docs, t)|
    requires id !in docs && Counts(counts, toks) && Counted(df, counts, next)
    requires forall t | t in df :: df[t] > 0
    ensures forall t: string :: DocFrequency(next, t) == |Containing(docs[id := toks], t)|
    ensures forall t | t in next :: next[t] > 0
  {
    forall t: string ensures DocFrequency(next, t) == |Containing(docs[id := toks], t)| {
      ContainingAdd(docs, id, toks, t);
      assert DocFrequency(df, t) == |Containing(docs, t)|;
      assert t in toks <==> t in counts;
    }
  }

  lemma CountsUnique(a: map<string, nat>, b: map<string, nat>, toks: Tokens)
    requires Counts(a, toks) && Counts(b, toks)
    ensures a == b
  {
    forall t | t in a || t in b ensures t in a && t in b && a[t] == b[t] {
      assert t in toks;
    }
  }

  lemma FrequenciesUnique(a: map<string, nat>, b: map<string, nat>)
    requires forall t: string :: DocFrequency(a, t) == DocFrequency(b, t)
    requires forall t | t in a :: a[t] > 0
    requires forall t | t in b :: b[t] > 0
    ensures a == b
  {
    forall t: string ensures t in a <==> t in b {
      assert DocFrequency(a, t) == DocFrequency(b, t);
    }
    forall t | t in a ensures a[t] == b[t] {
      assert DocFrequency(a, t) == DocFrequency(b, t);
    }
  }

  /** Only one index is the full rescan of given documents, however they were added. */
  lemma RescanUnique(a: Index, b: Index, docs: map<string, Tokens>)
    requires Rescan(a, docs) && Rescan(b, docs)
    ensures a == b
  {
    forall id | id in docs ensures a.tf[id] == b.tf[id] {
      CountsUnique(a.tf[id], b.tf[id], docs[id]);
    }
    assert a.tf == b.tf;
    forall t: string ensures DocFrequency(a.df, t) == DocFrequency(b.df, t) {
      assert DocFrequency(a.df, t) == |Containing(docs, t)|;
    }
    FrequenciesUnique(a.df, b.df);
  }

  // ---------- Indexing one document ----------

  /** The counts of the tokens, which add up to their number. */
  ghost predicate CountsAll(m: map<string, nat>, toks: Tokens) { Counts(m, toks) && Total(m) == |toks| }

  lemma CountsNext(m: map<string, nat>, toks: Tokens, i: nat)
    requires i < |toks| && CountsAll(m, toks[..i])
    ensures CountsAll(m[toks[i] := (if toks[i] in m then m[toks[i]] else 0) + 1], toks[..i + 1])
  {
    CountsStep(m, toks[..i], toks[i]);
    assert toks[..i + 1] == toks[..i] + [toks[i]];
  }

  method CountTokens(toks: Tokens) returns (counts: map<string, nat>)
    ensures CountsAll(counts, toks)
  {
    counts := map[];
    var i := 0;
    while i < |toks|
      invariant 0 <= i <= |toks|
      invariant CountsAll(counts, toks[..i])
    {
      CountsNext(counts, toks, i);
      counts := counts[toks[i] := (if toks[i] in counts then counts[toks[i]] else 0) + 1];
      i := i + 1;
    }
    assert toks[..i] == toks;
  }

  method SumValues(m: map<string, nat>) returns (sum: nat)
    ensures sum == Total(m)
  {
    sum := 0;
    var rest := m;
    while rest != map[]
      invariant sum + Total(rest) == Total(m)
      decreases |rest|
    {
      var k :| k in rest.Keys;
      TotalRemove(rest, k);
      sum := sum + rest[k];
      rest := rest - {k};
    }
  }

  method BumpFrequencies(df: map<string, nat>, counts: map<string, nat>) returns (next: map<string, nat>)
    ensures Counted(df, counts, next)
  {
    next := df;
    var rest := counts.Keys;
    while rest != {}
      invariant rest <= counts.Keys
      invariant next.Keys == df.Keys + (counts.Keys - rest)
      invariant forall t | t in next :: next[t] == DocFrequency(df, t) + (if t in counts && t !in rest then 1 else 0)
      decreases rest
    {
      var t :| t in rest;
      rest := rest - {t};
      next := next[t := (if t in next then next[t] else 0) + 1];
    }
  }

  /** Indexes a document under a new id; the index stays what a full rescan would give. */
  method IndexDocument(ix: Index, id: string, toks: Tokens, ghost docs: map<string, Tokens>) returns (next: Index)
    requires Rescan(ix, docs) && id !in docs
    ensures Rescan(next, docs[id := toks])
  {
    var counts := CountTokens(toks);
    var docLen := SumValues(counts);
    var frequencies := BumpFrequencies(ix.df, counts);
    next := Index(ix.tf[id := counts], frequencies, ix.totalLen + docLen);
    RescanAdd(ix, docs, id, toks, counts, next);
  }
}
