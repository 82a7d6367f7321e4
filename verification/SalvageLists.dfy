/** Which of its two lists a salvaged value names, and payloads from which too little is salvaged. */
module SalvageLists {
  import opened GraphTypes
  import opened JsonText
  import opened JsonLayout
  import opened JsonRender
  import opened Salvage
  import opened SalvageFacts
  import Scan = FenceScanner

  const NODES: string := "new_nodes"
  const EDGES: string := "new_edges"

  predicate Names(w: Json, key: string) {
    w.Obj? && exists i | 0 <= i < |w.members| :: w.members[i].key == key
  }

  /** Both list names are there, as the conversion of the value asks. */
  predicate NamesBoth(w: Json) { Names(w, NODES) && Names(w, EDGES) }

  /** A payload with both lists, once each: at position p and later at position q. */
  predicate TwoLists(v: Json, p: nat, q: nat) {
    && IsPayload(v) && p < q < |v.members| && v.members[p].key != v.members[q].key
    && IsListKey(v.members[p].key) && IsListKey(v.members[q].key)
    && forall i | 0 <= i < |v.members| && IsListKey(v.members[i].key) :: i == p || i == q
  }

  // ---------- Counting objects ----------

  lemma {:induction false} NoObjects(j: Json)
    requires ObjectFree(j)
    ensures ObjectsIn(j) == 0
    decreases j, 1
  {
    if j.Arr? { NoObjectsInItems(j.items); }
  }

  lemma {:induction false} NoObjectsInItems(items: seq<Json>)
    requires forall i | 0 <= i < |items| :: ObjectFree(items[i])
    ensures ObjectsInItems(items) == 0
    decreases items, 0
  {
    if items == [] {
    } else {
      NoObjectsInItems(items[..|items| - 1]);
      NoObjects(items[|items| - 1]);
    }
  }

  lemma {:induction false} NoObjectsInMembers(members: seq<Member>)
    requires forall i | 0 <= i < |members| :: ObjectFree(members[i].value)
    ensures ObjectsInMembers(members) == 0
  {
    if members == [] {
    } else {
      NoObjectsInMembers(members[..|members| - 1]);
      NoObjects(members[|members| - 1].value);
    }
  }

  lemma {:induction false} FlatItemsCount(items: seq<Json>)
    requires forall i | 0 <= i < |items| :: IsFlat(items[i])
    ensures ObjectsInItems(items) == |items|
  {
    if items == [] {
    } else {
      FlatItemsCount(items[..|items| - 1]);
      NoObjectsInMembers(items[|items| - 1].members);
    }
  }

  /** The objects among the first n members are the items of the lists among them. */
  lemma {:induction false} MembersCount(v: Json, p: nat, q: nat, n: nat)
    requires TwoLists(v, p, q) && n <= |v.members|
    ensures ObjectsInMembers(v.members[..n])
         == (if p < n then |v.members[p].value.items| else 0) + (if q < n then |v.members[q].value.items| else 0)
  {
    if n == 0 {
    } else {
      MembersCount(v, p, q, n - 1);
      assert v.members[..n][..n - 1] == v.members[..n - 1];
      var m := v.members[n - 1];
      if IsListKey(m.key) { FlatItemsCount(m.value.items); } else { NoObjects(m.value); }
    }
  }

  // ---------- Both names ----------

  /** The state after an item of one of the lists, on the way to v. */
  lemma WhichList(st: State, v: Json, p: nat, q: nat)
    requires TwoLists(v, p, q) && InListOfItems(st) && LeadsTo(st, v)
    ensures var ms, items := st.stack.below.members, st.stack.items;
      && (|ms| == p || |ms| == q) && ms == v.members[..|ms|] && st.stack.below.key == v.members[|ms|].key
      && items <= v.members[|ms|].value.items
  {
    assert Final(Bottom, v) == Some(v) && Final(st.stack.below, v).Some?;
  }

  lemma TwoKeys(a: string, b: string)
    requires IsListKey(a) && IsListKey(b) && a != b
    ensures (a == NODES && b == EDGES) || (a == EDGES && b == NODES)
  {
  }

  /** Closing there names both lists, and has more items than the first list, exactly in the second list. */
  lemma ClosedNames(st: State, v: Json, p: nat, q: nat)
    requires TwoLists(v, p, q) && InListOfItems(st) && LeadsTo(st, v)
    ensures NamesBoth(RootWithList(st)) <==> |st.stack.below.members| == q
    ensures ObjectsIn(RootWithList(st)) - 1 > |v.members[p].value.items| <==> |st.stack.below.members| == q
  {
    WhichList(st, v, p, q);
    var ms, items := st.stack.below.members, st.stack.items;
    var w := RootWithList(st);
    assert w.members[..|ms|] == ms;
    MembersCount(v, p, q, |ms|);
    FlatItemsCount(items);
    RootCounts(st);
    assert ObjectsHeld(st.stack.below) == ObjectsHeld(Bottom) + ObjectsInMembers(ms) == ObjectsInMembers(ms);
    if |ms| == q {
      assert w.members[p].key == v.members[p].key && w.members[q].key == v.members[q].key;
      assert Names(w, v.members[p].key) && Names(w, v.members[q].key);
    } else {
      forall i | 0 <= i < |w.members| ensures w.members[i].key != v.members[q].key {
        if i < p { assert w.members[i] == v.members[i]; }
      }
      assert !Names(w, v.members[q].key);
    }
    TwoKeys(v.members[p].key, v.members[q].key);
  }

  /** What is salvaged from a payload with both lists names both, if and only if more objects were complete at the
      cut than the list that comes first has. */
  lemma NamesBothExactly(g: Lexis, d: string, cut: nat, v: Json, w: Json, p: nat, q: nat)
    requires Parse(g, d) == Some(v) && TwoLists(v, p, q) && cut <= |d|
    requires Parse(g, d[..cut]).None? && IsSalvaged(g, d[..cut], Some(w))
    ensures NamesBoth(w) <==> OuterBraces(d[..cut], cut) > |v.members[p].value.items|
  {
    NothingCompleteIsLost(g, d, cut, v, w);
    var i: nat :| IsLastClosable(g, d[..cut], i) && ClosedAfter(g, d[..cut], i) == Some(w);
    RecoveredRoot(g, d, cut, i, v, w);
    SameState(g, d, cut, i + 1);
    EveryStateLeadsOn(g, d, i + 1, v);
    ClosedNames(StateAt(g, d[..cut], i + 1), v, p, q);
  }

  // ---------- A cut in the first list ----------

  lemma {:induction false} FirstOuter(s: string, n: nat) returns (cut: nat)
    requires n <= |s| && OuterBraces(s, n) > 0
    ensures 0 < cut <= n && IsOuterBrace(s, cut - 1) && OuterBraces(s, cut) == 1
  {
    if OuterBraces(s, n - 1) > 0 { cut := FirstOuter(s, n - 1); } else { cut := n; }
  }

  lemma {:induction false} SameOuter(d: string, cut: nat, i: nat)
    requires i <= cut <= |d|
    ensures OuterBraces(d[..cut], i) == OuterBraces(d, i)
  {
    if i == 0 {
    } else {
      SameOuter(d, cut, i - 1);
      SameQuotes(d, cut, i - 1);
    }
  }

  /** A document that ends at the cut has as many outer braces as objects. */
  lemma WholeCounts(g: Lexis, d: string, cut: nat, v: Json)
    requires Parse(g, d) == Some(v) && v.Obj? && cut <= |d| && Parse(g, d[..cut]).Some?
    ensures OuterBraces(d, cut) == ObjectsIn(v)
  {
    WholeCut(g, d, cut, v);
    ObjectsAreBraces(g, d, cut);
  }

  /** Every payload whose first list has an item can be cut so that what is salvaged lacks the other list. */
  lemma CutInFirstList(g: Lexis, d: string, v: Json, p: nat, q: nat) returns (cut: nat)
    requires Parse(g, d) == Some(v) && TwoLists(v, p, q) && v.members[p].value.items != []
    ensures cut <= |d| && Parse(g, d[..cut]).None?
    ensures forall r | IsSalvaged(g, d[..cut], r) :: r.Some? && !NamesBoth(r.value)
  {
    assert d[..|d|] == d;
    WholeCounts(g, d, |d|, v);
    MembersCount(v, p, q, |v.members|);
    assert v.members[..|v.members|] == v.members;
    cut := FirstOuter(d, |d|);
    if Parse(g, d[..cut]).Some? { WholeCounts(g, d, cut, v); }
    var n := cut;
    forall r | IsSalvaged(g, d[..n], r)
      ensures r.Some? && !NamesBoth(r.value)
    {
      SameQuotes(d, n, n - 1);
      assert IsCandidate(d[..n], n - 1) && IsOuterBrace(d[..n], n - 1);
      SalvageSucceedsExactly(g, d, n, v, r);
      SameOuter(d, n, n);
      NamesBothExactly(g, d, n, v, r.value, p, q);
    }
  }

  /** For example: one node and no edge, cut in the node list. */
  lemma OneNodeCut(g: Lexis, quote: Quoting) returns (cut: nat)
    requires Writable(g, quote, NODES) && Writable(g, quote, EDGES)
    ensures var d := Render(quote, OneNode());
      cut <= |d| && forall r | IsSalvaged(g, d[..cut], r) :: r.Some? && !NamesBoth(r.value)
  {
    OneNodeIsPayload();
    OneNodeIsLegible(g, quote);
    ParseOfRendered(g, quote, OneNode());
    cut := CutInFirstList(g, Render(quote, OneNode()), OneNode(), 0, 1);
  }

  function OneNode(): Json { Obj([Member(NODES, Arr([Obj([])])), Member(EDGES, Arr([]))]) }

  lemma OneNodeIsPayload()
    ensures TwoLists(OneNode(), 0, 1) && OneNode().members[0].value.items != []
  {
    TwoNames();
    assert IsFlat(Obj([])) && IsFlatList(Arr([Obj([])])) && IsFlatList(Arr([]));
  }

  lemma OneNodeIsLegible(g: Lexis, quote: Quoting)
    requires Writable(g, quote, NODES) && Writable(g, quote, EDGES)
    ensures Legible(g, quote, OneNode())
  {
    assert Legible(g, quote, Obj([])) && Legible(g, quote, Arr([Obj([])])) && Legible(g, quote, Arr([]));
  }

  lemma TwoNames()
    ensures IsListKey(NODES) && IsListKey(EDGES) && NODES != EDGES
  {
    assert NODES[4] != EDGES[4];
  }

  // ---------- Braces inside a string ----------

  lemma {:induction false} ManyBraces(s: string, i: nat, a: nat)
    requires i <= a && a + ATTEMPTS <= |s| && forall k | a <= k < a + ATTEMPTS :: s[k] == '}'
    ensures BracesFrom(s, i) >= ATTEMPTS
    decreases a - i
  {
    if i < a { ManyBraces(s, i + 1, a); } else { AllBraces(s, a, a + ATTEMPTS); }
  }

  lemma {:induction false} AllBraces(s: string, i: nat, n: nat)
    requires i <= n <= |s| && forall k | i <= k < n :: s[k] == '}'
    ensures BracesFrom(s, i) >= n - i
    decreases n - i
  {
    if i == n {
    } else {
      AllBraces(s, i + 1, n);
    }
  }

  lemma {:induction false} StaysInside(s: string, a: nat, k: nat)
    requires a <= k <= |s| && Scan.ModeAt(s, a) == Scan.Inside && forall i | a <= i < k :: s[i] == '}'
    ensures Scan.ModeAt(s, k) == Scan.Inside
    decreases k - a
  {
    if a == k {
    } else {
      StaysInside(s, a, k - 1);
    }
  }

  /** Nothing is salvaged from a payload cut after 50 closing braces inside a string, whatever was complete before. */
  lemma BuriedByBraces(g: Lexis, d: string, a: nat, v: Json, r: Option<Json>)
    requires Parse(g, d) == Some(v) && IsPayload(v) && a + ATTEMPTS <= |d|
    requires Scan.ModeAt(d, a) == Scan.Inside && forall k | a <= k < a + ATTEMPTS :: d[k] == '}'
    requires IsSalvaged(g, d[..a + ATTEMPTS], r)
    ensures r.None?
  {
    var s := d[..a + ATTEMPTS];
    SameQuotes(d, a + ATTEMPTS, a);
    forall i: nat | IsCandidate(s, i)
      ensures !IsOuterBrace(s, i)
    {
      if i < a { ManyBraces(s, i + 1, a); } else { StaysInside(s, a, i); }
    }
    SalvageSucceedsExactly(g, d, a + ATTEMPTS, v, r);
  }
}
