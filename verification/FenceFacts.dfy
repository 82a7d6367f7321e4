/** What stripping fences recovers from the text around a structure. */
module FenceFacts {
  import opened Chars
  import opened FenceScanner

  // ---------- A structure in its surroundings ----------

  lemma {:induction false} ModeWithin(p: string, j: string, q: string, k: nat)
    requires ModeAt(p, |p|) == Outside && k <= |j|
    ensures ModeAt(p + j + q, |p| + k) == ModeAt(j, k)
  {
    if k == 0 { ModeOfPrefix(p, j + q, |p|); assert p + (j + q) == p + j + q; }
    else { ModeWithin(p, j, q, k - 1); }
  }

  lemma {:induction false} ModeOfPrefix(p: string, x: string, k: nat)
    requires k <= |p|
    ensures ModeAt(p + x, k) == ModeAt(p, k)
  {
    if k == 0 {
    } else {
      ModeOfPrefix(p, x, k - 1);
    }
  }

  lemma {:induction false} LevelWithin(p: string, j: string, q: string, k: nat)
    requires ModeAt(p, |p|) == Outside && k <= |j|
    ensures Level(p + j + q, |p|, |p| + k) == Level(j, 0, k)
  {
    if k == 0 {
    } else {
      LevelWithin(p, j, q, k - 1);
      ModeWithin(p, j, q, k - 1);
    }
  }

  /** Prose that ends outside strings, with no opening bracket outside them. */
  ghost predicate PlainProse(p: string) {
    ModeAt(p, |p|) == Outside && forall k: nat | k < |p| :: !OpensAt(p, k)
  }

  /** After plain prose and before anything, a balanced text is the first structure. */
  lemma FoundInProse(p: string, j: string, q: string)
    requires PlainProse(p) && Balanced(j)
    ensures FirstStructure(p + j + q, |p|, |p| + |j|)
  {
    var w := p + j + q;
    ModeWithin(p, j, q, 0);
    forall k: nat | k < |p|
      ensures !OpensAt(w, k)
    {
      ModeOfPrefix(p, j + q, k);
      assert w == p + (j + q) && w[k] == p[k] && !OpensAt(p, k);
    }
    LevelWithin(p, j, q, |j|);
    forall k: nat | |p| < k < |p| + |j|
      ensures Level(w, |p|, k) > 0
    {
      LevelWithin(p, j, q, k - |p|);
    }
  }

  lemma BalancedEnds(j: string)
    requires Balanced(j)
    ensures IsOpener(j[0]) && IsCloser(j[|j| - 1]) && |j| >= 2
  {
    var n := |j|;
    assert Level(j, 0, 1) == Level(j, 0, 0) + 1;
    assert Level(j, 0, n) == Level(j, 0, n - 1) + Weight(ModeAt(j, n - 1), j[n - 1]);
  }

  // ---------- Trimming around a structure ----------

  lemma {:induction false} TrimStartOf(p: string, x: string)
    requires x != [] && !IsWhite(x[0])
    ensures TrimStart(p + x) == TrimStart(p) + x
  {
    if p == [] {
      assert p + x == x;
    } else {
      assert (p + x)[1..] == p[1..] + x;
      TrimStartOf(p[1..], x);
    }
  }

  lemma {:induction false} TrimEndOf(x: string, q: string)
    requires x != [] && !IsWhite(x[|x| - 1])
    ensures TrimEnd(x + q) == x + TrimEnd(q)
  {
    if q == [] {
      assert x + q == x;
    } else {
      assert (x + q)[..|x + q| - 1] == x + q[..|q| - 1];
      TrimEndOf(x, q[..|q| - 1]);
    }
  }

  lemma PrefixOf(f: string, p: string, x: string)
    requires x != [] && x[0] !in f
    ensures f <= p + x <==> f <= p
  {
    if |f| > |p| {
      assert (p + x)[|p|] == x[0] && f[|p|] in f;
    } else {
      assert (p + x)[..|f|] == p[..|f|];
    }
  }

  lemma SuffixOf(f: string, x: string, q: string)
    requires x != [] && x[|x| - 1] !in f
    ensures EndsWith(x + q, f) <==> EndsWith(q, f)
  {
    var w := x + q;
    if |f| <= |q| {
      assert w[|w| - |f|..] == q[|q| - |f|..];
    } else if |f| <= |w| {
      assert w[|w| - |f|..][|f| - |q| - 1] == x[|x| - 1] && f[|f| - |q| - 1] in f;
    }
  }

  /** What is left of the prose before and after the structure. */
  function Before(p: string, closed: bool): string {
    if closed then TrimStart(AfterFence(TrimStart(p))) else TrimStart(TrimStart(p))
  }

  function Behind(q: string): string {
    var t := TrimEnd(q);
    if EndsWith(t, FENCE) then TrimEnd(t[..|t| - |FENCE|]) else TrimEnd(t)
  }

  lemma AfterFenceOf(p: string, x: string)
    requires x != [] && IsOpener(x[0])
    ensures AfterFence(p + x) == AfterFence(p) + x
  {
    PrefixOf(JSON_FENCE, p, x);
    PrefixOf(FENCE, p, x);
    if JSON_FENCE <= p { assert (p + x)[|JSON_FENCE|..] == p[|JSON_FENCE|..] + x; }
    else if FENCE <= p { assert (p + x)[|FENCE|..] == p[|FENCE|..] + x; }
  }

  lemma TrimAround(p: string, j: string, q: string)
    requires j != [] && IsOpener(j[0]) && IsCloser(j[|j| - 1])
    ensures Trim(p + j + q) == TrimStart(p) + j + TrimEnd(q)
  {
    BracketsNotWhite(j[0]);
    BracketsNotWhite(j[|j| - 1]);
    Regroup(p, j, q);
    Regroup(TrimStart(p), j, q);
    TrimStartOf(p, j + q);
    TrimEndOf(TrimStart(p) + j, q);
  }

  lemma BracketsNotWhite(c: char)
    requires IsOpener(c) || IsCloser(c)
    ensures !IsWhite(c)
  {
  }

  /** The fences lie outside the structure. */
  lemma UnfencedAround(s: string, j: string, t: string)
    requires j != [] && IsOpener(j[0]) && IsCloser(j[|j| - 1])
    ensures Unfenced(s + j + t) == if EndsWith(t, FENCE) then AfterFence(s) + j + t[..|t| - |FENCE|] else s + j + t
  {
    AfterFenceAround(s, j, t);
    UnfencedBody(s + j + t, AfterFence(s) + j + t);
    EndAround(AfterFence(s), j, t);
  }

  lemma AfterFenceAround(s: string, j: string, t: string)
    requires j != [] && IsOpener(j[0])
    ensures AfterFence(s + j + t) == AfterFence(s) + j + t
  {
    Regroup(s, j, t);
    AfterFenceOf(s, j + t);
    Regroup(AfterFence(s), j, t);
  }

  lemma UnfencedBody(s: string, body: string)
    requires AfterFence(s) == body
    ensures Unfenced(s) == if EndsWith(body, FENCE) then body[..|body| - |FENCE|] else s
  {
  }

  lemma EndAround(b: string, j: string, t: string)
    requires j != [] && IsCloser(j[|j| - 1])
    ensures EndsWith(b + j + t, FENCE) <==> EndsWith(t, FENCE)
    ensures EndsWith(t, FENCE) ==> (b + j + t)[..|b + j + t| - |FENCE|] == b + j + t[..|t| - |FENCE|]
  {
    SuffixOf(FENCE, b + j, t);
  }

  /** Fences and blanks are removed from the surroundings only. */
  lemma FencesAround(p: string, j: string, q: string)
    requires j != [] && IsOpener(j[0]) && IsCloser(j[|j| - 1])
    ensures WithoutFences(p + j + q) == Before(p, EndsWith(TrimEnd(q), FENCE)) + j + Behind(q)
  {
    TrimAround(p, j, q);
    Peeled(p + j + q, TrimStart(p) + j + TrimEnd(q));
    if EndsWith(TrimEnd(q), FENCE) { PeeledClosed(p, j, q); } else { PeeledOpen(p, j, q); }
  }

  lemma Peeled(text: string, trimmed: string)
    requires Trim(text) == trimmed
    ensures WithoutFences(text) == Trim(Unfenced(trimmed))
  {
  }

  lemma PeeledClosed(p: string, j: string, q: string)
    requires j != [] && IsOpener(j[0]) && IsCloser(j[|j| - 1]) && EndsWith(TrimEnd(q), FENCE)
    ensures Trim(Unfenced(TrimStart(p) + j + TrimEnd(q))) == Before(p, true) + j + Behind(q)
  {
    var b, u := AfterFence(TrimStart(p)), TrimEnd(q)[..|TrimEnd(q)| - |FENCE|];
    UnfencedClosed(TrimStart(p), j, TrimEnd(q), b, u);
    TrimAround(b, j, u);
    SurroundingsClosed(p, q, b, u);
  }

  lemma UnfencedClosed(s: string, j: string, t: string, b: string, u: string)
    requires j != [] && IsOpener(j[0]) && IsCloser(j[|j| - 1])
    requires AfterFence(s) == b && EndsWith(t, FENCE) && u == t[..|t| - |FENCE|]
    ensures Unfenced(s + j + t) == b + j + u
  {
    UnfencedAround(s, j, t);
  }

  lemma SurroundingsClosed(p: string, q: string, b: string, u: string)
    requires EndsWith(TrimEnd(q), FENCE) && b == AfterFence(TrimStart(p)) && u == TrimEnd(q)[..|TrimEnd(q)| - |FENCE|]
    ensures Before(p, true) == TrimStart(b) && Behind(q) == TrimEnd(u)
  {
  }

  lemma PeeledOpen(p: string, j: string, q: string)
    requires j != [] && IsOpener(j[0]) && IsCloser(j[|j| - 1]) && !EndsWith(TrimEnd(q), FENCE)
    ensures Trim(Unfenced(TrimStart(p) + j + TrimEnd(q))) == Before(p, false) + j + Behind(q)
  {
    UnfencedAround(TrimStart(p), j, TrimEnd(q));
    TrimAround(TrimStart(p), j, TrimEnd(q));
  }

  lemma Regroup(a: string, b: string, c: string)
    ensures a + (b + c) == a + b + c
  {
  }

  /** What is left after dropping a beginning that ends outside strings. */
  lemma DropKeepsProse(p: string, n: nat)
    requires PlainProse(p) && n <= |p| && ModeAt(p, n) == Outside
    ensures PlainProse(p[n..])
  {
    var front, rest := p[..n], p[n..];
    assert p == front + rest && front + rest + [] == p;
    ModeOfPrefix(front, rest, n);
    ModeWithin(front, rest, [], |rest|);
    forall k: nat | k < |rest|
      ensures !OpensAt(rest, k)
    {
      ModeWithin(front, rest, [], k);
      assert rest[k] == p[n + k] && !OpensAt(p, n + k);
    }
  }

  lemma {:induction false} QuoteFreeIsOutside(p: string, k: nat)
    requires k <= |p| && forall i | 0 <= i < k :: p[i] != '"'
    ensures ModeAt(p, k) == Outside
  {
    if k == 0 {
    } else {
      QuoteFreeIsOutside(p, k - 1);
    }
  }

  lemma {:induction false} TrimKeepsProse(p: string)
    requires PlainProse(p)
    ensures PlainProse(TrimStart(p))
  {
    if p == [] || !IsWhite(p[0]) {
    } else {
      QuoteFreeIsOutside(p, 1);
      DropKeepsProse(p, 1);
      TrimKeepsProse(p[1..]);
    }
  }

  lemma FenceKeepsProse(p: string)
    requires PlainProse(p)
    ensures PlainProse(AfterFence(p))
  {
    if JSON_FENCE <= p {
      FenceIsOutside(p, JSON_FENCE);
    } else if FENCE <= p {
      FenceIsOutside(p, FENCE);
    }
  }

  lemma FenceIsOutside(p: string, fence: string)
    requires PlainProse(p) && fence <= p && (fence == FENCE || fence == JSON_FENCE)
    ensures PlainProse(p[|fence|..])
  {
    forall i | 0 <= i < |fence| ensures p[i] != '"' { assert p[i] == fence[i]; }
    QuoteFreeIsOutside(p, |fence|);
    DropKeepsProse(p, |fence|);
  }

  lemma BeforeIsProse(p: string, closed: bool)
    requires PlainProse(p)
    ensures PlainProse(Before(p, closed))
  {
    TrimKeepsProse(p);
    TrimKeepsProse(TrimStart(p));
    FenceKeepsProse(TrimStart(p));
    TrimKeepsProse(AfterFence(TrimStart(p)));
  }

  /** A balanced text after plain prose, whatever follows it, is recovered exactly when something is left of the prose
      before it, or nothing of what follows, or the whole does not look like JSON. */
  lemma RecoveredExactly(p: string, j: string, q: string, r: string)
    requires PlainProse(p) && Balanced(j) && IsStripped(p + j + q, r)
    ensures r == j <==> Before(p, EndsWith(TrimEnd(q), FENCE)) != [] || Behind(q) == [] || !Fast(j + Behind(q))
  {
    var x, y := Before(p, EndsWith(TrimEnd(q), FENCE)), Behind(q);
    BalancedEnds(j);
    FencesAround(p, j, q);
    BeforeIsProse(p, EndsWith(TrimEnd(q), FENCE));
    FoundInProse(x, j, y);
    var w := x + j + y;
    assert w[|x|..|x| + |j|] == j;
    if x == [] {
      assert w == j + y;
    } else {
      assert w[0] == x[0] && !OpensAt(x, 0);
    }
    if !Fast(w) {
      assert IsPayload(w, j);
      StrippedIsUnique(w, r, j);
    } else {
      assert r == w && |w| == |j| + |y|;
    }
  }

  /** So prose that is neither blank nor starts with a code fence never hides the structure after it. */
  lemma RecoveredFromProse(p: string, j: string, q: string, r: string)
    requires PlainProse(p) && !IsBlank(p) && !(['`', '`', '`'] <= TrimStart(p))
    requires Balanced(j) && IsStripped(p + j + q, r)
    ensures r == j
  {
    RecoveredExactly(p, j, q, r);
    NonBlankRemains(p);
    assert JSON_FENCE[..|FENCE|] == FENCE;
    assert JSON_FENCE <= TrimStart(p) ==> FENCE <= TrimStart(p);
    TrimTwice(p);
  }

  lemma {:induction false} NonBlankRemains(p: string)
    requires !IsBlank(p)
    ensures TrimStart(p) != []
  {
    if !IsWhite(p[0]) {
    } else {
      NonBlankRemains(p[1..]);
    }
  }

  /** Trimming takes white space off both ends, and all of it. */
  lemma {:induction false} TrimExactly(s: string) returns (a: string, b: string)
    ensures s == a + Trim(s) + b && IsBlank(a) && IsBlank(b)
    ensures Trim(s) != [] ==> !IsWhite(Trim(s)[0]) && !IsWhite(Trim(s)[|Trim(s)| - 1])
    decreases |s|
  {
    if s != [] && IsWhite(s[0]) {
      a, b := TrimExactly(s[1..]);
      a := [s[0]] + a;
      assert s == [s[0]] + s[1..];
    } else {
      a := [];
      b := TrimmedEnd(s);
      if Trim(s) != [] { assert (Trim(s) + b)[0] == Trim(s)[0]; }
    }
  }

  lemma {:induction false} TrimmedEnd(s: string) returns (b: string)
    ensures s == TrimEnd(s) + b && IsBlank(b)
    ensures TrimEnd(s) != [] ==> !IsWhite(TrimEnd(s)[|TrimEnd(s)| - 1])
  {
    b := [];
    if s != [] && IsWhite(s[|s| - 1]) {
      b := TrimmedEnd(s[..|s| - 1]);
      b := b + [s[|s| - 1]];
      assert s == s[..|s| - 1] + [s[|s| - 1]];
    }
  }

  lemma {:induction false} TrimTwice(p: string)
    ensures TrimStart(TrimStart(p)) == TrimStart(p)
  {
    if p == [] || !IsWhite(p[0]) {
    } else {
      TrimTwice(p[1..]);
    }
  }

  lemma {:induction false} TrimBlank(b: string)
    requires IsBlank(b)
    ensures TrimStart(b) == [] && TrimEnd(b) == []
  {
    if b == [] {
    } else {
      TrimBlank(b[1..]);
      TrimBlank(b[..|b| - 1]);
    }
  }

  /** A structure between an opening and a closing code fence is recovered. */
  lemma RecoveredFromFences(fence: string, a: string, j: string, b: string, c: string, r: string)
    requires fence == ['`', '`', '`'] || fence == ['`', '`', '`', 'j', 's', 'o', 'n']
    requires IsBlank(a) && IsBlank(b) && IsBlank(c)
    requires Balanced(j) && IsStripped(fence + a + j + (b + ['`', '`', '`'] + c), r)
    ensures r == j
  {
    BlankBehind(b, c);
    FenceIsProse(fence, a);
    RecoveredExactly(fence + a, j, b + FENCE + c, r);
  }

  lemma FenceIsProse(fence: string, a: string)
    requires (fence == FENCE || fence == JSON_FENCE) && IsBlank(a)
    ensures PlainProse(fence + a)
  {
    var p := fence + a;
    forall i | 0 <= i < |p| ensures p[i] != '"' && !IsOpener(p[i]) {
      if i >= |fence| { assert IsWhite(a[i - |fence|]); }
    }
    QuoteFreeIsOutside(p, |p|);
  }

  lemma BlankBehind(b: string, c: string)
    requires IsBlank(b) && IsBlank(c)
    ensures Behind(b + FENCE + c) == []
  {
    TrimBlank(c);
    TrimEndOf(b + FENCE, c);
    var t := b + FENCE;
    assert t + [] == t && t[|t| - |FENCE|..] == FENCE && t[..|t| - |FENCE|] == b;
    TrimBlank(b);
  }

  /** Stripping again changes nothing, when the result begins with an opener and ends with a closer. */
  lemma StrippingTwice(text: string, r: string, t: string)
    requires IsStripped(text, r) && IsStripped(r, t)
    requires r != [] && IsOpener(r[0]) && IsCloser(r[|r| - 1])
    ensures t == r
  {
    SelfUnfenced(r);
    PayloadTwice(WithoutFences(text), r, t);
  }

  /** A bracketed text has nothing to trim or unfence. */
  lemma SelfUnfenced(r: string)
    requires r != [] && IsOpener(r[0]) && IsCloser(r[|r| - 1])
    ensures WithoutFences(r) == r
  {
    FencesAround([], r, []);
    assert [] + r + [] == r && Before([], false) == [] && Behind([]) == [];
  }

  lemma PayloadTwice(w: string, r: string, t: string)
    requires IsPayload(w, r) && IsPayload(r, t)
    ensures t == r
  {
    if !Fast(w) && exists a: nat, b: nat :: FirstStructure(w, a, b) && r == w[a..b] {
      var a: nat, b: nat :| FirstStructure(w, a, b) && r == w[a..b];
      StructureIsBalanced(w, a, b);
      BalancedIsPayload(r);
      StrippedIsUnique(r, t, r);
    } else {
      StrippedIsUnique(w, r, t);
    }
  }

  lemma BalancedIsPayload(j: string)
    requires Balanced(j)
    ensures IsPayload(j, j)
  {
    assert FirstStructure(j, 0, |j|) && j[0..|j|] == j;
  }

  lemma StructureIsBalanced(w: string, a: nat, b: nat)
    requires FirstStructure(w, a, b)
    ensures Balanced(w[a..b])
  {
    var p, j, q := w[..a], w[a..b], w[b..];
    assert w == p + j + q && w == p + (j + q);
    ModeOfPrefix(p, j + q, a);
    ModeWithin(p, j, q, 0);
    LevelWithin(p, j, q, |j|);
    forall k: nat | 0 < k < |j|
      ensures Level(j, 0, k) > 0
    {
      LevelWithin(p, j, q, k);
    }
  }

  /** Two objects with a blank between them look like one: the first is not recovered, all of it is returned. */
  lemma TwoObjectsKept(r: string)
    requires IsStripped(['{', '}', ' ', '{', '}'], r)
    ensures Balanced(['{', '}']) && r == ['{', '}', ' ', '{', '}']
  {
    EmptyObjectIsBalanced();
    SelfUnfenced(['{', '}', ' ', '{', '}']);
  }

  /** After prose that ends inside a string, the structure is not what the scanner finds there. */
  lemma HiddenInString(p: string, j: string, q: string)
    requires ModeAt(p, |p|) != Outside
    ensures forall b: nat :: !FirstStructure(p + j + q, |p|, b)
  {
    ModeOfPrefix(p, j + q, |p|);
    assert p + (j + q) == p + j + q;
  }

  /** An unpaired quote in the prose hides the structure: all of the text is returned. */
  lemma UnpairedQuoteHides(r: string)
    requires IsStripped(['a', '"', '{', '}'], r)
    ensures Balanced(['{', '}']) && r == ['a', '"', '{', '}']
  {
    EmptyObjectIsBalanced();
    HiddenText();
  }

  lemma EmptyObjectIsBalanced()
    ensures Balanced(['{', '}'])
  {
    var j := ['{', '}'];
    assert ModeAt(j, 0) == Outside && ModeAt(j, 1) == Outside && Level(j, 0, 1) == 1 && Level(j, 0, 2) == 0;
  }

  lemma HiddenText()
    ensures var w := ['a', '"', '{', '}']; WithoutFences(w) == w && forall k: nat | k < |w| :: !OpensAt(w, k)
  {
    var w := ['a', '"', '{', '}'];
    assert w[|w| - |FENCE|..] == ['"', '{', '}'] && ['"', '{', '}'][0] != FENCE[0];
    assert ModeAt(w, 0) == Outside && ModeAt(w, 1) == Outside && ModeAt(w, 2) == Inside && ModeAt(w, 3) == Inside;
  }
}
