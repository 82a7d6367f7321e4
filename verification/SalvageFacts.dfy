/** What salvaging recovers from any beginning of a document. */
module SalvageFacts {
  import opened GraphTypes
  import opened JsonText
  import opened Salvage
  import Scan = FenceScanner

  // ---------- Soundness ----------

  /** A beginning of the object's members, or of the members and of one more member that is an array. */
  predicate IsTruncated(w: Json, v: Json) {
    w.Obj? && v.Obj? && (w.members <= v.members || (w.members != [] && EndsInList(w.members, v.members)))
  }

  predicate EndsInList(short: seq<Member>, full: seq<Member>)
    requires short != []
  {
    var k := |short| - 1;
    && short[..k] <= full && k < |full| && short[k].key == full[k].key
    && short[k].value.Arr? && full[k].value.Arr? && short[k].value.items <= full[k].value.items
  }

  /** Inside a list that is a member of the root object. */
  predicate InRootList(st: State) {
    st.mode == After && st.stack.InArray? && st.stack.below.InObject? && st.stack.below.below.Bottom?
  }

  /** The root object, with the list read so far as its last member. */
  function RootWithList(st: State): Json
    requires InRootList(st)
  {
    Obj(st.stack.below.members + [Member(st.stack.below.key, Arr(st.stack.items))])
  }

  predicate InRoot(st: State) { st.mode == After && st.stack.InObject? && st.stack.below.Bottom? }

  lemma CloseInList(g: Lexis, st: State)
    requires st.mode.Text? || st.mode.After? || st.mode.Done?
    ensures Finish(g, Step(g, Step(g, st, ']'), '}')) == if InRootList(st) then Some(RootWithList(st)) else None
  {
  }

  lemma CloseInRoot(g: Lexis, st: State)
    requires st.mode.Text? || st.mode.After? || st.mode.Done?
    ensures Finish(g, Step(g, st, '}')) == if InRoot(st) then Some(Obj(st.stack.members)) else None
  {
  }

  /** Parsing a beginning followed by closers. */
  lemma ParseClosed(g: Lexis, s: string, i: nat)
    requires i < |s|
    ensures var st := StateAt(g, s, i + 1);
      && Parse(g, s[..i + 1] + [']', '}']) == Finish(g, Step(g, Step(g, st, ']'), '}'))
      && Parse(g, s[..i + 1] + ['}']) == Finish(g, Step(g, st, '}'))
  {
    StateBefore(g, s, i + 1, [']', '}']);
    StateBefore(g, s, i + 1, ['}']);
    StateBefore(g, s[..i + 1] + [']', '}'], i + 2, ['}']);
    assert (s[..i + 1] + [']', '}'])[i + 1] == ']';
  }

  lemma StateBefore(g: Lexis, s: string, n: nat, closers: string)
    requires n <= |s|
    ensures StateAt(g, s[..n] + closers, n) == StateAt(g, s, n)
  {
    assert (s[..n] + closers)[..n] == s[..n];
    StateOfPrefix(g, s[..n] + closers, s, n);
  }

  /** What closing can give. */
  lemma ClosedForms(g: Lexis, s: string, i: nat)
    requires i < |s| && var m := StateAt(g, s, i + 1).mode; m.Text? || m.After? || m.Done?
    ensures var st, w := StateAt(g, s, i + 1), ClosedAfter(g, s, i);
      && (w.Some? ==>
            (InRootList(st) && w.value == RootWithList(st)) || (InRoot(st) && w.value == Obj(st.stack.members)))
      && (InRootList(st) && IsListKey(st.stack.below.key) ==> w == Some(RootWithList(st)))
  {
    var st := StateAt(g, s, i + 1);
    ParseClosed(g, s, i);
    CloseInList(g, st);
    CloseInRoot(g, st);
    if InRootList(st) {
      var ms := RootWithList(st).members;
      assert ms[|ms| - 1].key == st.stack.below.key;
    }
  }

  /** After a closing brace on the way to a document: in a string, after a value, or at the end. */
  lemma AfterBrace(g: Lexis, d: string, i: nat, v: Json)
    requires Parse(g, d) == Some(v) && i < |d| && d[i] == '}'
    ensures var m := StateAt(g, d, i + 1).mode; m.Text? || m.After? || m.Done?
  {
    EveryStateLeadsOn(g, d, i + 1, v);
    var st := StateAt(g, d, i);
    if !st.mode.Text? { var b, ms := BraceEndsObject(g, st); }
  }

  /** A closing brace outside strings completes an object. */
  lemma BraceEndsObject(g: Lexis, st: State) returns (b: Stack, ms: seq<Member>)
    requires !st.mode.Text? && !Step(g, st, '}').mode.Fail?
    ensures Step(g, st, '}') == Complete(b, Obj(ms))
  {
    var t := if st.mode.Token? then Complete(st.stack, Scalar(st.mode.raw)) else st;
    b, ms := t.stack.below, t.stack.members;
  }

  lemma RootListBegins(st: State, v: Json)
    requires LeadsTo(st, v) && InRootList(st)
    ensures IsTruncated(RootWithList(st), v)
  {
    var ms := RootWithList(st).members;
    assert ms[..|ms| - 1] == st.stack.below.members;
    assert Final(Bottom, v) == Some(v) && Final(st.stack.below, v).value.Arr?;
    assert EndsInList(ms, v.members);
  }

  lemma ClosedIsTruncated(g: Lexis, d: string, i: nat, v: Json)
    requires Parse(g, d) == Some(v) && i < |d| && d[i] == '}' && ClosedAfter(g, d, i).Some?
    ensures IsTruncated(ClosedAfter(g, d, i).value, v)
  {
    AfterBrace(g, d, i, v);
    ClosedForms(g, d, i);
    EveryStateLeadsOn(g, d, i + 1, v);
    var st := StateAt(g, d, i + 1);
    if InRootList(st) { RootListBegins(st, v); }
  }

  lemma SameClosed(g: Lexis, d: string, cut: nat, i: nat)
    requires i < cut <= |d|
    ensures ClosedAfter(g, d[..cut], i) == ClosedAfter(g, d, i) && d[..cut][i] == d[i]
  {
    assert d[..cut][..i + 1] == d[..i + 1];
  }

  lemma SameState(g: Lexis, d: string, cut: nat, i: nat)
    requires i <= cut <= |d|
    ensures StateAt(g, d[..cut], i) == StateAt(g, d, i)
  {
    assert d[..cut][..i] == d[..i];
    StateOfPrefix(g, d[..cut], d, i);
  }

  /** A cut of a document that parses as a whole has the document's value. */
  lemma WholeCut(g: Lexis, d: string, cut: nat, v: Json)
    requires Parse(g, d) == Some(v) && v.Obj? && cut <= |d| && Parse(g, d[..cut]).Some?
    ensures StateAt(g, d, cut).mode == Done(v) && Parse(g, d[..cut]) == Some(v)
  {
    SameState(g, d, cut, cut);
    EveryStateLeadsOn(g, d, cut, v);
  }

  /** Whatever is recovered from a cut of a document is a beginning of its value. */
  lemma SalvageIsSound(g: Lexis, d: string, cut: nat, v: Json, w: Json)
    requires Parse(g, d) == Some(v) && v.Obj? && cut <= |d| && IsSalvaged(g, d[..cut], Some(w))
    ensures IsTruncated(w, v)
  {
    var s := d[..cut];
    if Parse(g, s).Some? {
      WholeCut(g, d, cut, v);
    } else {
      var i: nat :| IsLastClosable(g, s, i) && ClosedAfter(g, s, i) == Some(w);
      SameClosed(g, d, cut, i);
      ClosedIsTruncated(g, d, i, v);
    }
  }

  // ---------- The lists recovered ----------

  /** The last member of that name. */
  function Find(ms: seq<Member>, key: string): Option<Json> {
    if ms == [] then None
    else if ms[|ms| - 1].key == key then Some(ms[|ms| - 1].value)
    else Find(ms[..|ms| - 1], key)
  }

  function ListOf(v: Json, key: string): seq<Json> {
    if !v.Obj? then [] else
      var x := Find(v.members, key);
      if x.Some? && x.value.Arr? then x.value.items else []
  }

  ghost predicate DistinctNames(v: Json) {
    v.Obj? && forall i, j | 0 <= i < j < |v.members| :: v.members[i].key != v.members[j].key
  }

  lemma {:induction false} FoundWhere(ms: seq<Member>, key: string) returns (k: nat)
    requires Find(ms, key).Some?
    ensures k < |ms| && ms[k].key == key && Find(ms, key) == Some(ms[k].value)
  {
    if ms[|ms| - 1].key == key { k := |ms| - 1; } else { k := FoundWhere(ms[..|ms| - 1], key); }
  }

  lemma {:induction false} FindsMember(ms: seq<Member>, k: nat)
    requires k < |ms| && forall i, j | 0 <= i < j < |ms| :: ms[i].key != ms[j].key
    ensures Find(ms, ms[k].key) == Some(ms[k].value)
  {
    if k == |ms| - 1 {
    } else {
      FindsMember(ms[..|ms| - 1], k);
    }
  }

  /** A beginning of a document with distinct names has a beginning of each of its lists. */
  lemma ListsArePrefixes(w: Json, v: Json, key: string)
    requires IsTruncated(w, v) && DistinctNames(v)
    ensures ListOf(w, key) <= ListOf(v, key)
  {
    if Find(w.members, key).Some? {
      var k := FoundWhere(w.members, key);
      FindsMember(v.members, k);
      if !(w.members <= v.members) {
        var n := |w.members| - 1;
        assert k < n ==> w.members[..n][k] == w.members[k];
      }
    }
  }

  lemma SalvagedListsArePrefixes(g: Lexis, d: string, cut: nat, v: Json, w: Json, key: string)
    requires Parse(g, d) == Some(v) && DistinctNames(v) && cut <= |d| && IsSalvaged(g, d[..cut], Some(w))
    ensures ListOf(w, key) <= ListOf(v, key)
  {
    SalvageIsSound(g, d, cut, v, w);
    ListsArePrefixes(w, v, key);
  }

  // ---------- Which documents ----------

  predicate ObjectFree(j: Json) {
    match j
    case Scalar(_) => true
    case Str(_) => true
    case Obj(_) => false
    case Arr(items) => forall i | 0 <= i < |items| :: ObjectFree(items[i])
  }

  predicate IsFlat(j: Json) { j.Obj? && forall i | 0 <= i < |j.members| :: ObjectFree(j.members[i].value) }

  predicate IsFlatList(j: Json) { j.Arr? && forall i | 0 <= i < |j.items| :: IsFlat(j.items[i]) }

  /** A root object whose node and edge lists hold flat objects; there are no other objects. */
  predicate IsPayload(v: Json) {
    v.Obj? && forall i | 0 <= i < |v.members| ::
      if IsListKey(v.members[i].key) then IsFlatList(v.members[i].value) else ObjectFree(v.members[i].value)
  }

  /** What can stand where in such a document. */
  lemma {:induction false} Placement(stack: Stack, v: Json)
    requires IsPayload(v) && Final(stack, v).Some?
    ensures var x := Final(stack, v).value;
      || stack.Bottom? || ObjectFree(x)
      || (stack.InObject? && stack.below.Bottom? && IsListKey(stack.key) && IsFlatList(x))
      || (stack.InArray? && stack.below.InObject? && stack.below.below.Bottom? && IsListKey(stack.below.key)
          && IsFlat(x))
  {
    if stack.Bottom? {
    } else {
      Placement(stack.below, v);
    }
  }

  lemma EndOfItem(stack: Stack, ms: seq<Member>, v: Json)
    requires IsPayload(v) && LeadsTo(Complete(stack, Obj(ms)), v) && !stack.Bottom?
    ensures var st := Complete(stack, Obj(ms));
      InRootList(st) && IsListKey(st.stack.below.key) && st.stack.items != []
  {
    CompletesTo(stack, Obj(ms), v);
    Placement(stack, v);
  }

  // ---------- Strings, as the scanner for fences sees them ----------

  function Quoting(m: Mode): Scan.Mode {
    match m
    case Text(_, escaped, _) => if escaped then Scan.Escaped else Scan.Inside
    case _ => Scan.Outside
  }

  lemma {:induction false} QuotesAgree(g: Lexis, s: string, i: nat)
    requires i <= |s| && !StateAt(g, s, i).mode.Fail?
    ensures Scan.ModeAt(s, i) == Quoting(StateAt(g, s, i).mode)
  {
    if i == 0 {
    } else {
      var st, c := StateAt(g, s, i - 1), s[i - 1];
      QuotesStep(g, st, c);
      QuotesAgree(g, s, i - 1);
    }
  }

  lemma QuotesStep(g: Lexis, st: State, c: char)
    requires !Step(g, st, c).mode.Fail?
    ensures !st.mode.Fail? && Quoting(Step(g, st, c).mode) == Scan.NextMode(Quoting(st.mode), c)
  {
  }

  lemma {:induction false} SameQuotes(d: string, cut: nat, i: nat)
    requires i <= cut <= |d|
    ensures Scan.ModeAt(d[..cut], i) == Scan.ModeAt(d, i)
  {
    if i == 0 {
    } else {
      SameQuotes(d, cut, i - 1);
    }
  }

  predicate IsOuterBrace(s: string, i: nat) { i < |s| && s[i] == '}' && Scan.ModeAt(s, i) == Scan.Outside }

  // ---------- When something is recovered ----------

  /** In the node or edge list of the root object, after an item. */
  predicate InListOfItems(st: State) { InRootList(st) && IsListKey(st.stack.below.key) && st.stack.items != [] }

  /** A closing brace outside strings ends the document or can be closed. */
  lemma OuterBraceCloses(g: Lexis, d: string, i: nat, v: Json)
    requires Parse(g, d) == Some(v) && IsPayload(v) && IsOuterBrace(d, i)
    ensures var st := StateAt(g, d, i + 1);
      st.mode.Done? || (InListOfItems(st) && ClosedAfter(g, d, i) == Some(RootWithList(st)))
  {
    EveryStateLeadsOn(g, d, i, v);
    EveryStateLeadsOn(g, d, i + 1, v);
    QuotesAgree(g, d, i);
    var b, ms := BraceEndsObject(g, StateAt(g, d, i));
    if !b.Bottom? {
      EndOfItem(b, ms, v);
      ClosedForms(g, d, i);
    }
  }

  lemma {:induction false} DoneStays(g: Lexis, d: string, i: nat, k: nat, v: Json)
    requires Parse(g, d) == Some(v) && i <= k <= |d| && StateAt(g, d, i).mode.Done?
    ensures StateAt(g, d, k).mode.Done?
    decreases k - i
  {
    if i == k {
    } else {
      DoneStays(g, d, i, k - 1, v);
      EveryStateLeadsOn(g, d, k, v);
    }
  }

  /** The brace that ends a document is the last. */
  lemma {:induction false} EndingBrace(g: Lexis, d: string, n: nat, v: Json) returns (i: nat)
    requires n <= |d| && v.Obj? && StateAt(g, d, n).mode == Done(v)
    ensures i < n && IsOuterBrace(d, i) && forall k | i < k < n :: d[k] != '}'
  {
    var st := StateAt(g, d, n - 1);
    if st.mode.Done? {
      i := EndingBrace(g, d, n - 1, v);
    } else {
      i := n - 1;
      EndsWithBrace(g, st, d[i], v);
      QuotesAgree(g, d, n - 1);
    }
  }

  lemma EndsWithBrace(g: Lexis, st: State, c: char, v: Json)
    requires v.Obj? && !st.mode.Done? && Step(g, st, c).mode == Done(v)
    ensures c == '}' && !st.mode.Text? && !st.mode.Fail?
  {
  }

  lemma {:induction false} NoBracesFrom(s: string, i: nat)
    requires i <= |s| && forall k | i <= k < |s| :: s[k] != '}'
    ensures BracesFrom(s, i) == 0
    decreases |s| - i
  {
    if i == |s| {
    } else {
      NoBracesFrom(s, i + 1);
    }
  }

  /** Something is recovered exactly when one of the last closing braces lies outside strings. */
  lemma SalvageSucceedsExactly(g: Lexis, d: string, cut: nat, v: Json, r: Option<Json>)
    requires Parse(g, d) == Some(v) && IsPayload(v) && cut <= |d| && IsSalvaged(g, d[..cut], r)
    ensures r.Some? <==> exists i: nat :: IsCandidate(d[..cut], i) && IsOuterBrace(d[..cut], i)
  {
    if r.Some? {
      var i := SuccessHasBrace(g, d, cut, v, r);
    } else {
      forall i: nat | IsCandidate(d[..cut], i) && IsOuterBrace(d[..cut], i)
        ensures false
      {
        BraceGivesSuccess(g, d, cut, i, v);
      }
    }
  }

  lemma BraceGivesSuccess(g: Lexis, d: string, cut: nat, i: nat, v: Json)
    requires Parse(g, d) == Some(v) && IsPayload(v) && cut <= |d| && IsOuterBrace(d[..cut], i)
    ensures Parse(g, d[..cut]).Some? || ClosedAfter(g, d[..cut], i).Some?
  {
    SameQuotes(d, cut, i);
    SameClosed(g, d, cut, i);
    OuterBraceCloses(g, d, i, v);
    if StateAt(g, d, i + 1).mode.Done? {
      DoneStays(g, d, i + 1, cut, v);
      SameState(g, d, cut, cut);
    }
  }

  lemma SuccessHasBrace(g: Lexis, d: string, cut: nat, v: Json, r: Option<Json>) returns (i: nat)
    requires Parse(g, d) == Some(v) && v.Obj? && cut <= |d| && IsSalvaged(g, d[..cut], r) && r.Some?
    ensures IsCandidate(d[..cut], i) && IsOuterBrace(d[..cut], i)
  {
    var s := d[..cut];
    if Parse(g, s).Some? {
      WholeCut(g, d, cut, v);
      SameState(g, d, cut, cut);
      i := EndingBrace(g, s, cut, v);
      NoBracesFrom(s, i + 1);
    } else {
      i :| IsLastClosable(g, s, i) && ClosedAfter(g, s, i) == r;
      SameClosed(g, d, cut, i);
      SameQuotes(d, cut, i);
      ClosableIsOuter(g, d, i, v);
    }
  }

  lemma ClosableIsOuter(g: Lexis, d: string, i: nat, v: Json)
    requires Parse(g, d) == Some(v) && i < |d| && d[i] == '}' && ClosedAfter(g, d, i).Some?
    ensures IsOuterBrace(d, i)
  {
    AfterBrace(g, d, i, v);
    ClosedForms(g, d, i);
    EveryStateLeadsOn(g, d, i, v);
    QuotesAgree(g, d, i);
  }

  // ---------- Nothing complete is lost ----------

  function ObjectsIn(j: Json): nat {
    match j
    case Scalar(_) => 0
    case Str(_) => 0
    case Arr(items) => ObjectsInItems(items)
    case Obj(members) => 1 + ObjectsInMembers(members)
  }

  function ObjectsInItems(items: seq<Json>): nat {
    if items == [] then 0 else ObjectsInItems(items[..|items| - 1]) + ObjectsIn(items[|items| - 1])
  }

  function ObjectsInMembers(members: seq<Member>): nat {
    if members == [] then 0 else ObjectsInMembers(members[..|members| - 1]) + ObjectsIn(members[|members| - 1].value)
  }

  /** The complete objects a stack holds. */
  function ObjectsHeld(stack: Stack): nat {
    match stack
    case Bottom => 0
    case InArray(below, items) => ObjectsHeld(below) + ObjectsInItems(items)
    case InObject(below, members, _) => ObjectsHeld(below) + ObjectsInMembers(members)
  }

  function ObjectsSoFar(st: State): nat {
    if st.mode.Done? then ObjectsIn(st.mode.value) else ObjectsHeld(st.stack)
  }

  function OuterBraces(s: string, i: nat): nat
    requires i <= |s|
  {
    if i == 0 then 0 else OuterBraces(s, i - 1) + if IsOuterBrace(s, i - 1) then 1 else 0
  }

  lemma CompleteCounts(stack: Stack, w: Json)
    ensures ObjectsSoFar(Complete(stack, w)) == ObjectsHeld(stack) + ObjectsIn(w)
  {
    match stack
    case Bottom =>
    case InArray(below, items) => assert (items + [w])[..|items|] == items;
    case InObject(below, members, key) => assert (members + [Member(key, w)])[..|members|] == members;
  }

  lemma BetweenCounts(st: State, c: char)
    requires !Between(st, c).mode.Fail? && !st.mode.Text?
    ensures ObjectsSoFar(Between(st, c)) == ObjectsSoFar(st) + if c == '}' then 1 else 0
  {
    if c == ']' { CompleteCounts(st.stack.below, Arr(st.stack.items)); }
    else if c == '}' { CompleteCounts(st.stack.below, Obj(st.stack.members)); }
  }

  lemma StepCounts(g: Lexis, st: State, c: char)
    requires !Step(g, st, c).mode.Fail?
    ensures ObjectsSoFar(Step(g, st, c)) == ObjectsSoFar(st) + if c == '}' && !st.mode.Text? then 1 else 0
  {
    match st.mode
    case Text(isKey, escaped, raw) =>
      if !escaped && c == '"' && !isKey { CompleteCounts(st.stack, Str(g.unescape(raw).value)); }
    case Token(raw) =>
      if IsDelimiter(c) {
        CompleteCounts(st.stack, Scalar(raw));
        BetweenCounts(Complete(st.stack, Scalar(raw)), c);
      }
    case _ => BetweenCounts(st, c);
  }

  lemma {:induction false} ObjectsAreBraces(g: Lexis, s: string, i: nat)
    requires i <= |s| && !StateAt(g, s, i).mode.Fail?
    ensures ObjectsSoFar(StateAt(g, s, i)) == OuterBraces(s, i)
  {
    if i == 0 {
    } else {
      var st := StateAt(g, s, i - 1);
      QuotesStep(g, st, s[i - 1]);
      StepCounts(g, st, s[i - 1]);
      QuotesAgree(g, s, i - 1);
      ObjectsAreBraces(g, s, i - 1);
    }
  }

  lemma {:induction false} NoMoreOuter(s: string, i: nat, n: nat)
    requires i <= n <= |s| && forall k: nat | i <= k < n :: !IsOuterBrace(s, k)
    ensures OuterBraces(s, n) == OuterBraces(s, i)
    decreases n - i
  {
    if i == n {
    } else {
      NoMoreOuter(s, i, n - 1);
    }
  }

  lemma {:induction false} BracesShrink(s: string, i: nat, k: nat)
    requires i <= k <= |s|
    ensures BracesFrom(s, k) <= BracesFrom(s, i)
    decreases k - i
  {
    if i == k {
    } else {
      BracesShrink(s, i + 1, k);
    }
  }

  /** The candidate chosen is the last closing brace outside strings. */
  lemma ChosenIsLast(g: Lexis, d: string, cut: nat, i: nat, v: Json)
    requires Parse(g, d) == Some(v) && IsPayload(v) && cut <= |d|
    requires Parse(g, d[..cut]).None? && IsLastClosable(g, d[..cut], i)
    ensures forall k: nat | i < k < cut :: !IsOuterBrace(d[..cut], k)
  {
    var s := d[..cut];
    forall k: nat | i < k < cut
      ensures !IsOuterBrace(s, k)
    {
      if IsOuterBrace(s, k) {
        BraceGivesSuccess(g, d, cut, k, v);
        BracesShrink(s, i + 1, k + 1);
      }
    }
  }

  /** What is recovered from a document cut off before its end holds every object that was complete: as many as
      there are closing braces outside strings, and the root. */
  lemma NothingCompleteIsLost(g: Lexis, d: string, cut: nat, v: Json, w: Json)
    requires Parse(g, d) == Some(v) && IsPayload(v) && cut <= |d|
    requires Parse(g, d[..cut]).None? && IsSalvaged(g, d[..cut], Some(w))
    ensures ObjectsIn(w) == OuterBraces(d[..cut], cut) + 1
  {
    var i: nat :| IsLastClosable(g, d[..cut], i) && ClosedAfter(g, d[..cut], i) == Some(w);
    RecoveredRoot(g, d, cut, i, v, w);
    HeldAt(g, d[..cut], i + 1);
    ChosenCounts(g, d, cut, i, v);
  }

  lemma ChosenCounts(g: Lexis, d: string, cut: nat, i: nat, v: Json)
    requires Parse(g, d) == Some(v) && IsPayload(v) && cut <= |d|
    requires Parse(g, d[..cut]).None? && IsLastClosable(g, d[..cut], i)
    ensures OuterBraces(d[..cut], cut) == OuterBraces(d[..cut], i + 1)
  {
    ChosenIsLast(g, d, cut, i, v);
    NoMoreOuter(d[..cut], i + 1, cut);
  }

  /** What closing after an outer brace before the end gives. */
  lemma RecoveredRoot(g: Lexis, d: string, cut: nat, i: nat, v: Json, w: Json)
    requires Parse(g, d) == Some(v) && IsPayload(v) && cut <= |d| && Parse(g, d[..cut]).None?
    requires IsCandidate(d[..cut], i) && ClosedAfter(g, d[..cut], i) == Some(w)
    ensures var st := StateAt(g, d[..cut], i + 1); InListOfItems(st) && w == RootWithList(st)
  {
    SameClosed(g, d, cut, i);
    SameState(g, d, cut, i + 1);
    ClosableIsOuter(g, d, i, v);
    OuterBraceCloses(g, d, i, v);
    if StateAt(g, d, i + 1).mode.Done? {
      DoneStays(g, d, i + 1, cut, v);
      SameState(g, d, cut, cut);
    }
  }

  lemma HeldAt(g: Lexis, s: string, i: nat)
    requires i <= |s| && InRootList(StateAt(g, s, i))
    ensures ObjectsIn(RootWithList(StateAt(g, s, i))) == OuterBraces(s, i) + 1
  {
    ObjectsAreBraces(g, s, i);
    RootCounts(StateAt(g, s, i));
  }

  lemma RootCounts(st: State)
    requires InRootList(st)
    ensures ObjectsIn(RootWithList(st)) == ObjectsSoFar(st) + 1
  {
    var b := st.stack.below;
    CompleteCounts(b, Arr(st.stack.items));
  }
}
