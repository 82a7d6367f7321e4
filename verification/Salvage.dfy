/** Parsing an extraction payload that may have been cut off: complete leading elements are salvaged by closing the
    text after one of its last closing braces. */
module Salvage {
  import opened GraphTypes
  import opened JsonText

  const ATTEMPTS: nat := 50

  predicate IsListKey(key: string) { key == "new_nodes" || key == "new_edges" }

  /** An object with a node list or an edge list. */
  predicate IsExtraction(v: Json) {
    v.Obj? && exists i | 0 <= i < |v.members| :: IsListKey(v.members[i].key)
  }

  function ParseExtraction(g: Lexis, s: string): Option<Json> {
    var v := Parse(g, s);
    if v.Some? && IsExtraction(v.value) then v else None
  }

  /** The text up to and including position i, closed inside a list or inside the root object. */
  function ClosedAfter(g: Lexis, s: string, i: nat): Option<Json>
    requires i < |s|
  {
    var inList := ParseExtraction(g, s[..i + 1] + [']', '}']);
    if inList.Some? then inList else ParseExtraction(g, s[..i + 1] + ['}'])
  }

  /** Closing braces from position i on. */
  function BracesFrom(s: string, i: nat): nat
    requires i <= |s|
    decreases |s| - i
  {
    if i == |s| then 0 else (if s[i] == '}' then 1 else 0) + BracesFrom(s, i + 1)
  }

  /** One of the last closing braces, within the number of attempts. */
  predicate IsCandidate(s: string, i: nat) {
    i < |s| && s[i] == '}' && BracesFrom(s, i + 1) < ATTEMPTS
  }

  /** The candidate nearest the end that can be closed. */
  ghost predicate IsLastClosable(g: Lexis, s: string, i: nat) {
    && IsCandidate(s, i) && ClosedAfter(g, s, i).Some?
    && forall k | i < k < |s| && IsCandidate(s, k) :: ClosedAfter(g, s, k).None?
  }

  /** What is parsed or salvaged. */
  ghost predicate IsSalvaged(g: Lexis, s: string, r: Option<Json>) {
    match Parse(g, s)
    case Some(v) => r == Some(v)
    case None => IsSearched(g, s, r)
  }

  ghost predicate IsSearched(g: Lexis, s: string, r: Option<Json>) {
    match r
    case Some(w) => exists i: nat :: IsLastClosable(g, s, i) && ClosedAfter(g, s, i) == Some(w)
    case None => forall i: nat | IsCandidate(s, i) :: ClosedAfter(g, s, i).None?
  }

  // ---------- The search ----------

  /** The positions of the closing braces among the first n characters, in order. */
  function BracePositions(s: string, n: nat): (ps: seq<nat>)
    requires n <= |s|
    ensures forall k | 0 <= k < |ps| :: ps[k] < n && s[ps[k]] == '}'
  {
    if n == 0 then [] else BracePositions(s, n - 1) + if s[n - 1] == '}' then [n - 1] else []
  }

  lemma {:induction false} PositionsFrom(s: string, n: nat, k: nat)
    requires n <= |s| && k < |BracePositions(s, n)|
    ensures BracesFrom(s, BracePositions(s, n)[k] + 1) == |BracePositions(s, n)| - 1 - k + BracesFrom(s, n)
  {
    var before := BracePositions(s, n - 1);
    if k < |before| { PositionsFrom(s, n - 1, k); }
  }

  lemma {:induction false} PositionOf(s: string, n: nat, i: nat) returns (k: nat)
    requires i < n <= |s| && s[i] == '}'
    ensures k < |BracePositions(s, n)| && BracePositions(s, n)[k] == i
  {
    if i == n - 1 { k := |BracePositions(s, n)| - 1; } else { k := PositionOf(s, n - 1, i); }
  }

  /** The candidates are the last positions. */
  lemma CandidatesAreLast(s: string, i: nat)
    ensures var ps := BracePositions(s, |s|);
      IsCandidate(s, i) <==> exists k: nat :: k < |ps| && |ps| - k <= 50 && ps[k] == i
  {
    var ps := BracePositions(s, |s|);
    if i < |s| && s[i] == '}' {
      var k := PositionOf(s, |s|, i);
      PositionsFrom(s, |s|, k);
      forall j: nat | j < |ps| && ps[j] == i
        ensures BracesFrom(s, i + 1) == |ps| - 1 - j
      {
        PositionsFrom(s, |s|, j);
      }
    }
  }

  /** None of the candidates from position number k on can be closed. */
  ghost predicate NoneFrom(g: Lexis, s: string, ps: seq<nat>, k: nat) {
    forall j: nat | k <= j < |ps| && ps[j] < |s| :: ClosedAfter(g, s, ps[j]).None?
  }

  lemma {:induction false} PositionsAscend(s: string, n: nat, j: nat, k: nat)
    requires n <= |s| && j < k < |BracePositions(s, n)|
    ensures BracePositions(s, n)[j] < BracePositions(s, n)[k]
  {
    if k == |BracePositions(s, n - 1)| {
    } else {
      PositionsAscend(s, n - 1, j, k);
    }
  }

  lemma NoneEarlier(g: Lexis, s: string, ps: seq<nat>, k: nat)
    requires k < |ps| && ps[k] < |s| && NoneFrom(g, s, ps, k + 1) && ClosedAfter(g, s, ps[k]).None?
    ensures NoneFrom(g, s, ps, k)
  {
  }

  lemma Found(g: Lexis, s: string, k: nat)
    requires k < |BracePositions(s, |s|)| <= k + ATTEMPTS
    requires NoneFrom(g, s, BracePositions(s, |s|), k + 1) && ClosedAfter(g, s, BracePositions(s, |s|)[k]).Some?
    ensures IsSearched(g, s, ClosedAfter(g, s, BracePositions(s, |s|)[k]))
  {
    var ps := BracePositions(s, |s|);
    CandidatesAreLast(s, ps[k]);
    forall i | ps[k] < i < |s| && IsCandidate(s, i)
      ensures ClosedAfter(g, s, i).None?
    {
      var j := PositionOf(s, |s|, i);
      if j < k { PositionsAscend(s, |s|, j, k); }
    }
    assert IsLastClosable(g, s, ps[k]);
  }

  lemma NotFound(g: Lexis, s: string, k: nat)
    requires k == 0 || |BracePositions(s, |s|)| - k >= ATTEMPTS
    requires NoneFrom(g, s, BracePositions(s, |s|), k)
    ensures IsSearched(g, s, None)
  {
    forall i: nat | IsCandidate(s, i)
      ensures ClosedAfter(g, s, i).None?
    {
      CandidatesAreLast(s, i);
    }
  }

  method TryParseExtractionJson(g: Lexis, s: string) returns (r: Option<Json>)
    ensures IsSalvaged(g, s, r)
  {
    var whole := Parse(g, s);
    if whole.Some? { return whole; }
    r := SalvageFrom(g, s);
  }

  method FindBraces(s: string) returns (ps: seq<nat>)
    ensures ps == BracePositions(s, |s|)
  {
    ps := [];
    for i: nat := 0 to |s|
      invariant ps == BracePositions(s, i)
    {
      if s[i] == '}' { ps := ps + [i]; }
    }
  }

  method SalvageFrom(g: Lexis, s: string) returns (r: Option<Json>)
    ensures IsSearched(g, s, r)
  {
    var ps := FindBraces(s);
    var k := |ps|;
    while k > 0 && |ps| - k < ATTEMPTS
      invariant 0 <= k <= |ps| && |ps| - k <= ATTEMPTS && NoneFrom(g, s, ps, k)
    {
      k := k - 1;
      r := TryClosers(g, s, ps[k]);
      if r.Some? {
        Found(g, s, k);
        return;
      }
      NoneEarlier(g, s, ps, k);
    }
    NotFound(g, s, k);
    r := None;
  }

  method TryClosers(g: Lexis, s: string, i: nat) returns (r: Option<Json>)
    requires i < |s|
    ensures r == ClosedAfter(g, s, i)
  {
    var closers := [[']', '}'], ['}']];
    for n := 0 to |closers|
      invariant n > 0 ==> ParseExtraction(g, s[..i + 1] + [']', '}']).None?
      invariant n > 1 ==> ParseExtraction(g, s[..i + 1] + ['}']).None?
    {
      var v := Parse(g, s[..i + 1] + closers[n]);
      if v.Some? && IsExtraction(v.value) { return v; }
    }
    r := None;
  }
}
