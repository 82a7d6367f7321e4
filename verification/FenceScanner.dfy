/** Extraction of a JSON payload from model output: code fences, surrounding prose, and the first balanced
    structure found by a scanner that ignores brackets inside strings. */
module FenceScanner {
  import opened GraphTypes
  import opened Chars

  const FENCE: string := ['`', '`', '`']
  const JSON_FENCE: string := ['`', '`', '`', 'j', 's', 'o', 'n']

  // ---------- Trimming and fences ----------

  function TrimStart(s: string): string {
    if s != [] && IsWhite(s[0]) then TrimStart(s[1..]) else s
  }

  function TrimEnd(s: string): string {
    if s != [] && IsWhite(s[|s| - 1]) then TrimEnd(s[..|s| - 1]) else s
  }

  predicate EndsWith(s: string, end: string) { |end| <= |s| && s[|s| - |end|..] == end }

  /** What follows an opening code fence. */
  function AfterFence(s: string): string {
    if JSON_FENCE <= s then s[|JSON_FENCE|..] else if FENCE <= s then s[|FENCE|..] else s
  }

  /** An opening fence is only removed together with a closing one. */
  function Unfenced(s: string): string {
    var body := AfterFence(s);
    if EndsWith(body, FENCE) then body[..|body| - |FENCE|] else s
  }

  function Trim(s: string): string { TrimEnd(TrimStart(s)) }

  function WithoutFences(text: string): string { Trim(Unfenced(Trim(text))) }

  /** Begins and ends like an object, or like an array. */
  predicate Fast(s: string) {
    s != [] && ((s[0] == '{' && s[|s| - 1] == '}') || (s[0] == '[' && s[|s| - 1] == ']'))
  }

  // ---------- Balanced structures ----------

  datatype Mode = Outside | Inside | Escaped

  predicate IsOpener(c: char) { c == '{' || c == '[' }

  predicate IsCloser(c: char) { c == '}' || c == ']' }

  function NextMode(m: Mode, c: char): Mode {
    match m
    case Outside => if c == '"' then Inside else Outside
    case Inside => if c == '\\' then Escaped else if c == '"' then Outside else Inside
    case Escaped => Inside
  }

  /** Whether position i is outside strings, inside one, or just after a backslash inside one. */
  function ModeAt(s: string, i: nat): Mode
    requires i <= |s|
  {
    if i == 0 then Outside else NextMode(ModeAt(s, i - 1), s[i - 1])
  }

  function Weight(m: Mode, c: char): int {
    if m != Outside then 0 else if IsOpener(c) then 1 else if IsCloser(c) then -1 else 0
  }

  /** Openers less closers outside strings, between two positions. */
  function Level(s: string, a: nat, b: nat): int
    requires a <= b && b <= |s|
    decreases b
  {
    if a == b then 0 else Level(s, a, b - 1) + Weight(ModeAt(s, b - 1), s[b - 1])
  }

  predicate OpensAt(s: string, i: nat)
    requires i < |s|
  {
    ModeAt(s, i) == Outside && IsOpener(s[i])
  }

  /** From a to b: positive depth on every proper prefix, and zero at the end. */
  ghost predicate ClosesAt(s: string, a: nat, b: nat) {
    && a < b <= |s| && Level(s, a, b) == 0
    && forall k: nat | a < k < b :: Level(s, a, k) > 0
  }

  /** A whole text that is one balanced structure. */
  ghost predicate Balanced(j: string) { j != [] && OpensAt(j, 0) && ClosesAt(j, 0, |j|) }

  ghost predicate FirstOpener(s: string, a: nat) {
    a < |s| && OpensAt(s, a) && forall k: nat | k < a :: !OpensAt(s, k)
  }

  /** The structure that starts at the first opener outside a string. */
  ghost predicate FirstStructure(s: string, a: nat, b: nat) {
    FirstOpener(s, a) && ClosesAt(s, a, b)
  }

  /** What stripping returns: all of it when it looks like JSON already, else the first balanced structure, else
      all of it. */
  ghost predicate IsStripped(text: string, r: string) {
    IsPayload(WithoutFences(text), r)
  }

  ghost predicate IsPayload(w: string, r: string) {
    if Fast(w) then r == w else
      || (exists a: nat, b: nat :: FirstStructure(w, a, b) && r == w[a..b])
      || (r == w && forall a: nat, b: nat :: !FirstStructure(w, a, b))
  }

  // ---------- The scanner ----------

  /** The scanner's state before position i. */
  ghost predicate Scanning(s: string, i: nat, depth: nat, mode: Mode, start: Option<nat>) {
    && i <= |s| && mode == ModeAt(s, i)
    && match start
       case None => depth == 0 && forall k: nat | k < i :: !OpensAt(s, k)
       case Some(a) =>
         a < i && FirstOpener(s, a) && depth == Level(s, a, i) && forall k: nat | a < k <= i :: Level(s, a, k) > 0
  }

  lemma OpenerStep(s: string, i: nat, depth: nat, mode: Mode, start: Option<nat>)
    requires Scanning(s, i, depth, mode, start) && i < |s| && mode == Outside && IsOpener(s[i])
    ensures Scanning(s, i + 1, depth + 1, Outside, if depth == 0 then Some(i) else start)
  {
    assert Level(s, i, i + 1) == Level(s, i, i) + 1;
  }

  lemma CloserStep(s: string, i: nat, depth: nat, mode: Mode, start: Option<nat>)
    requires Scanning(s, i, depth, mode, start) && i < |s| && mode == Outside && IsCloser(s[i])
    ensures start.Some? && depth == 1 ==> FirstStructure(s, start.value, i + 1)
    ensures start.None? || depth > 1 ==> Scanning(s, i + 1, if depth == 0 then 0 else depth - 1, Outside, start)
    ensures start.Some? ==> depth > 0
  {
  }

  lemma PlainStep(s: string, i: nat, depth: nat, mode: Mode, start: Option<nat>)
    requires Scanning(s, i, depth, mode, start) && i < |s|
    requires mode == Outside ==> !IsOpener(s[i]) && !IsCloser(s[i])
    ensures Scanning(s, i + 1, depth, NextMode(mode, s[i]), start)
  {
  }

  lemma NeverCloses(s: string, depth: nat, mode: Mode, start: Option<nat>)
    requires Scanning(s, |s|, depth, mode, start)
    ensures forall a: nat, b: nat :: !FirstStructure(s, a, b)
  {
    forall a: nat, b: nat
      ensures !FirstStructure(s, a, b)
    {
      if FirstStructure(s, a, b) {
        assert start.Some?;
        OneFirst(s, a, start.value);
        assert Level(s, a, b) > 0;
      }
    }
  }

  lemma OneFirst(s: string, a: nat, b: nat)
    requires FirstOpener(s, a) && FirstOpener(s, b)
    ensures a == b
  {
  }

  /** There is only one first structure. */
  lemma OneStructure(s: string, a: nat, b: nat, c: nat, d: nat)
    requires FirstStructure(s, a, b) && FirstStructure(s, c, d)
    ensures a == c && b == d
  {
    OneFirst(s, a, c);
  }

  method StripJsonFences(text: string) returns (r: string)
    ensures IsStripped(text, r)
  {
    var w := WithoutFences(text);
    if Fast(w) { return w; }
    r := FirstBalanced(w);
  }

  method FirstBalanced(s: string) returns (r: string)
    ensures (exists a: nat, b: nat :: FirstStructure(s, a, b) && r == s[a..b])
         || (r == s && forall a: nat, b: nat :: !FirstStructure(s, a, b))
  {
    var depth: nat, inString, escape := 0, false, false;
    var start: Option<nat> := None;
    for i := 0 to |s|
      invariant Scanning(s, i, depth, ModeOf(inString, escape), start) && (escape ==> inString)
    {
      var c := s[i];
      ghost var mode := ModeOf(inString, escape);
      if inString || !(IsOpener(c) || IsCloser(c)) { PlainStep(s, i, depth, mode, start); }
      if inString {
        if escape { escape := false; }
        else if c == '\\' { escape := true; }
        else if c == '"' { inString := false; }
        continue;
      }
      if c == '"' {
        inString := true;
      } else if IsOpener(c) {
        OpenerStep(s, i, depth, mode, start);
        if depth == 0 { start := Some(i); }
        depth := depth + 1;
      } else if IsCloser(c) {
        CloserStep(s, i, depth, mode, start);
        depth := if depth == 0 then 0 else depth - 1;
        if depth == 0 && start.Some? { return s[start.value..i + 1]; }
      }
    }
    NeverCloses(s, depth, ModeOf(inString, escape), start);
    r := s;
  }

  function ModeOf(inString: bool, escape: bool): Mode {
    if !inString then Outside else if escape then Escaped else Inside
  }

  lemma StrippedIsUnique(w: string, r: string, t: string)
    requires IsPayload(w, r) && IsPayload(w, t)
    ensures r == t
  {
    if !Fast(w) && exists a: nat, b: nat :: FirstStructure(w, a, b) && r == w[a..b] {
      var a: nat, b: nat :| FirstStructure(w, a, b) && r == w[a..b];
      var c: nat, d: nat :| FirstStructure(w, c, d) && t == w[c..d];
      OneStructure(w, a, b, c, d);
    }
  }
}
