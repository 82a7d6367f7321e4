/** JSON payloads inside model output: every object or array in any layout is found by the fence scanner. */
module Payloads {
  import opened Chars
  import opened GraphTypes
  import opened JsonText
  import opened FenceFacts
  import opened SalvageFacts
  import Scan = FenceScanner

  function Depth(stack: Stack): nat { if stack.Bottom? then 0 else 1 + Depth(stack.below) }

  /** The scanner's level rises and falls with the reader's stack. */
  lemma DepthStep(g: Lexis, st: State, c: char)
    requires !Step(g, st, c).mode.Fail?
    ensures Depth(Step(g, st, c).stack) == Depth(st.stack) + Scan.Weight(Quoting(st.mode), c)
  {
  }

  lemma {:induction false} LevelIsDepth(g: Lexis, s: string, i: nat)
    requires i <= |s| && !StateAt(g, s, i).mode.Fail?
    ensures Scan.Level(s, 0, i) == Depth(StateAt(g, s, i).stack)
  {
    if i == 0 {
    } else {
      var st, c := StateAt(g, s, i - 1), s[i - 1];
      DepthStep(g, st, c);
      QuotesStep(g, st, c);
      QuotesAgree(g, s, i - 1);
      LevelIsDepth(g, s, i - 1);
    }
  }

  /** A text that begins with a bracket is at its end when no container is open. */
  lemma {:induction false} OpenOrDone(g: Lexis, s: string, i: nat)
    requires 0 < i <= |s| && (s[0] == '{' || s[0] == '[') && !StateAt(g, s, i).mode.Fail?
    ensures StateAt(g, s, i).stack.Bottom? ==> StateAt(g, s, i).mode.Done?
  {
    if i == 1 {
      assert StateAt(g, s, 0) == State(Bottom, Value);
    } else {
      OpenOrDone(g, s, i - 1);
    }
  }

  lemma {:induction false} OnlySpaceAfter(g: Lexis, s: string, i: nat, k: nat)
    requires i <= k <= |s| && StateAt(g, s, i).mode.Done? && !StateAt(g, s, k).mode.Fail?
    ensures StateAt(g, s, k).mode.Done? && forall l | i <= l < k :: IsSpace(s[l])
    decreases k - i
  {
    if i == k {
    } else {
      OnlySpaceAfter(g, s, i, k - 1);
    }
  }

  lemma {:induction false} NotFailedBefore(g: Lexis, s: string, i: nat, k: nat)
    requires i <= k <= |s| && !StateAt(g, s, k).mode.Fail?
    ensures !StateAt(g, s, i).mode.Fail?
    decreases k - i
  {
    if i == k {
    } else {
      NotFailedBefore(g, s, i, k - 1);
    }
  }

  /** A JSON object or array without white space around it is balanced for the scanner. */
  lemma JsonIsBalanced(g: Lexis, j: string, v: Json)
    requires Parse(g, j) == Some(v) && j != []
    requires j[0] == '{' || j[0] == '['
    requires j[|j| - 1] == '}' || j[|j| - 1] == ']'
    ensures Scan.Balanced(j)
  {
    var n := |j|;
    OpenOrDone(g, j, n);
    LevelIsDepth(g, j, n);
    forall k: nat | 0 < k < n ensures Scan.Level(j, 0, k) > 0 {
      NotFailedBefore(g, j, k, n);
      LevelIsDepth(g, j, k);
      OpenOrDone(g, j, k);
      if StateAt(g, j, k).mode.Done? { OnlySpaceAfter(g, j, k, n); }
    }
  }

  /** After prose that is not blank, ends outside strings, opens no bracket and begins with no code fence, an object or
      array comes out of the stripping and is read. */
  lemma ReadFromProse(g: Lexis, p: string, j: string, q: string, v: Json, r: string)
    requires Parse(g, j) == Some(v) && j != []
    requires j[0] == '{' || j[0] == '['
    requires j[|j| - 1] == '}' || j[|j| - 1] == ']'
    requires PlainProse(p) && !IsBlank(p) && !(['`', '`', '`'] <= Scan.TrimStart(p))
    requires Scan.IsStripped(p + j + q, r)
    ensures r == j && Parse(g, r) == Some(v)
  {
    JsonIsBalanced(g, j, v);
    RecoveredFromProse(p, j, q, r);
  }

  /** Between an opening and a closing code fence it comes out as well. */
  lemma ReadFromFences(g: Lexis, fence: string, a: string, j: string, b: string, c: string, v: Json, r: string)
    requires Parse(g, j) == Some(v) && j != []
    requires j[0] == '{' || j[0] == '['
    requires j[|j| - 1] == '}' || j[|j| - 1] == ']'
    requires fence == ['`', '`', '`'] || fence == ['`', '`', '`', 'j', 's', 'o', 'n']
    requires IsBlank(a) && IsBlank(b) && IsBlank(c)
    requires Scan.IsStripped(fence + a + j + (b + ['`', '`', '`'] + c), r)
    ensures r == j && Parse(g, r) == Some(v)
  {
    JsonIsBalanced(g, j, v);
    RecoveredFromFences(fence, a, j, b, c, r);
  }
}
