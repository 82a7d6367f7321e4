/** Counting assignments: a run that never revisits an assignment of n labels to n nodes is short. */
module Assignments {
  import opened Modularity

  ghost function Power(n: nat, e: nat): nat {
    if e == 0 then 1 else Power(n, e - 1) * n
  }

  ghost predicate Over(c: seq<nat>, n: nat) {
    |c| == n && forall i | 0 <= i < n :: c[i] < n
  }

  /** The labels read as the digits of a number in base n. */
  ghost function Code(c: seq<nat>, n: nat): nat {
    if c == [] then 0 else Code(c[..|c| - 1], n) * n + c[|c| - 1]
  }

  lemma {:induction false} CodeBound(c: seq<nat>, n: nat)
    requires forall i | 0 <= i < |c| :: c[i] < n
    ensures Code(c, n) < Power(n, |c|)
  {
    if c == [] {
    } else {
      var d := c[..|c| - 1];
      CodeBound(d, n);
      MulStep(Code(d, n), Power(n, |d|), n);
    }
  }

  lemma {:induction false} CodeInjective(c: seq<nat>, d: seq<nat>, n: nat)
    requires |c| == |d|
    requires forall i | 0 <= i < |c| :: c[i] < n && d[i] < n
    requires Code(c, n) == Code(d, n)
    ensures c == d
  {
    if c == [] {
    } else {
      var k := |c| - 1;
      DigitsUnique(Code(c[..k], n), c[k], Code(d[..k], n), d[k], n);
      CodeInjective(c[..k], d[..k], n);
      assert c == c[..k] + [c[k]] && d == d[..k] + [d[k]];
    }
  }

  lemma DigitsUnique(a: nat, x: nat, b: nat, y: nat, n: nat)
    requires x < n && y < n && a * n + x == b * n + y
    ensures a == b && x == y
  {
    MulStep(a, b, n);
    MulStep(b, a, n);
  }

  lemma MulStep(a: nat, b: nat, n: nat)
    ensures a < b ==> a * n + n <= b * n
  {
    if a < b {
      var d := b - a;
      assert b * n == a * n + d * n;
      assert d * n >= n;
    }
  }

  /** Distinct naturals below a bound are at most as many as the bound. */
  lemma {:induction false} Pigeonhole(codes: seq<nat>, bound: nat)
    requires forall j | 0 <= j < |codes| :: codes[j] < bound
    requires forall i, j | 0 <= i < j < |codes| :: codes[i] != codes[j]
    ensures |codes| <= bound
    decreases bound
  {
    assert codes == [] || codes[0] < bound;
    if bound == 0 {
    } else if bound - 1 in codes {
      var k :| 0 <= k < |codes| && codes[k] == bound - 1;
      var rest := codes[..k] + codes[k + 1..];
      forall j | 0 <= j < |rest| ensures rest[j] < bound - 1 {
        var source := if j < k then j else j + 1;
        assert rest[j] == codes[source] && codes[source] != codes[k];
      }
      Pigeonhole(rest, bound - 1);
    } else {
      Pigeonhole(codes, bound - 1);
    }
  }

  /** Each step of the history strictly increases modularity. */
  ghost predicate Climbs(n: nat, w: (int, int) -> real, history: seq<seq<nat>>) {
    forall t | 0 < t < |history| :: Q(n, w, history[t - 1]) < Q(n, w, history[t])
  }

  lemma {:induction false} ClimbsFar(n: nat, w: (int, int) -> real, history: seq<seq<nat>>, s: nat, t: nat)
    requires Climbs(n, w, history) && s < t < |history|
    ensures Q(n, w, history[s]) < Q(n, w, history[t])
    decreases t
  {
    if s == t - 1 {
    } else {
      ClimbsFar(n, w, history, s, t - 1);
    }
  }

  /** A history that climbs never revisits an assignment and has at most n^n entries. */
  lemma NeverRevisits(n: nat, w: (int, int) -> real, history: seq<seq<nat>>)
    requires Climbs(n, w, history)
    requires forall t | 0 <= t < |history| :: Over(history[t], n)
    ensures forall s, t | 0 <= s < t < |history| :: history[s] != history[t]
    ensures |history| <= Power(n, n)
  {
    forall s, t | 0 <= s < t < |history| ensures history[s] != history[t] {
      ClimbsFar(n, w, history, s, t);
    }
    var codes: seq<nat> := seq(|history|, t requires 0 <= t < |history| => Code(history[t], n));
    forall t | 0 <= t < |codes| ensures codes[t] < Power(n, n) {
      CodeBound(history[t], n);
    }
    forall s, t | 0 <= s < t < |codes| ensures codes[s] != codes[t] {
      if codes[s] == codes[t] { CodeInjective(history[s], history[t], n); }
    }
    Pigeonhole(codes, Power(n, n));
  }
}
