/** The local-moving phase: nodes move to a neighbour's community while modularity grows. */
module LocalMoving {
  import opened Modularity
  import opened ModularityGain
  import opened Assignments
  import opened EdgeWeights

  const MAX_SWEEPS: nat := 100

  /** The running sums agree with the assignment. */
  ghost predicate Tracked(n: nat, w: (int, int) -> real, c: seq<nat>, sumIn: seq<real>, sumTot: seq<real>) {
    && Over(c, n) && |sumIn| == |sumTot| == n
    && (forall x | 0 <= x < n :: sumIn[x] == InsideWeight(n, w, c, x))
    && (forall x | 0 <= x < n :: sumTot[x] == DegreeSum(n, w, c, x))
  }

  /** No move of node i into the community of one of its neighbours would raise modularity. */
  ghost predicate Settled(n: nat, w: (int, int) -> real, c: seq<nat>, i: nat)
    requires |c| == n && i < n
  {
    forall j | 0 <= j < n && w(i, j) > 0.0 :: Q(n, w, c[i := c[j]]) <= Q(n, w, c)
  }

  /** Node i has been visited: it stays where no move into a neighbour's community raises modularity, and otherwise
      makes the best of those moves. */
  ghost predicate Visited(n: nat, w: (int, int) -> real, c: seq<nat>, i: nat, d: seq<nat>)
    requires |c| == n && i < n
  {
    if d == c then Settled(n, w, c, i) else Promoted(n, w, c, i, d)
  }

  ghost predicate Promoted(n: nat, w: (int, int) -> real, c: seq<nat>, i: nat, d: seq<nat>)
    requires |c| == n && i < n
  {
    && (exists j | 0 <= j < n :: w(i, j) > 0.0 && d == c[i := c[j]])
    && Q(n, w, c) < Q(n, w, d)
    && (forall j | 0 <= j < n && w(i, j) > 0.0 :: Q(n, w, c[i := c[j]]) <= Q(n, w, d))
  }

  /** The history records every assignment of the run: it starts from singletons, and each step
      moves one node into the community of one of its neighbours and raises modularity. */
  ghost predicate Run(n: nat, w: (int, int) -> real, history: seq<seq<nat>>) {
    && |history| > 0
    && (forall t | 0 <= t < |history| :: Over(history[t], n) && Cohesive(n, w, history[t]))
    && (forall i | 0 <= i < n :: history[0][i] == i)
    && Climbs(n, w, history)
    && (forall t | 0 < t < |history| :: NeighbourMove(n, w, history[t - 1], history[t]))
  }

  ghost predicate NeighbourMove(n: nat, w: (int, int) -> real, c: seq<nat>, d: seq<nat>) {
    |c| == n && exists i, j | 0 <= i < n && 0 <= j < n :: w(i, j) > 0.0 && c[i] != c[j] && d == c[i := c[j]]
  }

  /** The weight between node i and community x, over the neighbours listed in the row. */
  ghost function RowLink(row: seq<Entry>, w: (int, int) -> real, c: seq<nat>, i: nat, x: int): real {
    Fold(row, (y: int) => if At(c, y) == x then w(i, y) else 0.0)
  }

  lemma RowLinkIsLink(row: seq<Entry>, n: nat, w: (int, int) -> real, c: seq<nat>, i: nat, x: int)
    requires Row(row, n, w, i)
    ensures RowLink(row, w, c, i, x) == LinkWeight(n, w, c, i, x)
  {
    FoldIsSum(row, n, (y: int) => if At(c, y) == x then w(i, y) else 0.0);
  }

  lemma RowLinkStep(row: seq<Entry>, n: nat, t: nat, w: (int, int) -> real, c: seq<nat>, i: nat, x: int)
    requires Row(row, n, w, i) && t < |row| && |c| == n
    ensures row[t].0 < n
    ensures RowLink(row[..t + 1], w, c, i, x)
         == RowLink(row[..t], w, c, i, x) + (if c[row[t].0] == x then row[t].1 else 0.0)
  {
    assert row[..t + 1][..t] == row[..t];
    assert row[t] in row;
  }

  ghost function Lookup(weights: map<nat, real>, x: nat): real {
    if x in weights then weights[x] else 0.0
  }

  /** The weights of the first t neighbours, by community. */
  ghost predicate Weighed(weights: map<nat, real>, row: seq<Entry>, t: nat, n: nat, w: (int, int) -> real,
                          c: seq<nat>, i: nat)
    requires Row(row, n, w, i) && t <= |row| && |c| == n
  {
    && (forall x: nat :: RowLink(row[..t], w, c, i, x) == Lookup(weights, x))
    && (forall x | x in weights :: exists j | 0 <= j < n :: w(i, j) > 0.0 && c[j] == x)
    && (forall a | 0 <= a < t :: At(c, row[a].0) in weights)
  }

  lemma WeighedStep(weights: map<nat, real>, row: seq<Entry>, t: nat, n: nat, w: (int, int) -> real,
                    c: seq<nat>, i: nat)
    requires Row(row, n, w, i) && t < |row| && |c| == n
    requires Weighed(weights, row, t, n, w, c, i)
    ensures row[t].0 < n
    ensures var x := c[row[t].0];
      Weighed(weights[x := (if x in weights then weights[x] else 0.0) + row[t].1], row, t + 1, n, w, c, i)
  {
    assert row[t] in row;
    var x := c[row[t].0];
    var next := weights[x := Lookup(weights, x) + row[t].1];
    forall y: nat ensures RowLink(row[..t + 1], w, c, i, y) == Lookup(next, y) {
      RowLinkStep(row, n, t, w, c, i, y);
    }
    forall y | y in next ensures exists j | 0 <= j < n :: w(i, j) > 0.0 && c[j] == y {
      if y == x { assert w(i, row[t].0) > 0.0; } else { assert y in weights; }
    }
  }

  lemma WeighedAll(weights: map<nat, real>, row: seq<Entry>, n: nat, w: (int, int) -> real, c: seq<nat>, i: nat)
    requires Row(row, n, w, i) && |c| == n && Weighed(weights, row, |row|, n, w, c, i)
    ensures LinkWeights(weights, n, w, c, i)
  {
    assert row[..|row|] == row;
    forall x: nat ensures LinkWeight(n, w, c, i, x) == Lookup(weights, x) {
      RowLinkIsLink(row, n, w, c, i, x);
    }
    forall j | 0 <= j < n && w(i, j) > 0.0 ensures c[j] in weights {
      var e :| e in row && e.0 == j;
      var a :| 0 <= a < |row| && row[a] == e;
      assert At(c, row[a].0) in weights;
    }
  }

  /** The map holds the weight between node i and each community among its neighbours, and no other keys. */
  ghost predicate LinkWeights(weights: map<nat, real>, n: nat, w: (int, int) -> real, c: seq<nat>, i: nat)
    requires |c| == n
  {
    && (forall x: nat :: LinkWeight(n, w, c, i, x) == Lookup(weights, x))
    && (forall x | x in weights :: exists j | 0 <= j < n :: w(i, j) > 0.0 && c[j] == x)
    && (forall j | 0 <= j < n && w(i, j) > 0.0 :: c[j] in weights)
  }

  method CommunityWeights(row: seq<Entry>, n: nat, community: array<nat>, ghost w: (int, int) -> real, ghost i: nat)
    returns (weights: map<nat, real>)
    requires Row(row, n, w, i) && community.Length == n
    ensures LinkWeights(weights, n, w, community[..], i)
  {
    weights := map[];
    var t := 0;
    ghost var c := community[..];
    while t < |row|
      invariant 0 <= t <= |row|
      invariant Weighed(weights, row, t, n, w, c, i)
    {
      WeighedStep(weights, row, t, n, w, c, i);
      var x := community[row[t].0];
      weights := weights[x := (if x in weights then weights[x] else 0.0) + row[t].1];
      t := t + 1;
    }
    WeighedAll(weights, row, n, w, c, i);
  }

  /** The best community to move node i to, and the gain of that move; its own community when none helps. */
  method BestCommunity(n: nat, i: nat, curr: nat, ki: real, m: real, weights: map<nat, real>, sumTot: array<real>,
                       ghost w: (int, int) -> real, ghost c: seq<nat>)
    returns (best: nat, bestDelta: real)
    requires IsNetwork(w) && |c| == n && i < n && c[i] == curr && ki == Degree(n, w, i)
    requires m == Volume(n, w) / 2.0 && sumTot.Length == n
    requires Over(c, n) && LinkWeights(weights, n, w, c, i)
    requires forall x | 0 <= x < n :: sumTot[x] == DegreeSum(n, w, c, x)
    ensures best == curr ==> bestDelta == 0.0
    ensures best != curr ==> best in weights && bestDelta > 0.0 && bestDelta == Gain(n, w, c, i, best)
    ensures forall x | x in weights && x != curr :: Gain(n, w, c, i, x) <= bestDelta
  {
    var kiCurr := if curr in weights then weights[curr] else 0.0;
    best, bestDelta := curr, 0.0;
    var rest := weights.Keys;
    while rest != {}
      invariant rest <= weights.Keys
      invariant best == curr ==> bestDelta == 0.0
      invariant best != curr ==> best in weights && bestDelta > 0.0 && bestDelta == Gain(n, w, c, i, best)
      invariant forall x | x in weights && x != curr && x !in rest :: Gain(n, w, c, i, x) <= bestDelta
      decreases rest
    {
      var comm :| comm in rest;
      rest := rest - {comm};
      if comm != curr {
        var delta := MoveDelta(m, weights[comm], kiCurr, ki, sumTot[curr], sumTot[comm]);
        assert delta == Gain(n, w, c, i, comm);
        if delta > bestDelta {
          bestDelta := delta;
          best := comm;
        }
      }
    }
  }

  /** Visits node i: moves it to its best neighbouring community if that raises modularity. */
  method VisitNode(i: nat, n: nat, row: seq<Entry>, ki: real, m: real, community: array<nat>, sumIn: array<real>,
                   sumTot: array<real>, ghost w: (int, int) -> real)
    returns (moved: bool)
    requires IsNetwork(w) && i < n && Row(row, n, w, i)
    requires ki == Degree(n, w, i) && m == Volume(n, w) / 2.0
    requires community.Length == n && sumIn != sumTot
    requires Tracked(n, w, community[..], sumIn[..], sumTot[..])
    modifies community, sumIn, sumTot
    ensures Tracked(n, w, community[..], sumIn[..], sumTot[..])
    ensures Visited(n, w, old(community[..]), i, community[..]) && (moved <==> community[..] != old(community[..]))
  {
    ghost var c := community[..];
    var curr := community[i];
    var weights := CommunityWeights(row, n, community, w, i);
    var best, bestDelta := BestCommunity(n, i, curr, ki, m, weights, sumTot, w, c);
    BestIsBest(n, w, c, i, best, bestDelta, weights);
    moved := best != curr;
    if moved {
      var kiCurr := if curr in weights then weights[curr] else 0.0;
      var kiBest := if best in weights then weights[best] else 0.0;
      TrackedMove(n, w, c, sumIn[..], sumTot[..], i, best);
      ApplyMove(i, curr, best, kiCurr, kiBest, ki, community, sumIn, sumTot);
    } else {
      assert c[i := best] == c;
    }
  }

  /** Moves node i from one community to another and updates the running sums. */
  method ApplyMove(i: nat, curr: nat, best: nat, kiCurr: real, kiBest: real, ki: real,
                   community: array<nat>, sumIn: array<real>, sumTot: array<real>)
    requires sumIn != sumTot && curr != best
    requires community.Length == sumIn.Length == sumTot.Length
    requires i < community.Length && curr < community.Length && best < community.Length
    modifies community, sumIn, sumTot
    ensures community[..] == old(community[..])[i := best]
    ensures sumIn[..] == Shift(old(sumIn[..]), curr, best, kiCurr, kiBest)
    ensures sumTot[..] == Shift(old(sumTot[..]), curr, best, ki, ki)
  {
    sumIn[curr] := sumIn[curr] - kiCurr;
    sumIn[best] := sumIn[best] + kiBest;
    sumTot[curr] := sumTot[curr] - ki;
    sumTot[best] := sumTot[best] + ki;
    community[i] := best;
  }

  /** Takes one amount off position a and adds another at position b. */
  ghost function Shift(s: seq<real>, a: nat, b: nat, off: real, on: real): seq<real>
    requires a < |s| && b < |s| && a != b
  {
    s[a := s[a] - off][b := s[b] + on]
  }

  /** Updating the running sums by the node's links and degree keeps them in step with the move. */
  lemma TrackedMove(n: nat, w: (int, int) -> real, c: seq<nat>, sumIn: seq<real>, sumTot: seq<real>, i: nat, b: nat)
    requires IsNetwork(w) && Tracked(n, w, c, sumIn, sumTot)
    requires i < n && b < n && b != c[i]
    ensures var a, ki := c[i], Degree(n, w, i);
      Tracked(n, w, c[i := b],
              Shift(sumIn, a, b, LinkWeight(n, w, c, i, a), LinkWeight(n, w, c, i, b)),
              Shift(sumTot, a, b, ki, ki))
  {
    forall x | 0 <= x < n
      ensures InsideWeight(n, w, c[i := b], x) == InsideWeight(n, w, c, x)
              + (if x == b then LinkWeight(n, w, c, i, b)
                 else if x == c[i] then -LinkWeight(n, w, c, i, c[i]) else 0.0)
      ensures DegreeSum(n, w, c[i := b], x) == DegreeSum(n, w, c, x)
              + (if x == b then Degree(n, w, i) else if x == c[i] then -Degree(n, w, i) else 0.0)
    {
      InsideMove(n, w, c, i, b, x);
      DegreeSumMove(n, w, c, i, b, x);
    }
  }

  lemma BestIsBest(n: nat, w: (int, int) -> real, c: seq<nat>, i: nat, best: nat, bestDelta: real,
                   weights: map<nat, real>)
    requires IsNetwork(w) && Over(c, n) && i < n && LinkWeights(weights, n, w, c, i)
    requires best == c[i] ==> bestDelta == 0.0
    requires best != c[i] ==> best in weights && bestDelta > 0.0 && bestDelta == Gain(n, w, c, i, best)
    requires forall x | x in weights && x != c[i] :: Gain(n, w, c, i, x) <= bestDelta
    ensures Q(n, w, c[i := best]) == Q(n, w, c) + bestDelta
    ensures best < n && Visited(n, w, c, i, c[i := best])
  {
    if best == c[i] { assert c[i := best] == c; } else { GainIsExact(n, w, c, i, best); }
    forall j | 0 <= j < n && w(i, j) > 0.0 ensures Q(n, w, c[i := c[j]]) <= Q(n, w, c[i := best]) {
      if c[j] == c[i] { assert c[i := c[j]] == c; } else { GainIsExact(n, w, c, i, c[j]); }
    }
  }

  lemma RunStep(n: nat, w: (int, int) -> real, history: seq<seq<nat>>, i: nat, d: seq<nat>)
    requires IsNetwork(w) && Run(n, w, history) && i < n && Over(d, n)
    requires d != history[|history| - 1] && Promoted(n, w, history[|history| - 1], i, d)
    ensures Run(n, w, history + [d])
  {
    var c := history[|history| - 1];
    var j :| 0 <= j < n && w(i, j) > 0.0 && d == c[i := c[j]];
    assert c[i] == c[j] ==> d == c;
    MoveKeepsCohesive(n, w, c, i, j);
    var longer := history + [d];
    forall t | 0 <= t < |longer|
      ensures Over(longer[t], n) && Cohesive(n, w, longer[t])
      ensures t > 0 ==> Q(n, w, longer[t - 1]) < Q(n, w, longer[t]) && NeighbourMove(n, w, longer[t - 1], longer[t])
    {
      if t < |history| { assert longer[t] == history[t] && (t > 0 ==> longer[t - 1] == history[t - 1]); }
    }
  }

  /** The running sums are right, the history is a run, and it ends with the present assignment. */
  ghost predicate OnRun(n: nat, w: (int, int) -> real, history: seq<seq<nat>>, c: seq<nat>, sumIn: seq<real>,
                        sumTot: seq<real>) {
    Tracked(n, w, c, sumIn, sumTot) && Run(n, w, history) && c == history[|history| - 1]
  }

  // ---------- Passes ----------

  /** The assignments before and after each of the first i nodes is visited, in index order. */
  ghost predicate Visiting(n: nat, w: (int, int) -> real, i: nat, pass: seq<seq<nat>>) {
    && |pass| == i + 1 <= n + 1
    && (forall t | 0 <= t <= i :: |pass[t]| == n)
    && (forall t: nat | t < i :: VisitedNext(n, w, pass, t))
  }

  ghost predicate VisitedNext(n: nat, w: (int, int) -> real, pass: seq<seq<nat>>, t: nat) {
    t < n && t + 1 < |pass| && |pass[t]| == n && Visited(n, w, pass[t], t, pass[t + 1])
  }

  /** A full pass: every node is visited once. */
  ghost predicate Pass(n: nat, w: (int, int) -> real, pass: seq<seq<nat>>) { Visiting(n, w, n, pass) }

  /** The assignments that differ from the one before. */
  ghost function Changes(pass: seq<seq<nat>>): seq<seq<nat>> {
    if |pass| <= 1 then [] else
      var k := |pass| - 1;
      Changes(pass[..k]) + (if pass[k] != pass[k - 1] then [pass[k]] else [])
  }

  ghost function AllChanges(passes: seq<seq<seq<nat>>>): seq<seq<nat>> {
    if passes == [] then [] else AllChanges(passes[..|passes| - 1]) + Changes(passes[|passes| - 1])
  }

  /** Full passes from the first assignment on, each from where the one before ended; the history is made of all
      their changes. */
  ghost predicate Passes(n: nat, w: (int, int) -> real, start: seq<nat>, passes: seq<seq<seq<nat>>>,
                         history: seq<seq<nat>>) {
    && (forall pass | pass in passes :: Pass(n, w, pass))
    && Linked(n, start, passes)
    && history == [start] + AllChanges(passes)
  }

  ghost predicate Linked(n: nat, start: seq<nat>, passes: seq<seq<seq<nat>>>) {
    && (forall t | 0 <= t < |passes| :: |passes[t]| == n + 1)
    && (forall t: nat | t < |passes| :: StartsFrom(passes[t], if t == 0 then start else passes[t - 1][n]))
  }

  ghost predicate StartsFrom(pass: seq<seq<nat>>, c: seq<nat>) { pass != [] && pass[0] == c }

  /** At least one and at most 100 full passes. All but the last change something; the last changes nothing, or it
      is the hundredth. */
  ghost predicate SweptOut(n: nat, w: (int, int) -> real, start: seq<nat>, passes: seq<seq<seq<nat>>>,
                           history: seq<seq<nat>>, improved: bool) {
    && Passes(n, w, start, passes, history) && 1 <= |passes| <= 100
    && (forall t | 0 <= t < |passes| - 1 :: Changes(passes[t]) != [])
    && (improved <==> Changes(passes[|passes| - 1]) != [])
    && (improved ==> |passes| == 100)
  }

  /** The pass so far leads from the one assignment to the other. */
  ghost predicate Leading(n: nat, w: (int, int) -> real, i: nat, pass: seq<seq<nat>>, c: seq<nat>, d: seq<nat>) {
    Visiting(n, w, i, pass) && pass[0] == c && pass[i] == d
  }

  lemma LeadingStep(n: nat, w: (int, int) -> real, i: nat, pass: seq<seq<nat>>, c: seq<nat>, d: seq<nat>, e: seq<nat>)
    requires Leading(n, w, i, pass, c, d) && i < n && |d| == |e| == n && Visited(n, w, d, i, e)
    ensures Leading(n, w, i + 1, pass + [e], c, e)
  {
    var longer := pass + [e];
    forall t: nat | t <= i ensures VisitedNext(n, w, longer, t) {
      assert t < i ==> VisitedNext(n, w, pass, t);
      assert longer[t] == pass[t] && longer[t + 1] == if t < i then pass[t + 1] else e;
    }
  }

  lemma ChangesSnoc(pass: seq<seq<nat>>, e: seq<nat>)
    requires pass != []
    ensures Changes(pass + [e]) == Changes(pass) + (if e != pass[|pass| - 1] then [e] else [])
  {
    assert (pass + [e])[..|pass|] == pass;
  }

  lemma PassesStep(n: nat, w: (int, int) -> real, start: seq<nat>, passes: seq<seq<seq<nat>>>,
                   history: seq<seq<nat>>, pass: seq<seq<nat>>)
    requires Passes(n, w, start, passes, history) && Pass(n, w, pass)
    requires pass[0] == if passes == [] then start else passes[|passes| - 1][n]
    ensures Passes(n, w, start, passes + [pass], history + Changes(pass))
  {
    LinkedStep(n, start, passes, pass);
    assert (passes + [pass])[..|passes|] == passes;
    assert history + Changes(pass) == [start] + (AllChanges(passes) + Changes(pass));
  }

  lemma LinkedStep(n: nat, start: seq<nat>, passes: seq<seq<seq<nat>>>, pass: seq<seq<nat>>)
    requires Linked(n, start, passes) && |pass| == n + 1
    requires pass[0] == if passes == [] then start else passes[|passes| - 1][n]
    ensures Linked(n, start, passes + [pass])
  {
  }

  /** One full pass over all nodes; when nothing moved, every node is settled. */
  method Sweep(n: nat, adj: seq<seq<Entry>>, degrees: seq<real>, m: real, community: array<nat>,
               sumIn: array<real>, sumTot: array<real>, ghost w: (int, int) -> real, ghost before: seq<seq<nat>>)
    returns (improved: bool, ghost history: seq<seq<nat>>, ghost pass: seq<seq<nat>>)
    requires IsNetwork(w) && Adjacency(adj, n, w)
    requires |degrees| == n && forall i | 0 <= i < n :: degrees[i] == Degree(n, w, i)
    requires m == Volume(n, w) / 2.0
    requires community.Length == n && sumIn != sumTot
    requires OnRun(n, w, before, community[..], sumIn[..], sumTot[..])
    modifies community, sumIn, sumTot
    ensures OnRun(n, w, history, community[..], sumIn[..], sumTot[..])
    ensures Pass(n, w, pass) && pass[0] == old(community[..]) && pass[n] == community[..]
    ensures history == before + Changes(pass) && (improved <==> Changes(pass) != [])
    ensures !improved ==> forall i | 0 <= i < n :: Settled(n, w, community[..], i)
  {
    improved, history, pass := false, before, [community[..]];
    ghost var start := community[..];
    var i := 0;
    while i < n
      invariant 0 <= i <= n
      invariant OnRun(n, w, history, community[..], sumIn[..], sumTot[..])
      invariant Onward(n, w, i, pass, start, community[..], before, history, improved)
    {
      improved, history, pass :=
        SweepOne(i, n, adj[i], degrees[i], m, community, sumIn, sumTot, improved, w, history, pass, start, before);
      i := i + 1;
    }
  }

  /** One visit of the sweep. */
  method SweepOne(i: nat, n: nat, row: seq<Entry>, ki: real, m: real, community: array<nat>, sumIn: array<real>,
                  sumTot: array<real>, better: bool, ghost w: (int, int) -> real, ghost known: seq<seq<nat>>,
                  ghost seen: seq<seq<nat>>, ghost start: seq<nat>, ghost before: seq<seq<nat>>)
    returns (improved: bool, ghost history: seq<seq<nat>>, ghost pass: seq<seq<nat>>)
    requires IsNetwork(w) && i < n && Row(row, n, w, i)
    requires ki == Degree(n, w, i) && m == Volume(n, w) / 2.0
    requires community.Length == n && sumIn != sumTot
    requires OnRun(n, w, known, community[..], sumIn[..], sumTot[..])
    requires Onward(n, w, i, seen, start, community[..], before, known, better)
    modifies community, sumIn, sumTot
    ensures OnRun(n, w, history, community[..], sumIn[..], sumTot[..])
    ensures Onward(n, w, i + 1, pass, start, community[..], before, history, improved)
  {
    ghost var c := community[..];
    improved, history := better, known;
    var moved := VisitNode(i, n, row, ki, m, community, sumIn, sumTot, w);
    if moved { improved := true; }
    history := Recorded(known, c, community[..]);
    pass := seen + [community[..]];
    RecordedRun(n, w, known, i, community[..]);
    OnwardStep(n, w, i, seen, start, c, before, known, better, community[..]);
  }

  /** The history grows by what has changed. */
  ghost function Recorded(history: seq<seq<nat>>, c: seq<nat>, d: seq<nat>): seq<seq<nat>> {
    if d == c then history else history + [d]
  }

  lemma RecordedRun(n: nat, w: (int, int) -> real, history: seq<seq<nat>>, i: nat, d: seq<nat>)
    requires IsNetwork(w) && Run(n, w, history) && i < n && Over(d, n) && Visited(n, w, history[|history| - 1], i, d)
    ensures var longer := Recorded(history, history[|history| - 1], d);
      Run(n, w, longer) && longer[|longer| - 1] == d
  {
    if d != history[|history| - 1] { RunStep(n, w, history, i, d); }
  }

  /** The pass so far; its changes have been added to the history, and without any all its nodes are settled. */
  ghost predicate Onward(n: nat, w: (int, int) -> real, i: nat, pass: seq<seq<nat>>, start: seq<nat>, c: seq<nat>,
                         before: seq<seq<nat>>, history: seq<seq<nat>>, improved: bool) {
    && Leading(n, w, i, pass, start, c) && |c| == n >= i
    && history == before + Changes(pass) && (improved <==> Changes(pass) != [])
    && (!improved ==> forall x | 0 <= x < i :: Settled(n, w, c, x))
  }

  lemma OnwardStep(n: nat, w: (int, int) -> real, i: nat, pass: seq<seq<nat>>, start: seq<nat>, c: seq<nat>,
                   before: seq<seq<nat>>, history: seq<seq<nat>>, improved: bool, d: seq<nat>)
    requires Onward(n, w, i, pass, start, c, before, history, improved)
    requires i < n && |d| == n && Visited(n, w, c, i, d)
    ensures Onward(n, w, i + 1, pass + [d], start, d, before, Recorded(history, c, d), improved || d != c)
  {
    LeadingStep(n, w, i, pass, start, c, d);
    ChangesSnoc(pass, d);
    assert Changes(pass) + [] == Changes(pass);
    assert history + [d] == before + (Changes(pass) + [d]);
  }

  /** Sweeps until a sweep moves nothing, or the sweep cap is reached. */
  method LocalMove(n: nat, adj: seq<seq<Entry>>, degrees: seq<real>, m: real, community: array<nat>,
                   sumIn: array<real>, sumTot: array<real>, ghost w: (int, int) -> real)
    returns (improved: bool, ghost history: seq<seq<nat>>, ghost passes: seq<seq<seq<nat>>>)
    requires IsNetwork(w) && Adjacency(adj, n, w)
    requires |degrees| == n && forall i | 0 <= i < n :: degrees[i] == Degree(n, w, i)
    requires m == Volume(n, w) / 2.0
    requires community.Length == n && sumIn != sumTot
    requires Tracked(n, w, community[..], sumIn[..], sumTot[..])
    requires forall i | 0 <= i < n :: community[i] == i
    modifies community, sumIn, sumTot
    ensures OnRun(n, w, history, community[..], sumIn[..], sumTot[..]) && history[0] == old(community[..])
    ensures SweptOut(n, w, old(community[..]), passes, history, improved)
    ensures if improved then |history| > MAX_SWEEPS else forall i | 0 <= i < n :: Settled(n, w, community[..], i)
  {
    improved := true;
    var iteration := 0;
    ghost var start := community[..];
    history, passes := [community[..]], [];
    SingletonsCohesive(n, w, community[..]);
    while improved && iteration < MAX_SWEEPS
      invariant iteration <= MAX_SWEEPS
      invariant OnRun(n, w, history, community[..], sumIn[..], sumTot[..]) && history[0] == start
      invariant Swept(n, w, start, passes, history, community[..], improved, iteration)
      invariant if improved then |history| > iteration else forall i | 0 <= i < n :: Settled(n, w, community[..], i)
    {
      iteration := iteration + 1;
      ghost var before, pass, c := history, [], community[..];
      improved, history, pass := Sweep(n, adj, degrees, m, community, sumIn, sumTot, w, history);
      SweptStep(n, w, start, passes, before, c, iteration - 1, pass, community[..], improved);
      passes := passes + [pass];
    }
    SweptEnds(n, w, start, passes, history, community[..], improved, iteration);
  }

  lemma SweptStep(n: nat, w: (int, int) -> real, start: seq<nat>, passes: seq<seq<seq<nat>>>, history: seq<seq<nat>>,
                  c: seq<nat>, iteration: nat, pass: seq<seq<nat>>, d: seq<nat>, improved: bool)
    requires Swept(n, w, start, passes, history, c, true, iteration)
    requires Pass(n, w, pass) && pass[0] == c && pass[n] == d && (improved <==> Changes(pass) != [])
    ensures Swept(n, w, start, passes + [pass], history + Changes(pass), d, improved, iteration + 1)
  {
    PassesStep(n, w, start, passes, history, pass);
    EndingStep(n, start, passes, c, iteration, pass, d, improved);
  }

  lemma SweptEnds(n: nat, w: (int, int) -> real, start: seq<nat>, passes: seq<seq<seq<nat>>>, history: seq<seq<nat>>,
                  c: seq<nat>, improved: bool, iteration: nat)
    requires Swept(n, w, start, passes, history, c, improved, iteration)
    requires 1 <= iteration <= 100 && (improved ==> iteration == 100)
    ensures SweptOut(n, w, start, passes, history, improved)
  {
  }

  /** As many passes as iterations, ending in the present assignment, and each but the last changing something. */
  ghost predicate Swept(n: nat, w: (int, int) -> real, start: seq<nat>, passes: seq<seq<seq<nat>>>,
                        history: seq<seq<nat>>, c: seq<nat>, improved: bool, iteration: nat) {
    Passes(n, w, start, passes, history) && Ending(n, start, passes, c, improved, iteration)
  }

  ghost predicate Ending(n: nat, start: seq<nat>, passes: seq<seq<seq<nat>>>, c: seq<nat>, improved: bool,
                         iteration: nat) {
    && |passes| == iteration
    && (forall t | 0 <= t < iteration - 1 :: Changes(passes[t]) != [])
    && (passes == [] || |passes[iteration - 1]| == n + 1)
    && c == (if passes == [] then start else passes[iteration - 1][n])
    && (improved <==> passes == [] || Changes(passes[iteration - 1]) != [])
  }

  lemma EndingStep(n: nat, start: seq<nat>, passes: seq<seq<seq<nat>>>, c: seq<nat>, iteration: nat,
                   pass: seq<seq<nat>>, d: seq<nat>, improved: bool)
    requires Ending(n, start, passes, c, true, iteration)
    requires |pass| == n + 1 && pass[n] == d && (improved <==> Changes(pass) != [])
    ensures Ending(n, start, passes + [pass], d, improved, iteration + 1)
  {
  }
}
