/** Community detection as a whole: local moving, renumbering, final modularity and the node lists. */
module Communities {
  import opened GraphTypes
  import opened RealSums
  import opened Modularity
  import opened ModularityBounds
  import opened Assignments
  import opened EdgeWeights
  import opened AdjacencyBuild
  import opened LocalMoving

  datatype Report = Report(labels: seq<nat>, communities: seq<seq<string>>, modularity: real)

  // ---------- Inside weights ----------

  /** What row i adds to the inside weights: only node i's own community gains. */
  lemma InsideRow(row: seq<Entry>, n: nat, w: (int, int) -> real, c: seq<nat>, i: nat, x: nat)
    requires Row(row, n, w, i) && i < n == |c|
    ensures Sum2(i + 1, n, InsideKernel(w, c, x)) == Sum2(i, n, InsideKernel(w, c, x))
              + (if x == c[i] then Fold(row, (j: int) => InsideKernel(w, c, x)(i, j)) else 0.0)
  {
    var g := (j: int) => InsideKernel(w, c, x)(i, j);
    forall j: int | 0 <= j < n ensures g(j) == if i < j && c[i] == x && c[j] == x then w(i, j) else 0.0 {
      assert At(c, i) == c[i] && At(c, j) == c[j];
      assert g(j) == InsideKernel(w, c, x)(i, j);
    }
    if x == c[i] {
      FoldIsSum(row, n, g);
    } else {
      SumConst(n, 0.0, g);
    }
  }

  /** Adds the weights of row i that stay inside node i's community and lead to a later node. */
  method AddRow(row: seq<Entry>, n: nat, c: seq<nat>, i: nat, sumIn: array<real>, ghost w: (int, int) -> real)
    requires Row(row, n, w, i) && i < n && Labelled(c, n, sumIn.Length)
    modifies sumIn
    ensures forall x | 0 <= x < sumIn.Length :: sumIn[x] == old(sumIn[x])
              + (if x == c[i] then Fold(row, (j: int) => InsideKernel(w, c, c[i])(i, j)) else 0.0)
  {
    var t := 0;
    ghost var g := (j: int) => InsideKernel(w, c, c[i])(i, j);
    while t < |row|
      invariant 0 <= t <= |row|
      invariant forall x | 0 <= x < sumIn.Length && x != c[i] :: sumIn[x] == old(sumIn[x])
      invariant sumIn[c[i]] == old(sumIn[c[i]]) + Fold(row[..t], g)
    {
      var e := row[t];
      assert e in row && row[..t + 1][..t] == row[..t];
      assert At(c, i) == c[i] && At(c, e.0) == c[e.0];
      assert g(e.0) == InsideKernel(w, c, c[i])(i, e.0);
      if i < e.0 && c[i] == c[e.0] {
        sumIn[c[i]] := sumIn[c[i]] + e.1;
      }
      t := t + 1;
    }
    assert row[..t] == row;
  }

  method InsideWeights(n: nat, k: nat, adj: seq<seq<Entry>>, c: seq<nat>, ghost w: (int, int) -> real)
    returns (sumIn: array<real>)
    requires Adjacency(adj, n, w) && Labelled(c, n, k)
    ensures fresh(sumIn) && sumIn.Length == k
    ensures forall x | 0 <= x < k :: sumIn[x] == InsideWeight(n, w, c, x)
  {
    sumIn := new real[k](_ => 0.0);
    var i := 0;
    while i < n
      invariant 0 <= i <= n
      invariant forall x | 0 <= x < k :: sumIn[x] == Sum2(i, n, InsideKernel(w, c, x))
    {
      AddRow(adj[i], n, c, i, sumIn, w);
      forall x | 0 <= x < k ensures sumIn[x] == Sum2(i + 1, n, InsideKernel(w, c, x)) {
        InsideRow(adj[i], n, w, c, i, x);
      }
      i := i + 1;
    }
  }

  method DegreeSums(n: nat, k: nat, degrees: seq<real>, c: seq<nat>, ghost w: (int, int) -> real)
    returns (sumTot: array<real>)
    requires |degrees| == n && forall i | 0 <= i < n :: degrees[i] == Degree(n, w, i)
    requires Labelled(c, n, k)
    ensures fresh(sumTot) && sumTot.Length == k
    ensures forall x | 0 <= x < k :: sumTot[x] == DegreeSum(n, w, c, x)
  {
    sumTot := new real[k](_ => 0.0);
    var i := 0;
    while i < n
      invariant 0 <= i <= n
      invariant forall x | 0 <= x < k ::
        sumTot[x] == Sum(i, (y: int) => if At(c, y) == x then Degree(n, w, y) else 0.0)
    {
      assert At(c, i) == c[i];
      sumTot[c[i]] := sumTot[c[i]] + degrees[i];
      i := i + 1;
    }
  }

  // ---------- Renumbering ----------

  /** The labels in order of first occurrence: 0..k-1, equal exactly where the original labels are. */
  ghost predicate Renumbered(c: seq<nat>, ids: seq<nat>, k: nat) {
    && |ids| == |c|
    && (forall i | 0 <= i < |ids| :: ids[i] < k)
    && (forall i, j | 0 <= i < |c| && 0 <= j < |c| :: c[i] == c[j] <==> ids[i] == ids[j])
    && (forall x: nat | x < k :: x in ids)
    && (forall i, x: nat | 0 <= i < |ids| && x < ids[i] :: x in ids[..i])
  }

  method Renumber(c: seq<nat>) returns (ids: seq<nat>, k: nat)
    ensures Renumbered(c, ids, k)
  {
    var remap: map<nat, nat> := map[];
    k := 0;
    ids := [];
    var i := 0;
    while i < |c|
      invariant 0 <= i <= |c| && |ids| == i
      invariant forall x | x in remap :: remap[x] < k
      invariant forall x | x in remap :: x in c[..i]
      invariant forall x, y | x in remap && y in remap && remap[x] == remap[y] :: x == y
      invariant forall a | 0 <= a < i :: c[a] in remap && ids[a] == remap[c[a]]
      invariant forall x: nat | x < k :: x in ids
      invariant forall a, x: nat | 0 <= a < i && x < ids[a] :: x in ids[..a]
    {
      ghost var before := ids;
      if c[i] !in remap {
        remap := remap[c[i] := k];
        k := k + 1;
      }
      ids := ids + [remap[c[i]]];
      assert c[..i + 1] == c[..i] + [c[i]];
      forall x: nat | x < k ensures x in ids {
        if x in before { assert x in ids; } else { assert ids[i] == x; }
      }
      forall a, x: nat | 0 <= a < i + 1 && x < ids[a] ensures x in ids[..a] {
        if a < i { assert ids[..a] == before[..a]; } else { assert ids[..a] == before; }
      }
      i := i + 1;
    }
  }

  // ---------- Final modularity ----------

  method FinalModularity(n: nat, k: nat, adj: seq<seq<Entry>>, degrees: seq<real>, m: real, ids: seq<nat>,
                         ghost w: (int, int) -> real)
    returns (q: real)
    requires IsNetwork(w) && Adjacency(adj, n, w) && Labelled(ids, n, k)
    requires |degrees| == n && forall i | 0 <= i < n :: degrees[i] == Degree(n, w, i)
    requires m == Volume(n, w) / 2.0
    ensures q == Q(n, w, ids)
  {
    var commIn := InsideWeights(n, k, adj, ids, w);
    var commTot := DegreeSums(n, k, degrees, ids, w);
    q := 0.0;
    if m > 0.0 { q := AddShares(n, k, m, commIn[..], commTot[..], ids, w); }
    ReportedIsModularity(n, w, ids, k);
  }

  method AddShares(ghost n: nat, k: nat, m: real, commIn: seq<real>, commTot: seq<real>, ghost ids: seq<nat>,
                   ghost w: (int, int) -> real)
    returns (q: real)
    requires m > 0.0 && |commIn| == k && |commTot| == k
    requires forall x | 0 <= x < k :: commIn[x] == InsideWeight(n, w, ids, x) && commTot[x] == DegreeSum(n, w, ids, x)
    ensures q == Shares(k, m, n, w, ids)
  {
    q := 0.0;
    for x := 0 to k
      invariant q == Shares(x, m, n, w, ids)
    {
      var part := commTot[x] / (2.0 * m);
      assert part * part == Square(part);
      q := q + (commIn[x] / m - part * part);
    }
  }

  // ---------- Node lists ----------

  ghost function Flatten(lists: seq<seq<string>>): seq<string> {
    if lists == [] then [] else Flatten(lists[..|lists| - 1]) + lists[|lists| - 1]
  }

  lemma {:induction false} FlattenGrow(lists: seq<seq<string>>, x: nat, name: string)
    requires x < |lists|
    ensures multiset(Flatten(lists[x := lists[x] + [name]])) == multiset(Flatten(lists)) + multiset{name}
  {
    var k, grown := |lists| - 1, lists[x := lists[x] + [name]];
    if x == k {
      assert grown[..k] == lists[..k];
    } else {
      FlattenGrow(lists[..k], x, name);
      assert grown[..k] == lists[..k][x := lists[..k][x] + [name]];
    }
  }

  lemma {:induction false} FlattenEmpty(lists: seq<seq<string>>)
    requires forall x | 0 <= x < |lists| :: lists[x] == []
    ensures Flatten(lists) == []
  {
    if lists == [] {
    } else {
      FlattenEmpty(lists[..|lists| - 1]);
    }
  }

  /** The names of the nodes with label x, in node order. */
  ghost function Members(names: seq<string>, ids: seq<nat>, x: nat): seq<string>
    requires |names| == |ids|
  {
    if names == [] then [] else
      var k := |names| - 1;
      Members(names[..k], ids[..k], x) + (if ids[k] == x then [names[k]] else [])
  }

  /** The nodes before i with the label of node i. */
  ghost function SameBefore(ids: seq<nat>, i: nat, x: nat): set<nat>
    requires i <= |ids|
  {
    set k: nat | k < i && ids[k] == x
  }

  /** A node stands in its list behind exactly the earlier nodes with its label. */
  lemma {:induction false} MembersAt(names: seq<string>, ids: seq<nat>, n: nat, i: nat, x: nat)
    requires |names| == |ids| && n <= |ids|
    ensures |Members(names[..n], ids[..n], x)| == |SameBefore(ids, n, x)|
    ensures i < n && ids[i] == x ==>
              var place := |SameBefore(ids, i, x)|;
              place < |SameBefore(ids, n, x)| && Members(names[..n], ids[..n], x)[place] == names[i]
  {
    if n == 0 {
    } else {
      MembersAt(names, ids, n - 1, i, x);
      MembersStep(names, ids, x, n - 1);
      SameBeforeStep(ids, n - 1, x);
    }
  }

  lemma SameBeforeStep(ids: seq<nat>, i: nat, x: nat)
    requires i < |ids|
    ensures |SameBefore(ids, i + 1, x)| == |SameBefore(ids, i, x)| + (if ids[i] == x then 1 else 0)
  {
    assert SameBefore(ids, i + 1, x) == SameBefore(ids, i, x) + (if ids[i] == x then {i} else {});
  }

  /** The lists hold the names of the first i nodes, by label. */
  ghost predicate Listed(lists: seq<seq<string>>, names: seq<string>, ids: seq<nat>, k: nat, i: nat)
    requires |names| == |ids| && i <= |names|
  {
    && |lists| == k
    && (forall x | 0 <= x < k :: lists[x] == Members(names[..i], ids[..i], x))
    && multiset(Flatten(lists)) == multiset(names[..i])
  }

  lemma ListedStep(lists: seq<seq<string>>, names: seq<string>, ids: seq<nat>, k: nat, i: nat)
    requires |names| == |ids| && i < |names| && ids[i] < k
    requires Listed(lists, names, ids, k, i)
    ensures Listed(lists[ids[i] := lists[ids[i]] + [names[i]]], names, ids, k, i + 1)
  {
    var next := lists[ids[i] := lists[ids[i]] + [names[i]]];
    FlattenGrow(lists, ids[i], names[i]);
    MultisetStep(names, i);
    forall x | 0 <= x < k ensures next[x] == Members(names[..i + 1], ids[..i + 1], x) { MembersStep(names, ids, x, i); }
  }

  lemma MultisetStep(names: seq<string>, i: nat)
    requires i < |names|
    ensures multiset(names[..i + 1]) == multiset(names[..i]) + multiset{names[i]}
  {
    assert names[..i + 1] == names[..i] + [names[i]];
  }

  lemma MembersStep(names: seq<string>, ids: seq<nat>, x: nat, i: nat)
    requires |names| == |ids| && i < |names|
    ensures Members(names[..i + 1], ids[..i + 1], x)
         == if ids[i] == x then Members(names[..i], ids[..i], x) + [names[i]] else Members(names[..i], ids[..i], x)
  {
    assert names[..i + 1][..i] == names[..i] && ids[..i + 1][..i] == ids[..i];
  }

  method NodeLists(names: seq<string>, ids: seq<nat>, k: nat) returns (lists: seq<seq<string>>)
    requires |names| == |ids| && forall i | 0 <= i < |ids| :: ids[i] < k
    ensures |lists| == k && forall x | 0 <= x < k :: lists[x] == Members(names, ids, x)
    ensures multiset(Flatten(lists)) == multiset(names)
  {
    lists := seq(k, _ => []);
    FlattenEmpty(lists);
    var i := 0;
    while i < |names|
      invariant 0 <= i <= |names|
      invariant Listed(lists, names, ids, k, i)
    {
      ListedStep(lists, names, ids, k, i);
      lists := lists[ids[i] := lists[ids[i]] + [names[i]]];
      i := i + 1;
    }
    assert names[..i] == names && ids[..i] == ids;
  }

  lemma {:induction false} MembersNonEmpty(names: seq<string>, ids: seq<nat>, x: nat)
    requires |names| == |ids| && x in ids
    ensures Members(names, ids, x) != []
  {
    var k := |names| - 1;
    if ids[k] != x {
      assert ids == ids[..k] + [ids[k]];
      MembersNonEmpty(names[..k], ids[..k], x);
    }
  }

  // ---------- The whole ----------

  ghost function Names(nodes: seq<Node>): seq<string> {
    seq(|nodes|, i requires 0 <= i < |nodes| => nodes[i].id)
  }

  /** What a report says about the graph it was computed from. */
  ghost predicate Faithful(nodes: seq<Node>, arcs: seq<Arc>, r: Report) {
    var n, w, k := |nodes|, Weights(arcs), |r.communities|;
    && Labelled(r.labels, n, k)
    && Cohesive(n, w, r.labels)
    && r.modularity == Q(n, w, r.labels)
    && (forall x | 0 <= x < k :: r.communities[x] == Members(Names(nodes), r.labels, x) && r.communities[x] != [])
    && multiset(Flatten(r.communities)) == multiset(Names(nodes))
  }

  ghost function Identity(n: nat): seq<nat> { seq(n, i => i) }

  /** The reported value is at least that of the singletons, and within the bounds of modularity. */
  ghost predicate Bounded(n: nat, w: (int, int) -> real, q: real, k: nat) {
    && Q(n, w, Identity(n)) <= q
    && (Volume(n, w) > 0.0 ==> k > 0 && -0.5 <= q <= 1.0 - 1.0 / (k as real))
  }

  ghost predicate AllSettled(n: nat, w: (int, int) -> real, c: seq<nat>) {
    |c| == n && forall i | 0 <= i < n :: Settled(n, w, c, i)
  }

  method DetectCommunities(nodes: seq<Node>, arcs: seq<Arc>)
    returns (r: Report, improved: bool, ghost history: seq<seq<nat>>, ghost passes: seq<seq<seq<nat>>>)
    requires forall a | a in arcs :: a.src < |nodes| && a.tgt < |nodes|
    ensures Faithful(nodes, arcs, r)
    ensures Bounded(|nodes|, Weights(arcs), r.modularity, |r.communities|)
    ensures Run(|nodes|, Weights(arcs), history) && |history| <= Power(|nodes|, |nodes|)
    ensures Renumbered(history[|history| - 1], r.labels, |r.communities|)
    ensures nodes != [] ==> SweptOut(|nodes|, Weights(arcs), Identity(|nodes|), passes, history, improved)
    ensures !improved ==> AllSettled(|nodes|, Weights(arcs), history[|history| - 1])
    ensures improved ==> 100 < Power(|nodes|, |nodes|)
  {
    WeightsFormNetwork(arcs);
    if nodes == [] {
      r, improved, history, passes := Report([], [], 0.0), false, [[]], [];
      EmptyGraph(nodes, arcs);
    } else {
      r, improved, history, passes := DetectInGraph(nodes, arcs);
      Conclude(nodes, arcs, history, r);
      HistoryBound(|nodes|, Weights(arcs), history);
    }
  }

  lemma HistoryBound(n: nat, w: (int, int) -> real, history: seq<seq<nat>>)
    requires Run(n, w, history)
    ensures |history| <= Power(n, n)
  {
    NeverRevisits(n, w, history);
  }

  /** The labels and lists are those of the last assignment, and the value is its modularity. */
  ghost predicate Reported(nodes: seq<Node>, arcs: seq<Arc>, history: seq<seq<nat>>, r: Report) {
    var n, w, k := |nodes|, Weights(arcs), |r.communities|;
    && Run(n, w, history)
    && Renumbered(history[|history| - 1], r.labels, k)
    && r.modularity == Q(n, w, r.labels)
    && (forall x | 0 <= x < k :: r.communities[x] == Members(Names(nodes), r.labels, x))
    && multiset(Flatten(r.communities)) == multiset(Names(nodes))
  }

  method DetectInGraph(nodes: seq<Node>, arcs: seq<Arc>)
    returns (r: Report, improved: bool, ghost history: seq<seq<nat>>, ghost passes: seq<seq<seq<nat>>>)
    requires IsNetwork(Weights(arcs)) && forall a | a in arcs :: a.src < |nodes| && a.tgt < |nodes|
    ensures Reported(nodes, arcs, history, r)
    ensures SweptOut(|nodes|, Weights(arcs), Identity(|nodes|), passes, history, improved)
    ensures !improved ==> AllSettled(|nodes|, Weights(arcs), history[|history| - 1])
    ensures improved ==> |history| > MAX_SWEEPS
  {
    var n := |nodes|;
    ghost var w := Weights(arcs);
    var adj := BuildAdjacency(n, arcs);
    var degrees, m := Degrees(adj, n, w);
    var c;
    c, improved, history, passes := MoveFromSingletons(n, adj, degrees, m, w);
    var ids, k := Renumber(c);
    var q := FinalModularity(n, k, adj, degrees, m, ids, w);
    var lists := NodeLists(Names'(nodes), ids, k);
    r := Report(ids, lists, q);
  }

  method MoveFromSingletons(n: nat, adj: seq<seq<Entry>>, degrees: seq<real>, m: real, ghost w: (int, int) -> real)
    returns (c: seq<nat>, improved: bool, ghost history: seq<seq<nat>>, ghost passes: seq<seq<seq<nat>>>)
    requires IsNetwork(w) && Adjacency(adj, n, w)
    requires |degrees| == n && forall i | 0 <= i < n :: degrees[i] == Degree(n, w, i)
    requires m == Volume(n, w) / 2.0
    ensures Run(n, w, history) && c == history[|history| - 1]
    ensures SweptOut(n, w, Identity(n), passes, history, improved)
    ensures !improved ==> AllSettled(n, w, c)
    ensures improved ==> |history| > MAX_SWEEPS
  {
    var community := new nat[n](i => i);
    ghost var start := community[..];
    var sumTot := new real[n](i requires 0 <= i < n => degrees[i]);
    var sumIn := InsideWeights(n, n, adj, community[..], w);
    SingletonSums(n, w, start);
    assert Tracked(n, w, community[..], sumIn[..], sumTot[..]);
    assert start == Identity(n);
    improved, history, passes := LocalMove(n, adj, degrees, m, community, sumIn, sumTot, w);
    c := community[..];
  }

  lemma Conclude(nodes: seq<Node>, arcs: seq<Arc>, history: seq<seq<nat>>, r: Report)
    requires IsNetwork(Weights(arcs)) && Reported(nodes, arcs, history, r)
    ensures Faithful(nodes, arcs, r)
    ensures Bounded(|nodes|, Weights(arcs), r.modularity, |r.communities|)
    ensures Run(|nodes|, Weights(arcs), history) && Renumbered(history[|history| - 1], r.labels, |r.communities|)
  {
    var n, w, ids, k := |nodes|, Weights(arcs), r.labels, |r.communities|;
    var c := history[|history| - 1];
    RenumberedModularity(n, w, c, ids);
    assert history[0] == Identity(n);
    Climbed(n, w, history);
    forall x | 0 <= x < k ensures r.communities[x] != [] { MembersNonEmpty(Names(nodes), ids, x); }
    forall x, y | 0 <= x < n && 0 <= y < n && ids[x] == ids[y] ensures Connected(n, w, x, y) {
      assert c[x] == c[y];
    }
    LowerBound(n, w, ids, k);
    if Volume(n, w) > 0.0 { UpperBound(n, w, ids, k); }
  }

  function Names'(nodes: seq<Node>): (names: seq<string>)
    ensures names == Names(nodes)
  {
    seq(|nodes|, i requires 0 <= i < |nodes| => nodes[i].id)
  }

  lemma Climbed(n: nat, w: (int, int) -> real, history: seq<seq<nat>>)
    requires Climbs(n, w, history) && |history| > 0
    ensures Q(n, w, history[0]) <= Q(n, w, history[|history| - 1])
  {
    if |history| > 1 { ClimbsFar(n, w, history, 0, |history| - 1); }
  }

  /** At the start every community is one node: its degree sum is the node's degree. */
  lemma SingletonSums(n: nat, w: (int, int) -> real, c: seq<nat>)
    requires |c| == n && forall i | 0 <= i < n :: c[i] == i
    ensures forall x | 0 <= x < n :: DegreeSum(n, w, c, x) == Degree(n, w, x)
  {
    forall x | 0 <= x < n ensures DegreeSum(n, w, c, x) == Degree(n, w, x) {
      SumSpike(n, x, Degree(n, w, x));
      SumExt(n, (i: int) => if At(c, i) == x then Degree(n, w, i) else 0.0,
                (i: int) => if i == x then Degree(n, w, x) else 0.0);
    }
  }

  lemma EmptyGraph(nodes: seq<Node>, arcs: seq<Arc>)
    requires nodes == []
    ensures Faithful(nodes, arcs, Report([], [], 0.0))
    ensures Bounded(|nodes|, Weights(arcs), 0.0, 0) && AllSettled(|nodes|, Weights(arcs), [])
    ensures Run(|nodes|, Weights(arcs), [[]]) && Renumbered([], [], 0) && Power(|nodes|, |nodes|) == 1
  {
    assert Q(0, Weights(arcs), Identity(0)) == 0.0 && Volume(0, Weights(arcs)) == 0.0;
  }
}
