/** The weighted undirected network that community detection reads off the graph's edges. */
module EdgeWeights {
  import opened GraphTypes
  import opened RealSums
  import opened Modularity

  ghost predicate Joins(a: Arc, i: int, j: int) {
    a.src != a.tgt && ((a.src == i && a.tgt == j) || (a.src == j && a.tgt == i))
  }

  /** The summed weight of all edges between i and j, in either direction; self-loops never count. */
  ghost function PairWeight(arcs: seq<Arc>, i: int, j: int): real {
    if arcs == [] then 0.0 else
      var a := arcs[|arcs| - 1];
      PairWeight(arcs[..|arcs| - 1], i, j) + (if Joins(a, i, j) then a.edge.edgeType.CommunityWeight() else 0.0)
  }

  ghost function Weights(arcs: seq<Arc>): (int, int) -> real {
    (i: int, j: int) => PairWeight(arcs, i, j)
  }

  lemma {:induction false} PairWeightFacts(arcs: seq<Arc>, i: int, j: int)
    ensures PairWeight(arcs, i, j) == PairWeight(arcs, j, i)
    ensures PairWeight(arcs, i, j) >= 0.0
    ensures PairWeight(arcs, i, i) == 0.0
    ensures PairWeight(arcs, i, j) > 0.0 <==> exists a | a in arcs :: Joins(a, i, j)
  {
    if arcs == [] {
    } else {
      var rest, last := arcs[..|arcs| - 1], arcs[|arcs| - 1];
      PairWeightFacts(rest, i, j);
      assert arcs == rest + [last];
      if Joins(last, i, j) { assert last in arcs; }
      if a :| a in arcs && Joins(a, i, j) { assert a in rest || a == last; }
    }
  }

  /** The edges of one type between i and j, in either direction, by number. */
  ghost function Joining(arcs: seq<Arc>, i: int, j: int, t: EdgeType): set<nat> {
    set k: nat | k < |arcs| && Joins(arcs[k], i, j) && arcs[k].edge.edgeType == t
  }

  lemma JoiningStep(arcs: seq<Arc>, i: int, j: int, t: EdgeType)
    requires arcs != []
    ensures var last := arcs[|arcs| - 1];
      |Joining(arcs, i, j, t)| == |Joining(arcs[..|arcs| - 1], i, j, t)|
                                  + (if Joins(last, i, j) && last.edge.edgeType == t then 1 else 0)
  {
    var k, front := |arcs| - 1, Joining(arcs[..|arcs| - 1], i, j, t);
    JoiningLast(arcs, i, j, t);
    assert k !in front;
  }

  lemma JoiningLast(arcs: seq<Arc>, i: int, j: int, t: EdgeType)
    requires arcs != []
    ensures var k := |arcs| - 1;
      Joining(arcs, i, j, t)
      == Joining(arcs[..k], i, j, t) + (if Joins(arcs[k], i, j) && arcs[k].edge.edgeType == t then {k} else {})
  {
    var k, all, front := |arcs| - 1, Joining(arcs, i, j, t), Joining(arcs[..|arcs| - 1], i, j, t);
    forall l: nat ensures l in all <==> l in front || (l == k && Joins(arcs[k], i, j) && arcs[k].edge.edgeType == t) {
      assert l < k ==> arcs[..k][l] == arcs[l];
    }
  }

  /** What an edge adds to the weight between its ends depends on its type. */
  lemma {:induction false} WeightsByType(arcs: seq<Arc>, i: int, j: int)
    ensures Weights(arcs)(i, j)
         == 1.0 * |Joining(arcs, i, j, RelatesTo)| as real + 0.8 * |Joining(arcs, i, j, Resolves)| as real
            + 0.6 * |Joining(arcs, i, j, Supersedes)| as real + 0.3 * |Joining(arcs, i, j, Refutes)| as real
  {
    if arcs == [] {
    } else {
      WeightsByType(arcs[..|arcs| - 1], i, j);
      JoiningStep(arcs, i, j, RelatesTo);
      JoiningStep(arcs, i, j, Resolves);
      JoiningStep(arcs, i, j, Supersedes);
      JoiningStep(arcs, i, j, Refutes);
    }
  }

  lemma WeightsFormNetwork(arcs: seq<Arc>)
    ensures IsNetwork(Weights(arcs))
  {
    var w := Weights(arcs);
    forall i: int, j: int ensures w(i, j) == w(j, i) && w(i, j) >= 0.0 && w(i, i) == 0.0 {
      PairWeightFacts(arcs, i, j);
    }
  }

  // ---------- Connectivity ----------

  ghost predicate Path(n: nat, w: (int, int) -> real, p: seq<nat>, x: nat, y: nat) {
    && |p| > 0 && p[0] == x && p[|p| - 1] == y
    && (forall t | 0 <= t < |p| :: p[t] < n)
    && (forall t | 0 < t < |p| :: w(p[t - 1], p[t]) > 0.0)
  }

  ghost predicate Connected(n: nat, w: (int, int) -> real, x: nat, y: nat) {
    exists p: seq<nat> :: Path(n, w, p, x, y)
  }

  lemma ConnectedSelf(n: nat, w: (int, int) -> real, x: nat)
    requires x < n
    ensures Connected(n, w, x, x)
  {
    assert Path(n, w, [x], x, x);
  }

  lemma ConnectedStep(n: nat, w: (int, int) -> real, x: nat, y: nat, z: nat)
    requires Connected(n, w, x, y) && w(y, z) > 0.0 && z < n
    ensures Connected(n, w, x, z)
  {
    var p :| Path(n, w, p, x, y);
    assert Path(n, w, p + [z], x, z);
  }

  lemma ConnectedSymmetric(n: nat, w: (int, int) -> real, x: nat, y: nat)
    requires IsNetwork(w) && Connected(n, w, x, y)
    ensures Connected(n, w, y, x)
  {
    var p :| Path(n, w, p, x, y);
    var q: seq<nat> := seq(|p|, t requires 0 <= t < |p| => p[|p| - 1 - t]);
    forall t | 0 < t < |q| ensures w(q[t - 1], q[t]) > 0.0 {
      assert w(p[|p| - 1 - t], p[|p| - t]) > 0.0;
    }
    assert Path(n, w, q, y, x);
  }

  /** Nodes of one community are connected: no community spans two components. */
  ghost predicate Cohesive(n: nat, w: (int, int) -> real, c: seq<nat>) {
    |c| == n && forall x, y | 0 <= x < n && 0 <= y < n && c[x] == c[y] :: Connected(n, w, x, y)
  }

  /** Moving a node into the community of one of its neighbours keeps every community connected. */
  lemma MoveKeepsCohesive(n: nat, w: (int, int) -> real, c: seq<nat>, i: nat, j: nat)
    requires IsNetwork(w) && Cohesive(n, w, c)
    requires i < n && j < n && w(i, j) > 0.0
    ensures Cohesive(n, w, c[i := c[j]])
  {
    var d := c[i := c[j]];
    forall x | 0 <= x < n && c[x] == c[j] ensures Connected(n, w, x, i) && Connected(n, w, i, x) {
      assert w(j, i) > 0.0;
      ConnectedStep(n, w, x, j, i);
      ConnectedSymmetric(n, w, x, i);
    }
    ConnectedSelf(n, w, i);
    forall x, y | 0 <= x < n && 0 <= y < n && d[x] == d[y] ensures Connected(n, w, x, y) { }
  }

  lemma SingletonsCohesive(n: nat, w: (int, int) -> real, c: seq<nat>)
    requires |c| == n && forall i | 0 <= i < n :: c[i] == i
    ensures Cohesive(n, w, c)
  {
    forall x, y | 0 <= x < n && 0 <= y < n && c[x] == c[y] ensures Connected(n, w, x, y) {
      ConnectedSelf(n, w, x);
    }
  }

  // ---------- Adjacency rows ----------

  type Entry = (nat, real)

  /** The summed weight of the entries for neighbour j. */
  ghost function SumKey(s: seq<Entry>, j: int): real {
    if s == [] then 0.0 else
      SumKey(s[..|s| - 1], j) + (if s[|s| - 1].0 == j then s[|s| - 1].1 else 0.0)
  }

  ghost predicate HasKey(s: seq<Entry>, j: int) {
    exists e | e in s :: e.0 == j
  }

  /** A row of the adjacency list: each neighbour once, with the summed weight. */
  ghost predicate Row(s: seq<Entry>, n: nat, w: (int, int) -> real, i: nat) {
    && (forall a, b | 0 <= a < b < |s| :: s[a].0 != s[b].0)
    && (forall e | e in s :: e.0 < n && e.1 == w(i, e.0) && e.1 > 0.0)
    && (forall j: int | 0 <= j < n && !HasKey(s, j) :: w(i, j) == 0.0)
  }

  ghost predicate Adjacency(adj: seq<seq<Entry>>, n: nat, w: (int, int) -> real) {
    |adj| == n && forall i | 0 <= i < n :: Row(adj[i], n, w, i)
  }

  /** The sum of g over the neighbours listed in s. */
  ghost function Fold(s: seq<Entry>, g: int -> real): real {
    if s == [] then 0.0 else Fold(s[..|s| - 1], g) + g(s[|s| - 1].0)
  }

  lemma {:induction false} FoldExt(s: seq<Entry>, g: int -> real, h: int -> real)
    requires forall e | e in s :: g(e.0) == h(e.0)
    ensures Fold(s, g) == Fold(s, h)
  {
    if s == [] {
    } else {
      assert s[|s| - 1] in s;
      FoldExt(s[..|s| - 1], g, h);
    }
  }

  /** Summing over a row is summing over all nodes, when non-neighbours contribute nothing. */
  lemma {:induction false} FoldIsSum(s: seq<Entry>, n: nat, g: int -> real)
    requires forall a, b | 0 <= a < b < |s| :: s[a].0 != s[b].0
    requires forall e | e in s :: e.0 < n
    requires forall j: int | 0 <= j < n && !HasKey(s, j) :: g(j) == 0.0
    ensures Fold(s, g) == Sum(n, g)
  {
    if s == [] {
      SumConst(n, 0.0, g);
    } else {
      var rest, last := s[..|s| - 1], s[|s| - 1];
      var h := (j: int) => if j == last.0 then 0.0 else g(j);
      assert last in s && s == rest + [last];
      forall j: int | 0 <= j < n && !HasKey(rest, j) ensures h(j) == 0.0 {
        if HasKey(s, j) { var e :| e in s && e.0 == j; assert e in rest || e == last; }
      }
      FoldIsSum(rest, n, h);
      forall e | e in rest ensures g(e.0) == h(e.0) {
        var a :| 0 <= a < |rest| && rest[a] == e;
        assert s[a].0 != s[|s| - 1].0;
      }
      FoldExt(rest, g, h);
      SumPoint(n, last.0, h, g);
    }
  }
}
