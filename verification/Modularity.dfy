/**
 * The mathematics behind community detection: Newman's modularity of an assignment of nodes to
 * communities in a weighted undirected network, its change under one move, and its bounds.
 */
module Modularity {
  import opened RealSums

  /** A symmetric, non-negative weight function without self-loops. */
  ghost predicate IsNetwork(w: (int, int) -> real) {
    && (forall i, j :: w(i, j) == w(j, i))
    && (forall i, j :: w(i, j) >= 0.0)
    && (forall i :: w(i, i) == 0.0)
  }

  /** The community of node i, -1 outside the assignment. */
  ghost function At(c: seq<nat>, i: int): int {
    if 0 <= i < |c| then c[i] else -1
  }

  ghost function Degree(n: nat, w: (int, int) -> real, i: int): real {
    Sum(n, (j: int) => w(i, j))
  }

  /** The sum of all degrees, twice the total edge weight. */
  ghost function Volume(n: nat, w: (int, int) -> real): real {
    Sum(n, (i: int) => Degree(n, w, i))
  }

  /** Newman's modularity: over all ordered pairs of nodes in one community, actual minus expected weight. */
  ghost function Q(n: nat, w: (int, int) -> real, c: seq<nat>): real {
    var v := Volume(n, w);
    if v > 0.0 then
      Sum2(n, n, (i: int, j: int) =>
        if At(c, i) == At(c, j) then Excess(v, w(i, j), DegreeProduct(n, w)(i, j)) else 0.0)
    else 0.0
  }

  /** The weight of a pair beyond what two nodes of these degrees would get by chance. */
  ghost function Excess(v: real, weight: real, degreeProduct: real): real
    requires v > 0.0
  {
    weight / v - degreeProduct / Square(v)
  }

  ghost function Times(a: real, b: real): (p: real)
    ensures a > 0.0 && b > 0.0 ==> p > 0.0
  {
    a * b
  }

  ghost function Square(v: real): (s: real)
    ensures v > 0.0 ==> s > 0.0
    ensures s == v * v
  {
    Times(v, v)
  }

  /** The sum of the kernel over the ordered pairs whose communities are related by rel. */
  ghost function Related(n: nat, rel: Relation, kernel: (int, int) -> real, c: seq<nat>): real {
    Sum2(n, n, (i: int, j: int) => if rel.Holds(At(c, i), At(c, j)) then kernel(i, j) else 0.0)
  }

  /** How the communities p and q of an ordered pair of nodes may be related. */
  datatype Relation = Same | Apart | Both(x: int) | Leaving(x: int) {
    ghost predicate Holds(p: int, q: int) {
      match this
      case Same => p == q
      case Apart => p != q
      case Both(x) => p == x && q == x
      case Leaving(x) => p == x && q != x
    }
  }

  ghost function DegreeProduct(n: nat, w: (int, int) -> real): (int, int) -> real {
    (i: int, j: int) => Degree(n, w, i) * Degree(n, w, j)
  }

  /** The kernel between node i and the other nodes whose community is related to x. */
  ghost function Pull(n: nat, rel: Relation, kernel: (int, int) -> real, c: seq<nat>, i: int, x: int): real {
    Sum(n, (y: int) => if y != i && rel.Holds(x, At(c, y)) then kernel(i, y) else 0.0)
  }

  /** The degree sum of community x. */
  ghost function DegreeSum(n: nat, w: (int, int) -> real, c: seq<nat>, x: int): real {
    Sum(n, (i: int) => if At(c, i) == x then Degree(n, w, i) else 0.0)
  }

  /** The weight inside community x, each undirected edge counted once. */
  ghost function InsideWeight(n: nat, w: (int, int) -> real, c: seq<nat>, x: int): real {
    Sum2(n, n, InsideKernel(w, c, x))
  }

  ghost function InsideKernel(w: (int, int) -> real, c: seq<nat>, x: int): (int, int) -> real {
    (i: int, j: int) => if i < j && At(c, i) == x && At(c, j) == x then w(i, j) else 0.0
  }

  /** The weight between node i and community x. */
  ghost function LinkWeight(n: nat, w: (int, int) -> real, c: seq<nat>, i: int, x: int): real {
    Sum(n, (y: int) => if At(c, y) == x then w(i, y) else 0.0)
  }

  /** The gain the program computes for moving node i from its community to b. */
  ghost function Gain(n: nat, w: (int, int) -> real, c: seq<nat>, i: nat, b: nat): real
    requires i < |c|
  {
    MoveDelta(Volume(n, w) / 2.0, LinkWeight(n, w, c, i, b), LinkWeight(n, w, c, i, c[i]), Degree(n, w, i),
              DegreeSum(n, w, c, c[i]), DegreeSum(n, w, c, b))
  }

  /** The closed form: m is the total weight, k the node's degree, the links go to the new and the old community. */
  function MoveDelta(m: real, linkNew: real, linkOld: real, k: real, degreesOld: real, degreesNew: real): real {
    if m > 0.0 then (linkNew - linkOld) / m + k * (degreesOld - degreesNew - k) / (2.0 * m * m) else 0.0
  }

  // ---------- One move ----------

  /** Moving node i changes a related sum by twice the change of i's pull. */
  lemma RelatedMove(n: nat, rel: Relation, kernel: (int, int) -> real, c: seq<nat>, i: nat, b: nat)
    requires i < n == |c|
    requires forall p, q :: rel.Holds(p, q) == rel.Holds(q, p)
    requires forall x, y :: kernel(x, y) == kernel(y, x)
    requires rel.Holds(b, b) == rel.Holds(c[i], c[i]) || kernel(i, i) == 0.0
    ensures Related(n, rel, kernel, c[i := b])
         == Related(n, rel, kernel, c)
            + 2.0 * (Pull(n, rel, kernel, c, i, b) - Pull(n, rel, kernel, c, i, c[i]))
  {
    var a, d := c[i], c[i := b];
    var before := (x: int, y: int) => if rel.Holds(At(c, x), At(c, y)) then kernel(x, y) else 0.0;
    var after := (x: int, y: int) => if rel.Holds(At(d, x), At(d, y)) then kernel(x, y) else 0.0;
    var toB := (y: int) => if y != i && rel.Holds(b, At(c, y)) then kernel(i, y) else 0.0;
    var toA := (y: int) => if y != i && rel.Holds(a, At(c, y)) then kernel(i, y) else 0.0;
    var delta := (y: int) => toB(y) - toA(y);
    SumAdd(n, toA, delta, toB);
    var total := Sum(n, delta);
    var rowBefore := (x: int) => Sum(n, (y: int) => before(x, y));
    var rowAfter := (x: int) => Sum(n, (y: int) => after(x, y));
    var spike := (x: int) => if x == i then total else 0.0;
    var rowDelta := (x: int) => delta(x) + spike(x);
    forall x | 0 <= x < n ensures rowAfter(x) == rowBefore(x) + rowDelta(x) {
      if x == i {
        SumAdd(n, (y: int) => before(i, y), delta, (y: int) => after(i, y));
      } else {
        SumPoint(n, i, (y: int) => before(x, y), (y: int) => after(x, y));
      }
    }
    SumAdd(n, rowBefore, rowDelta, rowAfter);
    SumAdd(n, delta, spike, rowDelta);
    SumSpike(n, i, total);
    SumExt(n, spike, (x: int) => if x == i then total else 0.0);
    Sum2Rows(n, n, before, rowBefore);
    Sum2Rows(n, n, after, rowAfter);
    assert Related(n, rel, kernel, c) == Sum(n, rowBefore);
    assert Related(n, rel, kernel, d) == Sum(n, rowAfter);
  }

  lemma SumSpike(n: nat, i: nat, v: real)
    requires i < n
    ensures Sum(n, (x: int) => if x == i then v else 0.0) == v
  {
    SumConst(n, 0.0, (x: int) => 0.0);
    SumPoint(n, i, (x: int) => 0.0, (x: int) => if x == i then v else 0.0);
  }

  /** Without self-loops, a node's pull is its link weight. */
  lemma PullIsLink(n: nat, w: (int, int) -> real, c: seq<nat>, i: nat, x: int)
    requires IsNetwork(w)
    ensures Pull(n, Same, w, c, i, x) == LinkWeight(n, w, c, i, x)
  {
    SumExt(n, (y: int) => if y != i && Same.Holds(x, At(c, y)) then w(i, y) else 0.0,
              (y: int) => if At(c, y) == x then w(i, y) else 0.0);
  }

  lemma PullInside(n: nat, w: (int, int) -> real, c: seq<nat>, i: nat, x: int, p: int)
    requires IsNetwork(w)
    ensures Pull(n, Both(x), w, c, i, p) == if p == x then LinkWeight(n, w, c, i, x) else 0.0
  {
    var pull := (y: int) => if y != i && Both(x).Holds(p, At(c, y)) then w(i, y) else 0.0;
    if p == x {
      SumExt(n, pull, (y: int) => if At(c, y) == x then w(i, y) else 0.0);
    } else {
      SumConst(n, 0.0, pull);
    }
  }

  /** In the degree kernel, a node's pull is its degree times the others' degree sum. */
  lemma PullDegrees(n: nat, w: (int, int) -> real, c: seq<nat>, i: nat, x: int)
    requires i < n == |c|
    ensures Pull(n, Same, DegreeProduct(n, w), c, i, x)
         == Degree(n, w, i) * (DegreeSum(n, w, c, x) - (if c[i] == x then Degree(n, w, i) else 0.0))
  {
    var ki, d := Degree(n, w, i), (y: int) => Degree(n, w, y);
    PullOfProduct(n, ki, d, DegreeProduct(n, w), c, i, x);
    SumExt(n, (y: int) => if At(c, y) == x then d(y) else 0.0,
           (y: int) => if At(c, y) == x then Degree(n, w, y) else 0.0);
  }

  lemma PullOfProduct(n: nat, ki: real, d: int -> real, kernel: (int, int) -> real, c: seq<nat>, i: nat, x: int)
    requires i < n == |c|
    requires forall y :: kernel(i, y) == ki * d(y)
    ensures Pull(n, Same, kernel, c, i, x)
         == ki * (Sum(n, (y: int) => if At(c, y) == x then d(y) else 0.0) - (if c[i] == x then d(i) else 0.0))
  {
    var all := (y: int) => if At(c, y) == x then d(y) else 0.0;
    var others := (y: int) => if y == i then 0.0 else all(y);
    var pulled := (y: int) => if y != i && Same.Holds(x, At(c, y)) then kernel(i, y) else 0.0;
    SumPoint(n, i, others, all);
    forall y | 0 <= y < n ensures pulled(y) == ki * others(y) {
      assert Same.Holds(x, At(c, y)) <==> x == At(c, y);
    }
    SumScale(n, ki, others, pulled);
    assert At(c, i) == c[i];
  }

  /** The degree sums after a move: the node's degree goes from one community to the other. */
  lemma DegreeSumMove(n: nat, w: (int, int) -> real, c: seq<nat>, i: nat, b: nat, x: int)
    requires i < n == |c| && b != c[i]
    ensures DegreeSum(n, w, c[i := b], x) == DegreeSum(n, w, c, x)
              + (if x == b then Degree(n, w, i) else if x == c[i] then -Degree(n, w, i) else 0.0)
  {
    SumPoint(n, i, (y: int) => if At(c, y) == x then Degree(n, w, y) else 0.0,
                   (y: int) => if At(c[i := b], y) == x then Degree(n, w, y) else 0.0);
  }

  lemma InsideIsHalf(n: nat, w: (int, int) -> real, c: seq<nat>, x: int)
    requires IsNetwork(w)
    ensures Related(n, Both(x), w, c) == 2.0 * InsideWeight(n, w, c, x)
  {
    var whole := (i: int, j: int) => if Both(x).Holds(At(c, i), At(c, j)) then w(i, j) else 0.0;
    Sum2Upper(n, whole);
    Sum2Ext(n, n, (i: int, j: int) => if i < j then whole(i, j) else 0.0,
                  InsideKernel(w, c, x));
  }

  /** The inside weights after a move: the old community loses the node's links, the new one gains them. */
  lemma InsideMove(n: nat, w: (int, int) -> real, c: seq<nat>, i: nat, b: nat, x: int)
    requires IsNetwork(w)
    requires i < n == |c| && b != c[i]
    ensures InsideWeight(n, w, c[i := b], x) == InsideWeight(n, w, c, x)
              + (if x == b then LinkWeight(n, w, c, i, b)
                 else if x == c[i] then -LinkWeight(n, w, c, i, c[i]) else 0.0)
  {
    RelatedMove(n, Both(x), w, c, i, b);
    InsideIsHalf(n, w, c, x);
    InsideIsHalf(n, w, c[i := b], x);
    PullInside(n, w, c, i, x, b);
    PullInside(n, w, c, i, x, c[i]);
  }
}
