/** The closed-form gain of one move is exactly the change of modularity. */
module ModularityGain {
  import opened RealSums
  import opened Modularity

  /** Modularity as one inside term and one degree term. */
  lemma QSplit(n: nat, w: (int, int) -> real, c: seq<nat>)
    requires Volume(n, w) > 0.0
    ensures Q(n, w, c)
         == Excess(Volume(n, w), Related(n, Same, w, c), Related(n, Same, DegreeProduct(n, w), c))
  {
    ExcessSum(n, Volume(n, w), w, DegreeProduct(n, w), c);
  }

  lemma ExcessSum(n: nat, v: real, weight: (int, int) -> real, kernel: (int, int) -> real, c: seq<nat>)
    requires v > 0.0
    ensures Sum2(n, n, (i: int, j: int) => if At(c, i) == At(c, j) then Excess(v, weight(i, j), kernel(i, j)) else 0.0)
         == Excess(v, Related(n, Same, weight, c), Related(n, Same, kernel, c))
  {
    var inside := (i: int, j: int) => if Same.Holds(At(c, i), At(c, j)) then weight(i, j) else 0.0;
    var degrees := (i: int, j: int) => if Same.Holds(At(c, i), At(c, j)) then kernel(i, j) else 0.0;
    var pair := (i: int, j: int) => if At(c, i) == At(c, j) then Excess(v, weight(i, j), kernel(i, j)) else 0.0;
    var r1, r2 := ExcessFactors(v);
    forall i, j | 0 <= i < n && 0 <= j < n ensures pair(i, j) == r1 * inside(i, j) + r2 * degrees(i, j) {
      assert Same.Holds(At(c, i), At(c, j)) <==> At(c, i) == At(c, j);
      assert pair(i, j) == Excess(v, inside(i, j), degrees(i, j));
    }
    Sum2Linear(n, n, r1, inside, r2, degrees, pair);
    assert Sum2(n, n, pair) == Excess(v, Sum2(n, n, inside), Sum2(n, n, degrees));
  }

  /** The excess is linear in the weight and the degree product. */
  lemma ExcessFactors(v: real) returns (r1: real, r2: real)
    requires v > 0.0
    ensures forall a, b :: Excess(v, a, b) == r1 * a + r2 * b
    ensures Excess(v, 0.0, 0.0) == 0.0
  {
    r1, r2 := 1.0 / v, -1.0 / Square(v);
    forall a, b ensures Excess(v, a, b) == r1 * a + r2 * b {
      Reciprocals(v, a, b);
    }
    Reciprocals(v, 0.0, 0.0);
  }

  lemma Reciprocals(v: real, a: real, b: real)
    requires v > 0.0
    ensures (1.0 / v) * a == a / v && (-1.0 / Square(v)) * b == -(b / Square(v))
  {
    RecipTimes(v, a);
    RecipTimes(Square(v), b);
    assert -1.0 / Square(v) == -(1.0 / Square(v));
  }

  lemma RecipTimes(v: real, a: real)
    requires v > 0.0
    ensures (1.0 / v) * a == a / v
  {
    var r := 1.0 / v;
    assert r * v == 1.0;
    assert (r * a) * v == (r * v) * a == a;
  }

  /** How a move changes the inside term of modularity. */
  lemma InsideTermMove(n: nat, w: (int, int) -> real, c: seq<nat>, i: nat, b: nat)
    requires IsNetwork(w)
    requires i < n == |c| && b != c[i]
    ensures Related(n, Same, w, c[i := b]) == Related(n, Same, w, c)
              + 2.0 * (LinkWeight(n, w, c, i, b) - LinkWeight(n, w, c, i, c[i]))
  {
    RelatedMove(n, Same, w, c, i, b);
    PullIsLink(n, w, c, i, b);
    PullIsLink(n, w, c, i, c[i]);
  }

  /** How a move changes the degree term of modularity. */
  lemma DegreeTermMove(n: nat, w: (int, int) -> real, c: seq<nat>, i: nat, b: nat)
    requires i < n == |c| && b != c[i]
    ensures Related(n, Same, DegreeProduct(n, w), c[i := b]) == Related(n, Same, DegreeProduct(n, w), c)
              + 2.0 * (Degree(n, w, i) * DegreeSum(n, w, c, b)
                       - Degree(n, w, i) * (DegreeSum(n, w, c, c[i]) - Degree(n, w, i)))
  {
    RelatedMove(n, Same, DegreeProduct(n, w), c, i, b);
    PullDegrees(n, w, c, i, b);
    PullDegrees(n, w, c, i, c[i]);
  }

  /** The program's closed-form gain is exactly the change of modularity. */
  lemma GainIsExact(n: nat, w: (int, int) -> real, c: seq<nat>, i: nat, b: nat)
    requires IsNetwork(w)
    requires i < n == |c| && b != c[i]
    ensures Q(n, w, c[i := b]) - Q(n, w, c) == Gain(n, w, c, i, b)
  {
    var v := Volume(n, w);
    if v > 0.0 {
      QSplit(n, w, c);
      QSplit(n, w, c[i := b]);
      InsideTermMove(n, w, c, i, b);
      DegreeTermMove(n, w, c, i, b);
      GainAlgebra(v, Related(n, Same, w, c), Related(n, Same, DegreeProduct(n, w), c),
                  LinkWeight(n, w, c, i, b), LinkWeight(n, w, c, i, c[i]), Degree(n, w, i),
                  DegreeSum(n, w, c, c[i]), DegreeSum(n, w, c, b));
    }
  }

  lemma GainAlgebra(v: real, inside: real, degrees: real, linkB: real, linkA: real, ki: real, dA: real, dB: real)
    requires v > 0.0
    ensures Excess(v, inside + 2.0 * (linkB - linkA), degrees + 2.0 * (ki * dB - ki * (dA - ki)))
            - Excess(v, inside, degrees)
         == (linkB - linkA) / (v / 2.0) + ki * (dA - dB - ki) / (2.0 * (v / 2.0) * (v / 2.0))
  {
    var x, y := linkB - linkA, ki * (dA - dB - ki);
    assert ki * dB - ki * (dA - ki) == -y;
    ExcessDifference(v, inside, degrees, 2.0 * x, -2.0 * y);
    assert 2.0 * (v / 2.0) * (v / 2.0) == Square(v) / 2.0;
    Halve(x, v);
    Halve(y, Square(v));
  }

  lemma ExcessDifference(v: real, a: real, b: real, da: real, db: real)
    requires v > 0.0
    ensures Excess(v, a + da, b + db) - Excess(v, a, b) == da / v + (-db) / Square(v)
  {
    DivDifference(a, da, v);
    DivDifference(b, db, Square(v));
  }

  lemma DivDifference(a: real, b: real, d: real)
    requires d > 0.0
    ensures (a + b) / d - a / d == b / d && (-b) / d == -(b / d)
  {
  }

  lemma Halve(x: real, d: real)
    requires d > 0.0
    ensures (2.0 * x) / d == x / (d / 2.0)
  {
    DivScale(x, d / 2.0, 2.0);
  }

  lemma DivScale(a: real, d: real, k: real)
    requires d != 0.0 && k != 0.0
    ensures k * d != 0.0
    ensures (k * a) / (k * d) == a / d
  {
    var q := a / d;
    assert q * d == a;
    assert q * (k * d) == k * a;
  }
}
