/** Modularity community by community: the program's final sum, and its bounds. */
module ModularityBounds {
  import opened RealSums
  import opened Modularity
  import opened ModularityGain

  /** The value the program reports for an assignment with labels below k. */
  ghost function Reported(n: nat, w: (int, int) -> real, c: seq<nat>, k: nat): real {
    var m := Volume(n, w) / 2.0;
    if m > 0.0 then Shares(k, m, n, w, c) else 0.0
  }

  /** The sum of the shares of the first k communities. */
  ghost function Shares(k: nat, m: real, n: nat, w: (int, int) -> real, c: seq<nat>): real
    requires m > 0.0
  {
    if k == 0 then 0.0 else
      Shares(k - 1, m, n, w, c) + Share(m, InsideWeight(n, w, c, k - 1), DegreeSum(n, w, c, k - 1))
  }

  /** One community's share of the reported value. */
  ghost function Share(m: real, inside: real, degrees: real): real
    requires m > 0.0
  {
    inside / m - Square(degrees / (2.0 * m))
  }

  ghost predicate Labelled(c: seq<nat>, n: nat, k: nat) {
    |c| == n && forall i | 0 <= i < n :: c[i] < k
  }

  // ---------- Summing over communities ----------

  /** The pairs of the relation that start in community x. */
  ghost function Part(whole: Relation, x: int): Relation {
    if whole == Same then Both(x) else Leaving(x)
  }

  /** The related sums of the first k communities, added up. */
  ghost function Parts(k: nat, n: nat, whole: Relation, kernel: (int, int) -> real, c: seq<nat>): real {
    if k == 0 then 0.0 else Parts(k - 1, n, whole, kernel, c) + Related(n, Part(whole, k - 1), kernel, c)
  }

  lemma {:induction false} PartsBelow(k: nat, n: nat, whole: Relation, kernel: (int, int) -> real, c: seq<nat>)
    requires whole == Same || whole == Apart
    requires |c| == n
    ensures Parts(k, n, whole, kernel, c)
         == Sum2(n, n, (i: int, j: int) =>
              if At(c, i) < k && whole.Holds(At(c, i), At(c, j)) then kernel(i, j) else 0.0)
  {
    var upTo := (i: int, j: int) => if At(c, i) < k && whole.Holds(At(c, i), At(c, j)) then kernel(i, j) else 0.0;
    if k == 0 {
      forall i, j | 0 <= i < n && 0 <= j < n ensures upTo(i, j) == 0.0 { assert At(c, i) >= 0; }
      Sum2Zero(n, n, upTo);
    } else {
      PartsBelow(k - 1, n, whole, kernel, c);
      var below := (i: int, j: int) =>
        if At(c, i) < k - 1 && whole.Holds(At(c, i), At(c, j)) then kernel(i, j) else 0.0;
      var last := (i: int, j: int) =>
        if Part(whole, k - 1).Holds(At(c, i), At(c, j)) then kernel(i, j) else 0.0;
      forall i, j | 0 <= i < n && 0 <= j < n ensures upTo(i, j) == below(i, j) + last(i, j) {
        assert Part(whole, k - 1).Holds(At(c, i), At(c, j))
          <==> At(c, i) == k - 1 && whole.Holds(At(c, i), At(c, j));
      }
      Sum2Add(n, n, below, last, upTo);
    }
  }

  /** Every related pair starts in exactly one community, so the parts add up to the whole. */
  lemma Group(k: nat, n: nat, whole: Relation, kernel: (int, int) -> real, c: seq<nat>)
    requires whole == Same || whole == Apart
    requires Labelled(c, n, k)
    ensures Parts(k, n, whole, kernel, c) == Related(n, whole, kernel, c)
  {
    PartsBelow(k, n, whole, kernel, c);
    var upTo := (i: int, j: int) => if At(c, i) < k && whole.Holds(At(c, i), At(c, j)) then kernel(i, j) else 0.0;
    var all := (i: int, j: int) => if whole.Holds(At(c, i), At(c, j)) then kernel(i, j) else 0.0;
    forall i, j | 0 <= i < n && 0 <= j < n ensures upTo(i, j) == all(i, j) {
      assert At(c, i) < k;
      assert whole.Holds(At(c, i), At(c, j)) || !whole.Holds(At(c, i), At(c, j));
    }
    Sum2Ext(n, n, upTo, all);
  }

  lemma DegreeSumSquared(n: nat, w: (int, int) -> real, c: seq<nat>, x: int)
    ensures Related(n, Both(x), DegreeProduct(n, w), c) == Square(DegreeSum(n, w, c, x))
  {
    SquaredSum(n, (y: int) => Degree(n, w, y), DegreeProduct(n, w), c, x);
    SumExt(n, (i: int) => if At(c, i) == x then Degree(n, w, i) else 0.0,
              (i: int) => if At(c, i) == x then ((y: int) => Degree(n, w, y))(i) else 0.0);
  }

  lemma SquaredSum(n: nat, d: int -> real, kernel: (int, int) -> real, c: seq<nat>, x: int)
    requires forall i, j :: kernel(i, j) == d(i) * d(j)
    ensures Related(n, Both(x), kernel, c) == Square(Sum(n, (i: int) => if At(c, i) == x then d(i) else 0.0))
  {
    var t := (i: int) => if At(c, i) == x then d(i) else 0.0;
    var h := (i: int, j: int) => if Both(x).Holds(At(c, i), At(c, j)) then kernel(i, j) else 0.0;
    forall i, j | 0 <= i < n && 0 <= j < n ensures h(i, j) == t(i) * t(j) {
      if At(c, i) == x && At(c, j) == x {
        assert h(i, j) == kernel(i, j);
      } else {
        assert h(i, j) == 0.0;
        assert t(i) == 0.0 || t(j) == 0.0;
      }
    }
    SumProduct(n, n, t, t, h);
  }

  /** The community-by-community value the program sums up is Newman's modularity. */
  lemma ReportedIsModularity(n: nat, w: (int, int) -> real, c: seq<nat>, k: nat)
    requires IsNetwork(w) && Labelled(c, n, k)
    ensures Reported(n, w, c, k) == Q(n, w, c)
  {
    if Volume(n, w) > 0.0 {
      SharesAreExcess(k, n, w, c);
      Group(k, n, Same, w, c);
      Group(k, n, Same, DegreeProduct(n, w), c);
      QSplit(n, w, c);
    }
  }

  lemma {:induction false} SharesAreExcess(k: nat, n: nat, w: (int, int) -> real, c: seq<nat>)
    requires IsNetwork(w) && Volume(n, w) > 0.0
    ensures Shares(k, Volume(n, w) / 2.0, n, w, c)
         == Excess(Volume(n, w), Parts(k, n, Same, w, c), Parts(k, n, Same, DegreeProduct(n, w), c))
  {
    if k == 0 {
    } else {
      SharesAreExcess(k - 1, n, w, c);
      InsideIsHalf(n, w, c, k - 1);
      DegreeSumSquared(n, w, c, k - 1);
      TermIsExcess(Volume(n, w), InsideWeight(n, w, c, k - 1), DegreeSum(n, w, c, k - 1));
      ExcessAdd(Volume(n, w), Parts(k - 1, n, Same, w, c), Related(n, Both(k - 1), w, c),
                Parts(k - 1, n, Same, DegreeProduct(n, w), c), Related(n, Both(k - 1), DegreeProduct(n, w), c));
    }
  }

  lemma ExcessAdd(v: real, a: real, da: real, b: real, db: real)
    requires v > 0.0
    ensures Excess(v, a + da, b + db) == Excess(v, a, b) + Excess(v, da, db)
  {
    DivDifference(a, da, v);
    DivDifference(b, db, Square(v));
  }

  lemma TermIsExcess(v: real, inside: real, degrees: real)
    requires v > 0.0
    ensures Share(v / 2.0, inside, degrees) == Excess(v, 2.0 * inside, Square(degrees))
  {
    Halve(inside, v);
    var q := degrees / v;
    assert q * v == degrees;
    assert Square(q) * Square(v) == (q * v) * (q * v);
    assert Square(q) == Square(degrees) / Square(v);
  }

  /** Only which nodes share a community matters, not the labels. */
  lemma RenumberedModularity(n: nat, w: (int, int) -> real, c: seq<nat>, d: seq<nat>)
    requires |c| == |d| == n
    requires forall i, j | 0 <= i < n && 0 <= j < n :: c[i] == c[j] <==> d[i] == d[j]
    ensures Q(n, w, c) == Q(n, w, d)
  {
    if Volume(n, w) > 0.0 {
      QSplit(n, w, c);
      QSplit(n, w, d);
      RenumberedRelated(n, w, c, d);
      RenumberedRelated(n, DegreeProduct(n, w), c, d);
    }
  }

  lemma RenumberedRelated(n: nat, kernel: (int, int) -> real, c: seq<nat>, d: seq<nat>)
    requires |c| == |d| == n
    requires forall i, j | 0 <= i < n && 0 <= j < n :: c[i] == c[j] <==> d[i] == d[j]
    ensures Related(n, Same, kernel, c) == Related(n, Same, kernel, d)
  {
    var before := (i: int, j: int) => if Same.Holds(At(c, i), At(c, j)) then kernel(i, j) else 0.0;
    var after := (i: int, j: int) => if Same.Holds(At(d, i), At(d, j)) then kernel(i, j) else 0.0;
    forall i, j | 0 <= i < n && 0 <= j < n ensures before(i, j) == after(i, j) {
      assert Same.Holds(At(c, i), At(c, j)) <==> Same.Holds(At(d, i), At(d, j));
    }
    Sum2Ext(n, n, before, after);
  }

  // ---------- Bounds ----------

  lemma RelatedNonNeg(n: nat, rel: Relation, w: (int, int) -> real, c: seq<nat>)
    requires IsNetwork(w)
    ensures Related(n, rel, w, c) >= 0.0
  {
    var zero := (i: int, j: int) => 0.0;
    Sum2Zero(n, n, zero);
    Sum2Le(n, n, zero, (i: int, j: int) => if rel.Holds(At(c, i), At(c, j)) then w(i, j) else 0.0);
  }

  /** Every pair is either inside one community or crosses between two. */
  lemma VolumeSplits(n: nat, w: (int, int) -> real, c: seq<nat>)
    ensures Volume(n, w) == Related(n, Same, w, c) + Related(n, Apart, w, c)
  {
    var same := (i: int, j: int) => if Same.Holds(At(c, i), At(c, j)) then w(i, j) else 0.0;
    var apart := (i: int, j: int) => if Apart.Holds(At(c, i), At(c, j)) then w(i, j) else 0.0;
    forall i, j | 0 <= i < n && 0 <= j < n ensures w(i, j) == same(i, j) + apart(i, j) {
      assert Same.Holds(At(c, i), At(c, j)) <==> !Apart.Holds(At(c, i), At(c, j));
    }
    Sum2Add(n, n, same, apart, w);
    Sum2Rows(n, n, w, (i: int) => Degree(n, w, i));
  }

  /** A community's degree sum is its inside weight counted twice plus its outgoing weight. */
  lemma DegreeSumSplits(n: nat, w: (int, int) -> real, c: seq<nat>, x: int)
    ensures DegreeSum(n, w, c, x) == Related(n, Both(x), w, c) + Related(n, Leaving(x), w, c)
  {
    var both := (i: int, j: int) => if Both(x).Holds(At(c, i), At(c, j)) then w(i, j) else 0.0;
    var leaving := (i: int, j: int) => if Leaving(x).Holds(At(c, i), At(c, j)) then w(i, j) else 0.0;
    var from := (i: int, j: int) => if At(c, i) == x then w(i, j) else 0.0;
    forall i, j | 0 <= i < n && 0 <= j < n ensures from(i, j) == both(i, j) + leaving(i, j) {
      assert At(c, i) == x <==> Both(x).Holds(At(c, i), At(c, j)) || Leaving(x).Holds(At(c, i), At(c, j));
      assert !(Both(x).Holds(At(c, i), At(c, j)) && Leaving(x).Holds(At(c, i), At(c, j)));
    }
    Sum2Add(n, n, both, leaving, from);
    var rows := (i: int) => if At(c, i) == x then Degree(n, w, i) else 0.0;
    forall i | 0 <= i < n ensures rows(i) == Sum(n, (j: int) => from(i, j)) {
      if At(c, i) == x {
        SumExt(n, (j: int) => from(i, j), (j: int) => w(i, j));
      } else {
        SumConst(n, 0.0, (j: int) => from(i, j));
      }
    }
    Sum2Rows(n, n, from, rows);
  }

  /** What leaves one community enters the others, so it is at most half of all crossing pairs. */
  lemma OutgoingAtMostHalf(n: nat, w: (int, int) -> real, c: seq<nat>, x: int)
    requires IsNetwork(w)
    ensures 2.0 * Related(n, Leaving(x), w, c) <= Related(n, Apart, w, c)
  {
    var out := (i: int, j: int) => if Leaving(x).Holds(At(c, i), At(c, j)) then w(i, j) else 0.0;
    var back := (i: int, j: int) => out(j, i);
    var both := (i: int, j: int) => out(i, j) + back(i, j);
    var apart := (i: int, j: int) => if Apart.Holds(At(c, i), At(c, j)) then w(i, j) else 0.0;
    Sum2Swap(n, n, out, back);
    Sum2Add(n, n, out, back, both);
    forall i, j | 0 <= i < n && 0 <= j < n ensures both(i, j) <= apart(i, j) {
      assert Leaving(x).Holds(At(c, i), At(c, j)) ==> Apart.Holds(At(c, i), At(c, j));
      assert Leaving(x).Holds(At(c, j), At(c, i)) ==> Apart.Holds(At(c, i), At(c, j));
      assert !(Leaving(x).Holds(At(c, i), At(c, j)) && Leaving(x).Holds(At(c, j), At(c, i)));
    }
    Sum2Le(n, n, both, apart);
  }

  lemma {:induction false} PartsAreSum(k: nat, n: nat, whole: Relation, kernel: (int, int) -> real, c: seq<nat>,
                                       f: int -> real)
    requires forall x | 0 <= x < k :: f(x) == Related(n, Part(whole, x), kernel, c)
    ensures Parts(k, n, whole, kernel, c) == Sum(k, f)
  {
    if k == 0 {
    } else {
      PartsAreSum(k - 1, n, whole, kernel, c, f);
    }
  }

  lemma DegreeSumsAddUp(k: nat, n: nat, w: (int, int) -> real, c: seq<nat>, degrees: int -> real)
    requires forall x | 0 <= x < k :: degrees(x) == DegreeSum(n, w, c, x)
    ensures Sum(k, degrees) == Parts(k, n, Same, w, c) + Parts(k, n, Apart, w, c)
  {
    var inside := (x: int) => Related(n, Both(x), w, c);
    var leaving := (x: int) => Related(n, Leaving(x), w, c);
    forall x | 0 <= x < k ensures degrees(x) == inside(x) + leaving(x) { DegreeSumSplits(n, w, c, x); }
    SumAdd(k, inside, leaving, degrees);
    PartsAreSum(k, n, Same, w, c, inside);
    PartsAreSum(k, n, Apart, w, c, leaving);
  }

  lemma {:induction false} SquaresAddUp(k: nat, n: nat, w: (int, int) -> real, c: seq<nat>, degrees: int -> real,
                                        squares: int -> real)
    requires forall x | 0 <= x < k :: degrees(x) == DegreeSum(n, w, c, x)
    requires forall x | 0 <= x < k :: squares(x) == Square(degrees(x))
    ensures Sum(k, squares) == Parts(k, n, Same, DegreeProduct(n, w), c)
  {
    if k == 0 {
    } else {
      SquaresAddUp(k - 1, n, w, c, degrees, squares);
      DegreeSumSquared(n, w, c, k - 1);
    }
  }

  /** Cauchy-Schwarz over the communities' degree sums. */
  lemma SpreadDegrees(n: nat, w: (int, int) -> real, c: seq<nat>, k: nat)
    requires IsNetwork(w) && Labelled(c, n, k)
    ensures Square(Volume(n, w)) <= (k as real) * Related(n, Same, DegreeProduct(n, w), c)
  {
    var degrees := (x: int) => DegreeSum(n, w, c, x);
    var squares := (x: int) => Square(degrees(x));
    DegreesFillVolume(k, n, w, c, degrees);
    SquaresFillRelated(k, n, w, c, degrees, squares);
    SquaredMean(k, degrees, squares);
  }

  lemma SquaresFillRelated(k: nat, n: nat, w: (int, int) -> real, c: seq<nat>, degrees: int -> real,
                           squares: int -> real)
    requires Labelled(c, n, k)
    requires forall x | 0 <= x < k :: degrees(x) == DegreeSum(n, w, c, x)
    requires forall x | 0 <= x < k :: squares(x) == Square(degrees(x))
    ensures Sum(k, squares) == Related(n, Same, DegreeProduct(n, w), c)
  {
    SquaresAddUp(k, n, w, c, degrees, squares);
    Group(k, n, Same, DegreeProduct(n, w), c);
  }

  lemma DegreesFillVolume(k: nat, n: nat, w: (int, int) -> real, c: seq<nat>, degrees: int -> real)
    requires IsNetwork(w) && Labelled(c, n, k)
    requires forall x | 0 <= x < k :: degrees(x) == DegreeSum(n, w, c, x)
    ensures Sum(k, degrees) == Volume(n, w)
  {
    DegreeSumsAddUp(k, n, w, c, degrees);
    Group(k, n, Same, w, c);
    Group(k, n, Apart, w, c);
    VolumeSplits(n, w, c);
  }

  lemma SquaredMean(k: nat, degrees: int -> real, squares: int -> real)
    requires forall x | 0 <= x < k :: squares(x) == Square(degrees(x))
    ensures Square(Sum(k, degrees)) <= (k as real) * Sum(k, squares)
  {
    MeanSquare(k, degrees, squares);
  }

  /** Modularity is at most 1 - 1/k for k communities. */
  lemma UpperBound(n: nat, w: (int, int) -> real, c: seq<nat>, k: nat)
    requires IsNetwork(w) && Labelled(c, n, k) && Volume(n, w) > 0.0
    ensures k > 0 && Q(n, w, c) <= 1.0 - 1.0 / (k as real)
  {
    assert k > 0 by { if n > 0 { assert c[0] < k; } }
    SpreadDegrees(n, w, c, k);
    VolumeSplits(n, w, c);
    RelatedNonNeg(n, Apart, w, c);
    QSplit(n, w, c);
    UpperAlgebra(Volume(n, w), Related(n, Same, w, c), Related(n, Same, DegreeProduct(n, w), c), k as real);
  }

  lemma UpperAlgebra(v: real, inside: real, squares: real, k: real)
    requires v > 0.0 && k > 0.0 && inside <= v && Square(v) <= k * squares
    ensures Excess(v, inside, squares) <= 1.0 - 1.0 / k
  {
    DivLe(inside, v, v);
    var s := squares / Square(v);
    assert s * Square(v) == squares;
    assert (k * s) * Square(v) == k * squares;
    FactorLe(1.0, k * s, Square(v));
    assert 1.0 / k <= s by {
      var r := 1.0 / k;
      assert r * k == 1.0;
      FactorLe(r, s, k);
    }
  }

  lemma DivLe(a: real, b: real, d: real)
    requires d > 0.0 && a <= b
    ensures a / d <= b / d
  {
  }

  lemma FactorLe(a: real, b: real, d: real)
    requires d > 0.0 && a * d <= b * d
    ensures a <= b
  {
  }

  /** The bound of each community, with the volume and its half given. */
  lemma CommunityBounds(k: nat, n: nat, w: (int, int) -> real, c: seq<nat>, v: real, half: real,
                        inside: int -> real, leaving: int -> real, products: int -> real)
    requires IsNetwork(w) && Labelled(c, n, k) && v == Volume(n, w) && half == Volume(n, w) / 2.0
    requires forall x | 0 <= x < k ::
      && products(x) == Related(n, Both(x), DegreeProduct(n, w), c)
      && inside(x) == Related(n, Both(x), w, c) && leaving(x) == Related(n, Leaving(x), w, c)
    ensures forall x | 0 <= x < k :: AtMost(products(x), v, inside(x), half, leaving(x))
  {
    forall x | 0 <= x < k ensures AtMost(products(x), v, inside(x), half, leaving(x)) {
      CommunityBound(n, w, c, k, x);
    }
  }

  lemma ConcentratedParts(k: nat, n: nat, w: (int, int) -> real, c: seq<nat>)
    requires IsNetwork(w) && Labelled(c, n, k)
    ensures AtMost(Parts(k, n, Same, DegreeProduct(n, w), c), Volume(n, w), Parts(k, n, Same, w, c),
                   Volume(n, w) / 2.0, Parts(k, n, Apart, w, c))
  {
    var products := (x: int) => Related(n, Both(x), DegreeProduct(n, w), c);
    var inside := (x: int) => Related(n, Both(x), w, c);
    var leaving := (x: int) => Related(n, Leaving(x), w, c);
    var v, half := Volume(n, w), Volume(n, w) / 2.0;
    CommunityBounds(k, n, w, c, v, half, inside, leaving, products);
    SumLinearBound(k, v, inside, half, leaving, products);
    PartsAreSum(k, n, Same, DegreeProduct(n, w), c, products);
    PartsAreSum(k, n, Same, w, c, inside);
    PartsAreSum(k, n, Apart, w, c, leaving);
  }

  /** Modularity is at least -1/2. */
  lemma LowerBound(n: nat, w: (int, int) -> real, c: seq<nat>, k: nat)
    requires IsNetwork(w) && Labelled(c, n, k)
    ensures Q(n, w, c) >= -0.5
  {
    if Volume(n, w) > 0.0 {
      ConcentratedParts(k, n, w, c);
      Group(k, n, Same, w, c);
      Group(k, n, Apart, w, c);
      Group(k, n, Same, DegreeProduct(n, w), c);
      VolumeSplits(n, w, c);
      RelatedNonNeg(n, Same, w, c);
      QSplit(n, w, c);
      LowerAlgebra(Volume(n, w), Related(n, Same, w, c), Related(n, Apart, w, c),
                   Related(n, Same, DegreeProduct(n, w), c));
    }
  }

  lemma {:induction false} PartsNonNeg(k: nat, n: nat, w: (int, int) -> real, c: seq<nat>)
    requires IsNetwork(w)
    ensures Parts(k, n, Same, w, c) >= 0.0
    ensures forall x | 0 <= x < k :: Related(n, Both(x), w, c) <= Parts(k, n, Same, w, c)
  {
    if k == 0 {
    } else {
      PartsNonNeg(k - 1, n, w, c);
      RelatedNonNeg(n, Both(k - 1), w, c);
    }
  }

  lemma CommunityBound(n: nat, w: (int, int) -> real, c: seq<nat>, k: nat, x: nat)
    requires IsNetwork(w) && Labelled(c, n, k) && x < k
    ensures Related(n, Both(x), DegreeProduct(n, w), c)
         <= Volume(n, w) * Related(n, Both(x), w, c) + (Volume(n, w) / 2.0) * Related(n, Leaving(x), w, c)
  {
    PartsNonNeg(k, n, w, c);
    Group(k, n, Same, w, c);
    RelatedNonNeg(n, Both(x), w, c);
    RelatedNonNeg(n, Leaving(x), w, c);
    DegreeSumSplits(n, w, c, x);
    OutgoingAtMostHalf(n, w, c, x);
    VolumeSplits(n, w, c);
    DegreeSumSquared(n, w, c, x);
    CommunityAlgebra(Volume(n, w), Related(n, Both(x), w, c), Related(n, Leaving(x), w, c));
  }

  lemma CommunityAlgebra(v: real, r: real, o: real)
    requires r >= 0.0 && o >= 0.0 && r + 2.0 * o <= v
    ensures Square(r + o) <= v * r + (v / 2.0) * o
  {
    assert Square(r + o) == r * (r + 2.0 * o) + o * o;
    ProductLe(r, r + 2.0 * o, v);
    ProductLe(o, o, v / 2.0);
  }

  lemma ProductLe(a: real, b: real, c: real)
    requires a >= 0.0 && b <= c
    ensures a * b <= a * c
  {
  }

  lemma LowerAlgebra(v: real, same: real, apart: real, squares: real)
    requires v > 0.0 && v == same + apart && same >= 0.0
    requires squares <= v * same + (v / 2.0) * apart
    ensures Excess(v, same, squares) >= -0.5
  {
    ProductLe(v / 2.0, apart, v);
    var a, s := same / v, squares / Square(v);
    assert a * v == same && s * Square(v) == squares;
    assert a * Square(v) == (a * v) * v;
    assert (v / 2.0) * v == 0.5 * Square(v);
    FactorLe(s, a + 0.5, Square(v));
  }
}
