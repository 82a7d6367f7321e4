/** Finite sums of reals over index ranges, and the few laws the modularity proofs need. */
module RealSums {

  /** f(0) + ... + f(n-1) */
  ghost function Sum(n: nat, f: int -> real): real {
    if n == 0 then 0.0 else Sum(n - 1, f) + f(n - 1)
  }

  /** The sum of f(i, j) over 0 <= i < n and 0 <= j < m, row by row. */
  ghost function Sum2(n: nat, m: nat, f: (int, int) -> real): real {
    if n == 0 then 0.0 else Sum2(n - 1, m, f) + Sum(m, (j: int) => f(n - 1, j))
  }

  lemma {:induction false} SumExt(n: nat, f: int -> real, g: int -> real)
    requires forall i | 0 <= i < n :: f(i) == g(i)
    ensures Sum(n, f) == Sum(n, g)
  {
    if n == 0 {
    } else {
      SumExt(n - 1, f, g);
    }
  }

  lemma {:induction false} SumAdd(n: nat, f: int -> real, g: int -> real, h: int -> real)
    requires forall i | 0 <= i < n :: h(i) == f(i) + g(i)
    ensures Sum(n, h) == Sum(n, f) + Sum(n, g)
  {
    if n == 0 {
    } else {
      SumAdd(n - 1, f, g, h);
    }
  }

  lemma {:induction false} SumScale(n: nat, a: real, f: int -> real, h: int -> real)
    requires forall i | 0 <= i < n :: h(i) == a * f(i)
    ensures Sum(n, h) == a * Sum(n, f)
  {
    if n == 0 {
    } else {
      SumScale(n - 1, a, f, h);
    }
  }

  /** A bound by a linear combination, by name. */
  ghost predicate AtMost(x: real, a: real, s: real, b: real, t: real) { x <= a * s + b * t }

  lemma {:induction false} SumLinearBound(n: nat, a: real, f: int -> real, b: real, g: int -> real, h: int -> real)
    requires forall i | 0 <= i < n :: AtMost(h(i), a, f(i), b, g(i))
    ensures AtMost(Sum(n, h), a, Sum(n, f), b, Sum(n, g))
  {
    var af := (i: int) => a * f(i);
    var bg := (i: int) => b * g(i);
    var bound := (i: int) => af(i) + bg(i);
    SumScale(n, a, f, af);
    SumScale(n, b, g, bg);
    SumAdd(n, af, bg, bound);
    SumLe(n, h, bound);
  }

  lemma {:induction false} SumLe(n: nat, f: int -> real, g: int -> real)
    requires forall i | 0 <= i < n :: f(i) <= g(i)
    ensures Sum(n, f) <= Sum(n, g)
  {
    if n == 0 {
    } else {
      SumLe(n - 1, f, g);
    }
  }

  lemma {:induction false} SumConst(n: nat, a: real, f: int -> real)
    requires forall i | 0 <= i < n :: f(i) == a
    ensures Sum(n, f) == (n as real) * a
  {
    if n == 0 {
    } else {
      SumConst(n - 1, a, f);
      assert (n as real) * a == ((n - 1) as real) * a + a;
    }
  }

  /** Two functions that differ only at k have sums that differ by as much. */
  lemma {:induction false} SumPoint(n: nat, k: nat, f: int -> real, g: int -> real)
    requires k < n
    requires forall i | 0 <= i < n && i != k :: f(i) == g(i)
    ensures Sum(n, g) - Sum(n, f) == g(k) - f(k)
  {
    if k == n - 1 { SumExt(n - 1, f, g); } else { SumPoint(n - 1, k, f, g); }
  }

  lemma {:induction false} SumNonNeg(n: nat, f: int -> real)
    requires forall i | 0 <= i < n :: f(i) >= 0.0
    ensures Sum(n, f) >= 0.0
    ensures forall k | 0 <= k < n :: f(k) <= Sum(n, f)
  {
    if n == 0 {
    } else {
      SumNonNeg(n - 1, f);
    }
  }

  lemma {:induction false} Sum2Ext(n: nat, m: nat, f: (int, int) -> real, g: (int, int) -> real)
    requires forall i, j | 0 <= i < n && 0 <= j < m :: f(i, j) == g(i, j)
    ensures Sum2(n, m, f) == Sum2(n, m, g)
  {
    if n == 0 {
    } else {
      Sum2Ext(n - 1, m, f, g);
      SumExt(m, (j: int) => f(n - 1, j), (j: int) => g(n - 1, j));
    }
  }

  lemma {:induction false} Sum2Add(n: nat, m: nat, f: (int, int) -> real, g: (int, int) -> real, h: (int, int) -> real)
    requires forall i, j | 0 <= i < n && 0 <= j < m :: h(i, j) == f(i, j) + g(i, j)
    ensures Sum2(n, m, h) == Sum2(n, m, f) + Sum2(n, m, g)
  {
    if n == 0 {
    } else {
      Sum2Add(n - 1, m, f, g, h);
      SumAdd(m, (j: int) => f(n - 1, j), (j: int) => g(n - 1, j), (j: int) => h(n - 1, j));
    }
  }

  lemma {:induction false} Sum2Scale(n: nat, m: nat, a: real, f: (int, int) -> real, h: (int, int) -> real)
    requires forall i, j | 0 <= i < n && 0 <= j < m :: h(i, j) == a * f(i, j)
    ensures Sum2(n, m, h) == a * Sum2(n, m, f)
  {
    if n == 0 {
    } else {
      Sum2Scale(n - 1, m, a, f, h);
      SumScale(m, a, (j: int) => f(n - 1, j), (j: int) => h(n - 1, j));
    }
  }

  /** A double sum is linear. */
  lemma Sum2Linear(n: nat, m: nat, a: real, f: (int, int) -> real, b: real, g: (int, int) -> real,
                   h: (int, int) -> real)
    requires forall i, j | 0 <= i < n && 0 <= j < m :: h(i, j) == a * f(i, j) + b * g(i, j)
    ensures Sum2(n, m, h) == a * Sum2(n, m, f) + b * Sum2(n, m, g)
  {
    var af := (i: int, j: int) => a * f(i, j);
    var bg := (i: int, j: int) => b * g(i, j);
    Sum2Scale(n, m, a, f, af);
    Sum2Scale(n, m, b, g, bg);
    Sum2Add(n, m, af, bg, h);
  }

  lemma {:induction false} Sum2Le(n: nat, m: nat, f: (int, int) -> real, g: (int, int) -> real)
    requires forall i, j | 0 <= i < n && 0 <= j < m :: f(i, j) <= g(i, j)
    ensures Sum2(n, m, f) <= Sum2(n, m, g)
  {
    if n == 0 {
    } else {
      Sum2Le(n - 1, m, f, g);
      SumLe(m, (j: int) => f(n - 1, j), (j: int) => g(n - 1, j));
    }
  }

  /** A double sum is the sum of its row sums. */
  lemma {:induction false} Sum2Rows(n: nat, m: nat, f: (int, int) -> real, rows: int -> real)
    requires forall i | 0 <= i < n :: rows(i) == Sum(m, (j: int) => f(i, j))
    ensures Sum2(n, m, f) == Sum(n, rows)
  {
    if n == 0 {
    } else {
      Sum2Rows(n - 1, m, f, rows);
    }
  }

  /** Adding one column. */
  lemma {:induction false} Sum2Column(n: nat, m: nat, f: (int, int) -> real)
    requires m > 0
    ensures Sum2(n, m, f) == Sum2(n, m - 1, f) + Sum(n, (i: int) => f(i, m - 1))
  {
    if n == 0 {
    } else {
      Sum2Column(n - 1, m, f);
      SumExt(n - 1, (i: int) => f(i, m - 1), (i: int) => f(i, m - 1));
      SumExt(m - 1, (j: int) => f(n - 1, j), (j: int) => f(n - 1, j));
    }
  }

  /** The order of summation does not matter. */
  lemma {:induction false} Sum2Swap(n: nat, m: nat, f: (int, int) -> real, g: (int, int) -> real)
    requires forall i, j | 0 <= i < n && 0 <= j < m :: f(i, j) == g(j, i)
    ensures Sum2(n, m, f) == Sum2(m, n, g)
  {
    if n == 0 {
      Sum2Zero(m, 0, g);
    } else {
      Sum2Swap(n - 1, m, f, g);
      Sum2Column(m, n, g);
      SumExt(m, (j: int) => f(n - 1, j), (j: int) => g(j, n - 1));
    }
  }

  lemma {:induction false} Sum2Zero(n: nat, m: nat, g: (int, int) -> real)
    requires forall i, j | 0 <= i < n && 0 <= j < m :: g(i, j) == 0.0
    ensures Sum2(n, m, g) == 0.0
  {
    if n == 0 {
    } else {
      Sum2Zero(n - 1, m, g);
      SumConst(m, 0.0, (j: int) => g(n - 1, j));
    }
  }

  /** The product of two sums is the double sum of the products. */
  lemma {:induction false} SumProduct(n: nat, m: nat, f: int -> real, g: int -> real, h: (int, int) -> real)
    requires forall i, j | 0 <= i < n && 0 <= j < m :: h(i, j) == f(i) * g(j)
    ensures Sum2(n, m, h) == Sum(n, f) * Sum(m, g)
  {
    if n == 0 {
    } else {
      SumProduct(n - 1, m, f, g, h);
      SumScale(m, f(n - 1), g, (j: int) => h(n - 1, j));
      Distributes(Sum(n - 1, f), f(n - 1), Sum(m, g));
    }
  }

  lemma Distributes(a: real, b: real, c: real)
    ensures (a + b) * c == a * c + b * c
  {
  }

  /** For a symmetric f that vanishes on the diagonal, the whole is twice the part above the diagonal. */
  lemma {:induction false} Sum2Upper(n: nat, f: (int, int) -> real)
    requires forall i, j | 0 <= i < n && 0 <= j < n :: f(i, j) == f(j, i)
    requires forall i | 0 <= i < n :: f(i, i) == 0.0
    ensures Sum2(n, n, f) == 2.0 * Sum2(n, n, (i: int, j: int) => if i < j then f(i, j) else 0.0)
  {
    var up := (i: int, j: int) => if i < j then f(i, j) else 0.0;
    var low := (i: int, j: int) => if j < i then f(i, j) else 0.0;
    Sum2Add(n, n, up, low, f);
    Sum2Swap(n, n, up, low);
  }

  /** The sum of a quadratic expression, term by term. */
  lemma SumQuadratic(n: nat, a: real, b: real, c: real, t: int -> real, square: int -> real, h: int -> real)
    requires forall i | 0 <= i < n :: h(i) == a * square(i) + b * t(i) + c
    ensures Sum(n, h) == a * Sum(n, square) + b * Sum(n, t) + (n as real) * c
  {
    var first := (i: int) => a * square(i);
    var second := (i: int) => b * t(i);
    var both := (i: int) => first(i) + second(i);
    var third := (i: int) => c;
    SumScale(n, a, square, first);
    SumScale(n, b, t, second);
    SumConst(n, c, third);
    SumAdd(n, first, second, both);
    SumAdd(n, both, third, h);
  }

  /** Cauchy-Schwarz against the constant function: (sum t)^2 <= n * sum t^2. */
  lemma MeanSquare(n: nat, t: int -> real, square: int -> real)
    requires forall i | 0 <= i < n :: square(i) == t(i) * t(i)
    ensures Sum(n, t) * Sum(n, t) <= (n as real) * Sum(n, square)
  {
    if n > 0 {
      var k, total := n as real, Sum(n, t);
      var a, b, c := k * k, -2.0 * k * total, total * total;
      GapsNonNeg(n, k, total, a, b, c, t, square);
      NonNegQuadratic(n, a, b, c, t, square);
      MeanSquareAlgebra(k, total, Sum(n, square), a, b, c);
    }
  }

  /** The squared gaps between k * t(i) and the total, multiplied out. */
  lemma GapsNonNeg(n: nat, k: real, total: real, a: real, b: real, c: real, t: int -> real, square: int -> real)
    requires forall i | 0 <= i < n :: square(i) == t(i) * t(i)
    requires a == k * k && b == -2.0 * k * total && c == total * total
    ensures forall i | 0 <= i < n :: a * square(i) + b * t(i) + c >= 0.0
  {
    forall i | 0 <= i < n ensures a * square(i) + b * t(i) + c >= 0.0 { SquareGap(k, t(i), total); }
  }

  /** A quadratic expression that is nowhere negative has a sum that is not. */
  lemma NonNegQuadratic(n: nat, a: real, b: real, c: real, t: int -> real, square: int -> real)
    requires forall i | 0 <= i < n :: a * square(i) + b * t(i) + c >= 0.0
    ensures a * Sum(n, square) + b * Sum(n, t) + (n as real) * c >= 0.0
  {
    var h := (i: int) => a * square(i) + b * t(i) + c;
    SumQuadratic(n, a, b, c, t, square, h);
    SumNonNeg(n, h);
  }

  lemma SquareGap(k: real, x: real, total: real)
    ensures (k * x - total) * (k * x - total) == (k * k) * (x * x) + (-2.0 * k * total) * x + total * total
    ensures (k * x - total) * (k * x - total) >= 0.0
  {
    var y := k * x - total;
    assert y * y >= 0.0;
    assert (k * x) * (k * x) == (k * k) * (x * x);
    assert (k * x) * total == (k * total) * x;
  }

  lemma MeanSquareAlgebra(k: real, total: real, squares: real, a: real, b: real, c: real)
    requires k >= 1.0 && a == k * k && b == -2.0 * k * total && c == total * total
    requires a * squares + b * total + k * c >= 0.0
    ensures total * total <= k * squares
  {
    var gap := k * squares - total * total;
    assert (k * k) * squares == k * (k * squares);
    assert (-2.0 * k * total) * total == -2.0 * (k * (total * total));
    assert k * gap == k * (k * squares) - k * (total * total);
    assert k * gap >= 0.0;
    NonNegFactor(k, gap);
  }

  lemma NonNegFactor(k: real, x: real)
    requires k > 0.0 && k * x >= 0.0
    ensures x >= 0.0
  {
  }
}
