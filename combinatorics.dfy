/** Powers, binomial coefficients and the binomial theorem over the reals.
    The composition theorems of differential privacy are binomially weighted
    sums of powers of E = e^eps; these lemmas bound them. */
module Combinatorics {

  /** A value e^eps for some real eps. The exponential itself is not modelled:
      callers pass E = e^eps, and e^(n*eps) becomes Pow(E, n). Since e^eps is
      positive, so is every E; eps >= 0 holds exactly when E >= 1. */
  type PosReal = x: real | 0.0 < x witness 1.0

  /** x^n for a natural exponent. */
  function Pow(x: real, n: nat): real
  {
    if n == 0 then 1.0 else x * Pow(x, n - 1)
  }

  lemma {:induction false} PowNonNegative(x: real, n: nat)
    requires 0.0 <= x
    ensures 0.0 <= Pow(x, n)
  {
    if n > 0 {
      PowNonNegative(x, n - 1);
    }
  }

  lemma {:induction false} PowPositive(x: real, n: nat)
    requires 0.0 < x
    ensures 0.0 < Pow(x, n)
  {
    if n > 0 {
      PowPositive(x, n - 1);
    }
  }

  lemma {:induction false} PowAtMostOne(x: real, n: nat)
    requires 0.0 <= x <= 1.0
    ensures 0.0 <= Pow(x, n) <= 1.0
  {
    if n > 0 {
      PowAtMostOne(x, n - 1);
      assert x * Pow(x, n - 1) <= 1.0 * Pow(x, n - 1);
    }
  }

  lemma {:induction false} PowOne(n: nat)
    ensures Pow(1.0, n) == 1.0
  {
    if n > 0 {
      PowOne(n - 1);
    }
  }

  /** A base of at least one gives powers that grow with the exponent. */
  lemma {:induction false} PowMonotoneExponent(x: real, m: nat, n: nat)
    requires 1.0 <= x && m <= n
    ensures 1.0 <= Pow(x, m) <= Pow(x, n)
  {
    if n > m {
      PowMonotoneExponent(x, m, n - 1);
      assert Pow(x, n) == x * Pow(x, n - 1);
      assert x * Pow(x, n - 1) >= 1.0 * Pow(x, n - 1);
    } else if m > 0 {
      PowMonotoneExponent(x, m - 1, m - 1);
      assert Pow(x, m) == x * Pow(x, m - 1);
      assert x * Pow(x, m - 1) >= 1.0 * Pow(x, m - 1);
    }
  }

  /** Powers grow with a non-negative base. */
  lemma {:induction false} PowMonotoneBase(x: real, y: real, n: nat)
    requires 0.0 <= x <= y
    ensures Pow(x, n) <= Pow(y, n)
  {
    if n > 0 {
      PowMonotoneBase(x, y, n - 1);
      PowNonNegative(x, n - 1);
      ProductMonotone(x, y, Pow(x, n - 1), Pow(y, n - 1));
    }
  }

  /** Products of ordered non-negative factors are ordered. */
  lemma ProductMonotone(a: real, b: real, p: real, q: real)
    requires 0.0 <= a <= b && 0.0 <= p <= q
    ensures a * p <= b * q
  {
    MulMonotone(a, p, q);
    MulMonotone(q, a, b);
  }

  /** Bernoulli's inequality: (1 - d)^n >= 1 - n * d for d in [0, 1]. */
  lemma {:induction false} Bernoulli(d: real, n: nat)
    requires 0.0 <= d <= 1.0
    ensures 1.0 - (n as real) * d <= Pow(1.0 - d, n)
  {
    if n > 0 {
      Bernoulli(d, n - 1);
      BernoulliStep(d, Pow(1.0 - d, n - 1), (n - 1) as real);
    }
  }

  lemma BernoulliStep(d: real, p: real, m: real)
    requires 0.0 <= d <= 1.0 && 0.0 <= m && 1.0 - m * d <= p
    ensures 1.0 - (m + 1.0) * d <= (1.0 - d) * p
  {
    MulMonotone(1.0 - d, 1.0 - m * d, p);
    NonNegativeProduct(m * d, d);
    NonNegativeProduct(m, d);
    assert (1.0 - d) * (1.0 - m * d) == 1.0 - (m + 1.0) * d + (m * d) * d;
  }

  lemma MulMonotone(c: real, a: real, b: real)
    requires 0.0 <= c && a <= b
    ensures c * a <= c * b
  {
    NonNegativeProduct(c, b - a);
    assert c * (b - a) == c * b - c * a;
  }

  lemma NonNegativeProduct(a: real, b: real)
    requires 0.0 <= a && 0.0 <= b
    ensures 0.0 <= a * b
  {
  }

  lemma {:induction false} PowProduct(x: real, y: real, n: nat)
    ensures Pow(x * y, n) == Pow(x, n) * Pow(y, n)
  {
    if n > 0 {
      PowProduct(x, y, n - 1);
      Regroup(x, y, Pow(x, n - 1), Pow(y, n - 1));
    }
  }

  /** (a * b) * (c * d) == (a * c) * (b * d), stated on plain variables so
      that the solver sees a small polynomial identity. */
  lemma Regroup(a: real, b: real, c: real, d: real)
    ensures (a * b) * (c * d) == (a * c) * (b * d)
  {
  }

  lemma Distribute(a: real, b: real, c: real)
    ensures a * (b + c) == a * b + a * c
  {
  }

  /** The binomial coefficient C(n, k), by Pascal's rule; zero when k > n, as
      `scipy.special.comb` returns. */
  function Binom(n: nat, k: nat): real
  {
    if k == 0 then 1.0 else if n == 0 then 0.0 else Binom(n - 1, k - 1) + Binom(n - 1, k)
  }

  lemma {:induction false} BinomAbove(n: nat, k: nat)
    requires n < k
    ensures Binom(n, k) == 0.0
  {
    if n > 0 {
      BinomAbove(n - 1, k - 1);
      BinomAbove(n - 1, k);
    }
  }

  lemma {:induction false} BinomDiagonal(n: nat)
    ensures Binom(n, n) == 1.0
  {
    if n > 0 {
      BinomDiagonal(n - 1);
      BinomAbove(n - 1, n);
    }
  }

  lemma {:induction false} BinomNonNegative(n: nat, k: nat)
    ensures 0.0 <= Binom(n, k)
  {
    if k > 0 && n > 0 {
      BinomNonNegative(n - 1, k - 1);
      BinomNonNegative(n - 1, k);
    }
  }

  /** The term C(n, l) * x^(n-l) * y^l of the expansion of (x + y)^n. */
  function BinomialTerm(n: nat, l: nat, x: real, y: real): real
    requires l <= n
  {
    Binom(n, l) * Pow(x, n - l) * Pow(y, l)
  }

  /** The partial sum of the first m terms of the expansion of (x + y)^n. */
  function BinomialPartialSum(n: nat, m: nat, x: real, y: real): real
    requires m <= n + 1
  {
    if m == 0 then 0.0 else BinomialPartialSum(n, m - 1, x, y) + BinomialTerm(n, m - 1, x, y)
  }

  /** The polynomial identity behind Pascal's rule on one term. */
  lemma PascalIdentity(c1: real, c2: real, x: real, y: real, px: real, py: real)
    ensures (c1 + c2) * (x * px) * (y * py) == x * (c2 * px * (y * py)) + y * (c1 * (x * px) * py)
  {
    calc {
      (c1 + c2) * (x * px) * (y * py);
      c1 * (x * px) * (y * py) + c2 * (x * px) * (y * py);
      { assert c1 * (x * px) * (y * py) == y * (c1 * (x * px) * py);
        assert c2 * (x * px) * (y * py) == x * (c2 * px * (y * py)); }
      x * (c2 * px * (y * py)) + y * (c1 * (x * px) * py);
    }
  }

  /** Pascal's rule on one term of the expansion. */
  lemma TermPascal(n: nat, k: nat, x: real, y: real)
    requires 1 <= k < n
    ensures BinomialTerm(n, k, x, y)
         == x * BinomialTerm(n - 1, k, x, y) + y * BinomialTerm(n - 1, k - 1, x, y)
  {
    var px, py := Pow(x, n - 1 - k), Pow(y, k - 1);
    assert Pow(x, n - k) == x * px;
    assert Pow(y, k) == y * py;
    assert (n - 1) - (k - 1) == n - k;
    var c1, c2 := Binom(n - 1, k - 1), Binom(n - 1, k);
    assert Binom(n, k) == c1 + c2;
    assert BinomialTerm(n, k, x, y) == (c1 + c2) * (x * px) * (y * py);
    assert BinomialTerm(n - 1, k, x, y) == c2 * px * (y * py);
    assert BinomialTerm(n - 1, k - 1, x, y) == c1 * (x * px) * py;
    PascalIdentity(c1, c2, x, y, px, py);
  }

  /** Pascal's rule lifted to partial sums. */
  lemma {:induction false} PartialSumPascal(n: nat, m: nat, x: real, y: real)
    requires 1 <= m <= n
    ensures BinomialPartialSum(n, m, x, y)
         == x * BinomialPartialSum(n - 1, m, x, y) + y * BinomialPartialSum(n - 1, m - 1, x, y)
  {
    if m == 1 {
      assert BinomialPartialSum(n, 1, x, y) == BinomialTerm(n, 0, x, y) == Pow(x, n);
      assert BinomialPartialSum(n - 1, 1, x, y) == BinomialTerm(n - 1, 0, x, y) == Pow(x, n - 1);
    } else {
      var k := m - 1;
      PartialSumPascal(n, k, x, y);
      TermPascal(n, k, x, y);
      var f1, f0 := BinomialPartialSum(n - 1, k, x, y), BinomialPartialSum(n - 1, k - 1, x, y);
      var t1, t0 := BinomialTerm(n - 1, k, x, y), BinomialTerm(n - 1, k - 1, x, y);
      assert BinomialPartialSum(n, m, x, y) == BinomialPartialSum(n, k, x, y) + BinomialTerm(n, k, x, y);
      assert BinomialPartialSum(n - 1, m, x, y) == f1 + t1;
      assert BinomialPartialSum(n - 1, m - 1, x, y) == f0 + t0;
      Distribute(x, f1, t1);
      Distribute(y, f0, t0);
    }
  }

  /** The binomial theorem: the full expansion sums to (x + y)^n. */
  lemma {:induction false} BinomialTheorem(n: nat, x: real, y: real)
    ensures BinomialPartialSum(n, n + 1, x, y) == Pow(x + y, n)
  {
    BinomDiagonal(n);
    if n == 0 {
      assert BinomialPartialSum(0, 1, x, y) == BinomialTerm(0, 0, x, y);
    } else {
      BinomialTheorem(n - 1, x, y);
      BinomDiagonal(n - 1);
      PartialSumPascal(n, n, x, y);
      var s := BinomialPartialSum(n - 1, n - 1, x, y);
      var full := BinomialPartialSum(n - 1, n, x, y);
      var yn := Pow(y, n - 1);
      assert Pow(y, n) == y * yn;
      assert BinomialTerm(n, n, x, y) == y * yn;
      assert BinomialTerm(n - 1, n - 1, x, y) == yn;
      assert full == s + yn;
      assert BinomialPartialSum(n, n + 1, x, y) == x * full + y * s + y * yn;
      Distribute(y, s, yn);
      assert BinomialPartialSum(n, n + 1, x, y) == x * full + y * full;
      assert Pow(x + y, n) == (x + y) * full;
    }
  }

  /** With non-negative x and y every term is non-negative, so longer partial
      sums are larger. */
  lemma {:induction false} PartialSumMonotone(n: nat, m1: nat, m2: nat, x: real, y: real)
    requires 0.0 <= x && 0.0 <= y && m1 <= m2 <= n + 1
    ensures 0.0 <= BinomialPartialSum(n, m1, x, y) <= BinomialPartialSum(n, m2, x, y)
  {
    if m2 > m1 {
      PartialSumMonotone(n, m1, m2 - 1, x, y);
      PowNonNegative(x, n - (m2 - 1));
      PowNonNegative(y, m2 - 1);
      TermNonNegative(n, m2 - 1, x, y);
    } else if m1 > 0 {
      PartialSumMonotone(n, m1 - 1, m1 - 1, x, y);
      PowNonNegative(x, n - (m1 - 1));
      PowNonNegative(y, m1 - 1);
      TermNonNegative(n, m1 - 1, x, y);
    }
  }

  lemma TermNonNegative(n: nat, l: nat, x: real, y: real)
    requires 0.0 <= x && 0.0 <= y && l <= n
    ensures 0.0 <= BinomialTerm(n, l, x, y)
  {
    PowNonNegative(x, n - l);
    PowNonNegative(y, l);
    BinomNonNegative(n, l);
    var c, a, b := Binom(n, l), Pow(x, n - l), Pow(y, l);
    assert 0.0 <= c * a;
    assert 0.0 <= c * a * b;
  }

  /** A partial expansion of (x + y)^n never exceeds the whole of it. */
  lemma PartialSumAtMostPower(n: nat, m: nat, x: real, y: real)
    requires 0.0 <= x && 0.0 <= y && m <= n + 1
    ensures 0.0 <= BinomialPartialSum(n, m, x, y) <= Pow(x + y, n)
  {
    PartialSumMonotone(n, m, n + 1, x, y);
    BinomialTheorem(n, x, y);
  }
}
