/** The combinatorial delta terms of the exact composition theorems
    (src/model/differential_privacy.py, region_from_dp_composition_exact and
    region_from_dp_composition_exact_total_var), and the bounds that keep every
    derived delta inside [0, 1]. */
module CompositionBounds {
  import opened Combinatorics

  /** delta' = 1 - (1 - delta)^k * (1 - t): the composed delta built from a
      combinatorial term t, as both exact theorems write it. */
  function ComposedDelta(delta: real, k: nat, t: real): real
  {
    1.0 - Pow(1.0 - delta, k) * (1.0 - t)
  }

  lemma ComposedDeltaInUnit(delta: real, k: nat, t: real)
    requires 0.0 <= delta <= 1.0 && 0.0 <= t <= 1.0
    ensures 0.0 <= ComposedDelta(delta, k, t) <= 1.0
  {
    PowAtMostOne(1.0 - delta, k);
    var p := Pow(1.0 - delta, k);
    assert p * (1.0 - t) <= p * 1.0;
    assert 0.0 <= p * (1.0 - t);
  }

  // ----- exact composition -----

  /** The first m summands of sum_{l < i} C(k, l) * (E^(k-l) - E^(k-2i+l)). */
  function ExactNumerator(E: PosReal, k: nat, i: nat, m: nat): real
    requires m <= i && 2 * i <= k
  {
    if m == 0 then 0.0 else ExactNumerator(E, k, i, m - 1) + ExactNumeratorTerm(E, k, i, m - 1)
  }

  /** The summand C(k, l) * (E^(k-l) - E^(k-2i+l)). */
  function ExactNumeratorTerm(E: PosReal, k: nat, i: nat, l: nat): real
    requires l < i && 2 * i <= k
  {
    Binom(k, l) * (Pow(E, k - l) - Pow(E, k - 2 * i + l))
  }

  /** delta_tmp of sub-region i: the numerator divided by (1 + E)^k. */
  function ExactDeltaTmp(E: PosReal, k: nat, i: nat): real
    requires 2 * i <= k
  {
    PowPositive(1.0 + E, k);
    ExactNumerator(E, k, i, i) / Pow(1.0 + E, k)
  }

  /** delta' of sub-region i of the exact composition. */
  function ExactDelta(E: PosReal, delta: real, k: nat, i: nat): real
    requires 2 * i <= k
  {
    ComposedDelta(delta, k, ExactDeltaTmp(E, k, i))
  }

  /** 0 <= c * d <= c * e when 0 <= c and 0 <= d <= e. */
  lemma ScaleBetween(c: real, d: real, e: real)
    requires 0.0 <= c && 0.0 <= d <= e
    ensures 0.0 <= c * d <= c * e
  {
  }

  lemma QuotientInUnit(n: real, p: real)
    requires 0.0 <= n <= p && 0.0 < p
    ensures 0.0 <= n / p <= 1.0
  {
  }

  /** Every summand C(k, l) * (E^(k-l) - E^(k-2i+l)) with l < i lies between
      zero and the matching term C(k, l) * E^(k-l) of (E + 1)^k. */
  lemma {:induction false} ExactNumeratorBounds(E: PosReal, k: nat, i: nat, m: nat)
    requires 1.0 <= E && m <= i && 2 * i <= k
    ensures 0.0 <= ExactNumerator(E, k, i, m) <= BinomialPartialSum(k, m, E, 1.0)
  {
    if m > 0 {
      ExactNumeratorBounds(E, k, i, m - 1);
      ExactNumeratorTermBounds(E, k, i, m - 1);
    }
  }

  /** Each summand lies between zero and the term C(k, l) * E^(k-l) * 1^l of
      the expansion of (E + 1)^k. */
  lemma ExactNumeratorTermBounds(E: PosReal, k: nat, i: nat, l: nat)
    requires 1.0 <= E && l < i && 2 * i <= k
    ensures 0.0 <= ExactNumeratorTerm(E, k, i, l) <= BinomialTerm(k, l, E, 1.0)
  {
    PowMonotoneExponent(E, k - 2 * i + l, k - l);
    PowOne(l);
    BinomNonNegative(k, l);
    ScaleBetween(Binom(k, l), Pow(E, k - l) - Pow(E, k - 2 * i + l), Pow(E, k - l));
  }

  /** delta_tmp of every sub-region lies in [0, 1]. */
  lemma ExactDeltaTmpInUnit(E: PosReal, k: nat, i: nat)
    requires 1.0 <= E && 2 * i <= k
    ensures 0.0 <= ExactDeltaTmp(E, k, i) <= 1.0
  {
    ExactNumeratorBounds(E, k, i, i);
    PartialSumAtMostPower(k, i, E, 1.0);
    assert Pow(E + 1.0, k) == Pow(1.0 + E, k);
    PowPositive(1.0 + E, k);
    QuotientInUnit(ExactNumerator(E, k, i, i), Pow(1.0 + E, k));
  }

  /** The delta of every exact-composition sub-region lies in [0, 1], so the
      nested (eps, delta) assertion on it holds. */
  lemma ExactDeltaInUnit(E: PosReal, delta: real, k: nat, i: nat)
    requires 1.0 <= E && 0.0 <= delta <= 1.0 && 2 * i <= k
    ensures 0.0 <= ExactDelta(E, delta, k, i) <= 1.0
  {
    ExactDeltaTmpInUnit(E, k, i);
    ComposedDeltaInUnit(delta, k, ExactDeltaTmp(E, k, i));
  }

  /** Sub-region 0 has an empty sum: its delta is 1 - (1 - delta)^k. */
  lemma ExactDeltaFirst(E: PosReal, delta: real, k: nat)
    ensures ExactDelta(E, delta, k, 0) == 1.0 - Pow(1.0 - delta, k)
  {
    PowPositive(1.0 + E, k);
  }

  // ----- exact composition with total variation -----

  /** The admissible total variation eta for (eps, delta): the assertion
      delta <= eta <= delta + (E - 1)(1 - delta) / (E + 1). */
  predicate TvAdmissible(E: PosReal, delta: real, eta: real)
  {
    delta <= eta <= delta + ((E - 1.0) * (1.0 - delta)) / (E + 1.0)
  }

  /** alpha = 1 - (eta - delta)(1 + E) / ((1 - delta)(E - 1)), defined when the
      divisor is not zero. */
  function TvAlpha(E: PosReal, delta: real, eta: real): real
    requires (1.0 - delta) * (E - 1.0) != 0.0
  {
    1.0 - (eta - delta) * (1.0 + E) / ((1.0 - delta) * (E - 1.0))
  }

  /** With E > 1 and delta < 1, an admissible eta gives alpha in [0, 1]. */
  lemma TvAlphaInUnit(E: PosReal, delta: real, eta: real)
    requires 1.0 < E && 0.0 <= delta < 1.0 && TvAdmissible(E, delta, eta)
    ensures (1.0 - delta) * (E - 1.0) != 0.0
    ensures 0.0 <= TvAlpha(E, delta, eta) <= 1.0
  {
    var dv := (E - 1.0) * (1.0 - delta);
    PositiveProduct(E - 1.0, 1.0 - delta);
    var w := eta - delta;
    ScaledQuotientBound(w, dv, E + 1.0);
    PositiveProduct(1.0 - delta, E - 1.0);
    assert dv == (1.0 - delta) * (E - 1.0);
    assert w * (E + 1.0) == (eta - delta) * (1.0 + E);
    QuotientInUnit((eta - delta) * (1.0 + E), (1.0 - delta) * (E - 1.0));
  }

  /** w <= x / s and s > 0 give w * s <= x, and 0 <= w * s when w >= 0. */
  lemma ScaledQuotientBound(w: real, x: real, s: real)
    requires 0.0 < s && 0.0 <= w <= x / s
    ensures 0.0 <= w * s <= x
  {
  }

  lemma PositiveProduct(a: real, b: real)
    requires 0.0 < a && 0.0 < b
    ensures 0.0 < a * b
  {
  }

  /** ceil(n / 2) for a natural n, as `ceil((k-j-a)/2.)` computes it. */
  function CeilHalf(n: nat): nat
  {
    (n + 1) / 2
  }

  /** The weight ((1 - alpha) / (1 + E))^n * alpha^a shared by the summands
      of the inner sum for index a, with n = k - a. */
  function TvWeight(E: PosReal, alpha: real, n: nat, a: nat): real
  {
    Pow((1.0 - alpha) / (1.0 + E), n) * Pow(alpha, a)
  }

  /** The summand for indices a and l of sub-region j:
      C(k-a, l) * ((1-alpha)/(1+E))^(k-a) * alpha^a * (E^(k-l-a) - E^(l+j)). */
  function TvInnerTerm(E: PosReal, alpha: real, k: nat, j: nat, a: nat, l: nat): real
    requires a + j < k && l < CeilHalf(k - j - a)
  {
    TvWeight(E, alpha, k - a, a) * TvGap(E, k, j, a, l)
  }

  /** C(k-a, l) * (E^(k-l-a) - E^(l+j)), the part of a summand that does not
      depend on alpha. */
  function TvGap(E: PosReal, k: nat, j: nat, a: nat, l: nat): real
    requires a + j < k && l < CeilHalf(k - j - a)
  {
    Binom(k - a, l) * (Pow(E, k - l - a) - Pow(E, l + j))
  }

  /** The first m summands of the inner sum over l. */
  function TvInner(E: PosReal, alpha: real, k: nat, j: nat, a: nat, m: nat): real
    requires a + j < k && m <= CeilHalf(k - j - a)
  {
    if m == 0 then 0.0 else TvInner(E, alpha, k, j, a, m - 1) + TvInnerTerm(E, alpha, k, j, a, m - 1)
  }

  /** The whole inner sum for a: its ceil((k - j - a) / 2) summands. */
  function TvInnerSum(E: PosReal, alpha: real, k: nat, j: nat, a: nat): real
    requires a + j < k
  {
    TvInner(E, alpha, k, j, a, CeilHalf(k - j - a))
  }

  /** The summand C(k, a) * (whole inner sum for a) of the outer sum. */
  function TvOuterTerm(E: PosReal, alpha: real, k: nat, j: nat, a: nat): real
    requires a + j < k
  {
    Binom(k, a) * TvInnerSum(E, alpha, k, j, a)
  }

  /** The first m summands of the outer sum over a. */
  function TvOuter(E: PosReal, alpha: real, k: nat, j: nat, m: nat): real
    requires j + m <= k
  {
    if m == 0 then 0.0 else TvOuter(E, alpha, k, j, m - 1) + TvOuterTerm(E, alpha, k, j, m - 1)
  }

  /** delta' of sub-region j of the total-variation composition. */
  function TvDelta(E: PosReal, alpha: real, delta: real, k: nat, j: nat): real
    requires j <= k
  {
    ComposedDelta(delta, k, TvOuter(E, alpha, k, j, k - j))
  }

  /** Every index l of the inner sum has l + j < k - l - a: the exponent of the
      subtracted power is the smaller one. */
  lemma TvExponentsOrdered(k: nat, j: nat, a: nat, l: nat)
    requires a + j < k && l < CeilHalf(k - j - a)
    ensures l + j < k - l - a
  {
  }

  /** The weight is non-negative, and multiplied by (E + 1)^n it becomes the
      term (1 - alpha)^n * alpha^a of the expansion of ((1 - alpha) + alpha)^(n+a). */
  lemma TvWeightScaled(E: PosReal, alpha: real, n: nat, a: nat)
    requires 1.0 <= E && 0.0 <= alpha <= 1.0
    ensures 0.0 <= TvWeight(E, alpha, n, a)
    ensures TvWeight(E, alpha, n, a) * Pow(E + 1.0, n) == Pow(1.0 - alpha, n) * Pow(alpha, a)
  {
    var q := (1.0 - alpha) / (1.0 + E);
    PowNonNegative(q, n);
    PowNonNegative(alpha, a);
    QuotientTimesDivisor(1.0 - alpha, 1.0 + E);
    assert 1.0 + E == E + 1.0;
    assert q * (E + 1.0) == 1.0 - alpha;
    PowOfProduct(q, E + 1.0, 1.0 - alpha, n);
    var pq, pe, pa := Pow(q, n), Pow(E + 1.0, n), Pow(alpha, a);
    SwapFactors(pq, pa, pe);
    assert TvWeight(E, alpha, n, a) == pq * pa;
  }

  lemma PowOfProduct(x: real, y: real, z: real, n: nat)
    requires x * y == z
    ensures Pow(x, n) * Pow(y, n) == Pow(z, n)
  {
    PowProduct(x, y, n);
  }

  lemma QuotientTimesDivisor(x: real, y: real)
    requires y != 0.0
    ensures (x / y) * y == x
  {
  }

  /** (x * y) * z == (x * z) * y */
  lemma SwapFactors(x: real, y: real, z: real)
    ensures (x * y) * z == (x * z) * y
  {
  }

  /** One inner summand lies between zero and the weight times the term
      C(k-a, l) E^(k-a-l) of the expansion of (E + 1)^(k-a). */
  lemma {:induction false} TvInnerTermBound(E: PosReal, alpha: real, k: nat, j: nat, a: nat, l: nat)
    requires 1.0 <= E && 0.0 <= alpha <= 1.0
    requires a + j < k && l < CeilHalf(k - j - a)
    ensures 0.0 <= TvInnerTerm(E, alpha, k, j, a, l)
    ensures TvInnerTerm(E, alpha, k, j, a, l)
         <= TvWeight(E, alpha, k - a, a) * BinomialTerm(k - a, l, E, 1.0)
  {
    TvWeightScaled(E, alpha, k - a, a);
    TvGapBounds(E, k, j, a, l);
    ScaleBetween(TvWeight(E, alpha, k - a, a), TvGap(E, k, j, a, l), BinomialTerm(k - a, l, E, 1.0));
  }

  /** The alpha-free part of a summand lies between zero and the term
      C(k-a, l) E^(k-a-l) 1^l of the expansion of (E + 1)^(k-a). */
  lemma TvGapBounds(E: PosReal, k: nat, j: nat, a: nat, l: nat)
    requires 1.0 <= E && a + j < k && l < CeilHalf(k - j - a)
    ensures 0.0 <= TvGap(E, k, j, a, l) <= BinomialTerm(k - a, l, E, 1.0)
  {
    TvExponentsOrdered(k, j, a, l);
    PowMonotoneExponent(E, l + j, k - l - a);
    PowOne(l);
    BinomNonNegative(k - a, l);
    assert Pow(E, k - a - l) == Pow(E, k - l - a);
    ScaleBetween(Binom(k - a, l), Pow(E, k - l - a) - Pow(E, l + j), Pow(E, k - l - a));
  }

  /** Each partial inner sum is non-negative and at most the weight times a
      partial expansion of (E + 1)^(k-a). */
  lemma {:induction false} TvInnerBounds(E: PosReal, alpha: real, k: nat, j: nat, a: nat, m: nat)
    requires 1.0 <= E && 0.0 <= alpha <= 1.0
    requires a + j < k && m <= CeilHalf(k - j - a)
    ensures 0.0 <= TvInner(E, alpha, k, j, a, m)
    ensures TvInner(E, alpha, k, j, a, m)
         <= TvWeight(E, alpha, k - a, a) * BinomialPartialSum(k - a, m, E, 1.0)
  {
    if m > 0 {
      var l := m - 1;
      TvInnerBounds(E, alpha, k, j, a, l);
      TvInnerTermBound(E, alpha, k, j, a, l);
      assert BinomialPartialSum(k - a, m, E, 1.0)
          == BinomialPartialSum(k - a, l, E, 1.0) + BinomialTerm(k - a, l, E, 1.0);
      Distribute(TvWeight(E, alpha, k - a, a), BinomialPartialSum(k - a, l, E, 1.0), BinomialTerm(k - a, l, E, 1.0));
    }
  }

  /** Each outer summand is at most the term C(k, a) (1 - alpha)^(k-a) alpha^a
      of the expansion of ((1 - alpha) + alpha)^k. */
  lemma {:induction false} TvOuterTermBound(E: PosReal, alpha: real, k: nat, j: nat, a: nat)
    requires 1.0 <= E && 0.0 <= alpha <= 1.0 && a + j < k
    ensures 0.0 <= TvOuterTerm(E, alpha, k, j, a) <= BinomialTerm(k, a, 1.0 - alpha, alpha)
  {
    TvInnerSumBound(E, alpha, k, j, a);
    BinomNonNegative(k, a);
    ScaledBelow(Binom(k, a), TvInnerSum(E, alpha, k, j, a), Pow(1.0 - alpha, k - a), Pow(alpha, a),
      TvOuterTerm(E, alpha, k, j, a), BinomialTerm(k, a, 1.0 - alpha, alpha));
  }

  /** The whole inner sum for a lies between zero and the term
      (1 - alpha)^(k-a) * alpha^a of the expansion of ((1 - alpha) + alpha)^k. */
  lemma {:induction false} TvInnerSumBound(E: PosReal, alpha: real, k: nat, j: nat, a: nat)
    requires 1.0 <= E && 0.0 <= alpha <= 1.0 && a + j < k
    ensures 0.0 <= TvInnerSum(E, alpha, k, j, a) <= Pow(1.0 - alpha, k - a) * Pow(alpha, a)
  {
    TvInnerBelowTerm(E, alpha, k, j, a, CeilHalf(k - j - a));
  }

  /** Every partial inner sum for a lies between zero and the term
      (1 - alpha)^(k-a) * alpha^a. */
  lemma {:induction false} TvInnerBelowTerm(E: PosReal, alpha: real, k: nat, j: nat, a: nat, m: nat)
    requires 1.0 <= E && 0.0 <= alpha <= 1.0 && a + j < k && m <= CeilHalf(k - j - a)
    ensures 0.0 <= TvInner(E, alpha, k, j, a, m) <= Pow(1.0 - alpha, k - a) * Pow(alpha, a)
  {
    TvInnerBounds(E, alpha, k, j, a, m);
    WeightedPartialSumBelow(E, alpha, k, a, m);
  }

  /** The weight times a partial expansion of (E + 1)^n is at most the weight
      times the whole expansion, the term (1 - alpha)^n * alpha^a. */
  lemma {:induction false} WeightedPartialSumBelow(E: PosReal, alpha: real, k: nat, a: nat, m: nat)
    requires 1.0 <= E && 0.0 <= alpha <= 1.0 && a <= k && m <= k - a + 1
    ensures TvWeight(E, alpha, k - a, a) * BinomialPartialSum(k - a, m, E, 1.0)
         <= Pow(1.0 - alpha, k - a) * Pow(alpha, a)
  {
    var n := k - a;
    PartialSumAtMostPower(n, m, E, 1.0);
    TvWeightScaled(E, alpha, n, a);
    WeightChain(TvWeight(E, alpha, n, a), BinomialPartialSum(n, m, E, 1.0), Pow(E + 1.0, n),
      Pow(1.0 - alpha, n) * Pow(alpha, a));
  }

  /** 0 <= w and ps <= pw with w * pw == t give w * ps <= t. */
  lemma WeightChain(w: real, ps: real, pw: real, t: real)
    requires 0.0 <= w && 0.0 <= ps <= pw && w * pw == t
    ensures w * ps <= t
  {
    ScaleBetween(w, ps, pw);
  }

  /** o = c * inner with 0 <= c and 0 <= inner <= x * y lies between zero
      and b = c * x * y. */
  lemma ScaledBelow(c: real, inner: real, x: real, y: real, o: real, b: real)
    requires 0.0 <= c && 0.0 <= inner <= x * y && o == c * inner && b == c * x * y
    ensures 0.0 <= o <= b
  {
    ScaleBetween(c, inner, x * y);
  }

  /** The outer sum stays between zero and a partial expansion of
      ((1 - alpha) + alpha)^k. */
  lemma {:induction false} TvOuterBounds(E: PosReal, alpha: real, k: nat, j: nat, m: nat)
    requires 1.0 <= E && 0.0 <= alpha <= 1.0 && j + m <= k
    ensures 0.0 <= TvOuter(E, alpha, k, j, m) <= BinomialPartialSum(k, m, 1.0 - alpha, alpha)
  {
    if m > 0 {
      var a := m - 1;
      assert BinomialPartialSum(k, m, 1.0 - alpha, alpha)
          == BinomialPartialSum(k, a, 1.0 - alpha, alpha) + BinomialTerm(k, a, 1.0 - alpha, alpha);
      TvOuterBounds(E, alpha, k, j, a);
      TvOuterTermBound(E, alpha, k, j, a);
    }
  }

  /** The combinatorial term of every sub-region lies in [0, 1]. */
  lemma TvDeltaTmpInUnit(E: PosReal, alpha: real, k: nat, j: nat)
    requires 1.0 <= E && 0.0 <= alpha <= 1.0 && j <= k
    ensures 0.0 <= TvOuter(E, alpha, k, j, k - j) <= 1.0
  {
    TvOuterBounds(E, alpha, k, j, k - j);
    PartialSumAtMostPower(k, k - j, 1.0 - alpha, alpha);
    assert (1.0 - alpha) + alpha == 1.0;
    PowOne(k);
  }

  /** The delta of every total-variation sub-region lies in [0, 1], so the
      nested (eps, delta) assertion on it holds. */
  lemma TvDeltaInUnit(E: PosReal, alpha: real, delta: real, k: nat, j: nat)
    requires 1.0 <= E && 0.0 <= alpha <= 1.0 && 0.0 <= delta <= 1.0 && j <= k
    ensures 0.0 <= TvDelta(E, alpha, delta, k, j) <= 1.0
  {
    TvDeltaTmpInUnit(E, alpha, k, j);
    ComposedDeltaInUnit(delta, k, TvOuter(E, alpha, k, j, k - j));
  }
}
