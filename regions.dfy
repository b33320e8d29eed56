/** Privacy regions of src/model/differential_privacy.py.

    A region is a list of constraints on a pair (fp, fn) of false-positive and
    false-negative rates; a pair lies in the region when every constraint holds.
    The source represents a constraint as a Python lambda; here it is a tagged
    value with an evaluation function. The exponential is not modelled: every
    e^(n*eps) in the file has an integer n, so callers pass E = e^eps and the
    model writes e^(n*eps) as Pow(E, n). A failed `assert` is Err(DomainError). */
module DifferentialPrivacy {
  import opened Wrappers
  import opened Combinatorics
  import opened CompositionBounds

  /** One constraint of a region. */
  datatype Constraint =
    | /** fp + E * fn >= 1 - delta */
      Ineq(E: real, delta: real)
    | /** the same inequality with fp and fn swapped */
      Mirror(E: real, delta: real)
    | /** fp + fn <= 1, as a lambda built where the region is built */
      SumLine
    | /** fp + fn <= 1 as the shared `SUM_LINE` object, which the gui figure
          recognises by identity; the region builders of this file never use it */
      SharedSumLine
    | /** fp + fn >= 1 - eta */
      TvLower(eta: real)
    | /** fn >= f(fp) for a trade-off function f */
      AboveCurve(f: real -> real)

  type Region = seq<Constraint>

  predicate Eval(c: Constraint, fp: real, fn: real)
  {
    match c
    case Ineq(E, delta) => fp + E * fn >= 1.0 - delta
    case Mirror(E, delta) => fn + E * fp >= 1.0 - delta
    case SumLine => fp + fn <= 1.0
    case SharedSumLine => fp + fn <= 1.0
    case TvLower(eta) => fp + fn >= 1.0 - eta
    case AboveCurve(f) => fn >= f(fp)
  }

  /** (fp, fn) lies in the region: the AND of all its constraints. */
  predicate Holds(region: Region, fp: real, fn: real)
  {
    forall i :: 0 <= i < |region| ==> Eval(region[i], fp, fn)
  }

  lemma HoldsAppend(a: Region, b: Region, fp: real, fn: real)
    ensures Holds(a + b, fp, fn) <==> Holds(a, fp, fn) && Holds(b, fp, fn)
  {
    if Holds(a, fp, fn) && Holds(b, fp, fn) {
      forall i | 0 <= i < |a + b|
        ensures Eval((a + b)[i], fp, fn)
      {
        if i >= |a| {
          assert (a + b)[i] == b[i - |a|];
        }
      }
    }
    if Holds(a + b, fp, fn) {
      forall i | 0 <= i < |b|
        ensures Eval(b[i], fp, fn)
      {
        assert (a + b)[|a| + i] == b[i];
      }
      forall i | 0 <= i < |a|
        ensures Eval(a[i], fp, fn)
      {
        assert (a + b)[i] == a[i];
      }
    }
  }

  // ----- intersect_regions -----

  /** The constraint lists of `regions` concatenated in order. */
  function Flatten(regions: seq<Region>): Region
  {
    if |regions| == 0 then [] else Flatten(regions[..|regions| - 1]) + regions[|regions| - 1]
  }

  /** intersect_regions: extends an initially empty list by every region in turn. */
  method IntersectRegions(regions: seq<Region>) returns (ret: Region)
    ensures ret == Flatten(regions)
  {
    ret := [];
    for i := 0 to |regions|
      invariant ret == Flatten(regions[..i])
    {
      assert regions[..i + 1][..i] == regions[..i];
      ret := ret + regions[i];
    }
    assert regions[..|regions|] == regions;
  }

  /** A pair lies in the intersection exactly when it lies in every region. */
  lemma {:induction false} FlattenHolds(regions: seq<Region>, fp: real, fn: real)
    ensures Holds(Flatten(regions), fp, fn) <==> forall i :: 0 <= i < |regions| ==> Holds(regions[i], fp, fn)
  {
    if |regions| > 0 {
      var init := regions[..|regions| - 1];
      FlattenHolds(init, fp, fn);
      HoldsAppend(Flatten(init), regions[|regions| - 1], fp, fn);
      assert forall i :: 0 <= i < |init| ==> init[i] == regions[i];
    }
  }

  /** When every region has exactly w constraints, the intersection has
      w constraints per region. */
  lemma {:induction false} FlattenLength(regions: seq<Region>, w: nat)
    requires forall i :: 0 <= i < |regions| ==> |regions[i]| == w
    ensures |Flatten(regions)| == w * |regions|
  {
    if |regions| > 0 {
      var n := |regions| - 1;
      FlattenLength(regions[..n], w);
      assert w * |regions| == w * n + w;
    }
  }

  /** Region i follows the intersection of the regions before it. */
  lemma {:induction false} FlattenAt(regions: seq<Region>, i: nat)
    requires i < |regions|
    ensures var lo := |Flatten(regions[..i])|;
      lo + |regions[i]| <= |Flatten(regions)| && Flatten(regions)[lo .. lo + |regions[i]|] == regions[i]
  {
    var n := |regions| - 1;
    var init := regions[..n];
    var f0, f := Flatten(init), Flatten(regions);
    assert f == f0 + regions[n];
    var lo := |Flatten(regions[..i])|;
    if i < n {
      FlattenAt(init, i);
      assert init[..i] == regions[..i];
      assert f[lo .. lo + |regions[i]|] == f0[lo .. lo + |regions[i]|];
    } else {
      assert init == regions[..i];
    }
  }

  /** When every region has exactly w constraints, region i occupies indices
      [w * i, w * i + w) of the intersection. */
  lemma FlattenBlock(regions: seq<Region>, w: nat, i: nat)
    requires forall j :: 0 <= j < |regions| ==> |regions[j]| == w
    requires i < |regions|
    ensures w * i + w <= |Flatten(regions)| && Flatten(regions)[w * i .. w * i + w] == regions[i]
  {
    FlattenAt(regions, i);
    FlattenLength(regions[..i], w);
  }

  /** When every region has exactly w constraints, the intersection has
      w * |regions| of them and region i occupies indices [w * i, w * i + w). */
  lemma FlattenUniform(regions: seq<Region>, w: nat)
    requires forall i :: 0 <= i < |regions| ==> |regions[i]| == w
    ensures |Flatten(regions)| == w * |regions|
    ensures forall i :: 0 <= i < |regions| ==> w * i + w <= |Flatten(regions)| && Flatten(regions)[w * i .. w * i + w] == regions[i]
  {
    FlattenLength(regions, w);
    forall i | 0 <= i < |regions|
      ensures w * i + w <= |Flatten(regions)| && Flatten(regions)[w * i .. w * i + w] == regions[i]
    {
      FlattenBlock(regions, w, i);
    }
  }

  /** FlattenUniform for regions of three constraints each. */
  lemma FlattenTriples(regions: seq<Region>)
    requires forall i :: 0 <= i < |regions| ==> |regions[i]| == 3
    ensures |Flatten(regions)| == 3 * |regions|
    ensures forall i :: 0 <= i < |regions| ==> 3 * i + 3 <= |Flatten(regions)| && Flatten(regions)[3 * i .. 3 * i + 3] == regions[i]
  {
    FlattenUniform(regions, 3);
  }

  // ----- region_from_dp_params -----

  /** The three constraints of (eps, delta)-differential privacy with E = e^eps. */
  function DpRegion(E: real, delta: real): Region
  {
    [Ineq(E, delta), Mirror(E, delta), SumLine]
  }

  /** region_from_dp_params: the asserts eps >= 0 (that is, E >= 1) and
      0 <= delta <= 1, then the three constraints. */
  function DpParams(E: PosReal, delta: real): (r: Result<Region>)
    ensures r.Ok? <==> 1.0 <= E && 0.0 <= delta <= 1.0
    ensures r.Ok? ==> r.value == DpRegion(E, delta)
    ensures r.Ok? ==> |r.value| == 3 && r.value[0] == Ineq(E, delta) && r.value[1] == Mirror(E, delta) && r.value[2] == SumLine
    ensures r.Err? ==> r.error == DomainError
  {
    if 1.0 <= E && 0.0 <= delta <= 1.0 then Ok(DpRegion(E, delta)) else Err(DomainError)
  }

  /** Membership in the (eps, delta) region, written out. */
  lemma HoldsDpRegion(E: real, delta: real, fp: real, fn: real)
    ensures Holds(DpRegion(E, delta), fp, fn) <==>
              fp + E * fn >= 1.0 - delta && fn + E * fp >= 1.0 - delta && fp + fn <= 1.0
  {
    var r := DpRegion(E, delta);
    assert Eval(r[0], fp, fn) && Eval(r[1], fp, fn) && Eval(r[2], fp, fn) ==> Holds(r, fp, fn);
  }

  /** The second constraint is the first with fp and fn swapped, so the region
      is symmetric under that swap. */
  lemma DpRegionSymmetric(E: real, delta: real, fp: real, fn: real)
    ensures Eval(DpRegion(E, delta)[1], fp, fn) == Eval(DpRegion(E, delta)[0], fn, fp)
    ensures Holds(DpRegion(E, delta), fp, fn) <==> Holds(DpRegion(E, delta), fn, fp)
  {
    HoldsDpRegion(E, delta, fp, fn);
    HoldsDpRegion(E, delta, fn, fp);
  }

  /** A larger delta gives a weaker region. */
  lemma DpRegionDeltaWeakens(E: real, delta1: real, delta2: real, fp: real, fn: real)
    requires delta1 <= delta2 && Holds(DpRegion(E, delta1), fp, fn)
    ensures Holds(DpRegion(E, delta2), fp, fn)
  {
    HoldsDpRegion(E, delta1, fp, fn);
    HoldsDpRegion(E, delta2, fp, fn);
  }

  /** A larger E and a larger delta give a weaker region, for non-negative rates. */
  lemma DpRegionWeakens(E1: real, delta1: real, E2: real, delta2: real, fp: real, fn: real)
    requires E1 <= E2 && delta1 <= delta2 && 0.0 <= fp && 0.0 <= fn
    requires Holds(DpRegion(E1, delta1), fp, fn)
    ensures Holds(DpRegion(E2, delta2), fp, fn)
  {
    HoldsDpRegion(E1, delta1, fp, fn);
    HoldsDpRegion(E2, delta2, fp, fn);
    MulMonotone(fn, E1, E2);
    MulMonotone(fp, E1, E2);
    assert E1 * fn <= E2 * fn;
    assert E1 * fp <= E2 * fp;
  }

  // ----- region_from_dp_tv_params -----

  /** region_from_dp_tv_params: the three constraints followed by
      fp + fn >= 1 - eta. */
  function DpTvParams(E: PosReal, delta: real, eta: real): Result<Region>
  {
    match DpParams(E, delta)
    case Err(e) => Err(e)
    case Ok(dp) => Ok(Flatten([dp, [TvLower(eta)]]))
  }

  lemma DpTvParamsShape(E: PosReal, delta: real, eta: real)
    ensures DpTvParams(E, delta, eta).Ok? <==> DpParams(E, delta).Ok?
    ensures DpTvParams(E, delta, eta).Ok? ==>
              DpTvParams(E, delta, eta).value == DpParams(E, delta).value + [TvLower(eta)]
    ensures forall fp, fn :: DpTvParams(E, delta, eta).Ok? ==>
              (Holds(DpTvParams(E, delta, eta).value, fp, fn) <==>
                 Holds(DpParams(E, delta).value, fp, fn) && fp + fn >= 1.0 - eta)
  {
    if DpParams(E, delta).Ok? {
      var dp := DpParams(E, delta).value;
      assert [dp, [TvLower(eta)]][..1] == [dp];
      assert [dp][..0] == [];
      assert Flatten([dp]) == dp;
      assert Flatten([dp, [TvLower(eta)]]) == Flatten([dp]) + [TvLower(eta)];
      forall fp, fn
        ensures Holds(dp + [TvLower(eta)], fp, fn) <==> Holds(dp, fp, fn) && fp + fn >= 1.0 - eta
      {
        HoldsAppend(dp, [TvLower(eta)], fp, fn);
        var single: Region := [TvLower(eta)];
        assert Holds(single, fp, fn) ==> Eval(single[0], fp, fn);
      }
    }
  }

  // ----- region_from_dp_composition_basic -----

  function Min(a: real, b: real): real
  {
    if a <= b then a else b
  }

  /** region_from_dp_composition_basic: (k * eps, min(1, k * delta)). */
  function CompositionBasic(E: PosReal, delta: real, k: int): Result<Region>
  {
    if !(1.0 <= E && 0.0 <= delta <= 1.0 && k >= 0) then Err(DomainError)
    else PowPositive(E, k); DpParams(Pow(E, k), Min(1.0, k as real * delta))
  }

  /** For valid parameters the nested assertion holds: the composed region is
      the (k * eps, min(1, k * delta)) region, with its delta in [0, 1]. */
  lemma BasicCompositionOk(E: PosReal, delta: real, k: int)
    requires 1.0 <= E && 0.0 <= delta <= 1.0 && k >= 0
    ensures 0.0 <= Min(1.0, k as real * delta) <= 1.0
    ensures CompositionBasic(E, delta, k) == Ok(DpRegion(Pow(E, k), Min(1.0, k as real * delta)))
  {
    PowMonotoneExponent(E, 0, k);
    NonNegativeProduct(k as real, delta);
  }

  lemma BasicCompositionSingle(E: PosReal, delta: real)
    ensures CompositionBasic(E, delta, 1) == DpParams(E, delta)
  {
    assert Pow(E, 1) == E * Pow(E, 0);
  }

  /** Composing more mechanisms never shrinks the region of non-negative rates. */
  lemma BasicCompositionMonotone(E: PosReal, delta: real, k: nat, fp: real, fn: real)
    requires 1.0 <= E && 0.0 <= delta <= 1.0 && 0.0 <= fp && 0.0 <= fn
    requires CompositionBasic(E, delta, k).Ok? && Holds(CompositionBasic(E, delta, k).value, fp, fn)
    ensures CompositionBasic(E, delta, k + 1).Ok?
    ensures Holds(CompositionBasic(E, delta, k + 1).value, fp, fn)
  {
    BasicCompositionOk(E, delta, k);
    BasicCompositionOk(E, delta, k + 1);
    PowMonotoneExponent(E, k, k + 1);
    var d1 := Min(1.0, k as real * delta);
    var d2 := Min(1.0, (k + 1) as real * delta);
    assert d1 <= d2 by {
      assert (k + 1) as real * delta == k as real * delta + delta;
    }
    DpRegionWeakens(Pow(E, k), d1, Pow(E, k + 1), d2, fp, fn);
  }

  // ----- region_from_dp_composition_exact -----

  /** Sub-region i: ((k - 2i) eps, delta'_i). */
  function ExactSubRegion(E: PosReal, delta: real, k: nat, i: nat): Region
    requires 2 * i <= k
  {
    DpRegion(Pow(E, k - 2 * i), ExactDelta(E, delta, k, i))
  }

  function ExactSubRegions(E: PosReal, delta: real, k: nat): seq<Region>
  {
    seq(k / 2 + 1, i requires 0 <= i < k / 2 + 1 => ExactSubRegion(E, delta, k, i))
  }

  /** region_from_dp_composition_exact, with the index range [0, floor(k/2)]
      the loop evidently intends (see ExactIndicesAsWritten). */
  function ExactComposition(E: PosReal, delta: real, k: int): Result<Region>
  {
    if !(1.0 <= E && 0.0 <= delta <= 1.0 && k >= 0) then Err(DomainError)
    else Ok(Flatten(ExactSubRegions(E, delta, k)))
  }

  method CompositionExact(E: PosReal, delta: real, k: int) returns (r: Result<Region>)
    ensures r == ExactComposition(E, delta, k)
  {
    if !(1.0 <= E && 0.0 <= delta <= 1.0 && k >= 0) {
      return Err(DomainError);
    }
    var constraints: seq<Region> := [];
    for i := 0 to k / 2 + 1
      invariant constraints == ExactSubRegions(E, delta, k)[..i]
    {
      var deltaPrime := ExactDelta(E, delta, k, i);
      ExactDeltaInUnit(E, delta, k, i);
      PowMonotoneExponent(E, 0, k - 2 * i);
      var sub := DpParams(Pow(E, k - 2 * i), deltaPrime);
      constraints := constraints + [sub.value];
    }
    assert constraints == ExactSubRegions(E, delta, k);
    var ret := IntersectRegions(constraints);
    return Ok(ret);
  }

  /** floor(k/2) + 1 sub-regions of three constraints each: sub-region i is
      the ((k - 2i) eps, delta'_i) region, and every delta'_i lies in [0, 1]. */
  lemma ExactCompositionShape(E: PosReal, delta: real, k: nat)
    requires 1.0 <= E && 0.0 <= delta <= 1.0
    ensures ExactComposition(E, delta, k).Ok?
    ensures |ExactComposition(E, delta, k).value| == 3 * (k / 2 + 1)
    ensures forall i :: 0 <= i <= k / 2 ==>
              ExactComposition(E, delta, k).value[3 * i .. 3 * i + 3] == ExactSubRegion(E, delta, k, i)
    ensures forall i :: 0 <= i <= k / 2 ==> 0.0 <= ExactDelta(E, delta, k, i) <= 1.0
  {
    var subs := ExactSubRegions(E, delta, k);
    assert forall i :: 0 <= i < |subs| ==> subs[i] == ExactSubRegion(E, delta, k, i);
    FlattenUniform(subs, 3);
    forall i | 0 <= i <= k / 2
      ensures 0.0 <= ExactDelta(E, delta, k, i) <= 1.0
    {
      ExactDeltaInUnit(E, delta, k, i);
    }
  }

  /** A pair lies in the exact composition region exactly when it lies in
      every sub-region. */
  lemma ExactCompositionHolds(E: PosReal, delta: real, k: nat, fp: real, fn: real)
    requires 1.0 <= E && 0.0 <= delta <= 1.0
    ensures Holds(ExactComposition(E, delta, k).value, fp, fn) <==>
              forall i :: 0 <= i <= k / 2 ==> Holds(ExactSubRegion(E, delta, k, i), fp, fn)
  {
    var subs := ExactSubRegions(E, delta, k);
    FlattenHolds(subs, fp, fn);
    assert forall i :: 0 <= i <= k / 2 ==> subs[i] == ExactSubRegion(E, delta, k, i);
  }

  /** Composing a single mechanism gives back its own region. */
  lemma ExactCompositionSingle(E: PosReal, delta: real)
    requires 1.0 <= E && 0.0 <= delta <= 1.0
    ensures ExactComposition(E, delta, 1) == DpParams(E, delta)
  {
    var subs := ExactSubRegions(E, delta, 1);
    assert |subs| == 1;
    ExactDeltaFirst(E, delta, 1);
    assert Pow(1.0 - delta, 1) == (1.0 - delta) * Pow(1.0 - delta, 0);
    assert ExactDelta(E, delta, 1, 0) == delta;
    assert Pow(E, 1) == E * Pow(E, 0);
    assert subs[0] == DpRegion(E, delta);
    assert subs[..0] == [];
    assert Flatten(subs) == DpRegion(E, delta);
  }

  /** The exact theorem is at least as tight as the basic one: its first
      sub-region (k eps, 1 - (1 - delta)^k) already lies inside the basic
      region (k eps, min(1, k delta)). */
  lemma ExactWithinBasic(E: PosReal, delta: real, k: nat, fp: real, fn: real)
    requires 1.0 <= E && 0.0 <= delta <= 1.0
    requires Holds(ExactComposition(E, delta, k).value, fp, fn)
    ensures CompositionBasic(E, delta, k).Ok?
    ensures Holds(CompositionBasic(E, delta, k).value, fp, fn)
  {
    ExactCompositionHolds(E, delta, k, fp, fn);
    assert Holds(ExactSubRegion(E, delta, k, 0), fp, fn);
    ExactDeltaFirst(E, delta, k);
    BasicCompositionOk(E, delta, k);
    var d0, d1 := ExactDelta(E, delta, k, 0), Min(1.0, k as real * delta);
    assert d0 <= d1 by {
      Bernoulli(delta, k);
      PowAtMostOne(1.0 - delta, k);
    }
    DpRegionDeltaWeakens(Pow(E, k), d0, d1, fp, fn);
  }

  // ----- the loop header of region_from_dp_composition_exact as written -----

  /** The numbers the header `range(np.floor(k/2)+1)` handles: np.floor
      returns a NumPy float, and adding an int keeps it a float. */
  datatype PyNumber = PyInt(i: int) | PyFloat(x: real)

  function NpFloor(x: real): PyNumber
  {
    PyFloat(x.Floor as real)
  }

  function PyAdd(a: PyNumber, b: PyNumber): PyNumber
  {
    match (a, b)
    case (PyInt(m), PyInt(n)) => PyInt(m + n)
    case (PyInt(m), PyFloat(y)) => PyFloat(m as real + y)
    case (PyFloat(x), PyInt(n)) => PyFloat(x + n as real)
    case (PyFloat(x), PyFloat(y)) => PyFloat(x + y)
  }

  /** Python's range(n): only an integer is accepted. */
  function PyRange(n: PyNumber): (r: Result<seq<int>>)
    ensures n.PyFloat? <==> r == Err(TypeError)
    ensures n.PyInt? ==> r.Ok? && |r.value| == (if n.i < 0 then 0 else n.i)
                         && forall t :: 0 <= t < |r.value| ==> r.value[t] == t
  {
    match n
    case PyFloat(_) => Err(TypeError)
    case PyInt(m) => Ok(seq(if m < 0 then 0 else m, t => t))
  }

  /** The index list of the exact composition as written: `k/2` is true
      division, so the header hands `range` a float. */
  function ExactIndicesAsWritten(k: int): Result<seq<int>>
  {
    PyRange(PyAdd(NpFloor(k as real / 2.0), PyInt(1)))
  }

  /** The index list the loop evidently intends: 0 .. floor(k/2). */
  function ExactIndices(k: nat): Result<seq<int>>
  {
    PyRange(PyInt(k / 2 + 1))
  }

  /** As written, the loop header raises TypeError for every k, so
      region_from_dp_composition_exact never returns a region. */
  lemma ExactIndicesAsWrittenFails(k: int)
    ensures ExactIndicesAsWritten(k) == Err(TypeError)
  {
  }

  /** The corrected header walks exactly the sub-region indices of ExactComposition. */
  lemma ExactIndicesCorrected(k: nat)
    ensures ExactIndices(k).Ok?
    ensures |ExactIndices(k).value| == |ExactSubRegions(1.0, 0.0, k)| == k / 2 + 1
    ensures forall t :: 0 <= t < |ExactIndices(k).value| ==> ExactIndices(k).value[t] == t
  {
  }

  /** region_from_dp_composition_exact exactly as written: the asserts, then
      the loop header's TypeError. */
  function CompositionExactAsWritten(E: PosReal, delta: real, k: int): Result<Region>
  {
    if !(1.0 <= E && 0.0 <= delta <= 1.0 && k >= 0) then Err(DomainError)
    else match ExactIndicesAsWritten(k)
      case Err(e) => Err(e)
      case Ok(_) => ExactComposition(E, delta, k)
  }

  lemma CompositionExactAsWrittenFails(E: PosReal, delta: real, k: int)
    requires 1.0 <= E && 0.0 <= delta <= 1.0 && k >= 0
    ensures CompositionExactAsWritten(E, delta, k) == Err(TypeError)
    ensures ExactComposition(E, delta, k).Ok?
  {
    ExactIndicesAsWrittenFails(k);
  }

  // ----- region_from_dp_composition_exact_total_var -----

  /** alpha, or None where the source computes NaN: the divisor
      (1 - delta)(E - 1) is zero only when eta = delta, so NumPy divides 0 by 0. */
  function TvAlphaValue(E: PosReal, delta: real, eta: real): Option<real>
  {
    if (1.0 - delta) * (E - 1.0) != 0.0 then Some(TvAlpha(E, delta, eta)) else None
  }

  /** delta'_j, or None for NaN: with alpha NaN every non-empty sum is NaN,
      and only the last sub-region (j = k) has an empty sum. */
  function TvSubDelta(E: PosReal, alpha: Option<real>, delta: real, k: nat, j: nat): Option<real>
    requires j <= k
  {
    if alpha.Some? then Some(TvDelta(E, alpha.value, delta, k, j))
    else if j == k then Some(ComposedDelta(delta, k, 0.0))
    else None
  }

  predicate TvValid(E: PosReal, delta: real, eta: real, k: int)
  {
    1.0 <= E && 0.0 <= delta <= 1.0 && k >= 0 && TvAdmissible(E, delta, eta)
  }

  /** The result: the intersected region and d_tv, the delta' of j = 0. */
  datatype TvComposition = TvComposition(region: Region, dTv: real)

  function TvSubRegion(E: PosReal, delta: real, eta: real, k: nat, j: nat): Region
    requires TvValid(E, delta, eta, k) && j <= k
    requires TvAlphaValue(E, delta, eta).Some? || k == 0
  {
    DpRegion(Pow(E, j), TvSubDelta(E, TvAlphaValue(E, delta, eta), delta, k, j).value)
  }

  function TvSubRegions(E: PosReal, delta: real, eta: real, k: nat): (subs: seq<Region>)
    requires TvValid(E, delta, eta, k)
    requires TvAlphaValue(E, delta, eta).Some? || k == 0
    ensures |subs| == k + 1
    ensures forall j :: 0 <= j <= k ==> subs[j] == TvSubRegion(E, delta, eta, k, j)
  {
    seq(k + 1, j requires 0 <= j < k + 1 => TvSubRegion(E, delta, eta, k, j))
  }

  /** region_from_dp_composition_exact_total_var: one sub-region (j eps, delta'_j)
      per j in [0, k]; NaN deltas fail the nested assertion. */
  function ExactTotalVarComposition(E: PosReal, delta: real, eta: real, k: int): Result<TvComposition>
  {
    if !TvValid(E, delta, eta, k) then Err(DomainError)
    else if TvAlphaValue(E, delta, eta).None? && k > 0 then Err(DomainError)
    else Ok(TvComposition(
      Flatten(TvSubRegions(E, delta, eta, k)),
      TvSubDelta(E, TvAlphaValue(E, delta, eta), delta, k, 0).value))
  }

  /** Every delta' that is not NaN lies in [0, 1]. */
  lemma TvSubDeltaInUnit(E: PosReal, delta: real, eta: real, k: nat, j: nat)
    requires TvValid(E, delta, eta, k) && j <= k
    requires TvSubDelta(E, TvAlphaValue(E, delta, eta), delta, k, j).Some?
    ensures 0.0 <= TvSubDelta(E, TvAlphaValue(E, delta, eta), delta, k, j).value <= 1.0
  {
    var alpha := TvAlphaValue(E, delta, eta);
    if alpha.Some? {
      TvDivisorNonZero(E, delta);
      TvAlphaInUnit(E, delta, eta);
      TvDeltaInUnit(E, alpha.value, delta, k, j);
    } else {
      ComposedDeltaInUnit(delta, k, 0.0);
    }
  }

  lemma TvDivisorNonZero(E: real, delta: real)
    requires 1.0 <= E && delta <= 1.0 && (1.0 - delta) * (E - 1.0) != 0.0
    ensures 1.0 < E && delta < 1.0
  {
    ZeroFactor(1.0 - delta, E - 1.0);
  }

  lemma ZeroFactor(a: real, b: real)
    ensures a == 0.0 || b == 0.0 ==> a * b == 0.0
  {
  }

  method CompositionExactTotalVar(E: PosReal, delta: real, eta: real, k: int) returns (r: Result<TvComposition>)
    ensures r == ExactTotalVarComposition(E, delta, eta, k)
  {
    if !TvValid(E, delta, eta, k) {
      return Err(DomainError);
    }
    var alpha := TvAlphaValue(E, delta, eta);
    var constraints: seq<Region> := [];
    var dTv := 1.0;
    for j := 0 to k + 1
      invariant j > 0 ==> alpha.Some? || k == 0
      invariant |constraints| == j
      invariant forall t :: 0 <= t < j ==> constraints[t] == TvSubRegion(E, delta, eta, k, t)
      invariant j > 0 ==> dTv == TvSubDelta(E, alpha, delta, k, 0).value
    {
      var deltaPrime := TvSubDelta(E, alpha, delta, k, j);
      if deltaPrime.None? {
        // NaN fails `0 <= delta <= 1` in region_from_dp_params
        return Err(DomainError);
      }
      TvSubDeltaInUnit(E, delta, eta, k, j);
      PowMonotoneExponent(E, 0, j);
      var sub := DpParams(Pow(E, j), deltaPrime.value);
      constraints := constraints + [sub.value];
      if j == 0 {
        dTv := deltaPrime.value;
      }
    }
    var ret := IntersectRegions(constraints);
    assert constraints == TvSubRegions(E, delta, eta, k);
    return Ok(TvComposition(ret, dTv));
  }

  /** With E > 1 and delta < 1 the composition succeeds: k + 1 sub-regions,
      sub-region j being (j eps, delta'_j) with delta'_j in [0, 1], and d_tv is
      delta'_0. */
  lemma {:induction false} ExactTotalVarShape(E: PosReal, delta: real, eta: real, k: nat)
    requires TvValid(E, delta, eta, k) && 1.0 < E && delta < 1.0
    ensures (1.0 - delta) * (E - 1.0) != 0.0
    ensures ExactTotalVarComposition(E, delta, eta, k).Ok?
    ensures |ExactTotalVarComposition(E, delta, eta, k).value.region| == 3 * (k + 1)
    ensures forall j :: 0 <= j <= k ==>
              ExactTotalVarComposition(E, delta, eta, k).value.region[3 * j .. 3 * j + 3]
              == DpRegion(Pow(E, j), TvDelta(E, TvAlpha(E, delta, eta), delta, k, j))
    ensures forall j :: 0 <= j <= k ==> 0.0 <= TvDelta(E, TvAlpha(E, delta, eta), delta, k, j) <= 1.0
    ensures ExactTotalVarComposition(E, delta, eta, k).value.dTv == TvDelta(E, TvAlpha(E, delta, eta), delta, k, 0)
  {
    TvSubRegionsExact(E, delta, eta, k);
    FlattenTriples(TvSubRegions(E, delta, eta, k));
  }

  /** With E > 1 and delta < 1 alpha is a number, and sub-region j is
      (j eps, delta'_j) with delta'_j in [0, 1]. */
  lemma {:induction false} TvSubRegionsExact(E: PosReal, delta: real, eta: real, k: nat)
    requires TvValid(E, delta, eta, k) && 1.0 < E && delta < 1.0
    ensures (1.0 - delta) * (E - 1.0) != 0.0
    ensures TvAlphaValue(E, delta, eta) == Some(TvAlpha(E, delta, eta))
    ensures forall j :: 0 <= j <= k ==>
              && TvSubRegions(E, delta, eta, k)[j] == DpRegion(Pow(E, j), TvDelta(E, TvAlpha(E, delta, eta), delta, k, j))
              && 0.0 <= TvDelta(E, TvAlpha(E, delta, eta), delta, k, j) <= 1.0
  {
    PositiveProduct(1.0 - delta, E - 1.0);
    TvAlphaInUnit(E, delta, eta);
    var alpha := TvAlpha(E, delta, eta);
    forall j | 0 <= j <= k
      ensures 0.0 <= TvDelta(E, alpha, delta, k, j) <= 1.0
    {
      TvDeltaInUnit(E, alpha, delta, k, j);
    }
  }

  /** With eps = 0 or delta = 1, alpha is NaN, and for k >= 1 the first
      sub-region's delta' is NaN, which fails the nested assertion. */
  lemma ExactTotalVarNaN(E: PosReal, delta: real, eta: real, k: nat)
    requires TvValid(E, delta, eta, k) && (E == 1.0 || delta == 1.0) && k >= 1
    ensures ExactTotalVarComposition(E, delta, eta, k) == Err(DomainError)
  {
    ZeroFactor(1.0 - delta, E - 1.0);
  }

  /** Composing no mechanism gives the (0, 0) region and d_tv = 0. */
  lemma ExactTotalVarNone(E: PosReal, delta: real, eta: real)
    requires TvValid(E, delta, eta, 0)
    ensures ExactTotalVarComposition(E, delta, eta, 0) == Ok(TvComposition(DpRegion(1.0, 0.0), 0.0))
  {
    var subs := TvSubRegions(E, delta, eta, 0);
    assert subs[..0] == [];
    var alpha := TvAlphaValue(E, delta, eta);
    assert TvSubDelta(E, alpha, delta, 0, 0) == Some(0.0) by {
      if alpha.Some? {
        TvLastDelta(E, alpha.value, delta, 0);
      }
    }
    assert subs[0] == DpRegion(1.0, 0.0);
    assert Flatten(subs) == DpRegion(1.0, 0.0);
  }

  /** The last sub-region (j = k) has an empty sum: it is the
      (k eps, 1 - (1 - delta)^k) region, the same as sub-region 0 of the exact
      composition. */
  lemma TvLastDelta(E: PosReal, alpha: real, delta: real, k: nat)
    ensures TvDelta(E, alpha, delta, k, k) == ExactDelta(E, delta, k, 0) == 1.0 - Pow(1.0 - delta, k)
  {
    ExactDeltaFirst(E, delta, k);
  }

  /** Every pair in the total-variation composition region lies in the basic
      composition region. */
  lemma ExactTotalVarWithinBasic(E: PosReal, delta: real, eta: real, k: nat, fp: real, fn: real)
    requires ExactTotalVarComposition(E, delta, eta, k).Ok?
    requires Holds(ExactTotalVarComposition(E, delta, eta, k).value.region, fp, fn)
    ensures CompositionBasic(E, delta, k).Ok?
    ensures Holds(CompositionBasic(E, delta, k).value, fp, fn)
  {
    var alpha := TvAlphaValue(E, delta, eta);
    var subs := TvSubRegions(E, delta, eta, k);
    FlattenHolds(subs, fp, fn);
    assert Holds(subs[k], fp, fn);
    var dk := TvSubDelta(E, alpha, delta, k, k).value;
    assert dk == 1.0 - Pow(1.0 - delta, k) by {
      if alpha.Some? {
        TvLastDelta(E, alpha.value, delta, k);
      }
    }
    BasicCompositionOk(E, delta, k);
    assert dk <= Min(1.0, k as real * delta) by {
      Bernoulli(delta, k);
      PowAtMostOne(1.0 - delta, k);
    }
    DpRegionDeltaWeakens(Pow(E, k), dk, Min(1.0, k as real * delta), fp, fn);
  }

  // ----- region_from_dp_composition_simplified -----

  /** The product of a list of reals, as `np.prod` (1 for the empty list). */
  function Product(xs: seq<real>): real
  {
    if |xs| == 0 then 1.0 else Product(xs[..|xs| - 1]) * xs[|xs| - 1]
  }

  /** A product of factors in [0, 1] lies in [0, 1] and below every factor. */
  lemma {:induction false} ProductInUnit(xs: seq<real>)
    requires forall i :: 0 <= i < |xs| ==> 0.0 <= xs[i] <= 1.0
    ensures 0.0 <= Product(xs) <= 1.0
    ensures forall i :: 0 <= i < |xs| ==> Product(xs) <= xs[i]
  {
    if |xs| > 0 {
      var n := |xs| - 1;
      var init := xs[..n];
      ProductInUnit(init);
      var p := Product(init);
      var x := xs[n];
      assert 0.0 <= x <= 1.0;
      ProductBelowFactors(p, x);
      assert Product(xs) == p * x;
      forall i | 0 <= i < |xs|
        ensures Product(xs) <= xs[i]
      {
        if i < n {
          assert init[i] == xs[i];
        }
      }
    }
  }

  lemma ProductBelowFactors(p: real, x: real)
    requires 0.0 <= p <= 1.0 && 0.0 <= x <= 1.0
    ensures 0.0 <= p * x <= p && p * x <= x
  {
    NonNegativeProduct(p, x);
    MulMonotone(p, x, 1.0);
    MulMonotone(x, p, 1.0);
  }

  function OneMinus(ds: seq<real>): seq<real>
  {
    seq(|ds|, i requires 0 <= i < |ds| => 1.0 - ds[i])
  }

  /** delta = 1 - (1 - delta_slack) * prod(1 - delta_i). */
  function SimplifiedDelta(deltas: seq<real>, slack: real): real
  {
    1.0 - (1.0 - slack) * Product(OneMinus(deltas))
  }

  /** The composed delta lies in [0, 1] and is at least the slack and at
      least every delta_i, so the nested assertion holds. */
  lemma SimplifiedDeltaBounds(deltas: seq<real>, slack: real)
    requires 0.0 <= slack <= 1.0 && forall i :: 0 <= i < |deltas| ==> 0.0 <= deltas[i] <= 1.0
    ensures 0.0 <= slack <= SimplifiedDelta(deltas, slack) <= 1.0
    ensures forall i :: 0 <= i < |deltas| ==> deltas[i] <= SimplifiedDelta(deltas, slack)
  {
    var cs := OneMinus(deltas);
    ProductInUnit(cs);
    var p := Product(cs);
    ComplementScale(slack, p);
    assert SimplifiedDelta(deltas, slack) == 1.0 - (1.0 - slack) * p;
    forall i | 0 <= i < |deltas|
      ensures deltas[i] <= SimplifiedDelta(deltas, slack)
    {
      MulMonotone(p, 1.0 - slack, 1.0);
      assert cs[i] == 1.0 - deltas[i];
      assert (1.0 - slack) * p <= p <= cs[i];
    }
  }

  lemma ComplementScale(s: real, p: real)
    requires 0.0 <= s <= 1.0 && 0.0 <= p <= 1.0
    ensures s <= 1.0 - (1.0 - s) * p <= 1.0
  {
    NonNegativeProduct(1.0 - s, p);
    MulMonotone(1.0 - s, p, 1.0);
  }

  /** e^(eps_1 + ... + eps_n) = e^eps_1 * ... * e^eps_n, the E of eps_opt1. */
  function ExpOfSum(Es: seq<PosReal>): PosReal
  {
    if |Es| == 0 then 1.0
    else
      var init := ExpOfSum(Es[..|Es| - 1]);
      PositiveProduct(init, Es[|Es| - 1]);
      init * Es[|Es| - 1]
  }

  lemma {:induction false} ExpOfSumAtLeastOne(Es: seq<PosReal>)
    requires forall i :: 0 <= i < |Es| ==> 1.0 <= Es[i]
    ensures 1.0 <= ExpOfSum(Es)
  {
    if |Es| > 0 {
      var n := |Es| - 1;
      ExpOfSumAtLeastOne(Es[..n]);
      MulMonotone(ExpOfSum(Es[..n]), 1.0, Es[n]);
    }
  }

  /** min(a, b, c), which picks one of the three and is below all of them. */
  function Min3(a: PosReal, b: PosReal, c: PosReal): (r: PosReal)
    ensures r <= a && r <= b && r <= c
    ensures r == a || r == b || r == c
  {
    if a <= b && a <= c then a else if b <= c then b else c
  }

  /** region_from_dp_composition_simplified with Es[i] = e^eps_i, and
      E2 = e^eps_opt2, E3 = e^eps_opt3 passed in: the (min(eps_opt1, eps_opt2,
      eps_opt3), delta) region, eps_opt1 being the sum of the eps_i. */
  function CompositionSimplified(Es: seq<PosReal>, deltas: seq<real>, slack: real, E2: PosReal, E3: PosReal): Result<Region>
  {
    DpParams(Min3(ExpOfSum(Es), E2, E3), SimplifiedDelta(deltas, slack))
  }

  /** For eps_i >= 0, delta_i and delta_slack in [0, 1] and eps_opt2, eps_opt3
      >= 0 the region is built, and its eps never exceeds the sum of the eps_i. */
  lemma CompositionSimplifiedOk(Es: seq<PosReal>, deltas: seq<real>, slack: real, E2: PosReal, E3: PosReal)
    requires forall i :: 0 <= i < |Es| ==> 1.0 <= Es[i]
    requires 0.0 <= slack <= 1.0 && forall i :: 0 <= i < |deltas| ==> 0.0 <= deltas[i] <= 1.0
    requires 1.0 <= E2 && 1.0 <= E3
    ensures CompositionSimplified(Es, deltas, slack, E2, E3).Ok?
    ensures CompositionSimplified(Es, deltas, slack, E2, E3).value[0].E <= ExpOfSum(Es)
  {
    ExpOfSumAtLeastOne(Es);
    SimplifiedDeltaBounds(deltas, slack);
    var E' := Min3(ExpOfSum(Es), E2, E3);
    assert 1.0 <= E';
    assert CompositionSimplified(Es, deltas, slack, E2, E3) == Ok(DpRegion(E', SimplifiedDelta(deltas, slack)));
  }

  // ----- region_from_f_dp -----

  /** region_from_f_dp: fp + fn <= 1 and fn >= f(fp). */
  function RegionFromFDp(f: real -> real): Region
  {
    [SumLine, AboveCurve(f)]
  }

  lemma RegionFromFDpHolds(f: real -> real, fp: real, fn: real)
    ensures Holds(RegionFromFDp(f), fp, fn) <==> fp + fn <= 1.0 && fn >= f(fp)
  {
    var r := RegionFromFDp(f);
    assert Eval(r[0], fp, fn) && Eval(r[1], fp, fn) ==> Holds(r, fp, fn);
  }
}
