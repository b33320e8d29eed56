/** The mean query of src/model/queries/mean.py: Mean, whose sensitivity is
    the alphabet diameter over the dataset size, and FiniteAlphabetMean, which
    takes the diameter of a given alphabet. `apply` is np.mean, that is
    NumpyReductions.Mean. */
module Means {
  import opened Wrappers
  import opened NumpyReductions

  /** A Mean query, through the `_l1_sens` its constructor stores. */
  datatype Mean = Mean(l1Sens: real)

  /** `Mean(alphabet_diameter, dataset_size)`: the sensitivity is the
      diameter shared among the dataset's entries. A dataset size of 0
      divides by zero. */
  function NewMean(alphabetDiameter: real, datasetSize: int): (r: Result<Mean>)
    ensures r.Err? <==> datasetSize == 0
    ensures r.Err? ==> r.error == ZeroDivision
    ensures r.Ok? ==> (datasetSize as real) * L1Sens(r.value) == alphabetDiameter
  {
    if datasetSize == 0 then Err(ZeroDivision)
    else Ok(Mean(alphabetDiameter / (datasetSize as real)))
  }

  /** `l1_sens()`. */
  function L1Sens(m: Mean): real
  {
    m.l1Sens
  }

  /** `l2_sens()`: the same value as the L1 sensitivity. */
  function L2Sens(m: Mean): (s: real)
    ensures s == L1Sens(m)
  {
    m.l1Sens
  }

  /** `FiniteAlphabetMean(alphabet, dataset_size)`: a Mean over the diameter
      max(alphabet) - min(alphabet). An empty alphabet raises ValueError; a
      dataset size of 0 divides by zero. */
  function FiniteAlphabetMean(alphabet: seq<real>, datasetSize: int): (r: Result<Mean>)
    ensures r.Err? <==> |alphabet| == 0 || datasetSize == 0
    ensures |alphabet| == 0 ==> r == Err(ValueError)
    ensures |alphabet| > 0 && datasetSize == 0 ==> r == Err(ZeroDivision)
  {
    match Diameter(alphabet)
    case Err(e) => Err(e)
    case Ok(d) => NewMean(d, datasetSize)
  }

  /** The sensitivity of a FiniteAlphabetMean, times the dataset size, is the
      diameter of the alphabet. */
  lemma FiniteAlphabetSensitivity(alphabet: seq<real>, datasetSize: int)
    requires |alphabet| > 0 && datasetSize != 0
    ensures FiniteAlphabetMean(alphabet, datasetSize).Ok?
    ensures (datasetSize as real) * L1Sens(FiniteAlphabetMean(alphabet, datasetSize).value) == Diameter(alphabet).value
  {
    var d := Diameter(alphabet).value;
    assert FiniteAlphabetMean(alphabet, datasetSize) == NewMean(d, datasetSize);
  }

  /** For a positive dataset size the sensitivity of a FiniteAlphabetMean is
      not negative. */
  lemma FiniteAlphabetSensitivityNonNegative(alphabet: seq<real>, datasetSize: int)
    requires |alphabet| > 0 && datasetSize > 0
    ensures FiniteAlphabetMean(alphabet, datasetSize).Ok?
    ensures 0.0 <= L1Sens(FiniteAlphabetMean(alphabet, datasetSize).value)
  {
    var s := L1Sens(FiniteAlphabetMean(alphabet, datasetSize).value);
    var n := datasetSize as real;
    assert n * s >= 0.0 by {
      FiniteAlphabetSensitivity(alphabet, datasetSize);
    }
    ScaledNonNegative(s, n);
  }

  /** n * s >= 0 with n > 0 gives s >= 0. */
  lemma ScaledNonNegative(s: real, n: real)
    requires 0.0 < n && n * s >= 0.0
    ensures s >= 0.0
  {
  }

  /** Two quotients by n of totals at most d apart are at most d / n
      apart. */
  lemma ScaledGap(n: real, mx: real, my: real, sx: real, sy: real, sens: real, d: real)
    requires 0.0 < n && n * mx == sx && n * my == sy && n * sens == d
    requires -d <= sx - sy <= d
    ensures -sens <= mx - my <= sens
  {
    assert n * (sens - (mx - my)) >= 0.0;
    assert n * ((mx - my) + sens) >= 0.0;
  }

  /** Two datasets of n entries whose sums are at most d apart have means at
      most d / n apart. */
  lemma MeansGap(xs: seq<real>, ys: seq<real>, sens: real, d: real)
    requires |xs| == |ys| > 0 && (|xs| as real) * sens == d
    requires -d <= Sum(xs) - Sum(ys) <= d
    ensures -sens <= NumpyReductions.Mean(xs).value - NumpyReductions.Mean(ys).value <= sens
  {
    MeanTimesLength(xs);
    MeanTimesLength(ys);
    ScaledGap(|xs| as real, NumpyReductions.Mean(xs).value, NumpyReductions.Mean(ys).value, Sum(xs), Sum(ys), sens, d);
  }

  /** What the L1 sensitivity means: two datasets of the given size over the
      alphabet that differ in one entry have means at most L1Sens apart. */
  lemma {:induction false} NeighbouringMeansClose(alphabet: seq<real>, xs: seq<real>, ys: seq<real>, k: nat)
    requires |alphabet| > 0 && |xs| == |ys| && k < |xs|
    requires forall i :: 0 <= i < |xs| ==> xs[i] in alphabet && ys[i] in alphabet
    requires forall i :: 0 <= i < |xs| && i != k ==> xs[i] == ys[i]
    ensures FiniteAlphabetMean(alphabet, |xs|).Ok?
    ensures var sens := L1Sens(FiniteAlphabetMean(alphabet, |xs|).value);
      -sens <= NumpyReductions.Mean(xs).value - NumpyReductions.Mean(ys).value <= sens
  {
    var sens := L1Sens(FiniteAlphabetMean(alphabet, |xs|).value);
    var d := Diameter(alphabet).value;
    assert (|xs| as real) * sens == d by {
      FiniteAlphabetSensitivity(alphabet, |xs|);
    }
    assert -d <= Sum(xs) - Sum(ys) <= d by {
      LettersWithinDiameter(alphabet, xs[k], ys[k]);
      LettersWithinDiameter(alphabet, ys[k], xs[k]);
      SumChangeOne(xs, ys, k);
    }
    MeansGap(xs, ys, sens, d);
  }

  /** Two letters of the alphabet are at most its diameter apart. */
  lemma LettersWithinDiameter(alphabet: seq<real>, a: real, b: real)
    requires a in alphabet && b in alphabet
    ensures Diameter(alphabet).Ok? && a - b <= Diameter(alphabet).value
  {
    DiameterIsLargestGap(alphabet);
    var i :| 0 <= i < |alphabet| && alphabet[i] == a;
    var j :| 0 <= j < |alphabet| && alphabet[j] == b;
  }
}
