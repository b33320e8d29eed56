/** The numpy reductions the queries call on one-dimensional arrays of
    reals: np.max, np.min, np.sum and np.mean. np.max and np.min of an empty
    array raise ValueError; np.mean of an empty array is nan, which is None
    here. */
module NumpyReductions {
  import opened Wrappers

  /** `np.max(xs)`; ValueError for an empty array. */
  function Max(xs: seq<real>): (r: Result<real>)
    ensures r.Err? <==> |xs| == 0
    ensures r.Err? ==> r.error == ValueError
  {
    if |xs| == 0 then Err(ValueError)
    else if |xs| == 1 then Ok(xs[0])
    else
      var rest := Max(xs[1..]).value;
      Ok(if xs[0] >= rest then xs[0] else rest)
  }

  /** The maximum is an entry, and no entry exceeds it. */
  lemma {:induction false} MaxIsLargest(xs: seq<real>)
    requires |xs| > 0
    ensures exists i :: 0 <= i < |xs| && xs[i] == Max(xs).value
    ensures forall i :: 0 <= i < |xs| ==> xs[i] <= Max(xs).value
  {
    if |xs| == 1 {
      assert xs[0] == Max(xs).value;
    } else {
      MaxIsLargest(xs[1..]);
      assert forall i :: 1 <= i < |xs| ==> xs[i] == xs[1..][i - 1];
      var t :| 0 <= t < |xs[1..]| && xs[1..][t] == Max(xs[1..]).value;
      if xs[0] >= Max(xs[1..]).value {
        assert xs[0] == Max(xs).value;
      } else {
        assert xs[t + 1] == Max(xs).value;
      }
    }
  }

  /** `np.min(xs)`; ValueError for an empty array. */
  function Min(xs: seq<real>): (r: Result<real>)
    ensures r.Err? <==> |xs| == 0
    ensures r.Err? ==> r.error == ValueError
  {
    if |xs| == 0 then Err(ValueError)
    else if |xs| == 1 then Ok(xs[0])
    else
      var rest := Min(xs[1..]).value;
      Ok(if xs[0] <= rest then xs[0] else rest)
  }

  /** The minimum is an entry, and no entry is below it. */
  lemma {:induction false} MinIsSmallest(xs: seq<real>)
    requires |xs| > 0
    ensures exists i :: 0 <= i < |xs| && xs[i] == Min(xs).value
    ensures forall i :: 0 <= i < |xs| ==> Min(xs).value <= xs[i]
  {
    if |xs| == 1 {
      assert xs[0] == Min(xs).value;
    } else {
      MinIsSmallest(xs[1..]);
      assert forall i :: 1 <= i < |xs| ==> xs[i] == xs[1..][i - 1];
      var t :| 0 <= t < |xs[1..]| && xs[1..][t] == Min(xs[1..]).value;
      if xs[0] <= Min(xs[1..]).value {
        assert xs[0] == Min(xs).value;
      } else {
        assert xs[t + 1] == Min(xs).value;
      }
    }
  }

  /** `np.max(xs) - np.min(xs)`: the diameter of the values; ValueError for
      an empty array. */
  function Diameter(xs: seq<real>): (r: Result<real>)
    ensures r.Err? <==> |xs| == 0
    ensures r.Err? ==> r.error == ValueError
  {
    if |xs| == 0 then Err(ValueError)
    else Ok(Max(xs).value - Min(xs).value)
  }

  /** The diameter is the largest distance between two entries: it is not
      negative, bounds the difference of any two entries and is attained by
      one pair. */
  lemma DiameterIsLargestGap(xs: seq<real>)
    requires |xs| > 0
    ensures 0.0 <= Diameter(xs).value
    ensures forall i, j :: 0 <= i < |xs| && 0 <= j < |xs| ==> xs[i] - xs[j] <= Diameter(xs).value
    ensures exists i, j :: 0 <= i < |xs| && 0 <= j < |xs| && xs[i] - xs[j] == Diameter(xs).value
  {
    MaxIsLargest(xs);
    MinIsSmallest(xs);
    var a :| 0 <= a < |xs| && xs[a] == Max(xs).value;
    var b :| 0 <= b < |xs| && xs[b] == Min(xs).value;
    assert xs[a] - xs[b] == Diameter(xs).value;
  }

  /** `np.sum(xs)`. */
  function Sum(xs: seq<real>): real
  {
    if |xs| == 0 then 0.0 else xs[0] + Sum(xs[1..])
  }

  /** Entries bounded by lo and hi give a sum between |xs| * lo and |xs| * hi. */
  lemma {:induction false} SumBounds(xs: seq<real>, lo: real, hi: real)
    requires forall i :: 0 <= i < |xs| ==> lo <= xs[i] <= hi
    ensures (|xs| as real) * lo <= Sum(xs) <= (|xs| as real) * hi
  {
    if |xs| > 0 {
      assert forall i :: 0 <= i < |xs| - 1 ==> xs[1..][i] == xs[i + 1];
      SumBounds(xs[1..], lo, hi);
      assert (|xs| as real) * lo == lo + ((|xs| - 1) as real) * lo;
      assert (|xs| as real) * hi == hi + ((|xs| - 1) as real) * hi;
    }
  }

  /** Two arrays that agree everywhere except at position k have sums that
      differ by the difference of their entries at k. */
  lemma {:induction false} SumChangeOne(xs: seq<real>, ys: seq<real>, k: nat)
    requires |xs| == |ys| && k < |xs|
    requires forall i :: 0 <= i < |xs| && i != k ==> xs[i] == ys[i]
    ensures Sum(xs) - Sum(ys) == xs[k] - ys[k]
  {
    if k == 0 {
      assert xs[1..] == ys[1..];
    } else {
      assert forall i :: 0 <= i < |xs| - 1 && i != k - 1 ==> xs[1..][i] == ys[1..][i];
      SumChangeOne(xs[1..], ys[1..], k - 1);
    }
  }

  /** `np.mean(xs)`: the sum divided by the length; nan (None) for an empty
      array. */
  function Mean(xs: seq<real>): (r: Option<real>)
    ensures r.None? <==> |xs| == 0
  {
    if |xs| == 0 then None else Some(Sum(xs) / (|xs| as real))
  }

  /** n * (s / n) == s for a positive count n. */
  lemma QuotientTimesCount(s: real, n: real)
    requires 0.0 < n
    ensures n * (s / n) == s
  {
  }

  /** A quotient of a sum lying between n * lo and n * hi lies between lo
      and hi. */
  lemma QuotientBetween(lo: real, m: real, hi: real, n: real, total: real)
    requires 0.0 < n && n * m == total && n * lo <= total <= n * hi
    ensures lo <= m <= hi
  {
    assert n * (m - lo) >= 0.0;
    assert n * (hi - m) >= 0.0;
  }

  /** The mean times the length is the sum. */
  lemma MeanTimesLength(xs: seq<real>)
    requires |xs| > 0
    ensures (|xs| as real) * Mean(xs).value == Sum(xs)
  {
    QuotientTimesCount(Sum(xs), |xs| as real);
  }

  /** Entries bounded by lo and hi have a mean between lo and hi. */
  lemma MeanWithin(xs: seq<real>, lo: real, hi: real)
    requires |xs| > 0 && forall i :: 0 <= i < |xs| ==> lo <= xs[i] <= hi
    ensures lo <= Mean(xs).value <= hi
  {
    var n := |xs| as real;
    var total := Sum(xs);
    assert n * Mean(xs).value == total by {
      MeanTimesLength(xs);
    }
    assert n * lo <= total <= n * hi by {
      SumBounds(xs, lo, hi);
    }
    QuotientBetween(lo, Mean(xs).value, hi, n, total);
  }

  /** The mean lies between the smallest and the largest entry. */
  lemma {:induction false} MeanBetween(xs: seq<real>)
    requires |xs| > 0
    ensures Min(xs).value <= Mean(xs).value <= Max(xs).value
  {
    MaxIsLargest(xs);
    MinIsSmallest(xs);
    MeanWithin(xs, Min(xs).value, Max(xs).value);
  }

  /** An array of one repeated value has that value as its mean. */
  lemma {:induction false} MeanOfConstant(xs: seq<real>, v: real)
    requires |xs| > 0 && forall i :: 0 <= i < |xs| ==> xs[i] == v
    ensures Mean(xs) == Some(v)
  {
    MeanWithin(xs, v, v);
  }
}
