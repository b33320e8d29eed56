/** The median query of src/model/queries/median.py: the sensitivities of
    Median and FiniteAlphabetMedian, and the score function DPMedian hands to
    the exponential mechanism, for one candidate label (`label` is a Dafny
    keyword, so the parameter is called candidate). */
module Medians {
  import opened Wrappers
  import opened NumpyReductions

  /** `np.sign(x)`. */
  function Sign(x: real): (s: int)
    ensures -1 <= s <= 1
    ensures s > 0 <==> x > 0.0
    ensures s < 0 <==> x < 0.0
  {
    if x > 0.0 then 1 else if x < 0.0 then -1 else 0
  }

  /** `np.sum(np.sign(data - candidate))`. np.sign gives floats, but the sum is
      a whole number, so it is kept as an int. */
  function SignSum(data: seq<real>, candidate: real): int
  {
    if |data| == 0 then 0 else Sign(data[0] - candidate) + SignSum(data[1..], candidate)
  }

  /** How many data points lie strictly above the label. */
  function CountAbove(data: seq<real>, candidate: real): nat
  {
    if |data| == 0 then 0 else (if data[0] > candidate then 1 else 0) + CountAbove(data[1..], candidate)
  }

  /** How many data points lie strictly below the label. */
  function CountBelow(data: seq<real>, candidate: real): nat
  {
    if |data| == 0 then 0 else (if data[0] < candidate then 1 else 0) + CountBelow(data[1..], candidate)
  }

  function Abs(x: int): int
  {
    if x < 0 then -x else x
  }

  /** `score_func(data, candidate)`: minus the absolute value of the sign sum.
      The exponential mechanism favours labels of higher score, and no label
      scores above 0. */
  function ScoreFunc(data: seq<real>, candidate: real): (score: int)
    ensures score <= 0
  {
    -Abs(SignSum(data, candidate))
  }

  /** Points equal to the label contribute nothing: the sign sum is the
      number of points above minus the number below, and together those are
      at most the size of the data. */
  lemma {:induction false} SignSumCounts(data: seq<real>, candidate: real)
    ensures SignSum(data, candidate) == CountAbove(data, candidate) - CountBelow(data, candidate)
    ensures CountAbove(data, candidate) + CountBelow(data, candidate) <= |data|
  {
    if |data| > 0 {
      SignSumCounts(data[1..], candidate);
    }
  }

  /** The score is minus the imbalance between the points above and below the
      label, and never below minus the size of the data. */
  lemma ScoreCounts(data: seq<real>, candidate: real)
    ensures ScoreFunc(data, candidate) == -Abs(CountAbove(data, candidate) - CountBelow(data, candidate))
    ensures -|data| <= ScoreFunc(data, candidate)
  {
    SignSumCounts(data, candidate);
  }

  /** The score reaches its maximum 0 exactly at a label with as many points
      above it as below it, that is at a median of the data. */
  lemma ScoreZeroIffBalanced(data: seq<real>, candidate: real)
    ensures ScoreFunc(data, candidate) == 0 <==> CountAbove(data, candidate) == CountBelow(data, candidate)
  {
    SignSumCounts(data, candidate);
  }

  /** A Median query, through its sensitivity; `_l1_sens` is the alphabet
      diameter given to the constructor. */
  datatype Median = Median(l1Sens: real)

  /** `l1_sens()`. */
  function L1Sens(m: Median): real
  {
    m.l1Sens
  }

  /** `FiniteAlphabetMedian(alphabet)`: a Median whose sensitivity is
      max(alphabet) - min(alphabet), the largest distance between two letters;
      numpy raises ValueError on an empty alphabet. */
  function FiniteAlphabetMedian(alphabet: seq<real>): (r: Result<Median>)
    ensures r.Err? <==> |alphabet| == 0
    ensures r.Err? ==> r.error == ValueError
    ensures r.Ok? ==> 0.0 <= L1Sens(r.value)
    ensures r.Ok? ==> forall i, j :: 0 <= i < |alphabet| && 0 <= j < |alphabet| ==>
      alphabet[i] - alphabet[j] <= L1Sens(r.value)
    ensures r.Ok? ==> exists i, j ::
      0 <= i < |alphabet| && 0 <= j < |alphabet| && alphabet[i] - alphabet[j] == L1Sens(r.value)
  {
    match Diameter(alphabet)
    case Err(e) => Err(e)
    case Ok(d) =>
      DiameterIsLargestGap(alphabet);
      Ok(Median(d))
  }
}
