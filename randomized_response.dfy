/** RandomizedResponse of src/model/mechanisms/randomized_response.py. As in
    the region algebra, E stands for e^eps; compute_randomized_response_epsilon
    is modelled up to its final np.log, so it returns the ratio E whose log is
    eps. A numpy division by zero in the constructor gives inf or nan rather
    than raising; such a mechanism is None here. */
module RandomizedResponses {
  import opened Wrappers
  import opened Combinatorics

  /** The fields the constructor sets: E = exp(eps), the delta of the
      Mechanism base class, the alphabet size, `_denom`, `_p_eps` and
      `_total_var`. */
  datatype RandomizedResponse = RandomizedResponse(
    E: PosReal, delta: real, alphabetSize: int, denom: real, pEps: real, totalVar: real)

  /** `RandomizedResponse(eps, alphabet_size)`: (eps, 0)-DP, with
      p_eps = (E - 1) / (E + m - 1) for an alphabet of m letters. */
  function NewRandomizedResponse(E: PosReal, alphabetSize: int): (r: Option<RandomizedResponse>)
    ensures r.None? <==> E + (alphabetSize as real) - 1.0 == 0.0
    ensures r.Some? ==> r.value.E == E && r.value.delta == 0.0 && r.value.alphabetSize == alphabetSize
    ensures r.Some? ==> r.value.denom * (E + (alphabetSize as real) - 1.0) == 1.0
    ensures r.Some? ==> r.value.pEps * (E + (alphabetSize as real) - 1.0) == E - 1.0
    ensures r.Some? ==> r.value.totalVar == r.value.pEps
  {
    var s := E + (alphabetSize as real) - 1.0;
    if s == 0.0 then None
    else
      var denom := 1.0 / s;
      var pEps := (E - 1.0) * denom;
      assert pEps * s == E - 1.0 by {
        assert denom * s == 1.0;
        Associate(E - 1.0, denom, s);
      }
      Some(RandomizedResponse(E, 0.0, alphabetSize, denom, pEps, pEps))
  }

  /** `switch_probability()`: the probability of answering with a random
      letter. */
  function SwitchProbability(rr: RandomizedResponse): real
  {
    1.0 - rr.pEps
  }

  /** `tv()`: the total variation of the mechanism. */
  function Tv(rr: RandomizedResponse): real
  {
    rr.totalVar
  }

  /** (a * b) * c == a * (b * c), for real factors. */
  lemma Associate(a: real, b: real, c: real)
    ensures (a * b) * c == a * (b * c)
  {
  }

  /** Dividing by b and multiplying back gives a again. */
  lemma QuotientTimes(a: real, b: real)
    requires b != 0.0
    ensures (a / b) * b == a
  {
  }

  /** A non-zero common factor cancels. */
  lemma Cancel(a: real, b: real, c: real)
    requires c != 0.0 && a * c == b * c
    ensures a == b
  {
    assert (a - b) * c == 0.0;
  }

  /** For a positive factor c, x * c has the sign of x. */
  lemma SignOfProduct(x: real, c: real)
    requires 0.0 < c
    ensures 0.0 <= x * c <==> 0.0 <= x
    ensures 0.0 < x * c <==> 0.0 < x
  {
  }

  /** For eps >= 0 and a non-empty alphabet of m letters, p_eps lies in
      [0, 1), the switch probability times E + m - 1 is m and lies in (0, 1],
      and the two add up to one with the total variation. */
  lemma SwitchProbabilityRange(E: PosReal, m: int)
    requires 1.0 <= E && m >= 1
    ensures NewRandomizedResponse(E, m).Some?
    ensures var rr := NewRandomizedResponse(E, m).value;
      && 0.0 <= rr.pEps < 1.0
      && SwitchProbability(rr) * (E + (m as real) - 1.0) == m as real
      && 0.0 < SwitchProbability(rr) <= 1.0
      && Tv(rr) + SwitchProbability(rr) == 1.0
  {
    var rr := NewRandomizedResponse(E, m).value;
    var s := E + (m as real) - 1.0;
    var p := SwitchProbability(rr);
    assert 0.0 < s;
    SignOfProduct(rr.pEps, s);
    SignOfProduct(p, s);
    assert p * s == m as real by {
      assert p * s == s - rr.pEps * s;
    }
    SignOfProduct(1.0 - p, s);
  }

  /** `compute_randomized_response_epsilon(p, alphabet_size)` up to its final
      log: with q = 1 - p, the ratio (q + (1 - q) / m) / ((1 - q) / m). A zero
      alphabet size, or p == 0, divides a Python float by zero. */
  function EpsilonRatio(p: real, alphabetSize: int): (r: Result<real>)
    ensures r.Err? <==> alphabetSize == 0 || p == 0.0
    ensures r.Err? ==> r.error == ZeroDivision
  {
    var q := 1.0 - p;
    if alphabetSize == 0 then Err(ZeroDivision)
    else
      var share := (1.0 - q) / (alphabetSize as real);
      if share == 0.0 then Err(ZeroDivision)
      else Ok((q + share) / share)
  }

  /** The ratio E for probability p and m letters is the solution of
      E * p == p + m * (1 - p), that is E = 1 + m (1 - p) / p. */
  lemma {:induction false} EpsilonRatioEquation(p: real, m: int)
    requires p != 0.0 && m != 0
    ensures EpsilonRatio(p, m).Ok?
    ensures EpsilonRatio(p, m).value * p == p + (m as real) * (1.0 - p)
  {
    var mr := m as real;
    var q := 1.0 - p;
    var share := (1.0 - q) / mr;
    assert share == p / mr;
    QuotientTimes(p, mr);
    assert share != 0.0;
    var r := (q + share) / share;
    QuotientTimes(q + share, share);
    calc {
      r * p;
      r * (share * mr);
      (r * share) * mr;
      (q + share) * mr;
      q * mr + p;
    }
  }

  /** Round trip from eps: the switch probability of the mechanism for E,
      fed back with the same alphabet size, gives E again. */
  lemma {:induction false} EpsilonRoundTrip(E: PosReal, m: int)
    requires m >= 1
    ensures NewRandomizedResponse(E, m).Some?
    ensures EpsilonRatio(SwitchProbability(NewRandomizedResponse(E, m).value), m) == Ok(E)
  {
    var mr := m as real;
    var rr := NewRandomizedResponse(E, m).value;
    var s := E + mr - 1.0;
    var p := SwitchProbability(rr);
    assert p * s == mr by {
      assert p * s == s - rr.pEps * s;
    }
    assert p != 0.0;
    EpsilonRatioEquation(p, m);
    var r := EpsilonRatio(p, m).value;
    assert (r * p) * s == (E * p) * s by {
      calc {
        (r * p) * s;
        (p + mr * rr.pEps) * s;
        p * s + mr * (rr.pEps * s);
        mr + mr * (E - 1.0);
        E * mr;
        E * (p * s);
        (E * p) * s;
      }
    }
    Cancel(r * p, E * p, s);
    Cancel(r, E, p);
  }

  /** Round trip from the probability: for p in (0, 1] and a non-empty
      alphabet, the ratio E is at least 1 (so eps >= 0) and the mechanism for
      E switches with probability p. */
  lemma {:induction false} ProbabilityRoundTrip(p: real, m: int)
    requires 0.0 < p <= 1.0 && m >= 1
    ensures EpsilonRatio(p, m).Ok? && EpsilonRatio(p, m).value >= 1.0
    ensures var E := EpsilonRatio(p, m).value;
      NewRandomizedResponse(E, m).Some? && SwitchProbability(NewRandomizedResponse(E, m).value) == p
  {
    var mr := m as real;
    EpsilonRatioEquation(p, m);
    var E := EpsilonRatio(p, m).value;
    assert (E - 1.0) * p == mr * (1.0 - p);
    SignOfProduct(E - 1.0, p);
    SwitchProbabilityRange(E, m);
    var s := E + mr - 1.0;
    var p' := SwitchProbability(NewRandomizedResponse(E, m).value);
    assert p * s == p' * s by {
      calc {
        p * s;
        E * p + mr * p - p;
        mr;
      }
    }
    Cancel(p, p', s);
  }

  /** A ratio of at least 1, that is eps >= 0, comes exactly from a
      probability of at most 1. */
  lemma {:induction false} EpsilonNonNegative(p: real, m: int)
    requires 0.0 < p && m >= 1
    ensures EpsilonRatio(p, m).Ok?
    ensures EpsilonRatio(p, m).value >= 1.0 <==> p <= 1.0
  {
    EpsilonRatioEquation(p, m);
    var E := EpsilonRatio(p, m).value;
    assert (E - 1.0) * p == (m as real) * (1.0 - p);
    SignOfProduct(E - 1.0, p);
    SignOfProduct(1.0 - p, m as real);
  }
}
