/**
 The two closed forms of the exposure model: exponential decay of a residual
 exposure, and the probability of infection accrued over one interval.

 Dafny has no exponential function, so `exp` is a parameter of both forms.
 Nothing is assumed about it in the definitions; each lemma names the few
 facts about `exp` it relies on (`ExpAtZero`, `ExpPositive`, `ExpIncreasing`),
 all of which the real exponential has. Arithmetic is on `real`, not IEEE
 doubles.
 */
module Exposure {

  /** exp(0) = 1. */
  predicate ExpAtZero(exp: real -> real)
  {
    exp(0.0) == 1.0
  }

  /** exp is strictly positive everywhere. */
  ghost predicate ExpPositive(exp: real -> real)
  {
    forall x :: exp(x) > 0.0
  }

  /** exp is non-decreasing. */
  ghost predicate ExpIncreasing(exp: real -> real)
  {
    forall x, y :: x <= y ==> exp(x) <= exp(y)
  }

  /** Exposure left after decaying at rate `clr` from `startTime` to `finalDay`. */
  function CurrentExposure(exp: real -> real, exposure: real, startTime: real, finalDay: real, clr: real): real
  {
    exposure * exp(-clr * (finalDay - startTime))
  }

  /**
   Probability of infection over [startTime, finalDay] for an exposure that
   decays at rate `clr`, with per-unit hazard `hazardRisk`. The closed form
   divides by `clr`.
   */
  function RiskMult(exp: real -> real, exposure: real, startTime: real, finalDay: real,
                    hazardRisk: real, clr: real): real
    requires clr != 0.0
  {
    1.0 - exp(-hazardRisk / clr * exposure * (1.0 - exp(-clr * (finalDay - startTime))))
  }

  /** Zero elapsed time leaves the exposure unchanged. */
  lemma NoDecayOverZeroTime(exp: real -> real, exposure: real, t0: real, clr: real)
    requires ExpAtZero(exp)
    ensures CurrentExposure(exp, exposure, t0, t0, clr) == exposure
  {
    assert -clr * (t0 - t0) == 0.0;
  }

  /** A zero decay rate leaves the exposure unchanged over any interval. */
  lemma NoDecayAtZeroRate(exp: real -> real, exposure: real, t0: real, t1: real)
    requires ExpAtZero(exp)
    ensures CurrentExposure(exp, exposure, t0, t1, 0.0) == exposure
  {
    assert -0.0 * (t1 - t0) == 0.0;
  }

  /** Only the elapsed duration matters, not where the interval starts. */
  lemma DecayDependsOnDuration(exp: real -> real, exposure: real, startTime: real, finalDay: real, clr: real)
    ensures CurrentExposure(exp, exposure, startTime, finalDay, clr)
         == CurrentExposure(exp, exposure, 0.0, finalDay - startTime, clr)
  {
  }

  /** Only the elapsed duration matters to the risk, not where the interval starts. */
  lemma RiskDependsOnDuration(exp: real -> real, exposure: real, startTime: real, finalDay: real,
                              hazardRisk: real, clr: real)
    requires clr != 0.0
    ensures RiskMult(exp, exposure, startTime, finalDay, hazardRisk, clr)
         == RiskMult(exp, exposure, 0.0, finalDay - startTime, hazardRisk, clr)
  {
  }

  /**
   With a positive rate a non-negative exposure decays more the longer the
   duration; with a negative rate it grows more.
   */
  lemma DecayMonotone(exp: real -> real, exposure: real, d1: real, d2: real, clr: real)
    requires ExpIncreasing(exp)
    requires 0.0 <= exposure && d1 <= d2
    ensures clr > 0.0 ==> CurrentExposure(exp, exposure, 0.0, d2, clr) <= CurrentExposure(exp, exposure, 0.0, d1, clr)
    ensures clr < 0.0 ==> CurrentExposure(exp, exposure, 0.0, d1, clr) <= CurrentExposure(exp, exposure, 0.0, d2, clr)
  {
    var a1, a2 := -clr * (d1 - 0.0), -clr * (d2 - 0.0);
    if clr > 0.0 {
      assert a2 <= a1 by { assert a1 - a2 == clr * (d2 - d1); }
      assert exp(a2) <= exp(a1);
      ScaleMonotone(exposure, exp(a2), exp(a1));
    } else if clr < 0.0 {
      assert a1 <= a2 by { assert a2 - a1 == -clr * (d2 - d1); }
      assert exp(a1) <= exp(a2);
      ScaleMonotone(exposure, exp(a1), exp(a2));
    }
  }

  /** Multiplying by a non-negative factor keeps an order. */
  lemma ScaleMonotone(c: real, x: real, y: real)
    requires 0.0 <= c && x <= y
    ensures c * x <= c * y
  {
    assert c * y - c * x == c * (y - x);
  }

  /** Over a zero-length interval no risk accrues. */
  lemma ZeroDurationZeroRisk(exp: real -> real, exposure: real, t0: real, hazardRisk: real, clr: real)
    requires ExpAtZero(exp) && clr != 0.0
    ensures RiskMult(exp, exposure, t0, t0, hazardRisk, clr) == 0.0
  {
    assert exp(-clr * (t0 - t0)) == exp(0.0) == 1.0;
    assert -hazardRisk / clr * exposure * (1.0 - exp(-clr * (t0 - t0))) == 0.0;
  }

  /** With zero hazard no risk accrues, whatever the exposure and duration. */
  lemma ZeroHazardZeroRisk(exp: real -> real, exposure: real, startTime: real, finalDay: real, clr: real)
    requires ExpAtZero(exp) && clr != 0.0
    ensures RiskMult(exp, exposure, startTime, finalDay, 0.0, clr) == 0.0
  {
    var inner := 1.0 - exp(-clr * (finalDay - startTime));
    assert -0.0 / clr == 0.0;
    assert -0.0 / clr * exposure * inner == 0.0;
  }

  /**
   For non-negative exposure and hazard, a positive rate and a non-negative
   duration, the risk is a probability below one.
   */
  lemma RiskIsProbability(exp: real -> real, exposure: real, duration: real, hazardRisk: real, clr: real)
    requires ExpAtZero(exp) && ExpPositive(exp) && ExpIncreasing(exp)
    requires 0.0 <= exposure && 0.0 <= hazardRisk && 0.0 < clr && 0.0 <= duration
    ensures 0.0 <= RiskMult(exp, exposure, 0.0, duration, hazardRisk, clr) < 1.0
  {
    var decayArg := -clr * (duration - 0.0);
    assert decayArg <= 0.0 by { ScaleMonotone(clr, 0.0, duration); }
    assert exp(decayArg) <= exp(0.0);
    var inner := 1.0 - exp(decayArg);
    assert 0.0 <= inner;
    var rate := -hazardRisk / clr;
    assert rate <= 0.0 by { assert hazardRisk / clr >= 0.0; }
    var arg := rate * exposure * inner;
    assert arg <= 0.0 by {
      ScaleMonotone(exposure, rate, 0.0);
      ScaleMonotone(inner, rate * exposure, 0.0);
      assert inner * (rate * exposure) == arg;
    }
    assert exp(arg) <= exp(0.0);
    assert exp(arg) > 0.0;
  }
}
