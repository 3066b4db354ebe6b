/**
 The infection-time simulation: a walk over the exposure intervals that
 carries a decaying residual exposure, compares one uniform draw per interval
 with that interval's risk, and stops at the first draw below the risk.

 The ambient uniform random stream is replaced by an explicit sequence
 `draws`; the step at interval `i` consumes `draws[i]`.

 `SimulateInfectionTimes` is the loop itself. `Step` and `Run` give the same
 state machine as functions, and `Carried` and `Infects` give an independent,
 declarative account of it (the exposure carried into each interval, and
 whether that interval's draw infects); the lemmas connect the two.
 */
module Simulation {
  import opened Exposure

  /** The constants of the per-interval risk and decay closed forms. */
  datatype Kernel = Kernel(exp: real -> real, hazardRisk: real, clr: real)
  {
    /** Risk accrued over an interval of length `duration`, started at time 0. */
    function Risk(exposure: real, duration: real): real
      requires clr != 0.0
    {
      RiskMult(exp, exposure, 0.0, duration, hazardRisk, clr)
    }

    /** Exposure left after an interval of length `duration`, started at time 0. */
    function Decay(exposure: real, duration: real): real
    {
      CurrentExposure(exp, exposure, 0.0, duration, clr)
    }
  }

  /** The loop's variables between iterations: the interval index, the flag, the carried exposure. */
  datatype LoopState = LoopState(tIndex: int, infection: bool, curExposure: real)

  /** The state before the first iteration. */
  const Init := LoopState(0, false, 0.0)

  /** The sentinel result meaning that no infection occurred. */
  const NoInfection: real := -1.0

  /** The most iterations the loop can make: one less than the number of exposures, or none. */
  function Horizon(exposureSet: seq<real>): nat
  {
    if |exposureSet| >= 1 then |exposureSet| - 1 else 0
  }

  /**
   What a call needs: every time point the loop reads exists, one draw per
   possible iteration, and a non-zero decay rate whenever a risk is computed.
   */
  predicate WellFormed(k: Kernel, exposureSet: seq<real>, timeSet: seq<real>, draws: seq<real>)
  {
    |timeSet| >= |exposureSet| && |draws| >= Horizon(exposureSet) &&
    (Horizon(exposureSet) > 0 ==> k.clr != 0.0)
  }

  /** The loop guard. */
  predicate Continues(exposureSet: seq<real>, s: LoopState)
  {
    s.tIndex < |exposureSet| - 1 && !s.infection
  }

  /** One iteration of the loop body. */
  function Step(k: Kernel, exposureSet: seq<real>, timeSet: seq<real>, draws: seq<real>, s: LoopState): LoopState
    requires WellFormed(k, exposureSet, timeSet, draws)
    requires 0 <= s.tIndex && Continues(exposureSet, s)
  {
    var i := s.tIndex;
    var duration := timeSet[i + 1] - timeSet[i];
    if draws[i] < k.Risk(exposureSet[i] + s.curExposure, duration) then
      LoopState(i + 1, true, s.curExposure)
    else
      LoopState(i + 1, false, k.Decay(exposureSet[i] + s.curExposure, duration))
  }

  /** Iterations from `s` until the guard fails. */
  function Run(k: Kernel, exposureSet: seq<real>, timeSet: seq<real>, draws: seq<real>, s: LoopState): (r: LoopState)
    requires WellFormed(k, exposureSet, timeSet, draws)
    requires 0 <= s.tIndex <= Horizon(exposureSet)
    ensures s.tIndex <= r.tIndex <= Horizon(exposureSet) && !Continues(exposureSet, r)
    decreases Horizon(exposureSet) - s.tIndex
  {
    if Continues(exposureSet, s) then Run(k, exposureSet, timeSet, draws, Step(k, exposureSet, timeSet, draws, s))
    else s
  }

  /** The value returned for a final state: the sentinel, or the time point reached plus the lag. */
  function Outcome(timeSet: seq<real>, lag: real, s: LoopState): real
    requires s.infection ==> 0 <= s.tIndex < |timeSet|
  {
    if !s.infection then NoInfection else timeSet[s.tIndex] + lag
  }

  /** What a call returns, as a function of its inputs and draws. */
  function Simulate(k: Kernel, exposureSet: seq<real>, timeSet: seq<real>, lag: real, draws: seq<real>): real
    requires WellFormed(k, exposureSet, timeSet, draws)
  {
    Outcome(timeSet, lag, Run(k, exposureSet, timeSet, draws, Init))
  }

  /**
   The simulation loop. Returns the sentinel -1 when no interval infects, and
   otherwise the time point that closes the first infecting interval plus `lag`.
   */
  method SimulateInfectionTimes(exposureSet: seq<real>, timeSet: seq<real>, lag: real, hazardRisk: real,
                                clr: real, exp: real -> real, draws: seq<real>)
    returns (infectionTime: real)
    requires WellFormed(Kernel(exp, hazardRisk, clr), exposureSet, timeSet, draws)
    ensures infectionTime == Simulate(Kernel(exp, hazardRisk, clr), exposureSet, timeSet, lag, draws)
    ensures infectionTime == NoInfection ||
            exists t :: 1 <= t < |exposureSet| && infectionTime == timeSet[t] + lag
  {
    ghost var k := Kernel(exp, hazardRisk, clr);
    var startDay: real;
    var endDay: real;
    var risk: real;
    var probSample: real;

    var tIndex := 0;
    var infection := false;
    var curExposure := 0.0;
    var finalTimeIndex := |exposureSet| - 1;

    while tIndex < finalTimeIndex && !infection
      invariant 0 <= tIndex <= Horizon(exposureSet)
      invariant Run(k, exposureSet, timeSet, draws, LoopState(tIndex, infection, curExposure))
             == Run(k, exposureSet, timeSet, draws, Init)
      decreases finalTimeIndex - tIndex
    {
      startDay := timeSet[tIndex];
      endDay := timeSet[tIndex + 1];
      risk := RiskMult(exp, exposureSet[tIndex] + curExposure, 0.0, endDay - startDay, hazardRisk, clr);

      probSample := draws[tIndex];
      if probSample < risk {
        infection := true;
        tIndex := tIndex + 1;
      } else {
        curExposure := CurrentExposure(exp, exposureSet[tIndex] + curExposure, 0.0, endDay - startDay, clr);
        tIndex := tIndex + 1;
      }
    }
    if !infection {
      infectionTime := NoInfection;
    } else {
      infectionTime := timeSet[tIndex] + lag;
    }
    ResultShape(k, exposureSet, timeSet, lag, draws);
  }

  // ---------------------------------------------------------------------------
  // The declarative account.

  /** Exposure carried into interval `i` when none of the intervals before it infected. */
  function Carried(k: Kernel, exposureSet: seq<real>, timeSet: seq<real>, i: nat): real
    requires |timeSet| >= |exposureSet| && i <= Horizon(exposureSet)
  {
    if i == 0 then 0.0
    else k.Decay(exposureSet[i - 1] + Carried(k, exposureSet, timeSet, i - 1), timeSet[i] - timeSet[i - 1])
  }

  /** The risk of interval `i`, given the exposure carried into it. */
  function StepRisk(k: Kernel, exposureSet: seq<real>, timeSet: seq<real>, i: nat): real
    requires |timeSet| >= |exposureSet| && i < Horizon(exposureSet) && k.clr != 0.0
  {
    k.Risk(exposureSet[i] + Carried(k, exposureSet, timeSet, i), timeSet[i + 1] - timeSet[i])
  }

  /** Whether the draw of interval `i` falls below that interval's risk. */
  predicate Infects(k: Kernel, exposureSet: seq<real>, timeSet: seq<real>, draws: seq<real>, i: nat)
    requires WellFormed(k, exposureSet, timeSet, draws) && i < Horizon(exposureSet)
  {
    draws[i] < StepRisk(k, exposureSet, timeSet, i)
  }

  /**
   What holds of every state the loop reaches: the intervals already passed
   did not infect; an infected state has just passed the infecting interval and
   kept the exposure carried into it; any other state carries the decayed
   exposure of all the intervals passed.
   */
  ghost predicate Reached(k: Kernel, exposureSet: seq<real>, timeSet: seq<real>, draws: seq<real>, s: LoopState)
    requires WellFormed(k, exposureSet, timeSet, draws)
  {
    0 <= s.tIndex <= Horizon(exposureSet) &&
    if s.infection then
      1 <= s.tIndex &&
      (forall j: nat :: j < s.tIndex - 1 ==> !Infects(k, exposureSet, timeSet, draws, j)) &&
      Infects(k, exposureSet, timeSet, draws, s.tIndex - 1) &&
      s.curExposure == Carried(k, exposureSet, timeSet, s.tIndex - 1)
    else
      (forall j: nat :: j < s.tIndex ==> !Infects(k, exposureSet, timeSet, draws, j)) &&
      s.curExposure == Carried(k, exposureSet, timeSet, s.tIndex)
  }

  /** One iteration raises the index by exactly one and keeps `Reached`. */
  lemma StepKeepsReached(k: Kernel, exposureSet: seq<real>, timeSet: seq<real>, draws: seq<real>, s: LoopState)
    requires WellFormed(k, exposureSet, timeSet, draws)
    requires Reached(k, exposureSet, timeSet, draws, s) && Continues(exposureSet, s)
    ensures Step(k, exposureSet, timeSet, draws, s).tIndex == s.tIndex + 1
    ensures Reached(k, exposureSet, timeSet, draws, Step(k, exposureSet, timeSet, draws, s))
  {
    var s' := Step(k, exposureSet, timeSet, draws, s);
    var i := s.tIndex;
    assert Infects(k, exposureSet, timeSet, draws, i) == s'.infection;
    if !s'.infection {
      assert s'.curExposure == Carried(k, exposureSet, timeSet, i + 1);
      forall j: nat | j < s'.tIndex ensures !Infects(k, exposureSet, timeSet, draws, j) {
        if j < i {
          assert !Infects(k, exposureSet, timeSet, draws, j);
        }
      }
    }
  }

  /** Running from a reached state ends in a reached state where the guard fails. */
  lemma {:induction false} RunKeepsReached(k: Kernel, exposureSet: seq<real>, timeSet: seq<real>,
                                           draws: seq<real>, s: LoopState)
    requires WellFormed(k, exposureSet, timeSet, draws)
    requires Reached(k, exposureSet, timeSet, draws, s)
    ensures Reached(k, exposureSet, timeSet, draws, Run(k, exposureSet, timeSet, draws, s))
    ensures !Continues(exposureSet, Run(k, exposureSet, timeSet, draws, s))
    decreases Horizon(exposureSet) - s.tIndex
  {
    if Continues(exposureSet, s) {
      StepKeepsReached(k, exposureSet, timeSet, draws, s);
      RunKeepsReached(k, exposureSet, timeSet, draws, Step(k, exposureSet, timeSet, draws, s));
    }
  }

  /**
   The final state, described without the loop. If infected, the index is
   one past the first infecting interval and the carried exposure is the one
   that entered it; otherwise the loop made all `Horizon` iterations, no
   interval infected, and the carried exposure has decayed through all of them.
   */
  lemma FinalState(k: Kernel, exposureSet: seq<real>, timeSet: seq<real>, draws: seq<real>)
    requires WellFormed(k, exposureSet, timeSet, draws)
    ensures var f := Run(k, exposureSet, timeSet, draws, Init);
      if f.infection then
        1 <= f.tIndex <= Horizon(exposureSet) &&
        Infects(k, exposureSet, timeSet, draws, f.tIndex - 1) &&
        (forall j: nat :: j < f.tIndex - 1 ==> !Infects(k, exposureSet, timeSet, draws, j)) &&
        f.curExposure == Carried(k, exposureSet, timeSet, f.tIndex - 1)
      else
        f.tIndex == Horizon(exposureSet) &&
        (forall j: nat :: j < Horizon(exposureSet) ==> !Infects(k, exposureSet, timeSet, draws, j)) &&
        f.curExposure == Carried(k, exposureSet, timeSet, Horizon(exposureSet))
  {
    RunKeepsReached(k, exposureSet, timeSet, draws, Init);
  }

  /**
   The result is the sentinel, or a time point after the first plus the lag:
   `timeSet[0] + lag` is never produced from index 0.
   */
  lemma ResultShape(k: Kernel, exposureSet: seq<real>, timeSet: seq<real>, lag: real, draws: seq<real>)
    requires WellFormed(k, exposureSet, timeSet, draws)
    ensures var f := Run(k, exposureSet, timeSet, draws, Init);
      (!f.infection && Simulate(k, exposureSet, timeSet, lag, draws) == NoInfection) ||
      (f.infection && 1 <= f.tIndex < |exposureSet| &&
       Simulate(k, exposureSet, timeSet, lag, draws) == timeSet[f.tIndex] + lag)
  {
    FinalState(k, exposureSet, timeSet, draws);
  }

  /**
   Infection is absorbing: if interval `i` is the first whose draw is below
   its risk, the loop stops right after it, having evaluated no later interval,
   and the result is the time point closing interval `i` plus the lag.
   */
  lemma FirstInfectingInterval(k: Kernel, exposureSet: seq<real>, timeSet: seq<real>, lag: real,
                               draws: seq<real>, i: nat)
    requires WellFormed(k, exposureSet, timeSet, draws) && i < Horizon(exposureSet)
    requires Infects(k, exposureSet, timeSet, draws, i)
    requires forall j: nat :: j < i ==> !Infects(k, exposureSet, timeSet, draws, j)
    ensures Run(k, exposureSet, timeSet, draws, Init) == LoopState(i + 1, true, Carried(k, exposureSet, timeSet, i))
    ensures Simulate(k, exposureSet, timeSet, lag, draws) == timeSet[i + 1] + lag
  {
    FinalState(k, exposureSet, timeSet, draws);
    // Mentioning interval i lets the "no earlier infecting interval" facts of both sides meet.
    assert Infects(k, exposureSet, timeSet, draws, i);
  }

  /**
   The sentinel case: the loop ends uninfected exactly when no evaluated
   interval's draw is below its risk, and then it has made all `Horizon`
   iterations.
   */
  lemma NoInfectionExactly(k: Kernel, exposureSet: seq<real>, timeSet: seq<real>, lag: real, draws: seq<real>)
    requires WellFormed(k, exposureSet, timeSet, draws)
    ensures !Run(k, exposureSet, timeSet, draws, Init).infection
        <==> forall j: nat :: j < Horizon(exposureSet) ==> !Infects(k, exposureSet, timeSet, draws, j)
    ensures (forall j: nat :: j < Horizon(exposureSet) ==> !Infects(k, exposureSet, timeSet, draws, j)) ==>
      Run(k, exposureSet, timeSet, draws, Init)
        == LoopState(Horizon(exposureSet), false, Carried(k, exposureSet, timeSet, Horizon(exposureSet))) &&
      Simulate(k, exposureSet, timeSet, lag, draws) == NoInfection
  {
    FinalState(k, exposureSet, timeSet, draws);
    var f := Run(k, exposureSet, timeSet, draws, Init);
    if f.infection {
      assert Infects(k, exposureSet, timeSet, draws, f.tIndex - 1);
    }
  }

  /** With at most one exposure the loop body never runs, so no draw is consumed. */
  lemma ShortSeriesNoIteration(k: Kernel, exposureSet: seq<real>, timeSet: seq<real>, lag: real, draws: seq<real>)
    requires WellFormed(k, exposureSet, timeSet, draws) && |exposureSet| <= 1
    ensures Run(k, exposureSet, timeSet, draws, Init) == Init
    ensures Simulate(k, exposureSet, timeSet, lag, draws) == NoInfection
  {
  }

  /** If no evaluated interval has positive risk and no draw is negative, nothing infects. */
  lemma NonPositiveRiskNoInfection(k: Kernel, exposureSet: seq<real>, timeSet: seq<real>, lag: real, draws: seq<real>)
    requires WellFormed(k, exposureSet, timeSet, draws)
    requires forall j: nat :: j < Horizon(exposureSet) ==> StepRisk(k, exposureSet, timeSet, j) <= 0.0 <= draws[j]
    ensures Simulate(k, exposureSet, timeSet, lag, draws) == NoInfection
  {
    forall j: nat | j < Horizon(exposureSet) ensures !Infects(k, exposureSet, timeSet, draws, j) {
      assert StepRisk(k, exposureSet, timeSet, j) <= 0.0 <= draws[j];
    }
    NoInfectionExactly(k, exposureSet, timeSet, lag, draws);
  }

  /** Zero hazard never infects: with exp(0) = 1 every risk is exactly 0. */
  lemma ZeroHazardNoInfection(exp: real -> real, clr: real, exposureSet: seq<real>, timeSet: seq<real>,
                              lag: real, draws: seq<real>)
    requires ExpAtZero(exp)
    requires WellFormed(Kernel(exp, 0.0, clr), exposureSet, timeSet, draws)
    requires forall j: nat :: j < |draws| ==> 0.0 <= draws[j]
    ensures Simulate(Kernel(exp, 0.0, clr), exposureSet, timeSet, lag, draws) == NoInfection
  {
    var k := Kernel(exp, 0.0, clr);
    forall j: nat | j < Horizon(exposureSet)
      ensures StepRisk(k, exposureSet, timeSet, j) <= 0.0 <= draws[j]
    {
      ZeroHazardZeroRisk(exp, exposureSet[j] + Carried(k, exposureSet, timeSet, j), 0.0,
                         timeSet[j + 1] - timeSet[j], clr);
    }
    NonPositiveRiskNoInfection(k, exposureSet, timeSet, lag, draws);
  }

  /** Time points in non-decreasing order. */
  ghost predicate Sorted(timeSet: seq<real>)
  {
    forall i, j :: 0 <= i <= j < |timeSet| ==> timeSet[i] <= timeSet[j]
  }

  /** When the time points are sorted, an infection time is at least `timeSet[1] + lag`. */
  lemma EarliestInfectionTime(k: Kernel, exposureSet: seq<real>, timeSet: seq<real>, lag: real, draws: seq<real>)
    requires WellFormed(k, exposureSet, timeSet, draws) && Sorted(timeSet)
    ensures var r := Simulate(k, exposureSet, timeSet, lag, draws);
      r == NoInfection || (2 <= |timeSet| && r >= timeSet[1] + lag)
  {
    ResultShape(k, exposureSet, timeSet, lag, draws);
  }

  // ---------------------------------------------------------------------------
  // What the loop reads.

  /** `timeSet` with every time point moved by `c`. */
  function Shift(timeSet: seq<real>, c: real): (r: seq<real>)
    ensures |r| == |timeSet|
    ensures forall i :: 0 <= i < |r| ==> r[i] == timeSet[i] + c
  {
    if timeSet == [] then [] else [timeSet[0] + c] + Shift(timeSet[1..], c)
  }

  /**
   Absolute time does not matter: moving every time point by `c` gives the
   same run, and moves an infection time by `c`.
   */
  lemma {:induction false} ShiftSameRun(k: Kernel, exposureSet: seq<real>, timeSet: seq<real>, draws: seq<real>,
                                        c: real, s: LoopState)
    requires WellFormed(k, exposureSet, timeSet, draws)
    requires 0 <= s.tIndex <= Horizon(exposureSet)
    ensures Run(k, exposureSet, Shift(timeSet, c), draws, s) == Run(k, exposureSet, timeSet, draws, s)
    decreases Horizon(exposureSet) - s.tIndex
  {
    var shifted := Shift(timeSet, c);
    if Continues(exposureSet, s) {
      var i := s.tIndex;
      assert shifted[i + 1] - shifted[i] == timeSet[i + 1] - timeSet[i];
      assert Step(k, exposureSet, shifted, draws, s) == Step(k, exposureSet, timeSet, draws, s);
      ShiftSameRun(k, exposureSet, timeSet, draws, c, Step(k, exposureSet, timeSet, draws, s));
    }
  }

  /** Moving every time point by `c` moves an infection time by `c` and keeps the sentinel. */
  lemma ShiftResult(k: Kernel, exposureSet: seq<real>, timeSet: seq<real>, lag: real, draws: seq<real>, c: real)
    requires WellFormed(k, exposureSet, timeSet, draws)
    ensures var f := Run(k, exposureSet, timeSet, draws, Init);
      Simulate(k, exposureSet, Shift(timeSet, c), lag, draws)
        == if f.infection then Simulate(k, exposureSet, timeSet, lag, draws) + c else NoInfection
  {
    ShiftSameRun(k, exposureSet, timeSet, draws, c, Init);
    ResultShape(k, exposureSet, timeSet, lag, draws);
  }

  /**
   Inputs that agree where the loop reads them: exposures before the last,
   time points up to index N - 1, and the first `Horizon` draws. The last
   exposure, later time points and later draws are never read.
   */
  ghost predicate AgreeOnRead(exposureSet: seq<real>, timeSet: seq<real>, draws: seq<real>,
                              exposureSet': seq<real>, timeSet': seq<real>, draws': seq<real>)
  {
    |exposureSet| == |exposureSet'| &&
    |timeSet| >= |exposureSet| && |timeSet'| >= |exposureSet| &&
    |draws| >= Horizon(exposureSet) && |draws'| >= Horizon(exposureSet) &&
    (forall i :: 0 <= i < |exposureSet| - 1 ==> exposureSet[i] == exposureSet'[i]) &&
    (forall i :: 0 <= i < |exposureSet| ==> timeSet[i] == timeSet'[i]) &&
    (forall i :: 0 <= i < Horizon(exposureSet) ==> draws[i] == draws'[i])
  }

  /** Inputs that agree where the loop reads them give the same run. */
  lemma {:induction false} OnlyReadPartMatters(k: Kernel, exposureSet: seq<real>, timeSet: seq<real>, draws: seq<real>,
                                               exposureSet': seq<real>, timeSet': seq<real>, draws': seq<real>,
                                               s: LoopState)
    requires WellFormed(k, exposureSet, timeSet, draws)
    requires AgreeOnRead(exposureSet, timeSet, draws, exposureSet', timeSet', draws')
    requires 0 <= s.tIndex <= Horizon(exposureSet)
    ensures WellFormed(k, exposureSet', timeSet', draws')
    ensures Run(k, exposureSet', timeSet', draws', s) == Run(k, exposureSet, timeSet, draws, s)
    decreases Horizon(exposureSet) - s.tIndex
  {
    assert Horizon(exposureSet') == Horizon(exposureSet);
    if Continues(exposureSet, s) {
      var i := s.tIndex;
      assert exposureSet'[i] == exposureSet[i] && draws'[i] == draws[i];
      assert timeSet'[i] == timeSet[i] && timeSet'[i + 1] == timeSet[i + 1];
      assert Step(k, exposureSet', timeSet', draws', s) == Step(k, exposureSet, timeSet, draws, s);
      OnlyReadPartMatters(k, exposureSet, timeSet, draws, exposureSet', timeSet', draws',
                          Step(k, exposureSet, timeSet, draws, s));
    }
  }

  /** The last exposure is never read: replacing it does not change the result. */
  lemma LastExposureUnread(k: Kernel, exposureSet: seq<real>, timeSet: seq<real>, lag: real, draws: seq<real>, x: real)
    requires WellFormed(k, exposureSet, timeSet, draws) && |exposureSet| >= 1
    ensures WellFormed(k, exposureSet[..|exposureSet| - 1] + [x], timeSet, draws)
    ensures Simulate(k, exposureSet[..|exposureSet| - 1] + [x], timeSet, lag, draws)
         == Simulate(k, exposureSet, timeSet, lag, draws)
  {
    var e' := exposureSet[..|exposureSet| - 1] + [x];
    assert forall i :: 0 <= i < |exposureSet| - 1 ==> exposureSet[i] == e'[i];
    OnlyReadPartMatters(k, exposureSet, timeSet, draws, e', timeSet, draws, Init);
  }

  /**
   Lower draws infect no later: if every draw is at most the corresponding
   original draw and the original run infects, the new run infects too, at
   the same or an earlier interval.
   */
  lemma LowerDrawsInfectNoLater(k: Kernel, exposureSet: seq<real>, timeSet: seq<real>,
                                draws: seq<real>, draws': seq<real>)
    requires WellFormed(k, exposureSet, timeSet, draws) && WellFormed(k, exposureSet, timeSet, draws')
    requires forall j :: 0 <= j < Horizon(exposureSet) ==> draws'[j] <= draws[j]
    requires Run(k, exposureSet, timeSet, draws, Init).infection
    ensures Run(k, exposureSet, timeSet, draws', Init).infection
    ensures Run(k, exposureSet, timeSet, draws', Init).tIndex <= Run(k, exposureSet, timeSet, draws, Init).tIndex
  {
    FinalState(k, exposureSet, timeSet, draws);
    FinalState(k, exposureSet, timeSet, draws');
    var f, f' := Run(k, exposureSet, timeSet, draws, Init), Run(k, exposureSet, timeSet, draws', Init);
    var i := f.tIndex - 1;
    assert Infects(k, exposureSet, timeSet, draws', i);
  }
}
