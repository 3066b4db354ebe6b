# Infection-time simulation kernel, modelled in Dafny

The kernel simulates a single host exposed to a series of intervals. Each
interval `i` runs from `time_set[i]` to `time_set[i+1]` and carries a fresh
exposure `exposure_set[i]`. Exposure that was not cleared is carried from one
interval to the next and decays exponentially at rate `clr`. For each interval
the kernel computes the risk of infection from the combined exposure, draws
one uniform number and infects when the draw is below the risk. Infection
ends the walk. The result is the time point that closes the infecting interval
plus an incubation `lag`, or the sentinel `-1` if nothing infected.

Two modules:

- `Exposure` (`exposure.dfy`) holds the two closed forms.
  - `CurrentExposure` is exponential decay of an exposure over an elapsed time.
  - `RiskMult` is the one-interval infection probability.
  - Dafny has no exponential, so both take `exp: real -> real` as a parameter.
  - A lemma that needs a fact about `exp` says which one: `ExpAtZero`
    (exp(0) = 1), `ExpPositive` or `ExpIncreasing`.
- `Simulation` (`simulation.dfy`) holds the loop.
  - `SimulateInfectionTimes` is the `while` loop. It updates `tIndex`,
    `infection` and `curExposure` step by step.
  - The uniform random stream is an explicit `draws` sequence. Interval `i`
    consumes `draws[i]`.
  - The loop is proved equal to `Simulate`, which is the same state machine
    written as functions (`Step`, `Run`, `Outcome`).
  - `Simulate` is in turn related to a declarative account.
    - `Carried(i)` is the exposure carried into interval `i` when nothing
      before it infected.
    - `StepRisk(i)` is the risk of interval `i`.
    - `Infects(i)` says that the draw of interval `i` is below its risk.
  - The lemmas `FinalState`, `FirstInfectingInterval` and `NoInfectionExactly`
    state the relation between the two.

Boundary behaviour, reproduced as the code has it: the loop runs while
`t_index < exposure_set.size() - 1`. With N exposures it evaluates at most N-1
intervals. The last exposure `exposure_set[N-1]`, and the interval that starts
at `time_set[N-1]`, are never read. `LastExposureUnread` and
`OnlyReadPartMatters` state this.

## Model

| member | source | states |
|---|---|---|
| `Exposure.NoDecayOverZeroTime` | src/simulation-cpp.cpp:6-8 | zero elapsed time leaves the exposure unchanged (given exp(0) = 1) |
| `Exposure.NoDecayAtZeroRate` | src/simulation-cpp.cpp:6-8 | a zero decay rate leaves the exposure unchanged over any interval |
| `Exposure.DecayDependsOnDuration` | src/simulation-cpp.cpp:6-8 | the decayed exposure depends only on `final_day - start_time`, not on the start time |
| `Exposure.DecayMonotone` | src/simulation-cpp.cpp:6-8 | for non-negative exposure and increasing exp: non-increasing in the duration when `clr > 0`, non-decreasing when `clr < 0` |
| `Exposure.RiskDependsOnDuration` | src/simulation-cpp.cpp:12-14 | the risk depends only on `final_day - start_time`, not on the start time |
| `Exposure.ZeroDurationZeroRisk` | src/simulation-cpp.cpp:12-14 | a zero-length interval gives risk exactly 0 for any non-zero `clr` |
| `Exposure.ZeroHazardZeroRisk` | src/simulation-cpp.cpp:12-14 | zero hazard gives risk exactly 0 for any exposure and duration |
| `Exposure.RiskIsProbability` | src/simulation-cpp.cpp:12-14 | for non-negative exposure, hazard and duration and `clr > 0`, the risk lies in [0, 1) (exp positive, increasing, exp(0) = 1) |
| `Simulation.Run` | src/simulation-cpp.cpp:34-48 | the loop stops with the guard false, the index never going down and never above max(N-1, 0) |
| `Simulation.SimulateInfectionTimes` | src/simulation-cpp.cpp:21-55 | the loop returns `Simulate` of its inputs and draws, which is `-1` or `time_set[t] + lag` for some `1 <= t <= N-1` |
| `Simulation.StepKeepsReached` | src/simulation-cpp.cpp:34-47 | each iteration raises the index by exactly one and keeps the reachable-state invariant (earlier intervals did not infect, carried exposure is `Carried`) |
| `Simulation.RunKeepsReached` | src/simulation-cpp.cpp:34-48 | running the loop from a reachable state ends in a reachable state where the guard fails |
| `Simulation.FinalState` | src/simulation-cpp.cpp:29-48 | final state: if infected, the index is one past the first infecting interval and the carried exposure is the one that entered it (the infecting step leaves it unchanged); otherwise all max(N-1, 0) iterations ran, none infected, and the exposure has decayed through every interval |
| `Simulation.ResultShape` | src/simulation-cpp.cpp:29-53 | the result is `-1` when uninfected, else `time_set[t_index] + lag` with `1 <= t_index <= N-1`, never index 0 |
| `Simulation.FirstInfectingInterval` | src/simulation-cpp.cpp:34-53 | if interval `i` is the first whose draw is below its risk, the loop stops at index `i+1` having evaluated nothing later, and the result is `time_set[i+1] + lag` |
| `Simulation.NoInfectionExactly` | src/simulation-cpp.cpp:34-50 | the run ends uninfected if and only if no evaluated interval infects; then it made all max(N-1, 0) iterations and returns `-1` |
| `Simulation.ShortSeriesNoIteration` | src/simulation-cpp.cpp:29-50 | with at most one exposure the loop body never runs (no draw consumed) and the result is `-1` |
| `Simulation.NonPositiveRiskNoInfection` | src/simulation-cpp.cpp:38-50 | if every evaluated risk is at most 0 and every draw at least 0, the result is `-1` |
| `Simulation.ZeroHazardNoInfection` | src/simulation-cpp.cpp:12-50 | with zero hazard and non-negative draws the result is `-1` |
| `Simulation.EarliestInfectionTime` | src/simulation-cpp.cpp:49-53 | with sorted time points the result is `-1` or at least `time_set[1] + lag` |
| `Simulation.ShiftSameRun` | src/simulation-cpp.cpp:36-45 | moving every time point by a constant gives the same run: only interval durations matter |
| `Simulation.ShiftResult` | src/simulation-cpp.cpp:36-53 | moving every time point by `c` moves an infection time by `c` and keeps the sentinel |
| `Simulation.OnlyReadPartMatters` | src/simulation-cpp.cpp:32-45 | inputs that agree on `exposure_set[0..N-2]`, `time_set[0..N-1]` and the first max(N-1, 0) draws give the same run |
| `Simulation.LastExposureUnread` | src/simulation-cpp.cpp:32-45 | replacing the last exposure `exposure_set[N-1]` never changes the result |
| `Simulation.LowerDrawsInfectNoLater` | src/simulation-cpp.cpp:40-43 | if an infecting run's draws are lowered pointwise, the run still infects, at the same or an earlier interval |

## Left out

- The R bindings (`#include <Rcpp.h>`, `NumericVector` marshalling, export annotations) are host glue. The vectors are modelled as `seq<real>`.
- The embedded R driver block at the end of the source file is an example script, not logic.
- IEEE-754 doubles: all arithmetic is on mathematical reals. Overflow to infinity, NaN propagation and rounding are not modelled.
- The real `exp` is not modelled. It is the parameter `exp`, and each lemma states the facts it assumes (exp(0) = 1, positivity, monotonicity).
- `clr == 0`: the source divides by `clr` without a guard. The model requires `clr != 0` whenever a risk is computed, that is, with at least two exposures. Under IEEE arithmetic the source's risk is NaN there, and no draw compares below it. That behaviour is not modelled.
- `runif(1)` is replaced by the explicit `draws` sequence, which must hold one draw per possible iteration. That the draws are independent and uniform on [0, 1) is not modelled. Statistical properties are out of scope, such as infections concentrating in the first interval when the hazard is huge.
- Input validation: the source does not check the lengths of the two vectors. Reading past the end of `time_set` is undefined there. The model therefore requires `|timeSet| >= |exposureSet|`, and nothing more, because that is all the loop reads.
- `t_index` and `final_time_index` are C `int`s. Their 32-bit range is not modelled, because the vector lengths stay far below it. The `infection` flag is an `int` holding 0 or 1 in the source and a `bool` here.
