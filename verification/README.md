# Adaptive admission control: a verified model

The backend puts a semaphore with a FIFO queue in front of its database pool and lets
the limit of that semaphore change while requests hold slots, wait and give up. Who
changes it is a strategy: a utilisation rule inside the backend, or a separate
controller service that predicts costs, searches a grid of limits, passes its choice
through a safety layer and posts it, to be passed through a second safety envelope.
This project models both programs and proves what they guarantee over whole runs.

## How the model is built

| file | what it models |
|---|---|
| `AdmissionCore.dfy` | the effect of each critical section of the controller, as a function |
| `Controller.dfy` | the controller itself: counters, a slice over a backing array, channels with one token |
| `Protocol.dfy` | any number of requests running `execute` beside `SetLimit`, as steps with an invariant |
| `Server.dfy` | `Acquire`, `abandon`, `Release` and `execute` on the real controller, each method one protocol step |
| `AdmissionRuns.dfy` | theorems about every run of the protocol |
| `Envelope.dfy` | the timed state machine of the adaptive strategy, and its runs |
| `AdaptiveStrategy.dfy`, `HeuristicStrategy.dfy` | the two strategies, on the real controller |
| `SafetyLayer.dfy`, `Predictor.dfy`, `Optimizer.dfy`, `ControlLoop.dfy` | the controller service, and the loop it closes with the backend |

Code that changes things step by step is a class or a method with loops; its contract
equates the new state with a specification function of the old one, and the theorems
are about those functions. The waiters of the protocol have an arbitrary type. The
`Server` uses channels, so that the protocol's state is read straight off the heap.
A protocol step is one critical section or one choice of the scheduler, which is how
the race between cancellation and grant is covered in every interleaving.

Time is an integer number of nanoseconds, passed in; costs, weights and thresholds are
reals. The environment (telemetry, predictor, clocks, lost posts, growth of slices) is
a parameter.

## What turned out false, and when it holds

- "active never exceeds limit" (`controller.go:35`, `docs/architecture.md:119`) fails
  after a shrink. A step keeps it exactly unless it sets the limit below the number of
  active requests (`WithinLimitIff`); `active` never exceeds the peak limit.
- `Waiting()` is not the number of queued requests. A request cancelled after its grant
  lowers the counter twice. The lag is followed exactly (`LagStep`), and is zero exactly
  when there was no such cancellation or the last one found nobody queued
  (`WaitingExactIff`). The counter can read -1, and it hides saturation from the
  heuristic rule while no more requests are queued than the lag (`QueuedNeverShrinks`,
  `UndercountHidesSaturation`). Without lines 109-112 it is exact.
- "a live-but-content controller must never look stale" (`strategy.go:289-291`): stamps
  are read before the lock, so staleness is judged by the call that came last through
  the lock, which can be an older one (`StaleIffLastThroughLock`).
- The fallback is not a reversion in one go: a fallback call is a signal itself, so each
  further step waits for the whole timeout again (`FailSafe` gives both bounds, also for
  a cooldown longer than the timeout, when some firings have no effect). And it can do
  nothing at all: a live call accepted less than a cooldown earlier, after the test that
  found the strategy stale, leaves it no more than a signal (`FallbackRace`).
- "if waiting == 0 and utilisation < 0.3 → limit -= step" (`docs/architecture.md:141`)
  never happens in the backend. It passes no thresholds (`main.go:68-74`), only the high
  one gets its default, and zero stays the low one (`BackendRule`). A rule can lower the
  limit exactly when its low threshold is positive (`ShrinksIff`), so the backend's never
  falls (`BackendNeverShrinks`); `active` then does stay within it
  (`BackendStaysWithinLimit`).
- The heuristic strategy's thresholds can cross: the default low threshold is not
  checked against a small high one (`HeuristicControl.NormalisedIsSound`).
- The analytic cost has no contention knee, against its own comment
  (`predictor.py:28-34`): it is a quadratic of the reciprocal capacity. It never rises
  with the candidate exactly when `AntitoneIff` says, as for all sensible measurements
  with a counter that does not undercount (`PressedMeans`). The undercount turns it
  round: at `waiting` = -1, which the backend exports as it is (`prometheus.go:148`,
  `telemetry.py:88`), the cost can be negative and rise with the candidate, and the
  loop then lowers the limit while a request is served (`UndercountLowersLimit`). In
  general it looks for less exactly when no candidate `StaysUp`, and lowers the limit if
  moreover the gain does not stall and no cooldown runs (`AnalyticCycle`).
- Under pressure the climb can stop below the maximum: where the gain stalls
  (`ErrorsStallTheClimb`), and where the grid has no point above the limit
  (`ClimbingStep`, `NothingAboveIff`). A hop stalls for every busy system exactly when
  the threshold exceeds `HopBound` (`HopStallsIff`), as the default one does from 61 to
  63 and from 62 to 64. So with the default settings a climb ends, at the latest, at
  the one of 61 to 64 that its start equals modulo 4 (`DefaultClimb`).
- A heartbeat posts the limit that telemetry reported, not the one the backend answered
  with (`main.py:73`, `main.py:107`); a reading that lags behind lowers the limit again
  (`LaggingHeartbeatLowers`).
- A fully idle system costs zero, which Python takes for a missing baseline, so the
  hysteresis is skipped and the limit walks down to the minimum (`AnalyticCycle`,
  `LevelFreeIff`, `DescentReachesMinimumIff`).
- The fail-safe can be held up by the cooldown unless the cooldown is at most one instant
  longer than the timeout, which no code checks (`NeverBlockedIff`); nor does the service
  check that its step is positive (`SafeIffStepPositive`).
- The safety layer's header lists hysteresis last; the code tests it first, and the
  model follows the code.

## Model

| member | source | states |
|---|---|---|
| AdmissionCore.NotifyConservesWork | backend/internal/domain/admission/controller.go:131-141 | a wake-up pass admits exactly the oldest waiters that fit, leaves nobody waiting beside a free slot, and does nothing when repeated |
| AdmissionCore.SetLimitTwice | backend/internal/domain/admission/controller.go:153-161 | two limit changes equal the second alone if and only if the first admits no one the second would not |
| AdmissionCore.WithoutFacts | backend/internal/domain/admission/controller.go:96-103 | removal takes out exactly the cancelled waiter, keeps the order and moves up by one those behind |
| AdmissionController.Controller.constructor | backend/internal/domain/admission/controller.go:49-55 | a controller starts empty with limit at least 1 |
| AdmissionController.Controller.Enter | backend/internal/domain/admission/controller.go:61-72 | a request takes a free slot or is appended to the queue |
| AdmissionController.Controller.PushBack | backend/internal/domain/admission/controller.go:69-70 | appending to the slice, in place or into a larger array, appends to the queue |
| AdmissionController.Controller.NotifyLocked | backend/internal/domain/admission/controller.go:131-141 | the loop admits exactly the oldest waiters that fit and sends each one token |
| AdmissionController.Controller.AdmitFront | backend/internal/domain/admission/controller.go:135-139 | the send under the mutex finds an empty buffer, so it cannot block |
| AdmissionController.Controller.Abandon | backend/internal/domain/admission/controller.go:94-117 | a queued waiter is removed in order; a granted one gives its slot back and wakes the next |
| AdmissionController.Controller.RemoveAt | backend/internal/domain/admission/controller.go:98 | the left shift inside the backing array removes exactly one waiter |
| AdmissionController.Controller.Release | backend/internal/domain/admission/controller.go:121-129 | one slot comes back and the oldest waiters that fit are admitted |
| AdmissionController.Controller.SetLimit | backend/internal/domain/admission/controller.go:153-161 | the limit, at least 1, is stored and the oldest waiters that fit are admitted |
| AdmissionServer.Server.Acquire | backend/internal/domain/admission/controller.go:58-72 | the entry of a request is the protocol's acquire step and keeps the invariant |
| AdmissionServer.Server.Wake | backend/internal/domain/admission/controller.go:74-77 | receiving the token is the protocol's wake step |
| AdmissionServer.Server.ChooseCancel | backend/internal/domain/admission/controller.go:78-79 | picking ctx.Done, token or not, is the protocol's cancel step |
| AdmissionServer.Server.Abandon | backend/internal/domain/admission/controller.go:94-117 | abandoning in either branch is the protocol's abandon step; `execute` reports a rejection |
| AdmissionServer.Server.Return | backend/internal/application/workload/service.go:96-113 | an admitted `execute` releases exactly once, whether its function fails or not |
| AdmissionServer.Server.SetLimit | backend/internal/domain/admission/controller.go:153-161 | a limit change is the protocol's step and keeps the invariant |
| Protocol.NextInv | backend/internal/domain/admission/controller.go:58-161 | every step keeps the invariant: active counts the slot owners, a waiter is queued or has its token and never both, a queue means the limit is reached |
| Protocol.FloorsNeverFire | backend/internal/domain/admission/controller.go:105-127 | the floors on `active` never take effect |
| Protocol.NeverDeadlocks | backend/internal/domain/admission/controller.go:58-141 | while anyone waits some slot owner can take a step |
| Protocol.RunInv | backend/internal/domain/admission/controller.go:58-161 | the invariant holds after every run |
| AdmissionRuns.SlotsConserved | backend/internal/application/workload/service.go:96-113 | in every run active equals the slot owners; an admitted request releases exactly once and a cancelled one never |
| AdmissionRuns.FirstInFirstOut | backend/internal/domain/admission/controller.go:62-141 | over any run the grants followed by the queue are the enqueue order without the requests cancelled before their grant |
| AdmissionRuns.GrantedOnce | backend/internal/domain/admission/controller.go:133-141 | over any run no request is granted from the queue, and sent its token, twice |
| AdmissionRuns.NoOvertaking | backend/internal/domain/admission/controller.go:62-71 | an arrival never takes the fast path while anyone is queued |
| AdmissionRuns.RankStep | backend/internal/domain/admission/controller.go:94-161 | a waiter's rank changes by exactly the slots returned, the cancellations ahead and the limit change, and it is granted in precisely the step that brings the rank to zero or below |
| AdmissionRuns.RankTelescopes | backend/internal/domain/admission/controller.go:94-161 | over a run that leaves it queued its rank falls by exactly the progress plus the net rise of the limit |
| AdmissionRuns.BoundedWaiting | backend/internal/domain/admission/controller.go:94-161 | as much progress as its rank gets a waiter out of the queue |
| AdmissionRuns.LimitStep | backend/internal/domain/admission/controller.go:153-157 | only a limit change changes the limit, to what it asks for but at least 1 |
| AdmissionRuns.ShrinkIsNonPreemptive | backend/internal/domain/admission/controller.go:150-161 | only lowering the limit raises the excess, by at most that much, and takes no slot away |
| AdmissionRuns.WithinLimitIff | backend/internal/domain/admission/controller.go:150-161 | a step stays within the limit if and only if it does not set the limit below active |
| AdmissionRuns.ActiveCanExceedLimit | backend/internal/domain/admission/controller.go:150-161 | from every limit, with all slots taken, a legal limit change to anything smaller leaves `active` where it was |
| AdmissionRuns.ActiveBounded | backend/internal/domain/admission/controller.go:62-161 | active never exceeds the largest limit so far, nor the limit if that only rose |
| AdmissionRuns.LagStep | backend/internal/domain/admission/controller.go:105-140 | the gap between queue length and `waiting` grows only at a cancellation after a grant, capped by the queue length |
| AdmissionRuns.WaitingBounds | backend/internal/domain/admission/controller.go:105-140 | queue length minus such cancellations <= waiting <= queue length |
| AdmissionRuns.WaitingExactIff | backend/internal/domain/admission/controller.go:105-140 | after a run from start-up `waiting` is the queue length if and only if no request was cancelled after its grant, or the last one found nobody queued |
| AdmissionRuns.WaitingCanBeNegative | backend/internal/domain/admission/controller.go:105-140 | from every initial limit a run without limit changes after which nobody waits and `waiting` is -1 |
| AdmissionRuns.UndercountAtEveryLimit | backend/internal/domain/admission/controller.go:105-140 | the same with a single request still being served |
| AdmissionRuns.RepairedWaitingExact | backend/internal/domain/admission/controller.go:109-112 | without the second decrement `waiting` is the queue length after every run, and nothing else changes |
| Envelope.CallMoves | backend/internal/domain/admission/strategy.go:292-332 | with the cooldown over a call moves the limit by min(maxDelta, distance) towards its candidate, or towards the bound the candidate is beyond; during it not at all; it is a signal always, and the latest change exactly if the limit changed |
| Envelope.CallIsSafe | backend/internal/domain/admission/strategy.go:292-332 | a call moves the limit at most maxDelta, not past its clamped candidate and never further out of bounds |
| Envelope.RunStaysInEnvelope | backend/internal/domain/admission/strategy.go:292-345 | over any run of calls a limit in bounds stays in bounds |
| Envelope.SlewRate | backend/internal/domain/admission/strategy.go:293-326 | within a stamp window of a given width the limit travels at most maxDelta * (width / cooldown + 1), stamps in any order |
| Envelope.AcceptedAreSpaced | backend/internal/domain/admission/strategy.go:310-326 | accepted stamps increase by at least a cooldown |
| Envelope.ExactConvergence | backend/internal/domain/admission/strategy.go:295-331 | a repeated candidate is reached in exactly ceil(distance / maxDelta) calls and then kept |
| Envelope.ExtremesReachBounds | backend/internal/domain/admission/strategy.go:295-331 | candidates at or below the minimum take the limit down to the minimum by full moves, those at or above the maximum up to the maximum |
| Envelope.NeverBlockedIff | backend/internal/domain/admission/strategy.go:310-313 | no fallback firing can meet the cooldown if and only if the cooldown is at most one instant over the timeout |
| Envelope.SilenceSteps | backend/internal/domain/admission/strategy.go:334-345 | in silence, for all settings, m effective firings take m full steps; the last comes no sooner after the start of the silence than m shortest gaps allow and no later than m longest ones, and firings without effect stop within a cooldown |
| Envelope.StepGaps | backend/internal/domain/admission/strategy.go:334-345 | from one effective firing to the next it takes at least the shortest and at most the longest gap |
| Envelope.FailSafe | backend/internal/application/admission/service.go:79-98 | for all settings the fallback is in force after exactly ceil(distance / maxDelta) effective firings, with an upper and a lower bound on when; with a cooldown at most one instant over the timeout, after that many firings |
| Envelope.StaleIffLastThroughLock | backend/internal/domain/admission/strategy.go:293-300 | staleness is judged by the call that came last through the lock |
| Envelope.LiveCanLookStale | backend/internal/domain/admission/strategy.go:289-300 | a strategy found stale one instant after a signal |
| Envelope.InterleavingsAreRuns | backend/internal/domain/admission/strategy.go:292-345 | every interleaving of live calls with the two critical sections of the freshness test goes as a run of calls |
| Envelope.LastChangeIsStored | backend/internal/domain/admission/strategy.go:310-326 | the stored change time is the stamp of the last accepted call |
| Envelope.StaysPending | backend/internal/domain/admission/strategy.go:337-345 | a fallback that is due stays so until it fires, and then no longer |
| Envelope.Undisturbed | backend/internal/domain/admission/strategy.go:337-345 | the test and the fallback back to back are one tick of the fail-safe |
| Envelope.FallbackRace | backend/internal/domain/admission/strategy.go:337-345 | whatever calls slip in between test and fallback, the fallback moves the limit if and only if the test found the strategy stale, the limit is not the fallback yet, and the last accepted call is at least a cooldown ago; then by one step |
| Envelope.StaleLooksCostSteps | backend/internal/domain/admission/strategy.go:337-345 | in every interleaving the fallback moves the limit by at most maxDelta for each test that found the strategy stale |
| Envelope.HeartbeatNeutralIff | backend/internal/domain/admission/strategy.go:300-313 | a heartbeat leaves the limit alone if and only if it carries the live limit or meets the cooldown; it always counts as a signal |
| Envelope.NoOverflow | backend/internal/domain/admission/strategy.go:315-323 | the unguarded additions stay within the machine range of the settings |
| AdaptiveControl.NormalisedIsSound | backend/internal/domain/admission/strategy.go:246-269 | any settings become sound bounds, which normalising again leaves alone; the fallback is clamped |
| AdaptiveControl.NormalisedFields | backend/internal/domain/admission/strategy.go:246-269 | every valid setting is kept whatever the others are, every invalid one gets its own replacement |
| AdaptiveControl.SoundSettingsAreKept | backend/internal/domain/admission/strategy.go:246-269 | sound settings are kept as they are |
| AdaptiveControl.AdaptiveStrategy.constructor | backend/internal/domain/admission/strategy.go:246-285 | the strategy starts with normalised bounds and the start time as its last signal |
| AdaptiveControl.AdaptiveStrategy.Apply | backend/internal/domain/admission/strategy.go:292-332 | clamp, cooldown and branchy trim follow the envelope; the result is the limit the controller stored |
| AdaptiveControl.AdaptiveStrategy.Look | backend/internal/domain/admission/strategy.go:338-340 | the locked half of the freshness test is the first step of the watch and changes nothing but its own flag |
| AdaptiveControl.AdaptiveStrategy.Fire | backend/internal/domain/admission/strategy.go:342-344 | the fallback call, in whatever state it finds the strategy, is the second step and wakes waiters up as a limit change does |
| AdaptiveControl.AdaptiveStrategy.EnsureFresh | backend/internal/domain/admission/strategy.go:337-345 | the test and the fallback, undisturbed, are the two steps of the watch and together one tick of the fail-safe |
| HeuristicControl.NormalisedIsSound | backend/internal/domain/admission/strategy.go:97-115 | any settings become a usable rule; its thresholds are in order if and only if no small high threshold meets an invalid low one |
| HeuristicControl.NormalisedFields | backend/internal/domain/admission/strategy.go:97-115 | every valid setting is kept whatever the others are, every invalid one gets its own replacement |
| HeuristicControl.SoundRuleIsKept | backend/internal/domain/admission/strategy.go:97-115 | a sound rule with its thresholds in order is kept as it is |
| HeuristicControl.ThresholdsCanCross | backend/internal/domain/admission/strategy.go:110-115 | settings whose normalised low threshold exceeds the high one |
| HeuristicControl.HeuristicStrategy.constructor | backend/internal/domain/admission/strategy.go:97-128 | the strategy runs with the normalised rule |
| HeuristicControl.HeuristicStrategy.Adjust | backend/internal/domain/admission/strategy.go:146-183 | one tick changes the controller's limit as the rule says, or not at all |
| HeuristicControl.TickIs | backend/internal/domain/admission/strategy.go:146-171 | when a tick raises, lowers or keeps the limit, and by how much, in terms of the observation and the thresholds |
| HeuristicControl.TickIsBounded | backend/internal/domain/admission/strategy.go:146-171 | a tick moves at most one step and never further out of bounds |
| HeuristicControl.QueuedNeverShrinks | backend/internal/domain/admission/strategy.go:159-168 | with any request truly queued the limit is never lowered, and raised if and only if there is room and the lag is below the queue length |
| HeuristicControl.UndercountHidesSaturation | backend/internal/domain/admission/strategy.go:160 | at every limit a reachable saturated state with a waiter in which no rule raises the limit |
| HeuristicControl.ReversedIff | backend/internal/domain/admission/strategy.go:159-168 | the next tick at the same active count undoes a growth if and only if nothing waits, the count is below the low threshold of the grown limit and that limit is above the lower bound |
| HeuristicControl.GrowthSticks | backend/internal/domain/admission/strategy.go:159-168 | growth is never undone when high * limit >= low * (limit + step) |
| HeuristicControl.WideThresholdsStick | backend/internal/domain/admission/strategy.go:159-168 | a rule with a step of at most 2 and thresholds of 0.9 and 0.3, or further apart, meets that condition at every limit |
| HeuristicControl.BackendRule | backend/cmd/api/main.go:68-74 | the rule of the backend, whose thresholds are not set, has 0.9 as its high and zero as its low one |
| HeuristicControl.ShrinksIff | backend/internal/domain/admission/strategy.go:163-165 | a rule can lower the limit at all, on an observation a controller can report, if and only if its low threshold is positive |
| HeuristicControl.BackendNeverShrinks | backend/cmd/api/main.go:68-74 | over any run of ticks the limit of the backend never falls |
| HeuristicControl.BackendGrowthSticks | backend/cmd/api/main.go:68-74 | the next tick never undoes a growth in the backend |
| HeuristicControl.BackendStaysWithinLimit | backend/cmd/api/main.go:68-74 | over any run of requests and ticks of the backend's rule the limit never falls and `active` never exceeds it |
| HeuristicControl.SaturationClimbs | backend/internal/domain/admission/strategy.go:160-162 | lasting saturation reaches the upper bound in exactly ceil(distance / step) ticks |
| HeuristicControl.UnderuseDescends | backend/internal/domain/admission/strategy.go:163-165 | lasting underuse reaches the lower bound in exactly ceil(distance / step) ticks |
| Safety.SafetyLayer.Evaluate | controller/src/safety.py:34-58 | the evaluation and the stored change time, with the code's order of tests |
| Safety.DecisionIs | controller/src/safety.py:34-58 | what is decided and why: hysteresis, then no change, then a change less than a cooldown ago; otherwise one move towards the candidate or the bound it is beyond |
| Safety.SafeIffStepPositive | controller/src/safety.py:34-58 | every decision moves towards the bounded candidate by one to maxDelta, in the direction it reports, or keeps the limit, if and only if maxDelta is positive |
| Safety.ChangesAreSpaced | controller/src/safety.py:51-55 | on a positive clock changes are at least a cooldown apart over any run |
| Safety.ChangesAgainIff | controller/src/safety.py:37-55 | after any run of evaluations one more changes the limit if and only if it asks for another one, no hint holds it back and the last change is at least a cooldown ago |
| Safety.LayersCompose | controller/src/safety.py:37-58 | the backend stores the service's decision unaltered if and only if it is within one step of the live limit; in any case the result is in bounds and within one step |
| Predictor.CostIsQuadratic | controller/src/predictor.py:49-67 | for all weights and measurements the cost is a quadratic polynomial of the reciprocal capacity, shifted by errors and pool |
| Predictor.CostOrder | controller/src/predictor.py:49-67 | of two candidates the larger is no dearer, or cheaper, if and only if the relief between them is not negative, or positive |
| Predictor.AntitoneIff | controller/src/predictor.py:49-67 | the cost never rises with the candidate if and only if the slope and the steepest relief are not negative |
| Predictor.StrictlyAntitoneIff | controller/src/predictor.py:49-67 | it falls with every gain in capacity if and only if in addition the steepest relief is positive: the system is under pressure |
| Predictor.LevelIff | controller/src/predictor.py:49-67 | all candidates cost the same if and only if square and slope vanish |
| Predictor.PressedMeans | controller/src/predictor.py:49-67 | with sensible measurements and `waiting` not negative, pressure is weighted latency of active requests, or weighted waiting ones, and without it the curve is level |
| Predictor.CostDifference | controller/src/predictor.py:49-67 | what a larger capacity saves, in closed form for all weights and measurements, with no part for errors and pool |
| Predictor.CostSign | controller/src/predictor.py:49-67 | the sign of the cost for all weights and measurements: the weighted waiting against the other terms scaled by the capacity |
| Predictor.CostIsZeroIff | controller/src/predictor.py:49-67 | with `waiting` not negative the cost is not, and is zero if and only if every weighted term measures nothing |
| Predictor.PoolAdds | controller/src/predictor.py:60-66 | the connections in use add their weight times the part of the pool they take, all of it for a full pool |
| Predictor.ErrorsAndWaitersAdd | controller/src/predictor.py:53-66 | errors add their weight times their rate, those that wait theirs times their number over the capacity |
| Predictor.CandidatesBelowOne | controller/src/predictor.py:50 | candidates below 1 cost what 1 costs |
| Predictor.HopIsBounded | controller/src/predictor.py:49-67 | no such system gains more than that part of its cost |
| Predictor.WorstHop | controller/src/predictor.py:49-67 | some such system gains exactly that part |
| Optimizer.ListCandidates | controller/src/optimizer.py:45-56 | the loop lists the clipped grid in order, then the current limit if it is missing |
| Optimizer.EvaluateAll | controller/src/optimizer.py:58-63 | failed predictions are skipped, the others kept in order |
| Optimizer.PickFirst | controller/src/optimizer.py:68 | the loop finds the first minimum in insertion order |
| Optimizer.Optimize | controller/src/optimizer.py:37-73 | the search as a whole, with the fallback to the current limit when nothing could be evaluated |
| Optimizer.SearchStaysOnGrid | controller/src/optimizer.py:45-73 | evaluated is exactly what can be predicted among the current limit and what lies within bounds and window and whole steps above the lower end of both; the proposal is evaluated, or current |
| Optimizer.ProposalInBounds | controller/src/optimizer.py:45-73 | from a limit in bounds the proposal is in bounds and within the window, whatever the predictor |
| Optimizer.ProposesLessIff | controller/src/optimizer.py:45-73 | whatever the predictor, a smaller limit is proposed if and only if nothing else evaluated is strictly cheaper than all that is smaller |
| Optimizer.FirstOfCheapest | controller/src/optimizer.py:68 | of equally cheap evaluations the smallest limit is proposed, but for a current limit off the grid |
| Optimizer.BottomIsFirst | controller/src/optimizer.py:45-56 | the first candidate is the lower end of the window, or the minimum as soon as the window reaches it |
| Optimizer.TopIsLargest | controller/src/optimizer.py:45-56 | the largest candidate in closed form |
| Optimizer.NothingAboveIff | controller/src/optimizer.py:45-56 | no candidate is above the limit if and only if the next grid point is out of reach |
| Optimizer.NeverARegression | controller/src/main.py:83-86 | nothing evaluated is cheaper than the proposal and a hint is never negative |
| Optimizer.HintIs | controller/src/main.py:83-86 | there is a hint if and only if the current limit and the proposal have costs and neither is zero, and scaled by the present cost it is what the proposal saves |
| ControlLoop.Loop.Post | controller/src/actuator.py:21-33 | a post is applied and answered, applied without an answer, or lost |
| ControlLoop.Loop.Cycle | controller/src/main.py:64-122 | one pass through the loop body, with its failures |
| ControlLoop.Loop.Act | controller/src/main.py:90-109 | changes are posted, heartbeats when due, and the time of the last post kept |
| ControlLoop.Loop.Perform | controller/src/main.py:64-122 | a cycle, or a critical section at the backend aside from it, is an event of the run |
| ControlLoop.Loop.Run | controller/src/main.py:64-126 | the loop and what else happens at the backend go as the run of their events |
| ControlLoop.LoopStaysInEnvelope | controller/src/main.py:64-126 | whatever telemetry, predictor, settings, lost posts, and whatever falls between a freshness test and its fallback, the backend's limit stays in its bounds |
| ControlLoop.LostChangeStillCools | controller/src/safety.py:51-55 | a change whose post is lost still starts the service's cooldown |
| ControlLoop.CycleLowersIff | controller/src/main.py:90-109 | a cycle lowers the backend's limit if and only if it posts less, up to clamping, out of the backend's cooldown |
| ControlLoop.LaggingHeartbeatLowers | controller/src/main.py:73-109 | a heartbeat with a reading below the live limit takes the backend one step down towards it |
| ControlLoop.LimitKnown | controller/src/main.py:66-109 | what the loop takes for the live limit after a cycle; a failed fetch changes nothing |
| ControlLoop.HeartbeatDueIff | controller/src/main.py:99-109 | the next heartbeat is due an interval after the answer to a change, or after an answered heartbeat was sent; failed posts do not put it off |
| ControlLoop.BeatKeepsInTouch | controller/src/main.py:101-109 | posts are less than heartbeat + period apart |
| ControlLoop.FirstBeatGetsInTouch | controller/src/main.py:61-109 | the first cycle after the heartbeat interval posts |
| ControlLoop.FailureKeepsInTouch | controller/src/main.py:117-120 | a failed fetch, a lost or an unanswered post leaves the loop in touch |
| ControlLoop.HeartbeatKeepsFresh | controller/src/main.py:64-126 | with successful cycles at most a period apart, one after the other, any number of failed ones between them, and heartbeat - 1 + period + delay + min(delay, period) within the timeout, no freshness test leads to a fallback and the run goes as if nobody tested |
| ControlLoop.HeartbeatFitsIff | controller/src/main.py:103-109 | that bound is necessary too |
| ControlLoop.LateTestIff | controller/src/main.py:64-126 | after every answered change, at every period, a run that keeps all deadlines and finds the backend stale if and only if the bound is broken |
| ControlLoop.DecisionArrives | controller/src/main.py:88-102 | a delivered decision from the live limit is stored as decided and the loop knows the limit in force |
| ControlLoop.ProposesLessUnless | controller/src/optimizer.py:45-68 | for all weights and measurements the analytic argmin is below the current limit if and only if no candidate has positive relief against every smaller one |
| ControlLoop.NearestDecides | controller/src/predictor.py:49-67 | where the square is not negative, some candidate stays up if and only if the relief between the limit and the nearest smaller candidate is positive |
| ControlLoop.PressedProposesLargest | controller/src/optimizer.py:45-68 | under pressure the analytic argmin has the largest capacity there is |
| ControlLoop.PressedProposesTop | controller/src/optimizer.py:45-68 | in bounds it is the largest candidate |
| ControlLoop.UnpressedProposesSmallest | controller/src/optimizer.py:45-68 | on a level curve, or one that rises with the capacity, it is the smallest candidate |
| ControlLoop.AnalyticCycle | controller/src/main.py:72-88 | for all weights, measurements and reported limits: a cycle moves the limit if and only if the bounded argmin differs, its relative gain reaches the threshold or a cost is zero, and no cooldown runs; the argmin is smaller if and only if no candidate stays up, has the largest capacity under pressure, and comes first on a level curve |
| ControlLoop.HopStallsIff | controller/src/main.py:83-86 | a hop from c to d stalls for every system under pressure with active at most c, sensible measurements and `waiting` not negative, if and only if the threshold is above (1 - c/d) * max(1, (5 + 4c/d) / 7) |
| ControlLoop.UndercountLowersLimit | controller/src/main.py:72-88 | a run of the controller without limit changes, and a cycle measuring its outcome with the default weights and settings, that lowers the limit from 20 to 16 with a request being served |
| ControlLoop.ErrorsStallTheClimb | controller/src/main.py:83-88 | a cycle under pressure that the hysteresis holds at 32 of 64 |
| ControlLoop.PressureHoldsUp | controller/src/optimizer.py:45-68 | under pressure some candidate stays up at every limit in bounds |
| ControlLoop.HeldUpNeverShrinks | controller/src/main.py:64-126 | over any run whose readings do not lag below the live limit, and in which some candidate stays up at each reading, the backend's limit never falls |
| ControlLoop.LiveLoopNeverShrinks | controller/src/main.py:64-126 | the same, also for such readings only, beside freshness tests, which the heartbeat keeps from ever firing although cycles fail |
| ControlLoop.ClimbingStep | controller/src/main.py:72-102 | a delivered cycle under pressure, out of both cooldowns, moves the backend's limit one step to the largest candidate unless that stalls, and leaves it if and only if it stalls or nothing is above |
| ControlLoop.ClimbingRunClimbs | controller/src/main.py:64-126 | a run of such cycles takes the limit along the climb by as many steps as it has cycles that the hysteresis does not hold back |
| ControlLoop.ClimbEnds | controller/src/main.py:64-126 | counted in cycles that are not held back, n of them: the climb never falls and rests after at most as many as there are limits above; on a wide grid it rests if and only if within a grid step of the maximum, which is if and only if start + n * maxDelta is; on an aligned grid it rests at a limit known from its start |
| ControlLoop.HysteresisCapsLimit | controller/src/main.py:64-126 | where a hop of the climb stalls for every busy system, a climb never gets beyond it, and gets there if and only if it has had all the cycles not held back that lead to it |
| ControlLoop.DefaultClimb | controller/src/config.py:88-94 | with the default settings, hysteresis included, n cycles of a busy system that are not held back take the limit to min(start + 4n, 64 - (64 - start) % 4) |
| ControlLoop.LevelFreeIff | controller/src/main.py:83-88 | on a level curve a cycle is not held back if and only if it proposes no change, the cost is zero or the threshold is not positive |
| ControlLoop.DescendingStep | controller/src/main.py:72-102 | on a level curve, or one that rises with the capacity, a cycle that is not held back takes the limit down by min(maxDelta, window), to the minimum at most |
| ControlLoop.DescentEnds | controller/src/main.py:64-126 | a run of such cycles takes it down as far as its cycles that are not held back lead |
| ControlLoop.DescentReachesMinimumIff | controller/src/main.py:64-126 | it is at the minimum if and only if they are at least ceil(distance / min(maxDelta, window)) |

## Left out

- HTTP, JSON, the database pool, repositories, Prometheus, logging and decision sinks.
- Parsing of settings on both sides; that an adaptive backend boots with its limit in bounds is assumed where a lemma asks for it.
- The static strategy, which only delegates, and the unused field `lastChange` of the adaptive one.
- The trained predictor: it is an arbitrary partial function from limits to costs; NaN and infinite costs are not modelled.
- `waitSecondsTotal` and `recordWait`, which never touch admission state.
- Rounding of floating-point numbers, and clocks that drift against each other.
- The factor by which a slice grows; any growth that makes room behaves the same.
- The ticker that drives the heuristic rule; each tick is one call of `Adjust`.
- The context's deadline inside the admitted function; `execute` only matters here up to when it releases.
- AdmissionController.Controller: integers are unbounded; counters that never exceed the number of goroutines do not wrap around.
- HeuristicControl.HeuristicStrategy: `current + step` is an unbounded addition; with the backend's step of 2 it cannot overflow.
- AdmissionServer.Server.Acquire: the channel exists before the request queues, since it stands for the request; the source makes it at that point.
- AdmissionServer.Server.Abandon: the error it returns is one of context cancellation or deadline, which the model does not tell apart.
- ControlLoop.Loop.Run: the backend serves no requests between the cycles of one call; the limits it applies do not depend on them.
- AdaptiveControl.AdaptiveStrategy.EnsureFresh: as one method its two critical sections run undisturbed; every other interleaving is a sequence of Look, Apply and Fire. One goroutine tests freshness, as in the backend.
- Optimizer: the error for a grid step below 1; such a grid is not a value of the model's type.
