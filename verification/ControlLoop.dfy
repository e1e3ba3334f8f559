/** The closed loop: telemetry, grid search, safety layer, post to the backend. The
    outside world of a cycle (telemetry, predictor, clocks, the fate of its post) is
    an input. */
module ControlLoop {
  import opened Envelope
  import opened Optimizer
  import AdmissionRuns
  import Predictor
  import Protocol
  import Safety
  import opened AdaptiveControl

  /** What becomes of a post: applied and answered, applied but the answer is lost, or
      never received. The actuator reports the last two as the same error. */
  datatype Fate = Delivered | Unanswered | Lost

  /** One cycle's inputs: the limit telemetry reports, if any; the predictor; the
      clock at the safety check, when the post goes out, and after it returned; and
      the stamp the backend gives the post. */
  datatype Input = Input(
    limit: Option<int>, predict: int -> Option<real>,
    start: int, sent: int, ack: int, stamp: int, fate: Fate)

  datatype Settings = Settings(safety: Safety.Settings, grid: Grid, heartbeat: int)

  /** The loop's variables, the safety layer's, and the backend's; `pending` is set
      while the backend has found the loop silent and not yet called its fallback. */
  datatype World = World(
    currentLimit: int, lastApplied: int, lastPost: int, lastChange: int,
    backend: Status, pending: bool)

  function Plan(cfg: Settings, i: Input): Result
    requires i.limit.Some?
  {
    Search(cfg.grid, i.predict, i.limit.value, cfg.safety.minLimit, cfg.safety.maxLimit)
  }

  function Question(cfg: Settings, i: Input): Safety.Query
    requires i.limit.Some?
  {
    Safety.Query(i.limit.value, Plan(cfg, i).bestLimit,
                 Hint(i.predict, i.limit.value, Plan(cfg, i)), i.start)
  }

  function Received(b: Bounds, s: Status, limit: int, i: Input): Status {
    if i.fate == Lost then s else Apply(b, s, Call(limit, i.stamp))
  }

  function Decide(cfg: Settings, lastChange: int, i: Input): Safety.Decision
    requires i.limit.Some?
  {
    Safety.Verdict(cfg.safety, lastChange, Question(cfg, i))
  }

  /** The loop acts on a decision: it posts a change, or a heartbeat when one is due.
      `y` is the world after the safety check. */
  function React(cfg: Settings, b: Bounds, y: World, d: Safety.Decision, i: Input): World {
    if d.changed then
      var s := Received(b, y.backend, d.appliedLimit, i);
      if i.fate == Delivered then World(s.limit, i.ack, i.ack, y.lastChange, s, y.pending)
      else y.(backend := s)
    else if i.sent - y.lastPost >= cfg.heartbeat then
      var s := Received(b, y.backend, y.currentLimit, i);
      if i.fate == Delivered then y.(lastPost := i.sent, backend := s)
      else y.(backend := s)
    else y
  }

  /** One cycle. A failed fetch or a failed post skips the rest of the cycle. */
  function Step(cfg: Settings, b: Bounds, x: World, i: Input): World {
    if i.limit.None? then x
    else
      var d := Decide(cfg, x.lastChange, i);
      var y := x.(currentLimit := i.limit.value,
                  lastChange := if d.changed then i.start else x.lastChange);
      React(cfg, b, y, d, i)
  }

  /** A cycle of the loop, or one critical section at the backend aside from it: a
      freshness test, the fallback that follows one, or a call of anybody else. */
  datatype Event = Beat(i: Input) | Aside(a: Action)

  function Happens(cfg: Settings, b: Bounds, x: World, e: Event): World {
    match e
    case Beat(i) => Step(cfg, b, x, i)
    case Aside(a) =>
      var w := Act(b, Watch(x.backend, x.pending), a);
      x.(backend := w.status, pending := w.pending)
  }

  function Drive(cfg: Settings, b: Bounds, x: World, evs: seq<Event>): World
    decreases |evs|
  {
    if evs == [] then x else
      Drive(cfg, b, Happens(cfg, b, x, evs[0]), evs[1..])
  }

  class Loop {
    const cfg: Settings
    const safety: Safety.SafetyLayer
    const backend: AdaptiveStrategy
    var currentLimit: int
    var lastAppliedTs: int
    var lastPostTs: int

    ghost predicate Valid()
      reads this, safety, backend, backend.controller,
            backend.controller.cells, backend.controller.queue
    {
      safety.cfg == cfg.safety && backend.Valid()
    }

    ghost function View(): World
      reads this, safety, backend, backend.controller
    {
      World(currentLimit, lastAppliedTs, lastPostTs, safety.lastChange, backend.Status(), backend.pending)
    }

    constructor (cfg: Settings, fallbackLimit: int, backend: AdaptiveStrategy)
      requires backend.Valid()
      ensures Valid() && this.cfg == cfg && this.backend == backend
      ensures View() == World(fallbackLimit, 0, 0, 0, backend.Status(), backend.pending)
      ensures fresh(safety)
    {
      this.cfg := cfg;
      this.backend := backend;
      safety := new Safety.SafetyLayer(cfg.safety);
      currentLimit := fallbackLimit;
      lastAppliedTs, lastPostTs := 0, 0;
    }

    /** The actuator: the limit the backend reports, or None for its error. */
    method Post(limit: int, i: Input) returns (applied: Option<int>)
      requires backend.Valid()
      modifies backend, backend.controller, backend.controller.queue
      ensures backend.Valid() && backend.controller.cells == old(backend.controller.cells)
      ensures backend.Status() == Received(backend.bounds, old(backend.Status()), limit, i)
      ensures backend.pending == old(backend.pending)
      ensures applied == if i.fate == Delivered then Some(backend.controller.limit) else None
      ensures forall ch :: ch in backend.controller.queue ==> ch in old(backend.controller.queue)
    {
      if i.fate == Lost {
        return None;
      }
      var a := backend.Apply(limit, i.stamp);
      applied := if i.fate == Delivered then Some(a) else None;
    }

    /** One pass through the loop body. */
    method Cycle(i: Input)
      requires Valid()
      modifies this, safety, backend, backend.controller, backend.controller.queue
      ensures Valid() && backend.controller.cells == old(backend.controller.cells)
      ensures View() == Step(cfg, backend.bounds, old(View()), i)
      ensures forall ch :: ch in backend.controller.queue ==> ch in old(backend.controller.queue)
    {
      hide React, Search, Hint, Safety.Verdict, Received;
      if i.limit.None? {
        return;
      }
      currentLimit := i.limit.value;
      var result := Optimize(cfg.grid, i.predict, currentLimit,
                             cfg.safety.minLimit, cfg.safety.maxLimit);
      var hint := Hint(i.predict, currentLimit, result);
      var decision := safety.Evaluate(
        Safety.Query(currentLimit, result.bestLimit, hint, i.start));
      Act(decision, i);
    }

    /** What the loop does with a decision. */
    method Act(decision: Safety.Decision, i: Input)
      requires Valid()
      modifies `currentLimit, `lastAppliedTs, `lastPostTs,
               backend, backend.controller, backend.controller.queue
      ensures Valid() && backend.controller.cells == old(backend.controller.cells)
      ensures View() == React(cfg, backend.bounds, old(View()), decision, i)
      ensures forall ch :: ch in backend.controller.queue ==> ch in old(backend.controller.queue)
    {
      if decision.changed {
        var applied := Post(decision.appliedLimit, i);
        if applied.Some? {
          currentLimit := applied.value;
          lastAppliedTs := i.ack;
          lastPostTs := i.ack;
        }
      } else {
        if i.sent - lastPostTs >= cfg.heartbeat {
          var applied := Post(currentLimit, i);
          if applied.Some? {
            lastPostTs := i.sent;
          }
        }
      }
    }

    /** A cycle, or one critical section at the backend aside from it. */
    method Perform(e: Event)
      requires Valid()
      modifies this, safety, backend, backend.controller, backend.controller.queue
      ensures Valid() && backend.controller.cells == old(backend.controller.cells)
      ensures View() == Happens(cfg, backend.bounds, old(View()), e)
      ensures forall ch :: ch in backend.controller.queue ==> ch in old(backend.controller.queue)
    {
      hide Step;
      match e {
        case Beat(i) => Cycle(i);
        case Aside(Live(c)) => var _ := backend.Apply(c.candidate, c.stamp);
        case Aside(Look(now)) => backend.Look(now);
        case Aside(Fire(stamp)) => backend.Fire(stamp);
      }
    }

    /** The endless loop, as far as it has come, beside what else happens at the
        backend. */
    method Run(evs: seq<Event>)
      requires Valid()
      modifies this, safety, backend, backend.controller, backend.controller.queue
      ensures Valid()
      ensures View() == Drive(cfg, backend.bounds, old(View()), evs)
    {
      hide Happens;
      for n := 0 to |evs|
        invariant Valid() && backend.controller.cells == old(backend.controller.cells)
        invariant forall ch :: ch in backend.controller.queue ==> ch in old(backend.controller.queue)
        invariant Drive(cfg, backend.bounds, View(), evs[n..])
                  == Drive(cfg, backend.bounds, old(View()), evs)
      {
        assert forall k :: 0 <= k < |backend.controller.queue| ==>
            backend.controller.queue[k] in old(backend.controller.queue);
        assert evs[n..][1..] == evs[n + 1..];
        Perform(evs[n]);
      }
    }
  }

  // ----- runs of the loop beside what else happens at the backend -----

  /** What a cycle's post brings to the backend, if one goes out and arrives. */
  function Posted(cfg: Settings, x: World, i: Input): Option<int> {
    if i.limit.None? || i.fate == Lost then None
    else if Decide(cfg, x.lastChange, i).changed then Some(Decide(cfg, x.lastChange, i).appliedLimit)
    else if i.sent - x.lastPost >= cfg.heartbeat then i.limit
    else None
  }

  /** A cycle reaches the backend as at most one call. */
  lemma StepIsOneCall(cfg: Settings, b: Bounds, x: World, i: Input)
    ensures var post := Posted(cfg, x, i);
            Step(cfg, b, x, i).backend
            == if post.Some? then Apply(b, x.backend, Call(post.value, i.stamp)) else x.backend
  {
    hide Apply, Decide;
  }

  lemma StepIsSafe(cfg: Settings, b: Bounds, x: World, e: Event)
    requires b.Sound() && x.backend.limit >= 1
    ensures var t := Happens(cfg, b, x, e).backend.limit;
            t >= 1 && Outside(b, t) <= Outside(b, x.backend.limit)
            && Magnitude(t - x.backend.limit) <= b.maxDelta
  {
    match e
    case Aside(Live(c)) => CallIsSafe(b, x.backend, c);
    case Aside(Look(_)) =>
    case Aside(Fire(stamp)) => CallIsSafe(b, x.backend, Call(b.fallbackTo, stamp));
    case Beat(i) =>
      StepIsOneCall(cfg, b, x, i);
      hide Step, Posted;
      if Posted(cfg, x, i).Some? {
        CallIsSafe(b, x.backend, Call(Posted(cfg, x, i).value, i.stamp));
      }
  }

  /** Whatever the predictor, the telemetry, the controller's settings, the fate of its
      posts, and whatever comes between a freshness test and its fallback, the
      backend's limit stays in its bounds over every run. */
  lemma {:induction false} LoopStaysInEnvelope(cfg: Settings, b: Bounds, x: World, evs: seq<Event>)
    requires b.Sound() && b.minLimit <= x.backend.limit <= b.maxLimit
    ensures b.minLimit <= Drive(cfg, b, x, evs).backend.limit <= b.maxLimit
    decreases |evs|
  {
    if evs != [] {
      StepIsSafe(cfg, b, x, evs[0]);
      LoopStaysInEnvelope(cfg, b, Happens(cfg, b, x, evs[0]), evs[1..]);
    }
  }

  /** A cycle lowers the backend's limit exactly when it posts less, up to clamping, out
      of the backend's cooldown. */
  lemma CycleLowersIff(cfg: Settings, b: Bounds, x: World, i: Input)
    requires b.Sound() && x.backend.limit >= 1
    ensures var post := Posted(cfg, x, i);
            Step(cfg, b, x, i).backend.limit < x.backend.limit
            <==> post.Some? && Clamp(b, post.value) < x.backend.limit && !Cooling(b, x.backend, i.stamp)
  {
    StepIsOneCall(cfg, b, x, i);
    hide Step, Posted;
    if Posted(cfg, x, i).Some? {
      CallIsSafe(b, x.backend, Call(Posted(cfg, x, i).value, i.stamp));
    }
  }

  /** A heartbeat carries the limit that telemetry reported, not the one the backend
      answered with: a reading that lags behind takes back what was gained since. */
  lemma LaggingHeartbeatLowers(cfg: Settings, b: Bounds, x: World, i: Input)
    requires b.Sound() && i.limit.Some? && b.minLimit <= i.limit.value < x.backend.limit
    requires x.backend.limit <= b.maxLimit && i.fate != Lost && !Cooling(b, x.backend, i.stamp)
    requires !Decide(cfg, x.lastChange, i).changed && i.sent - x.lastPost >= cfg.heartbeat
    ensures Step(cfg, b, x, i).backend.limit
            == Toward(x.backend.limit, i.limit.value, b.maxDelta) < x.backend.limit
  {
    StepIsOneCall(cfg, b, x, i);
    hide Step, Decide;
  }

  /** A change starts the service's cooldown even when its post is lost: no cycle
      within it decides on another. */
  lemma LostChangeStillCools(cfg: Settings, b: Bounds, x: World, i: Input, j: Input)
    requires i.limit.Some? && j.limit.Some?
    requires Decide(cfg, x.lastChange, i).changed && i.start > 0
    requires i.start <= j.start < i.start + cfg.safety.cooldown
    ensures !Decide(cfg, Step(cfg, b, x, i).lastChange, j).changed
  {
    hide Search;
    assert Step(cfg, b, x, i).lastChange == i.start;
  }

  // ----- the heartbeat -----

  /** Successful cycles at most `period` apart, none of which sends before the one
      before has ended, whose posts take at most `delay`, with any number of cycles
      between them that fail, and freshness tests that take the backend's lock before
      the next successful cycle's post can have arrived. `last` is when the latest
      successful cycle's post would have gone out, `done` when that cycle ended. */
  predicate Timely(last: int, done: int, evs: seq<Event>, period: nat, delay: nat)
    decreases |evs|
  {
    evs == [] ||
    match evs[0]
    case Beat(i) =>
      if Succeeds(i, last, done, period, delay) then Timely(i.sent, i.ack, evs[1..], period, delay)
      else Fails(i, last) && Timely(last, done, evs[1..], period, delay)
    case Aside(a) => InTime(a, last + period + delay) && Timely(last, done, evs[1..], period, delay)
  }

  predicate Succeeds(i: Input, last: int, done: int, period: nat, delay: nat) {
    && i.limit.Some? && i.fate == Delivered
    && last <= i.sent <= last + period && done <= i.sent
    && i.sent <= i.stamp <= i.ack <= i.sent + delay
  }

  /** A failed fetch, or a post, if it comes to one, that is lost or goes unanswered. */
  predicate Fails(i: Input, last: int) {
    i.limit.None? || (i.fate != Delivered && last <= i.sent <= i.stamp)
  }

  predicate InTime(a: Action, latest: int) {
    match a
    case Look(now) => now <= latest
    case Fire(_) => true
    case Live(_) => false
  }

  /** No heartbeat is due at the latest successful cycle, and the backend has seen the
      latest answered post, which ended in time for the cycle after it. */
  predicate InTouch(cfg: Settings, x: World, last: int, done: int, period: nat, delay: nat) {
    && last < x.lastPost + cfg.heartbeat
    && x.lastPost <= x.backend.lastSignal + delay && x.lastPost <= last + delay && x.lastPost <= done
    && (last <= x.backend.lastSignal || x.lastPost <= x.backend.lastSignal + period)
  }

  /** A successful cycle leaves the loop in touch; if it posts, that is less than
      heartbeat + period after the post before. */
  lemma BeatKeepsInTouch(cfg: Settings, b: Bounds, x: World, i: Input, last: int, done: int,
                         period: nat, delay: nat)
    requires cfg.heartbeat > 0 && InTouch(cfg, x, last, done, period, delay)
    requires Succeeds(i, last, done, period, delay)
    ensures InTouch(cfg, Step(cfg, b, x, i), i.sent, i.ack, period, delay)
    ensures Step(cfg, b, x, i).lastPost != x.lastPost ==>
              i.sent < x.lastPost + cfg.heartbeat + period
  {
    hide Decide, Accepts, Toward;
  }

  /** A failed one leaves it in touch, too, although an unanswered change or heartbeat
      may have reached the backend. */
  lemma FailureKeepsInTouch(cfg: Settings, b: Bounds, x: World, i: Input, last: int, done: int,
                            period: nat, delay: nat)
    requires InTouch(cfg, x, last, done, period, delay) && Fails(i, last)
    ensures InTouch(cfg, Step(cfg, b, x, i), last, done, period, delay)
  {
    hide Decide, Accepts, Toward;
  }

  /** The first successful cycle once the clock has passed the heartbeat interval
      posts, so that the loop gets in touch whatever its state. */
  lemma FirstBeatGetsInTouch(cfg: Settings, b: Bounds, x: World, i: Input, last: int, done: int,
                             period: nat, delay: nat)
    requires cfg.heartbeat > 0
    requires Succeeds(i, last, done, period, delay) && i.sent - x.lastPost >= cfg.heartbeat
    ensures InTouch(cfg, Step(cfg, b, x, i), i.sent, i.ack, period, delay)
  {
    hide Decide, Accepts, Toward;
  }

  /** What the loop takes for the live limit after a cycle: what the backend answered to
      a change, otherwise what telemetry reported, though a heartbeat may have been
      answered with another limit. A failed fetch changes nothing at all. */
  lemma LimitKnown(cfg: Settings, b: Bounds, x: World, i: Input)
    ensures var y := Step(cfg, b, x, i);
            if i.limit.None? then y == x
            else if i.fate == Delivered && Decide(cfg, x.lastChange, i).changed then
              y.currentLimit == y.backend.limit
            else y.currentLimit == i.limit.value
  {
    hide Decide, Apply;
  }

  /** When the next heartbeat is due: one interval after an answered change was answered,
      after an answered heartbeat was sent, and, if neither came of a cycle, as before. */
  lemma HeartbeatDueIff(cfg: Settings, b: Bounds, x: World, i: Input, j: Input)
    requires i.limit.Some? && j.limit.Some? && j.fate != Lost
    requires !Decide(cfg, Step(cfg, b, x, i).lastChange, j).changed
    ensures var posts := Posted(cfg, Step(cfg, b, x, i), j).Some?;
            var changed, due := Decide(cfg, x.lastChange, i).changed, i.sent - x.lastPost >= cfg.heartbeat;
            && (i.fate == Delivered && changed ==> (posts <==> j.sent >= i.ack + cfg.heartbeat))
            && (i.fate == Delivered && !changed && due ==> (posts <==> j.sent >= i.sent + cfg.heartbeat))
            && (i.fate != Delivered || (!changed && !due) ==> (posts <==> j.sent >= x.lastPost + cfg.heartbeat))
  {
    hide Decide, Apply;
  }

  function Beats(evs: seq<Event>): seq<Event> {
    if evs == [] then []
    else (if evs[0].Beat? then [evs[0]] else []) + Beats(evs[1..])
  }

  lemma StepKeepsPending(cfg: Settings, b: Bounds, x: World, i: Input)
    ensures Step(cfg, b, x, i).pending == x.pending
  {
    hide Decide, Apply;
  }

  /** How long the backend can go without a signal of a live loop. The answer to a post
      ends within a period, or the next cycle is late. */
  function LongestSilence(cfg: Settings, period: nat, delay: nat): int {
    cfg.heartbeat - 1 + period + delay + Min(delay, period)
  }

  /** While the loop is alive, even if cycles fail, its heartbeat keeps the backend
      fresh: if that fits in the freshness timeout, no test ever finds the backend
      stale, no fallback fires, and the run goes exactly as if nobody tested. */
  lemma {:induction false} HeartbeatKeepsFresh(cfg: Settings, b: Bounds, x: World, last: int, done: int,
                                               evs: seq<Event>, period: nat, delay: nat)
    requires cfg.heartbeat > 0 && InTouch(cfg, x, last, done, period, delay) && !x.pending
    requires Timely(last, done, evs, period, delay)
    requires LongestSilence(cfg, period, delay) <= b.freshTimeout
    ensures Drive(cfg, b, x, evs) == Drive(cfg, b, x, Beats(evs))
    decreases |evs|
  {
    if evs != [] {
      match evs[0]
      case Beat(i) =>
        var succeeds := Succeeds(i, last, done, period, delay);
        if succeeds {
          BeatKeepsInTouch(cfg, b, x, i, last, done, period, delay);
        } else {
          FailureKeepsInTouch(cfg, b, x, i, last, done, period, delay);
        }
        StepKeepsPending(cfg, b, x, i);
        hide Step, InTouch;
        HeartbeatKeepsFresh(cfg, b, Step(cfg, b, x, i), if succeeds then i.sent else last,
                            if succeeds then i.ack else done, evs[1..], period, delay);
        assert Beats(evs)[1..] == Beats(evs[1..]);
      case Aside(a) =>
        assert a.Look? ==> !Stale(b, x.backend, a.now);
        assert Happens(cfg, b, x, evs[0]) == x;
        assert Beats(evs) == Beats(evs[1..]);
        HeartbeatKeepsFresh(cfg, b, x, last, done, evs[1..], period, delay);
    }
  }

  /** A run of a live loop goes as if nobody tested. */
  ghost predicate TestsAreIdle(cfg: Settings, b: Bounds, x: World, last: int, done: int,
                               evs: seq<Event>, period: nat, delay: nat)
  {
    InTouch(cfg, x, last, done, period, delay) && !x.pending && Timely(last, done, evs, period, delay) ==>
      Drive(cfg, b, x, evs) == Drive(cfg, b, x, Beats(evs))
  }

  lemma LateTest(cfg: Settings, b: Bounds, period: nat, delay: nat)
      returns (x: World, last: int, done: int, evs: seq<Event>)
    requires cfg.heartbeat > 0 && LongestSilence(cfg, period, delay) > b.freshTimeout
    ensures !TestsAreIdle(cfg, b, x, last, done, evs, period, delay)
  {
    done := Min(delay, period);
    x := World(1, done, done, 0, Status(1, None, 0), false);
    last := done + cfg.heartbeat - 1;
    evs := [Aside(Look(last + period + delay))];
    assert evs[1..] == [] && Timely(last, done, evs[1..], period, delay);
    assert InTouch(cfg, x, last, done, period, delay) && Timely(last, done, evs, period, delay);
    var y := Happens(cfg, b, x, evs[0]);
    assert y.pending;
    hide Happens;
    assert Drive(cfg, b, x, evs) == Drive(cfg, b, y, evs[1..]) == y;
    assert Beats(evs) == Beats(evs[1..]) == [];
  }

  /** That bound is exact: with any other settings some loop in touch meets a stale
      test. */
  lemma HeartbeatFitsIff(cfg: Settings, b: Bounds, period: nat, delay: nat)
    requires cfg.heartbeat > 0
    ensures (forall x, last, done, evs :: TestsAreIdle(cfg, b, x, last, done, evs, period, delay))
            <==> LongestSilence(cfg, period, delay) <= b.freshTimeout
  {
    if LongestSilence(cfg, period, delay) <= b.freshTimeout {
      forall x, last, done, evs ensures TestsAreIdle(cfg, b, x, last, done, evs, period, delay) {
        if InTouch(cfg, x, last, done, period, delay) && !x.pending && Timely(last, done, evs, period, delay) {
          HeartbeatKeepsFresh(cfg, b, x, last, done, evs, period, delay);
        }
      }
    } else {
      var x, last, done, evs := LateTest(cfg, b, period, delay);
    }
  }

  lemma AnsweredChange(cfg: Settings, b: Bounds, x: World, i: Input)
    requires i.limit.Some? && i.fate == Delivered && Decide(cfg, x.lastChange, i).changed
    ensures var y := Step(cfg, b, x, i);
            && y.lastPost == y.lastApplied == i.ack && y.pending == x.pending
            && y.backend.lastSignal == i.stamp
  {
    hide Decide, Accepts, Toward;
  }

  /** A cycle at time `t` that sees a limit but can predict nothing. */
  function Blind(limit: int, t: int): Input {
    Input(Some(limit), c => None, t, t, t, t, Delivered)
  }

  lemma BlindHolds(cfg: Settings, b: Bounds, x: World, limit: int, t: int)
    requires cfg.safety.minLimit <= limit <= cfg.safety.maxLimit && t < x.lastPost + cfg.heartbeat
    ensures Step(cfg, b, x, Blind(limit, t)) == x.(currentLimit := limit)
  {
    NothingEvaluated(Blind(limit, t).predict,
                     Candidates(cfg.grid, limit, cfg.safety.minLimit, cfg.safety.maxLimit));
    hide Candidates, Evaluate, FirstMin;
    assert Plan(cfg, Blind(limit, t)).bestLimit == limit;
  }

  lemma BeatIsStep(cfg: Settings, b: Bounds, x: World, i: Input)
    ensures Happens(cfg, b, x, Beat(i)) == Step(cfg, b, x, i)
  {
  }

  lemma DriveThen(cfg: Settings, b: Bounds, x: World, e: Event, rest: seq<Event>)
    ensures Drive(cfg, b, x, [e] + rest) == Drive(cfg, b, Happens(cfg, b, x, e), rest)
  {
    assert ([e] + rest)[1..] == rest;
    hide Happens;
  }

  lemma TimelyThen(i: Input, last: int, done: int, rest: seq<Event>, period: nat, delay: nat)
    requires Succeeds(i, last, done, period, delay)
    ensures Timely(last, done, [Beat(i)] + rest, period, delay) <==> Timely(i.sent, i.ack, rest, period, delay)
  {
    assert ([Beat(i)] + rest)[1..] == rest;
    hide Succeeds;
  }

  /** Such cycles one period apart, from `t` until exactly `end`. */
  function BlindUntil(limit: int, t: int, end: int, period: int): seq<Event>
    requires period >= 1
    decreases end - t
  {
    if t >= end then [Beat(Blind(limit, end))]
    else [Beat(Blind(limit, t))] + BlindUntil(limit, t + period, end, period)
  }

  lemma {:induction false} BlindUntilHolds(cfg: Settings, b: Bounds, x: World, limit: int, last: int,
      done: int, t: int, end: int, test: Event, period: nat, delay: nat)
    requires cfg.safety.minLimit <= limit <= cfg.safety.maxLimit && end < x.lastPost + cfg.heartbeat
    requires period >= 1 && last <= t <= last + period && last <= end && done <= t && done <= end
    requires Timely(end, end, [test], period, delay)
    ensures var evs := BlindUntil(limit, t, end, period) + [test];
            && Timely(last, done, evs, period, delay)
            && Drive(cfg, b, x, evs) == Happens(cfg, b, x.(currentLimit := limit), test)
    decreases end - t
  {
    var evs := BlindUntil(limit, t, end, period) + [test];
    if t >= end {
      var y := x.(currentLimit := limit);
      BlindHolds(cfg, b, x, limit, end);
      BeatIsStep(cfg, b, x, Blind(limit, end));
      TimelyThen(Blind(limit, end), last, done, [test], period, delay);
      DriveThen(cfg, b, x, Beat(Blind(limit, end)), [test]);
      DriveThen(cfg, b, y, test, []);
      assert [test] == [test] + [];
      hide Step, Happens, Timely, Blind;
    } else {
      var y, rest := x.(currentLimit := limit), BlindUntil(limit, t + period, end, period) + [test];
      BlindHolds(cfg, b, x, limit, t);
      BeatIsStep(cfg, b, x, Blind(limit, t));
      TimelyThen(Blind(limit, t), last, done, rest, period, delay);
      DriveThen(cfg, b, x, Beat(Blind(limit, t)), rest);
      BlindUntilHolds(cfg, b, y, limit, t, t, t + period, end, test, period, delay);
      assert evs == [Beat(Blind(limit, t))] + rest;
      hide Step, Happens, Timely, Drive, BlindUntil;
    }
  }

  lemma LookTests(cfg: Settings, b: Bounds, x: World, now: int)
    requires !x.pending
    ensures Happens(cfg, b, x, Aside(Look(now))).pending <==> Stale(b, x.backend, now)
  {
  }

  lemma TestIsTimely(last: int, now: int, period: nat, delay: nat)
    requires now <= last + period + delay
    ensures Timely(last, last, [Aside(Look(now))], period, delay)
  {
    assert [Aside(Look(now))][1..] == [];
  }

  lemma CycleThen(cfg: Settings, b: Bounds, x: World, i: Input, rest: seq<Event>,
                  period: nat, delay: nat)
    requires Succeeds(i, i.sent, i.sent, period, delay) && Timely(i.sent, i.ack, rest, period, delay)
    ensures Timely(i.sent, i.sent, [Beat(i)] + rest, period, delay)
    ensures Drive(cfg, b, x, [Beat(i)] + rest) == Drive(cfg, b, Step(cfg, b, x, i), rest)
  {
    TimelyThen(i, i.sent, i.sent, rest, period, delay);
    BeatIsStep(cfg, b, x, i);
    DriveThen(cfg, b, x, Beat(i), rest);
    hide *;
  }

  /** Cycles with nothing to post, the last of them one instant before the next heartbeat
      is due; and the next test comes as late as it may. */
  lemma BlindThenTest(cfg: Settings, b: Bounds, x: World, sent: int, limit: int, period: nat, delay: nat)
      returns (evs: seq<Event>)
    requires cfg.heartbeat > 0 && period >= 1
    requires cfg.safety.minLimit <= limit <= cfg.safety.maxLimit
    requires sent <= x.lastPost <= sent + period
    ensures Timely(sent, x.lastPost, evs, period, delay)
    ensures var late := x.lastPost + cfg.heartbeat - 1 + period + delay;
            Drive(cfg, b, x, evs) == Happens(cfg, b, x.(currentLimit := limit), Aside(Look(late)))
  {
    hide *;
    var end := x.lastPost + cfg.heartbeat - 1;
    var look := Aside(Look(end + period + delay));
    TestIsTimely(end, end + period + delay, period, delay);
    BlindUntilHolds(cfg, b, x, limit, sent, x.lastPost, x.lastPost, end, look, period, delay);
    evs := BlindUntil(limit, x.lastPost, end, period) + [look];
  }

  /** The world in that argument is one the loop gets into, at every period: a change
      goes out, reaches the backend at once, and its answer takes as long as it may;
      then comes a run that keeps all deadlines and meets a stale test exactly when the
      longest silence does not fit. */
  lemma LateTestIff(cfg: Settings, b: Bounds, x: World, i: Input, limit: int, period: nat, delay: nat)
      returns (evs: seq<Event>)
    requires cfg.heartbeat > 0 && period >= 1 && !x.pending
    requires cfg.safety.minLimit <= limit <= cfg.safety.maxLimit
    requires i.limit.Some? && i.fate == Delivered && Decide(cfg, x.lastChange, i).changed
    requires i.stamp == i.sent && i.ack == i.sent + Min(delay, period)
    ensures Timely(i.sent, i.sent, [Beat(i)] + evs, period, delay)
    ensures Drive(cfg, b, x, [Beat(i)] + evs).pending <==> LongestSilence(cfg, period, delay) > b.freshTimeout
  {
    var y := Step(cfg, b, x, i);
    AnsweredChange(cfg, b, x, i);
    assert Succeeds(i, i.sent, i.sent, period, delay);
    hide Step, Decide, Timely, Drive, Happens, Succeeds;
    evs := BlindThenTest(cfg, b, y, i.sent, limit, period, delay);
    LookTests(cfg, b, y.(currentLimit := limit), i.ack + cfg.heartbeat - 1 + period + delay);
    CycleThen(cfg, b, x, i, evs, period, delay);
  }

  /** A delivered decision taken from the live limit, with matching settings and the
      backend out of cooldown, is stored as decided, and the loop knows the limit in
      force. */
  lemma DecisionArrives(cfg: Settings, b: Bounds, x: World, i: Input)
    requires b.Sound() && Safety.Matches(cfg.safety, b)
    requires i.limit == Some(x.backend.limit) && b.minLimit <= x.backend.limit <= b.maxLimit
    requires i.fate == Delivered && !Cooling(b, x.backend, i.stamp)
    ensures var d := Decide(cfg, x.lastChange, i);
            var y := Step(cfg, b, x, i);
            y.currentLimit == y.backend.limit == d.appliedLimit
  {
    Safety.LayersCompose(cfg.safety, x.lastChange, Question(cfg, i), b, x.backend, i.stamp);
  }

  // ----- the search under the analytic cost -----

  function Analytic(w: Predictor.Weights, t: Predictor.Telemetry): int -> Option<real> {
    c => Some(Predictor.Cost(w, t, c))
  }

  /** Some candidate not below `current` has more capacity than each one below it, and
      the relief between the two is positive. */
  predicate StaysUp(w: Predictor.Weights, t: Predictor.Telemetry, cs: seq<int>, current: int) {
    exists e :: e in cs && e >= current
                && forall c :: c in cs && c < current ==>
                     Predictor.Capacity(c) < Predictor.Capacity(e) && Predictor.Relief(w, t, c, e) > 0.0
  }

  /** Where the square is not negative, as for sensible measurements, the nearest smaller
      candidate decides: the relief falls with the capacity. */
  lemma NearestDecides(w: Predictor.Weights, t: Predictor.Telemetry, cs: seq<int>, current: int, below: int)
    requires Predictor.Square(w, t) >= 0.0 && current in cs && forall c :: c in cs ==> c >= 1
    requires below in cs && below < current && forall c :: c in cs && c < current ==> c <= below
    ensures StaysUp(w, t, cs, current) <==> Predictor.Relief(w, t, below, current) > 0.0
  {
    hide Predictor.Relief;
    if StaysUp(w, t, cs, current) {
      var e :| e in cs && e >= current
               && forall c :: c in cs && c < current ==>
                    Predictor.Capacity(c) < Predictor.Capacity(e) && Predictor.Relief(w, t, c, e) > 0.0;
      Predictor.ReliefFalls(w, t, below, current, below, e);
    }
    if Predictor.Relief(w, t, below, current) > 0.0 {
      forall c | c in cs && c < current
        ensures Predictor.Capacity(c) < Predictor.Capacity(current) && Predictor.Relief(w, t, c, current) > 0.0
      {
        Predictor.ReliefFalls(w, t, c, current, below, current);
      }
    }
  }

  lemma EvaluatedAnalytically(w: Predictor.Weights, t: Predictor.Telemetry, cs: seq<int>)
    ensures var ev := Evaluate(Analytic(w, t), cs);
            && (forall c :: c in cs ==> Evaluation(c, Predictor.Cost(w, t, c)) in ev)
            && (forall e :: e in ev ==> e.limit in cs && e.cost == Predictor.Cost(w, t, e.limit))
  {
    var predict, ev := Analytic(w, t), Evaluate(Analytic(w, t), cs);
    forall c | c in cs ensures Evaluation(c, Predictor.Cost(w, t, c)) in ev {
      EvaluatedExactly(predict, cs, Evaluation(c, Predictor.Cost(w, t, c)));
    }
    forall e | e in ev ensures e.limit in cs && e.cost == Predictor.Cost(w, t, e.limit) {
      EvaluatedExactly(predict, cs, e);
    }
  }

  lemma HoldsUpMeans(w: Predictor.Weights, t: Predictor.Telemetry, cs: seq<int>, current: int)
    ensures HoldsUp(Evaluate(Analytic(w, t), cs), current) <==> StaysUp(w, t, cs, current)
  {
    var ev := Evaluate(Analytic(w, t), cs);
    EvaluatedAnalytically(w, t, cs);
    hide Evaluate, Predictor.Cost, Predictor.Relief, Predictor.Capacity;
    forall e: int, c: int | c < e
      ensures Predictor.Cost(w, t, e) < Predictor.Cost(w, t, c) <==>
              Predictor.Capacity(c) < Predictor.Capacity(e) && Predictor.Relief(w, t, c, e) > 0.0
    {
      Predictor.CostOrder(w, t, c, e);
    }
    if HoldsUp(ev, current) {
      var e :| e in ev && e.limit >= current
               && forall c :: c in ev && c.limit < current ==> e.cost < c.cost;
      forall c | c in cs && c < current
        ensures Predictor.Capacity(c) < Predictor.Capacity(e.limit) && Predictor.Relief(w, t, c, e.limit) > 0.0
      {
        assert Evaluation(c, Predictor.Cost(w, t, c)) in ev;
      }
    }
    if StaysUp(w, t, cs, current) {
      var e :| e in cs && e >= current
               && forall c :: c in cs && c < current ==>
                    Predictor.Capacity(c) < Predictor.Capacity(e) && Predictor.Relief(w, t, c, e) > 0.0;
      assert Evaluation(e, Predictor.Cost(w, t, e)) in ev;
    }
  }

  /** For all weights and telemetry the search proposes a smaller limit exactly when
      no candidate stays up. */
  lemma ProposesLessUnless(w: Predictor.Weights, t: Predictor.Telemetry, g: Grid,
                           current: int, lo: int, hi: int)
    ensures Search(g, Analytic(w, t), current, lo, hi).bestLimit < current
            <==> !StaysUp(w, t, Candidates(g, current, lo, hi), current)
  {
    var cs := Candidates(g, current, lo, hi);
    ProposesLessIff(g, Analytic(w, t), current, lo, hi);
    HoldsUpMeans(w, t, cs, current);
    EvaluatedAnalytically(w, t, cs);
    CandidatesExactly(g, current, lo, hi, current);
    hide HoldsUp, StaysUp, Evaluate, Predictor.Cost, Candidates;
  }

  lemma {:induction false} TotalEvaluation(predict: int -> Option<real>, cs: seq<int>)
    requires forall c :: c in cs ==> predict(c).Some?
    ensures |Evaluate(predict, cs)| == |cs|
    ensures forall k :: 0 <= k < |cs| ==>
              Evaluate(predict, cs)[k].limit == cs[k]
              && predict(cs[k]) == Some(Evaluate(predict, cs)[k].cost)
  {
    if cs != [] {
      TotalEvaluation(predict, cs[..|cs| - 1]);
    }
  }

  lemma AnalyticBest(w: Predictor.Weights, t: Predictor.Telemetry, g: Grid,
                     current: int, lo: int, hi: int)
    ensures var r, cs := Search(g, Analytic(w, t), current, lo, hi), Candidates(g, current, lo, hi);
            && current in cs && r.bestLimit in cs
            && r.bestCost == Some(Predictor.Cost(w, t, r.bestLimit))
            && (forall c :: c in cs ==> Predictor.Cost(w, t, r.bestLimit) <= Predictor.Cost(w, t, c))
            && ((forall c :: c in cs ==> Predictor.Cost(w, t, cs[0]) <= Predictor.Cost(w, t, c)) ==>
                  r.bestLimit == cs[0])
  {
    var predict, cs := Analytic(w, t), Candidates(g, current, lo, hi);
    var ev := Evaluate(predict, cs);
    TotalEvaluation(predict, cs);
    hide Evaluate, Predictor.Cost;
    var k := FirstMin(ev);
    assert IsFirstMin(ev, k);
    hide FirstMin;
    forall c | c in cs ensures Predictor.Cost(w, t, cs[k]) <= Predictor.Cost(w, t, c) {
      var n :| 0 <= n < |cs| && cs[n] == c;
      assert ev[k].cost <= ev[n].cost;
    }
    if k > 0 { assert ev[k].cost < ev[0].cost; }
  }

  /** Under pressure the search proposes a candidate of the largest capacity there is:
      of positive candidates, the largest. */
  lemma PressedProposesLargest(w: Predictor.Weights, t: Predictor.Telemetry, g: Grid,
                               current: int, lo: int, hi: int)
    requires Predictor.Pressed(w, t)
    ensures var best := Search(g, Analytic(w, t), current, lo, hi).bestLimit;
            forall c :: c in Candidates(g, current, lo, hi) ==>
              Predictor.Capacity(c) <= Predictor.Capacity(best)
  {
    AnalyticBest(w, t, g, current, lo, hi);
    Predictor.StrictlyAntitoneIff(w, t);
    hide Search, Candidates, Predictor.Cost;
  }

  /** In bounds that is the largest candidate itself. */
  lemma PressedProposesTop(w: Predictor.Weights, t: Predictor.Telemetry, g: Grid,
                           current: int, lo: int, hi: int)
    requires Predictor.Pressed(w, t) && 1 <= lo <= current <= hi
    ensures Search(g, Analytic(w, t), current, lo, hi).bestLimit == Top(g, current, lo, hi)
  {
    PressedProposesLargest(w, t, g, current, lo, hi);
    AnalyticBest(w, t, g, current, lo, hi);
    TopIsLargest(g, current, lo, hi);
    CandidatesInBounds(g, current, lo, hi);
    hide Search, Candidates, Top, Predictor.Cost, Predictor.Pressed;
  }

  /** If larger capacities are dearer, or all cost the same, the smallest candidate is
      proposed. */
  lemma UnpressedProposesSmallest(w: Predictor.Weights, t: Predictor.Telemetry, g: Grid,
                                  current: int, lo: int, hi: int)
    requires Predictor.Backward(w, t) || Predictor.Level(w, t)
    ensures var r, cs := Search(g, Analytic(w, t), current, lo, hi), Candidates(g, current, lo, hi);
            && (forall c :: c in cs && Predictor.Backward(w, t) ==>
                  Predictor.Capacity(r.bestLimit) <= Predictor.Capacity(c))
            && (Predictor.Level(w, t) ==>
                  r.bestLimit == cs[0] && r.bestCost == Some(Predictor.Cost(w, t, current)))
            && (lo <= current ==> r.bestLimit == cs[0] && forall c :: c in cs ==> cs[0] <= c)
  {
    var cs, best := Candidates(g, current, lo, hi), Search(g, Analytic(w, t), current, lo, hi).bestLimit;
    AnalyticBest(w, t, g, current, lo, hi);
    if lo <= current { SmallestFirst(g, current, lo, hi); }
    Predictor.LevelIff(w, t);
    hide Search, Candidates, Predictor.Cost, Predictor.Level, Predictor.Backward;
    if Predictor.Backward(w, t) {
      forall c | c in cs ensures Predictor.Capacity(best) <= Predictor.Capacity(c) {
        if Predictor.Capacity(c) < Predictor.Capacity(best) { Dearer(w, t, c, best); }
      }
      forall c | c in cs && cs[0] <= c ensures Predictor.Cost(w, t, cs[0]) <= Predictor.Cost(w, t, c) {
        Dearer(w, t, cs[0], c);
      }
    }
  }

  lemma Dearer(w: Predictor.Weights, t: Predictor.Telemetry, c: int, d: int)
    requires Predictor.Backward(w, t) && c <= d
    ensures Predictor.Cost(w, t, c) <= Predictor.Cost(w, t, d)
    ensures Predictor.Capacity(c) < Predictor.Capacity(d) ==> Predictor.Cost(w, t, c) < Predictor.Cost(w, t, d)
  {
    Predictor.CostOrder(w, t, c, d);
    hide Predictor.Cost, Predictor.Relief, Predictor.Backward;
    if Predictor.Capacity(c) < Predictor.Capacity(d) { Predictor.ReliefBounds(w, t, c, d); }
  }

  // ----- a cycle under the analytic cost -----

  /** The predicted gain is a smaller part of the present cost than the threshold. A
      cost of zero gives no hint, and then nothing is held back. */
  predicate Stalls(w: Predictor.Weights, t: Predictor.Telemetry, threshold: real, current: int, best: int) {
    var cost := Predictor.Cost(w, t, current);
    && cost != 0.0 && Predictor.Cost(w, t, best) != 0.0
    && Predictor.Gain(w, t, current, best) < threshold * Predictor.Size(cost)
  }

  lemma AnalyticHint(w: Predictor.Weights, t: Predictor.Telemetry, current: int, r: Result, bound: real)
    requires r.bestCost == Some(Predictor.Cost(w, t, r.bestLimit))
    ensures var hint := Hint(Analytic(w, t), current, r);
            hint.Some? && hint.value < bound <==> Stalls(w, t, bound, current, r.bestLimit)
  {
    assert Analytic(w, t)(current) == Some(Predictor.Cost(w, t, current));
    hide Predictor.Cost, Predictor.Gain, Analytic;
    if Predictor.Cost(w, t, current) != 0.0 {
      Predictor.RelativeGain(w, t, current, r.bestLimit, bound);
    }
  }

  lemma StallsMeansInsignificant(w: Predictor.Weights, t: Predictor.Telemetry, cfg: Settings, i: Input)
    requires i.predict == Analytic(w, t) && i.limit.Some?
    ensures Safety.Insignificant(cfg.safety, Question(cfg, i))
            <==> Stalls(w, t, cfg.safety.threshold, i.limit.value, Plan(cfg, i).bestLimit)
  {
    AnalyticBest(w, t, cfg.grid, i.limit.value, cfg.safety.minLimit, cfg.safety.maxLimit);
    hide Search, Hint, Stalls, Candidates, Predictor.Cost;
    AnalyticHint(w, t, i.limit.value, Plan(cfg, i), cfg.safety.threshold);
  }

  lemma LevelStalls(w: Predictor.Weights, t: Predictor.Telemetry, threshold: real, current: int, best: int)
    requires Predictor.Level(w, t)
    ensures Stalls(w, t, threshold, current, best)
            <==> Predictor.Cost(w, t, current) != 0.0 && threshold > 0.0
  {
    var size := Predictor.Size(Predictor.Cost(w, t, current));
    Predictor.LevelIff(w, t);
    Predictor.CostDifference(w, t, current, best);
    hide Predictor.Cost, Predictor.Relief, Predictor.Inverse;
    assert Predictor.Gain(w, t, current, best) == 0.0;
    if size > 0.0 {
      Predictor.SignOfProduct(size, threshold);
      assert size * threshold == threshold * size;
    }
  }

  lemma HopStalls(w: Predictor.Weights, t: Predictor.Telemetry, threshold: real, c: int, d: int)
    requires 1 <= c < d && Predictor.Busy(w, t, c) && threshold > Predictor.HopBound(c, d)
    ensures Stalls(w, t, threshold, c, d)
  {
    Predictor.BusyCostPositive(w, t, c, c);
    Predictor.BusyCostPositive(w, t, c, d);
    Predictor.HopIsBounded(w, t, c, d);
    var cost, bound := Predictor.Cost(w, t, c), Predictor.HopBound(c, d);
    hide Predictor.Cost, Predictor.Gain, Predictor.HopBound, Predictor.Busy;
    Predictor.ScaledOrder(cost, bound, threshold);
    assert cost * bound == bound * cost && cost * threshold == threshold * cost;
  }

  /** A hop stalls for every busy system exactly when the threshold is above the largest
      part of its cost that one can gain. */
  lemma HopStallsIff(threshold: real, c: int, d: int)
    requires 1 <= c < d
    ensures (forall w, t :: Predictor.Busy(w, t, c) ==> Stalls(w, t, threshold, c, d))
            <==> threshold > Predictor.HopBound(c, d)
  {
    if threshold > Predictor.HopBound(c, d) {
      forall w, t | Predictor.Busy(w, t, c) ensures Stalls(w, t, threshold, c, d) {
        HopStalls(w, t, threshold, c, d);
      }
    } else {
      var w, t := Predictor.WorstHop(c, d);
      var cost, bound := Predictor.Cost(w, t, c), Predictor.HopBound(c, d);
      Predictor.BusyCostPositive(w, t, c, c);
      hide Predictor.Cost, Predictor.Gain, Predictor.HopBound, Predictor.Busy;
      Predictor.ScaledOrder(cost, threshold, bound);
      assert cost * bound == bound * cost && cost * threshold == threshold * cost;
    }
  }

  /** What a cycle with the analytic cost decides, for all weights, telemetry and
      reported limits. It moves exactly when the bounded find of the search is another
      limit, the gain does not stall and no cooldown runs, and then towards that find.
      The search finds a smaller limit exactly when no candidate stays up. Under
      pressure it finds the largest capacity; on a level curve the first candidate,
      which stalls for every positive threshold unless the cost is zero: then the limit
      walks down. */
  lemma AnalyticCycle(w: Predictor.Weights, t: Predictor.Telemetry, cfg: Settings,
                      lastChange: int, i: Input)
    requires i.predict == Analytic(w, t) && i.limit.Some?
    ensures var current, best := i.limit.value, Plan(cfg, i).bestLimit;
            var bounded := Safety.Bounded(cfg.safety, best);
            var cs := Candidates(cfg.grid, current, cfg.safety.minLimit, cfg.safety.maxLimit);
            var d, stalls := Decide(cfg, lastChange, i), Stalls(w, t, cfg.safety.threshold, current, best);
            && (d.changed <==>
                  bounded != current && !stalls
                  && (lastChange > 0 ==> i.start - lastChange >= cfg.safety.cooldown))
            && d.appliedLimit == (if d.changed then Toward(current, bounded, cfg.safety.maxDelta) else current)
            && (cfg.safety.minLimit <= current <= cfg.safety.maxLimit ==> bounded == best)
            && (best < current <==> !StaysUp(w, t, cs, current))
            && (Predictor.Pressed(w, t) ==>
                  forall c :: c in cs ==> Predictor.Capacity(c) <= Predictor.Capacity(best))
            && (Predictor.Level(w, t) ==>
                  best == cs[0]
                  && (stalls <==> Predictor.Cost(w, t, current) != 0.0 && cfg.safety.threshold > 0.0))
            && (Predictor.Level(w, t) && cfg.safety.minLimit <= current ==> best <= current)
  {
    var current, lo, hi := i.limit.value, cfg.safety.minLimit, cfg.safety.maxLimit;
    var best := Plan(cfg, i).bestLimit;
    StallsMeansInsignificant(w, t, cfg, i);
    ProposesLessUnless(w, t, cfg.grid, current, lo, hi);
    if lo <= current <= hi { ProposalInBounds(cfg.grid, i.predict, current, lo, hi); }
    if Predictor.Pressed(w, t) {
      PressedProposesLargest(w, t, cfg.grid, current, lo, hi);
    }
    if Predictor.Level(w, t) {
      UnpressedProposesSmallest(w, t, cfg.grid, current, lo, hi);
      AnalyticBest(w, t, cfg.grid, current, lo, hi);
      LevelStalls(w, t, cfg.safety.threshold, current, best);
    }
    hide Search, Hint, Candidates, StaysUp, Stalls, Toward, Predictor.Cost, Predictor.Pressed, Predictor.Level, Predictor.Capacity;
  }

  /** The service with its default settings, asked at the given limit. */
  function AtLimit(limit: int, t: Predictor.Telemetry, now: int): (Settings, Input) {
    (Settings(Safety.Settings(4, 64, 4, 5 * SECOND, 0.05), GridShape(8, 2), 15 * SECOND),
     Input(Some(limit), Analytic(Predictor.DEFAULT_WEIGHTS, t), now, now, now, now, Delivered))
  }

  /** An undercount makes the loop lower the limit under load. A run of the controller
      from a limit of 20, without any limit change, ends with one request being served,
      none queued and `waiting` at -1; a cycle that measures it, with default weights
      and settings, proposes 12, at a negative cost, and lowers the limit to 16. */
  lemma UndercountLowersLimit(now: int)
    ensures var es := AdmissionRuns.QuietRace(20);
            var core := Protocol.Exec(Protocol.Init(20), es).core;
            var t := Predictor.Measured(core.active, core.waiting, 0.0);
            var (cfg, i) := AtLimit(core.limit, t, now);
            && Protocol.Legal(Protocol.Init(20), es) && AdmissionRuns.KeepsLimit(es)
            && core.limit == 20 && core.active == 1 && core.queue == []
            && Plan(cfg, i).bestLimit == 12
            && Decide(cfg, 0, i) == Safety.Decision(16, true, Safety.Decrease)
  {
    AdmissionRuns.UndercountAtEveryLimit(20);
    hide Protocol.Exec, Protocol.Legal, AdmissionRuns.QuietRace, AdmissionRuns.KeepsLimit;
    UndercountDecides(now);
  }

  lemma UndercountDecides(now: int)
    ensures var (cfg, i) := AtLimit(20, Predictor.Measured(1, -1, 0.0), now);
            && Plan(cfg, i).bestLimit == 12
            && Decide(cfg, 0, i) == Safety.Decision(16, true, Safety.Decrease)
  {
    var w, t := Predictor.DEFAULT_WEIGHTS, Predictor.Measured(1, -1, 0.0);
    var (cfg, i) := AtLimit(20, t, now);
    Predictor.UndercountFigures();
    hide Predictor.Cost, Predictor.Gain, Predictor.Backward;
    UnpressedProposesSmallest(w, t, cfg.grid, 20, 4, 64);
    CandidatesExactly(cfg.grid, 20, 4, 64, 12);
    CandidatesExactly(cfg.grid, 20, 4, 64, Plan(cfg, i).bestLimit);
    hide Candidates, Search;
    assert Plan(cfg, i).bestLimit == 12;
    AnalyticCycle(w, t, cfg, 0, i);
    hide Plan, StaysUp, Predictor.Pressed, Predictor.Level;
  }

  lemma ErrorsStall()
    ensures Stalls(Predictor.DEFAULT_WEIGHTS, Predictor.Measured(1, 0, 1.0), 0.05, 32, 40)
  {
    Predictor.ErrorFigures();
    hide Predictor.Cost, Predictor.Gain, Predictor.Pressed;
  }

  lemma ErrorsPropose40()
    ensures Search(GridShape(8, 2), Analytic(Predictor.DEFAULT_WEIGHTS, Predictor.Measured(1, 0, 1.0)),
                   32, 4, 64).bestLimit == 40
  {
    var w, t, g := Predictor.DEFAULT_WEIGHTS, Predictor.Measured(1, 0, 1.0), GridShape(8, 2);
    Predictor.ErrorFigures();
    hide Predictor.Cost, Predictor.Gain, Predictor.Pressed;
    PressedProposesLargest(w, t, g, 32, 4, 64);
    AnalyticBest(w, t, g, 32, 4, 64);
    CandidatesExactly(g, 32, 4, 64, 40);
    CandidatesExactly(g, 32, 4, 64, Search(g, Analytic(w, t), 32, 4, 64).bestLimit);
    hide Candidates, Search;
  }

  /** The hysteresis can stop the climb under pressure, below the maximum: beside
      failing requests the gain of a larger limit is too small a part of the cost. */
  lemma ErrorsStallTheClimb(lastChange: int, now: int)
    ensures var (cfg, i) := AtLimit(32, Predictor.Measured(1, 0, 1.0), now);
            && Plan(cfg, i).bestLimit == 40
            && Decide(cfg, lastChange, i) == Safety.Decision(32, false, Safety.Hysteresis)
  {
    ErrorsPropose40();
    ErrorsStall();
    hide Search, Analytic, Stalls, Hint;
    var (cfg, i) := AtLimit(32, Predictor.Measured(1, 0, 1.0), now);
    StallsMeansInsignificant(Predictor.DEFAULT_WEIGHTS, Predictor.Measured(1, 0, 1.0), cfg, i);
  }

  // ----- runs under the analytic cost -----

  /** The predictor is the analytic cost of measurements under which some candidate
      stays up at the given limit. */
  ghost predicate HeldUp(cfg: Settings, predict: int -> Option<real>, limit: int) {
    exists w: Predictor.Weights, t: Predictor.Telemetry ::
      && predict == Analytic(w, t)
      && StaysUp(w, t, Candidates(cfg.grid, limit, cfg.safety.minLimit, cfg.safety.maxLimit), limit)
  }

  /** Pressure holds a limit up. */
  lemma PressureHoldsUp(w: Predictor.Weights, t: Predictor.Telemetry, cfg: Settings, limit: int)
    requires Predictor.Pressed(w, t) && 1 <= cfg.safety.minLimit <= limit <= cfg.safety.maxLimit
    ensures HeldUp(cfg, Analytic(w, t), limit)
  {
    var cs := Candidates(cfg.grid, limit, cfg.safety.minLimit, cfg.safety.maxLimit);
    CandidatesExactly(cfg.grid, limit, cfg.safety.minLimit, cfg.safety.maxLimit, limit);
    CandidatesInBounds(cfg.grid, limit, cfg.safety.minLimit, cfg.safety.maxLimit);
    hide Candidates, Predictor.Pressed, Predictor.Relief;
    forall c | c in cs && c < limit
      ensures Predictor.Capacity(c) < Predictor.Capacity(limit) && Predictor.Relief(w, t, c, limit) > 0.0
    {
      Predictor.ReliefBounds(w, t, c, limit);
    }
    assert StaysUp(w, t, cs, limit);
  }

  /** A run whose cycles, unless they see nothing, read a limit that does not lag below
      the live one and is held up, though their posts may fail, and beside which nothing
      happens at the backend that has an effect on it. */
  ghost predicate HeldUpRun(cfg: Settings, b: Bounds, x: World, evs: seq<Event>)
    decreases |evs|
  {
    evs == [] ||
    (&& (match evs[0]
         case Beat(i) =>
           i.limit.Some? ==> x.backend.limit <= i.limit.value && HeldUp(cfg, i.predict, i.limit.value)
         case Aside(_) => Happens(cfg, b, x, evs[0]) == x)
     && HeldUpRun(cfg, b, Happens(cfg, b, x, evs[0]), evs[1..]))
  }

  lemma HeldUpStep(cfg: Settings, b: Bounds, x: World, i: Input)
    requires b.Sound() && Safety.Matches(cfg.safety, b)
    requires b.minLimit <= x.backend.limit <= b.maxLimit
    requires i.limit.Some? ==> x.backend.limit <= i.limit.value && HeldUp(cfg, i.predict, i.limit.value)
    ensures x.backend.limit <= Step(cfg, b, x, i).backend.limit <= b.maxLimit
  {
    StepIsSafe(cfg, b, x, Beat(i));
    BeatIsStep(cfg, b, x, i);
    CycleLowersIff(cfg, b, x, i);
    hide Step, Happens;
    if i.limit.Some? {
      HeldUpDecision(cfg, x.lastChange, i);
      hide Decide;
    }
  }

  lemma TowardAtLeast(x: int, goal: int, d: nat, least: int)
    requires x >= least && goal >= least
    ensures Toward(x, goal, d) >= least
  {
  }

  /** From a limit that is held up nothing smaller is decided, but down to the service's
      own maximum. */
  lemma HeldUpDecision(cfg: Settings, lastChange: int, i: Input)
    requires i.limit.Some? && HeldUp(cfg, i.predict, i.limit.value)
    requires cfg.safety.minLimit <= cfg.safety.maxLimit && cfg.safety.maxDelta >= 1
    ensures Decide(cfg, lastChange, i).appliedLimit >= Min(i.limit.value, cfg.safety.maxLimit)
  {
    var limit := i.limit.value;
    var w: Predictor.Weights, t: Predictor.Telemetry :|
      && i.predict == Analytic(w, t)
      && StaysUp(w, t, Candidates(cfg.grid, limit, cfg.safety.minLimit, cfg.safety.maxLimit), limit);
    var best, d := Plan(cfg, i).bestLimit, Decide(cfg, lastChange, i);
    hide Plan, Decide, Candidates, StaysUp, Stalls, Toward, Predictor.Pressed, Predictor.Level;
    AnalyticCycle(w, t, cfg, lastChange, i);
    assert best >= limit;
    assert d.appliedLimit == limit
           || d.appliedLimit == Toward(limit, Safety.Bounded(cfg.safety, best), cfg.safety.maxDelta);
    TowardAtLeast(limit, Safety.Bounded(cfg.safety, best), cfg.safety.maxDelta,
                  Min(limit, cfg.safety.maxLimit));
  }

  /** Over any run of the closed loop in which what it reads is held up, the backend's
      limit never falls. */
  lemma {:induction false} HeldUpNeverShrinks(cfg: Settings, b: Bounds, x: World, evs: seq<Event>)
    requires b.Sound() && Safety.Matches(cfg.safety, b)
    requires b.minLimit <= x.backend.limit <= b.maxLimit
    requires HeldUpRun(cfg, b, x, evs)
    ensures x.backend.limit <= Drive(cfg, b, x, evs).backend.limit <= b.maxLimit
    decreases |evs|
  {
    if evs != [] {
      if evs[0].Beat? { HeldUpStep(cfg, b, x, evs[0].i); }
      hide Step;
      HeldUpNeverShrinks(cfg, b, Happens(cfg, b, x, evs[0]), evs[1..]);
    }
  }

  /** A live loop needs no assumption about the freshness tests: if its heartbeat fits
      in the timeout, and what its cycles read is held up, the limit never falls,
      whatever cycles fail and whatever tests run in between. */
  lemma LiveLoopNeverShrinks(cfg: Settings, b: Bounds, x: World, last: int, done: int,
                             evs: seq<Event>, period: nat, delay: nat)
    requires b.Sound() && Safety.Matches(cfg.safety, b)
    requires b.minLimit <= x.backend.limit <= b.maxLimit
    requires cfg.heartbeat > 0 && InTouch(cfg, x, last, done, period, delay) && !x.pending
    requires Timely(last, done, evs, period, delay)
    requires LongestSilence(cfg, period, delay) <= b.freshTimeout
    requires HeldUpRun(cfg, b, x, Beats(evs))
    ensures x.backend.limit <= Drive(cfg, b, x, evs).backend.limit <= b.maxLimit
  {
    HeartbeatKeepsFresh(cfg, b, x, last, done, evs, period, delay);
    HeldUpNeverShrinks(cfg, b, x, Beats(evs));
  }

  // ----- the climb under pressure -----

  /** A cycle that sees the live limit, with its post delivered, and with the latest
      change on either side at least a cooldown ago. */
  predicate LiveCycle(cfg: Settings, b: Bounds, x: World, i: Input) {
    && i.limit == Some(x.backend.limit) && i.fate == Delivered
    && (x.lastChange > 0 ==> i.start - x.lastChange >= cfg.safety.cooldown)
    && (x.backend.lastApply.Some? ==> i.stamp - x.backend.lastApply.value >= b.cooldown)
  }

  /** Such a cycle under pressure. */
  ghost predicate ClimbingCycle(cfg: Settings, b: Bounds, x: World, i: Input,
                                w: Predictor.Weights, t: Predictor.Telemetry)
  {
    Predictor.Pressed(w, t) && i.predict == Analytic(w, t) && LiveCycle(cfg, b, x, i)
  }

  function TopOf(cfg: Settings, limit: int): int {
    Top(cfg.grid, limit, cfg.safety.minLimit, cfg.safety.maxLimit)
  }

  /** Such a cycle takes the backend's limit one step towards the largest candidate,
      unless the gain of that stalls. So the limit rests exactly where no grid point
      above it is in reach, or the gain stalls. */
  lemma ClimbingStep(cfg: Settings, b: Bounds, x: World, i: Input,
                     w: Predictor.Weights, t: Predictor.Telemetry)
    requires b.Sound() && Safety.Matches(cfg.safety, b)
    requires b.minLimit <= x.backend.limit <= b.maxLimit && ClimbingCycle(cfg, b, x, i, w, t)
    ensures var limit, top := x.backend.limit, TopOf(cfg, x.backend.limit);
            var next := Step(cfg, b, x, i).backend.limit;
            var stalls := Stalls(w, t, cfg.safety.threshold, limit, top);
            && next == (if stalls then limit else Toward(limit, top, b.maxDelta))
            && (next == limit <==> stalls || top == limit)
  {
    var limit := x.backend.limit;
    PressedProposesTop(w, t, cfg.grid, limit, b.minLimit, b.maxLimit);
    assert Plan(cfg, i).bestLimit == TopOf(cfg, limit);
    hide Search, Top;
    AnalyticCycle(w, t, cfg, x.lastChange, i);
    hide Plan, Candidates, StaysUp, Stalls, Predictor.Cost, Predictor.Pressed, Predictor.Level;
    TopInBounds(cfg.grid, limit, b.minLimit, b.maxLimit);
    DecisionArrives(cfg, b, x, i);
    hide Decide, Step;
  }

  /** With `busy`, the measurements are those of a busy system. */
  ghost predicate Climbs(cfg: Settings, b: Bounds, x: World, i: Input, busy: bool) {
    exists w: Predictor.Weights, t: Predictor.Telemetry ::
      ClimbingCycle(cfg, b, x, i, w, t) && (busy ==> Predictor.Busy(w, t, x.backend.limit))
  }

  /** A climbing cycle, one that sees nothing, or something aside without effect. */
  ghost predicate ClimbingEvent(cfg: Settings, b: Bounds, x: World, e: Event, busy: bool) {
    match e
    case Beat(i) => i.limit.Some? ==> Climbs(cfg, b, x, i, busy)
    case Aside(_) => Happens(cfg, b, x, e) == x
  }

  /** A run of such events. The hysteresis may hold back any of its cycles. */
  ghost predicate ClimbingRun(cfg: Settings, b: Bounds, x: World, evs: seq<Event>, busy: bool)
    decreases |evs|
  {
    evs == [] ||
    (ClimbingEvent(cfg, b, x, evs[0], busy)
     && ClimbingRun(cfg, b, Happens(cfg, b, x, evs[0]), evs[1..], busy))
  }

  /** The hysteresis does not hold the cycle back, or it has nothing to hold back. */
  predicate Free(cfg: Settings, i: Input)
    requires i.limit.Some?
  {
    Plan(cfg, i).bestLimit == i.limit.value || !Safety.Insignificant(cfg.safety, Question(cfg, i))
  }

  /** One for a cycle that sees a limit and is free. */
  function FreeCycle(cfg: Settings, e: Event): nat {
    if e.Beat? && e.i.limit.Some? && Free(cfg, e.i) then 1 else 0
  }

  function FreeCycles(cfg: Settings, b: Bounds, x: World, evs: seq<Event>): nat
    decreases |evs|
  {
    if evs == [] then 0
    else FreeCycle(cfg, evs[0]) + FreeCycles(cfg, b, Happens(cfg, b, x, evs[0]), evs[1..])
  }

  lemma FreeMeans(cfg: Settings, b: Bounds, x: World, i: Input,
                  w: Predictor.Weights, t: Predictor.Telemetry)
    requires b.Sound() && Safety.Matches(cfg.safety, b)
    requires b.minLimit <= x.backend.limit <= b.maxLimit && ClimbingCycle(cfg, b, x, i, w, t)
    ensures var limit, top := x.backend.limit, TopOf(cfg, x.backend.limit);
            Free(cfg, i) <==> top == limit || !Stalls(w, t, cfg.safety.threshold, limit, top)
  {
    PressedProposesTop(w, t, cfg.grid, x.backend.limit, b.minLimit, b.maxLimit);
    assert Plan(cfg, i).bestLimit == TopOf(cfg, x.backend.limit);
    StallsMeansInsignificant(w, t, cfg, i);
    hide Plan, Question, Search, Stalls, Top, Predictor.Pressed, Safety.Insignificant;
  }

  lemma ClimbsOnce(cfg: Settings, b: Bounds, x: World, i: Input, busy: bool)
    requires b.Sound() && Safety.Matches(cfg.safety, b)
    requires b.minLimit <= x.backend.limit <= b.maxLimit && Climbs(cfg, b, x, i, busy)
    ensures i.limit == Some(x.backend.limit)
    ensures var limit := x.backend.limit;
            Step(cfg, b, x, i).backend.limit
            == if Free(cfg, i) then ClimbOnce(cfg.grid, b.minLimit, b.maxLimit, b.maxDelta, limit) else limit
    ensures var limit, top := x.backend.limit, TopOf(cfg, x.backend.limit);
            busy && limit < top && cfg.safety.threshold > Predictor.HopBound(limit, top) ==> !Free(cfg, i)
  {
    var limit, top := x.backend.limit, TopOf(cfg, x.backend.limit);
    var w: Predictor.Weights, t: Predictor.Telemetry :|
      ClimbingCycle(cfg, b, x, i, w, t) && (busy ==> Predictor.Busy(w, t, limit));
    ClimbingStep(cfg, b, x, i, w, t);
    FreeMeans(cfg, b, x, i, w, t);
    var threshold, stalls := cfg.safety.threshold, Stalls(w, t, cfg.safety.threshold, limit, top);
    assert top == limit ==> Toward(limit, top, b.maxDelta) == limit;
    hide Step, Free, Stalls, Top, Toward, Predictor.Busy, Predictor.Pressed, Predictor.HopBound;
    if busy && limit < top && threshold > Predictor.HopBound(limit, top) {
      HopStalls(w, t, threshold, limit, top);
    }
  }

  /** An event leads one step along the climb if it is a free cycle, and none if not;
      for a busy system it is not free where the threshold is above the bound. */
  lemma ClimbingEventSteps(cfg: Settings, b: Bounds, x: World, e: Event, busy: bool)
    requires b.Sound() && Safety.Matches(cfg.safety, b)
    requires b.minLimit <= x.backend.limit <= b.maxLimit && ClimbingEvent(cfg, b, x, e, busy)
    ensures var next, limit := Happens(cfg, b, x, e).backend.limit, x.backend.limit;
            && next == Climb(cfg.grid, b.minLimit, b.maxLimit, b.maxDelta, limit, FreeCycle(cfg, e))
            && b.minLimit <= next <= b.maxLimit
    ensures var limit, top := x.backend.limit, TopOf(cfg, x.backend.limit);
            busy && limit < top && cfg.safety.threshold > Predictor.HopBound(limit, top) ==>
              FreeCycle(cfg, e) == 0
  {
    var g, lo, hi, d, limit := cfg.grid, b.minLimit, b.maxLimit, b.maxDelta, x.backend.limit;
    ClimbNext(g, lo, hi, d, limit, 0);
    ClimbOnceRises(g, lo, hi, d, limit);
    assert forall c :: Climb(g, lo, hi, d, c, 0) == c;
    hide Climb, ClimbOnce, Rests, Predictor.HopBound, Top, Climbs, Free;
    if e.Beat? && e.i.limit.Some? {
      ClimbsOnce(cfg, b, x, e.i, busy);
      BeatIsStep(cfg, b, x, e.i);
      hide Step, Happens;
    }
  }

  /** A climb goes as far as its free cycles take it: those held back change nothing. */
  lemma {:induction false} ClimbingRunClimbs(cfg: Settings, b: Bounds, x: World, evs: seq<Event>, busy: bool)
    requires b.Sound() && Safety.Matches(cfg.safety, b)
    requires b.minLimit <= x.backend.limit <= b.maxLimit && ClimbingRun(cfg, b, x, evs, busy)
    ensures Drive(cfg, b, x, evs).backend.limit
            == Climb(cfg.grid, b.minLimit, b.maxLimit, b.maxDelta, x.backend.limit, FreeCycles(cfg, b, x, evs))
    decreases |evs|
  {
    hide Happens, ClimbingEvent, FreeCycle;
    if evs != [] {
      var y, rest := Happens(cfg, b, x, evs[0]), evs[1..];
      var k := FreeCycles(cfg, b, y, rest);
      ClimbingEventSteps(cfg, b, x, evs[0], busy);
      ClimbingRunClimbs(cfg, b, y, rest, busy);
      ClimbAdds(cfg.grid, b.minLimit, b.maxLimit, b.maxDelta, x.backend.limit, FreeCycle(cfg, evs[0]), k);
      hide Climb;
    }
  }

  /** Where the climb of the closed loop ends, and when, counted in cycles that are not
      held back. For all grids it rests, in bounds, after at most as many of them as
      there are limits above its start. With grid steps that divide a window wide enough
      for one move it rests exactly from the one that brings it within one grid step of
      the maximum, and that is the first one the distance allows; if they divide the
      move too, its offset from the maximum is that of its start. */
  lemma ClimbEnds(cfg: Settings, b: Bounds, x: World, evs: seq<Event>)
    requires b.Sound() && Safety.Matches(cfg.safety, b)
    requires b.minLimit <= x.backend.limit <= b.maxLimit && ClimbingRun(cfg, b, x, evs, false)
    ensures EndsAt(cfg.grid, b.minLimit, b.maxLimit, b.maxDelta, x.backend.limit,
                   FreeCycles(cfg, b, x, evs), Drive(cfg, b, x, evs).backend.limit)
  {
    ClimbingRunClimbs(cfg, b, x, evs, false);
    hide Drive, ClimbingRun, Climb, EndsAt, FreeCycles;
    ClimbEnd(cfg.grid, b.minLimit, b.maxLimit, b.maxDelta, x.backend.limit, FreeCycles(cfg, b, x, evs));
  }

  lemma FreeCycleIsOne(cfg: Settings, e: Event)
    ensures FreeCycle(cfg, e) <= 1
  {
  }

  /** A hysteresis threshold above the bound of some hop of the climb ends it there for
      every busy system: no more free cycles than lead to the hop can ever come, and the
      limit never gets beyond, and gets there exactly with all of them. */
  lemma {:induction false} HysteresisCaps(cfg: Settings, b: Bounds, x: World, evs: seq<Event>, n: nat)
    requires b.Sound() && Safety.Matches(cfg.safety, b)
    requires b.minLimit <= x.backend.limit <= b.maxLimit && ClimbingRun(cfg, b, x, evs, true)
    requires var cap := Climb(cfg.grid, b.minLimit, b.maxLimit, b.maxDelta, x.backend.limit, n);
             1 <= cap < TopOf(cfg, cap) && cfg.safety.threshold > Predictor.HopBound(cap, TopOf(cfg, cap))
    ensures FreeCycles(cfg, b, x, evs) <= n
    decreases |evs|
  {
    hide Happens, ClimbingEvent, FreeCycle, Climb, Predictor.HopBound, Top;
    if evs != [] {
      var y, rest, k := Happens(cfg, b, x, evs[0]), evs[1..], FreeCycle(cfg, evs[0]);
      ClimbingEventSteps(cfg, b, x, evs[0], true);
      FreeCycleIsOne(cfg, evs[0]);
      ClimbZero(cfg.grid, b.minLimit, b.maxLimit, b.maxDelta, x.backend.limit);
      assert k <= n;
      ClimbAdds(cfg.grid, b.minLimit, b.maxLimit, b.maxDelta, x.backend.limit, k, n - k);
      HysteresisCaps(cfg, b, y, rest, n - k);
    }
  }

  /** In terms of the limit: it stays at or below the hop, and is there exactly once it
      has had all the free cycles that lead to it. */
  lemma HysteresisCapsLimit(cfg: Settings, b: Bounds, x: World, evs: seq<Event>, n: nat)
    requires b.Sound() && Safety.Matches(cfg.safety, b)
    requires b.minLimit <= x.backend.limit <= b.maxLimit && ClimbingRun(cfg, b, x, evs, true)
    requires var cap := Climb(cfg.grid, b.minLimit, b.maxLimit, b.maxDelta, x.backend.limit, n);
             1 <= cap < TopOf(cfg, cap) && cfg.safety.threshold > Predictor.HopBound(cap, TopOf(cfg, cap))
    ensures var cap := Climb(cfg.grid, b.minLimit, b.maxLimit, b.maxDelta, x.backend.limit, n);
            var end := Drive(cfg, b, x, evs).backend.limit;
            end <= cap && (end == cap <==> FreeCycles(cfg, b, x, evs) == n)
  {
    HysteresisCaps(cfg, b, x, evs, n);
    ClimbingRunClimbs(cfg, b, x, evs, true);
    hide Drive, ClimbingRun, Climb, FreeCycles, Predictor.HopBound, Top;
    ClimbBelow(cfg.grid, b.minLimit, b.maxLimit, b.maxDelta, x.backend.limit, FreeCycles(cfg, b, x, evs), n);
  }

  // ----- the descent without pressure -----

  /** A live cycle on a level curve, or on one that rises with the capacity. */
  ghost predicate DescendingCycle(cfg: Settings, b: Bounds, x: World, i: Input,
                                  w: Predictor.Weights, t: Predictor.Telemetry)
  {
    && (Predictor.Level(w, t) || Predictor.Backward(w, t))
    && i.predict == Analytic(w, t) && LiveCycle(cfg, b, x, i)
  }

  /** On a level curve the cycle is free exactly at the smallest candidate, at a zero
      cost, or without a positive threshold. */
  lemma LevelFreeIff(cfg: Settings, i: Input, w: Predictor.Weights, t: Predictor.Telemetry)
    requires i.limit.Some? && Predictor.Level(w, t) && i.predict == Analytic(w, t)
    ensures var current := i.limit.value;
            Free(cfg, i) <==>
              || Plan(cfg, i).bestLimit == current
              || Predictor.Cost(w, t, current) == 0.0 || cfg.safety.threshold <= 0.0
  {
    StallsMeansInsignificant(w, t, cfg, i);
    LevelStalls(w, t, cfg.safety.threshold, i.limit.value, Plan(cfg, i).bestLimit);
    hide Plan, Question, Stalls, Safety.Insignificant, Predictor.Cost, Predictor.Level;
  }

  /** Such a cycle takes the backend's limit towards the minimum, by a move that neither
      `maxDelta` nor the window exceeds, unless the hysteresis holds it back. */
  lemma DescendingStep(cfg: Settings, b: Bounds, x: World, i: Input,
                       w: Predictor.Weights, t: Predictor.Telemetry)
    requires b.Sound() && Safety.Matches(cfg.safety, b) && cfg.grid.window >= 0
    requires b.minLimit <= x.backend.limit <= b.maxLimit && DescendingCycle(cfg, b, x, i, w, t)
    ensures Step(cfg, b, x, i).backend.limit
            == if Free(cfg, i) then Toward(x.backend.limit, b.minLimit, Min(b.maxDelta, cfg.grid.window))
               else x.backend.limit
  {
    var limit := x.backend.limit;
    UnpressedProposesSmallest(w, t, cfg.grid, limit, b.minLimit, b.maxLimit);
    BottomIsFirst(cfg.grid, limit, b.minLimit, b.maxLimit);
    assert Plan(cfg, i).bestLimit == Bottom(cfg.grid, limit, b.minLimit);
    StallsMeansInsignificant(w, t, cfg, i);
    hide Search, Candidates;
    AnalyticCycle(w, t, cfg, x.lastChange, i);
    hide Plan, Question, StaysUp, Stalls, Safety.Insignificant;
    hide Predictor.Cost, Predictor.Pressed, Predictor.Level, Predictor.Backward;
    DecisionArrives(cfg, b, x, i);
    hide Decide, Step;
  }

  ghost predicate Descends(cfg: Settings, b: Bounds, x: World, i: Input) {
    exists w: Predictor.Weights, t: Predictor.Telemetry :: DescendingCycle(cfg, b, x, i, w, t)
  }

  /** A run of descending cycles, cycles that see nothing, and things aside without
      effect. */
  ghost predicate DescendingRun(cfg: Settings, b: Bounds, x: World, evs: seq<Event>)
    decreases |evs|
  {
    evs == [] ||
    (&& (match evs[0]
         case Beat(i) => i.limit.Some? ==> Descends(cfg, b, x, i)
         case Aside(_) => Happens(cfg, b, x, evs[0]) == x)
     && DescendingRun(cfg, b, Happens(cfg, b, x, evs[0]), evs[1..]))
  }

  /** Where `n` moves down lead, each of at most `maxDelta` and within the window. */
  function Descend(cfg: Settings, b: Bounds, start: int, n: nat): int {
    Toward(start, b.minLimit, Min(b.maxDelta, cfg.grid.window) * n)
  }

  lemma DescendAdds(cfg: Settings, b: Bounds, start: int, k: nat, n: nat)
    requires cfg.grid.window >= 0 && b.maxDelta >= 0
    ensures Descend(cfg, b, start, 0) == start
    ensures Descend(cfg, b, start, 1) == Toward(start, b.minLimit, Min(b.maxDelta, cfg.grid.window))
    ensures Descend(cfg, b, Descend(cfg, b, start, k), n) == Descend(cfg, b, start, k + n)
  {
    var d := Min(b.maxDelta, cfg.grid.window);
    ProductNonNegative(d, k);
    ProductNonNegative(d, n);
    TowardTwice(start, b.minLimit, d * k, d * n);
    Distribute(d, k, n);
    hide Toward;
  }

  lemma DescendingEventSteps(cfg: Settings, b: Bounds, x: World, e: Event)
    requires b.Sound() && Safety.Matches(cfg.safety, b) && cfg.grid.window >= 0
    requires b.minLimit <= x.backend.limit <= b.maxLimit && DescendingRun(cfg, b, x, [e])
    ensures var next := Happens(cfg, b, x, e).backend.limit;
            next == Descend(cfg, b, x.backend.limit, FreeCycle(cfg, e)) && b.minLimit <= next <= b.maxLimit
  {
    DescendAdds(cfg, b, x.backend.limit, 0, 0);
    if e.Beat? && e.i.limit.Some? {
      assert Descends(cfg, b, x, e.i);
      var w: Predictor.Weights, t: Predictor.Telemetry :| DescendingCycle(cfg, b, x, e.i, w, t);
      BeatIsStep(cfg, b, x, e.i);
      hide Step, Happens, Free, DescendingCycle, Descend;
      DescendingStep(cfg, b, x, e.i, w, t);
    }
  }

  lemma DescentOneEvent(cfg: Settings, b: Bounds, x: World, evs: seq<Event>)
    requires evs != [] && DescendingRun(cfg, b, x, evs)
    ensures DescendingRun(cfg, b, x, [evs[0]])
  {
    assert [evs[0]][1..] == [];
    hide Happens, Descends;
  }

  /** The descent of the closed loop: each cycle that is not held back takes the limit
      down by the smaller of `maxDelta` and the window, until it is at the minimum; there
      it stays. A fully idle system, which costs nothing, is never held back. */
  lemma {:induction false} DescentEnds(cfg: Settings, b: Bounds, x: World, evs: seq<Event>)
    requires b.Sound() && Safety.Matches(cfg.safety, b) && cfg.grid.window >= 0
    requires b.minLimit <= x.backend.limit <= b.maxLimit && DescendingRun(cfg, b, x, evs)
    ensures Drive(cfg, b, x, evs).backend.limit
            == Descend(cfg, b, x.backend.limit, FreeCycles(cfg, b, x, evs))
    decreases |evs|
  {
    hide Happens, FreeCycle, Descend, Descends;
    DescendAdds(cfg, b, x.backend.limit, 0, 0);
    if evs != [] {
      var y, rest := Happens(cfg, b, x, evs[0]), evs[1..];
      DescentOneEvent(cfg, b, x, evs);
      DescendingEventSteps(cfg, b, x, evs[0]);
      DescentEnds(cfg, b, y, rest);
      DescendAdds(cfg, b, x.backend.limit, FreeCycle(cfg, evs[0]), FreeCycles(cfg, b, y, rest));
    }
  }

  /** So it is at the minimum exactly from the ceiling number of free cycles on. */
  lemma DescentReachesMinimumIff(cfg: Settings, b: Bounds, x: World, evs: seq<Event>)
    requires b.Sound() && Safety.Matches(cfg.safety, b) && cfg.grid.window >= 1
    requires b.minLimit <= x.backend.limit <= b.maxLimit && DescendingRun(cfg, b, x, evs)
    ensures Drive(cfg, b, x, evs).backend.limit == b.minLimit
            <==> FreeCycles(cfg, b, x, evs)
                 >= StepsTo(x.backend.limit, b.minLimit, Min(b.maxDelta, cfg.grid.window))
  {
    DescentEnds(cfg, b, x, evs);
    ArrivesAt(x.backend.limit, b.minLimit, Min(b.maxDelta, cfg.grid.window), FreeCycles(cfg, b, x, evs));
    hide Drive, DescendingRun, FreeCycles, Toward, StepsTo;
  }

  // ----- the climb with the default settings -----

  predicate DefaultGrid(g: Grid, lo: int, hi: int, delta: int) {
    g == GridShape(8, 2) && lo == 4 && hi == 64 && delta == 4
  }

  predicate DefaultSettings(cfg: Settings) {
    && DefaultGrid(cfg.grid, cfg.safety.minLimit, cfg.safety.maxLimit, cfg.safety.maxDelta)
    && cfg.safety.threshold == 0.05
  }

  /** Where every climb of a busy system from `start` ends at the latest. */
  function Ceiling(start: int): int {
    64 - (64 - start) % 4
  }

  /** Where one is after the given number of cycles that were not held back. */
  function Reached(start: int, free: nat): int {
    Min(start + 4 * free, Ceiling(start))
  }

  function FullMoves(start: int): (n: nat)
    requires start <= 64
    ensures start + 4 * n == Ceiling(start)
  {
    (64 - start) / 4
  }

  lemma ReachedIs(start: int, k: nat)
    requires start <= 64
    ensures Reached(start, k) == start + 4 * if k <= FullMoves(start) then k else FullMoves(start)
  {
    hide Ceiling, FullMoves;
  }

  lemma CeilingIsHigh(start: int)
    requires start <= 64
    ensures 61 <= Ceiling(start) <= 64
  {
  }

  lemma DefaultHops()
    ensures Predictor.HopBound(61, 63) < 0.05 && Predictor.HopBound(62, 64) < 0.05
  {
  }

  lemma DefaultOnce(g: Grid, lo: int, hi: int, delta: int, limit: int)
    requires DefaultGrid(g, lo, hi, delta) && lo <= limit <= hi
    ensures limit <= 60 ==> ClimbOnce(g, lo, hi, delta, limit) == limit + 4
    ensures limit == 61 ==> Top(g, limit, lo, hi) == 63
    ensures limit == 62 ==> Top(g, limit, lo, hi) == 64
  {
  }

  lemma DefaultRests(g: Grid, lo: int, hi: int, delta: int, limit: int)
    requires DefaultGrid(g, lo, hi, delta) && 63 <= limit <= hi
    ensures Rests(g, lo, hi, limit)
  {
  }

  lemma {:induction false} DefaultPath(g: Grid, lo: int, hi: int, delta: int, limit: int, n: nat)
    requires DefaultGrid(g, lo, hi, delta) && lo <= limit && limit + 4 * n <= hi
    ensures Climb(g, lo, hi, delta, limit, n) == limit + 4 * n
    decreases n
  {
    if n == 0 {
      ClimbZero(g, lo, hi, delta, limit);
    } else {
      DefaultOnce(g, lo, hi, delta, limit);
      hide Climb, ClimbOnce, Top, Rests;
      ClimbNext(g, lo, hi, delta, limit, n - 1);
      DefaultPath(g, lo, hi, delta, limit + 4, n - 1);
    }
  }

  /** Full moves up to the ceiling, and no more; from 61 and 62 a free cycle would lead
      on, so there must not be one. */
  lemma DefaultEnd(g: Grid, lo: int, hi: int, delta: int, start: int, k: nat)
    requires DefaultGrid(g, lo, hi, delta) && lo <= start <= hi
    requires Ceiling(start) < 63 ==> k <= FullMoves(start)
    ensures Climb(g, lo, hi, delta, start, k) == Reached(start, k)
  {
    var n := FullMoves(start);
    var m: nat := if k <= n then k else n;
    CeilingIsHigh(start);
    ReachedIs(start, k);
    assert start + 4 * m <= hi && (k > n ==> 63 <= start + 4 * m);
    hide Climb, Rests, Ceiling, FullMoves, Reached;
    DefaultPath(g, lo, hi, delta, start, m);
    if k > n {
      DefaultRests(g, lo, hi, delta, start + 4 * m);
      hide DefaultGrid;
      ClimbStays(g, lo, hi, delta, start, m, k);
    }
  }

  lemma DefaultCap(cfg: Settings, b: Bounds, x: World, evs: seq<Event>)
    requires b.Sound() && Safety.Matches(cfg.safety, b) && DefaultSettings(cfg)
    requires b.minLimit <= x.backend.limit <= b.maxLimit && ClimbingRun(cfg, b, x, evs, true)
    requires Ceiling(x.backend.limit) < 63
    ensures FreeCycles(cfg, b, x, evs) <= FullMoves(x.backend.limit)
  {
    var start, cap := x.backend.limit, Ceiling(x.backend.limit);
    CeilingIsHigh(start);
    DefaultPath(cfg.grid, b.minLimit, b.maxLimit, b.maxDelta, start, FullMoves(start));
    DefaultOnce(cfg.grid, b.minLimit, b.maxLimit, b.maxDelta, cap);
    DefaultHops();
    hide ClimbingRun, Climb, ClimbOnce, FreeCycles, Ceiling, FullMoves, Predictor.HopBound, Top, Rests;
    HysteresisCaps(cfg, b, x, evs, FullMoves(start));
  }

  /** With the default settings, hysteresis included, a busy system climbs by 4 for each
      cycle that is not held back, and no further than the limit of its start's residue
      modulo 4 in 61..64: at 61 and 62 every busy system stalls, at 63 and 64 there is
      nothing above. `active` never exceeds the limit in a climb, as `Busy` asks. */
  lemma DefaultClimb(cfg: Settings, b: Bounds, x: World, evs: seq<Event>)
    requires b.Sound() && Safety.Matches(cfg.safety, b) && DefaultSettings(cfg)
    requires b.minLimit <= x.backend.limit <= b.maxLimit && ClimbingRun(cfg, b, x, evs, true)
    ensures Drive(cfg, b, x, evs).backend.limit == Reached(x.backend.limit, FreeCycles(cfg, b, x, evs))
  {
    var start, k := x.backend.limit, FreeCycles(cfg, b, x, evs);
    assert DefaultGrid(cfg.grid, b.minLimit, b.maxLimit, b.maxDelta) && start <= 64;
    hide Drive, ClimbingRun, Climb, FreeCycles, Ceiling, FullMoves, DefaultGrid, DefaultSettings, Reached;
    ClimbingRunClimbs(cfg, b, x, evs, true);
    if Ceiling(start) < 63 { DefaultCap(cfg, b, x, evs); }
    DefaultEnd(cfg.grid, b.minLimit, b.maxLimit, b.maxDelta, start, k);
  }
}
