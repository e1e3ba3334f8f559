/** The heuristic strategy: a utilisation and queue rule run on the controller's own
    counters once per tick. */
module HeuristicControl {
  import opened AdmissionCore
  import opened AdmissionController
  import AdmissionRuns
  import Envelope
  import Protocol

  /** What the observer reads from the controller's snapshot. */
  datatype Observation = Observation(active: int, waiting: int, limit: int)

  datatype Config = Config(minLimit: int, maxLimit: int, step: int, high: real, low: real)

  datatype Rule = Rule(minLimit: int, maxLimit: int, step: int, high: real, low: real)
  {
    predicate Sound() {
      1 <= minLimit <= maxLimit && step >= 1 && 0.0 < high <= 1.0 && 0.0 <= low < 1.0
    }
  }

  /** The rule the strategy runs with: every setting that makes no sense is
      replaced, the low threshold after the high one. */
  function Normalised(cfg: Config): Rule {
    var lo := if cfg.minLimit < 1 then 1 else cfg.minLimit;
    var high := if 0.0 < cfg.high <= 1.0 then cfg.high else 0.9;
    Rule(lo,
         if cfg.maxLimit < lo then lo else cfg.maxLimit,
         if cfg.step < 1 then 1 else cfg.step,
         high,
         if 0.0 <= cfg.low < high then cfg.low else 0.3)
  }

  /** Any settings become a usable rule, but its thresholds may cross: the default
      low threshold is not checked against a small high one. */
  lemma NormalisedIsSound(cfg: Config)
    ensures Normalised(cfg).Sound()
    ensures Normalised(cfg).low < Normalised(cfg).high
            <==> !(0.0 < cfg.high <= 0.3 && (cfg.low < 0.0 || cfg.low >= cfg.high))
  {
  }

  /** Every setting by itself: a valid one is kept whatever the others are, an invalid one
      gets its replacement; the maximum is judged by the minimum in force and the low
      threshold by the high one. */
  lemma NormalisedFields(cfg: Config)
    ensures var rule := Normalised(cfg);
            && rule.minLimit == (if cfg.minLimit < 1 then 1 else cfg.minLimit)
            && rule.maxLimit == (if cfg.maxLimit < rule.minLimit then rule.minLimit else cfg.maxLimit)
            && rule.step == (if cfg.step < 1 then 1 else cfg.step)
            && rule.high == (if cfg.high <= 0.0 || cfg.high > 1.0 then 0.9 else cfg.high)
            && rule.low == (if cfg.low < 0.0 || cfg.low >= rule.high then 0.3 else cfg.low)
  {
  }

  /** So a sound rule with its thresholds in order is kept as it is. */
  lemma SoundRuleIsKept(rule: Rule)
    requires rule.Sound() && rule.low < rule.high
    ensures Normalised(Config(rule.minLimit, rule.maxLimit, rule.step, rule.high, rule.low)) == rule
  {
  }

  lemma ThresholdsCanCross()
    ensures var rule := Normalised(Config(4, 64, 2, 0.2, 0.25));
            rule.high == 0.2 && rule.low == 0.3
  {
  }

  function Utilization(obs: Observation): real {
    if obs.limit > 0 then obs.active as real / obs.limit as real else 0.0
  }

  predicate Saturated(rule: Rule, obs: Observation) {
    obs.waiting > 0 && Utilization(obs) >= rule.high
  }

  predicate Underused(rule: Rule, obs: Observation) {
    obs.waiting == 0 && Utilization(obs) < rule.low
  }

  /** The limit one tick asks for. */
  function Adjusted(rule: Rule, obs: Observation, current: int): int {
    if Saturated(rule, obs) && current < rule.maxLimit then
      if current + rule.step < rule.maxLimit then current + rule.step else rule.maxLimit
    else if Underused(rule, obs) && current > rule.minLimit then
      if current - rule.step > rule.minLimit then current - rule.step else rule.minLimit
    else current
  }

  function Observe<T>(c: Core<T>): Observation {
    Observation(c.active, c.waiting, c.limit)
  }

  class HeuristicStrategy {
    const controller: Controller
    const rule: Rule

    ghost predicate Valid()
      reads this, controller, controller.cells, controller.queue
    {
      rule.Sound() && controller.Valid()
    }

    constructor (controller: Controller, cfg: Config)
      requires controller.Valid()
      ensures Valid() && this.controller == controller && rule == Normalised(cfg)
    {
      var c := cfg;
      if c.minLimit < 1 {
        c := c.(minLimit := 1);
      }
      if c.maxLimit < c.minLimit {
        c := c.(maxLimit := c.minLimit);
      }
      if c.step < 1 {
        c := c.(step := 1);
      }
      if c.high <= 0.0 || c.high > 1.0 {
        c := c.(high := 0.9);
      }
      if c.low < 0.0 || c.low >= c.high {
        c := c.(low := 0.3);
      }
      this.controller := controller;
      rule := Rule(c.minLimit, c.maxLimit, c.step, c.high, c.low);
    }

    /** One tick. The observation was taken by the observer, a moment earlier. */
    method Adjust(obs: Observation)
      requires Valid()
      modifies controller, controller.queue
      ensures Valid() && controller.cells == old(controller.cells)
      ensures var next := Adjusted(rule, obs, old(controller.limit));
              controller.Abs() == if next == old(controller.limit) then old(controller.Abs())
                                  else Notify(Relimit(old(controller.Abs()), next))
    {
      var current := controller.limit;
      var utilization := 0.0;
      if obs.limit > 0 {
        utilization := obs.active as real / obs.limit as real;
      }
      assert utilization == Utilization(obs);
      hide Utilization, Notify, Relimit, GrantCount;
      var newLimit := current;
      if obs.waiting > 0 && utilization >= rule.high && current < rule.maxLimit {
        newLimit := if current + rule.step < rule.maxLimit then current + rule.step else rule.maxLimit;
      } else if obs.waiting == 0 && utilization < rule.low && current > rule.minLimit {
        newLimit := if current - rule.step > rule.minLimit then current - rule.step else rule.minLimit;
      } else {
        return;
      }
      if newLimit == controller.limit {
        return;
      }
      controller.SetLimit(newLimit);
    }
  }

  // ----- what the rule does -----

  /** A tick moves the limit by at most one step and never further out of bounds. */
  lemma TickIsBounded(rule: Rule, obs: Observation, current: int)
    requires rule.Sound()
    ensures var next := Adjusted(rule, obs, current);
            && current - rule.step <= next <= current + rule.step
            && (rule.minLimit <= current <= rule.maxLimit ==> rule.minLimit <= next <= rule.maxLimit)
            && (current < rule.minLimit ==> current <= next <= rule.maxLimit)
            && (current > rule.maxLimit ==> rule.minLimit <= next <= current)
  {
  }

  lemma RatioAtLeast(a: int, n: int, t: real)
    requires n >= 1
    ensures a as real / n as real >= t <==> a as real >= t * n as real
  {
    var r := a as real / n as real;
    assert r * n as real == a as real;
    if r >= t {
      assert (r - t) * n as real >= 0.0;
    } else {
      assert (t - r) * n as real > 0.0;
    }
  }

  /** All that a tick does, without the quotient: with somebody counted as waiting and
      the active requests at or above the high threshold of the reported limit it raises
      the limit by a step, or to the maximum; with nobody and below the low threshold it
      lowers it by a step, or to the minimum. An observed limit of zero or less counts as
      no utilisation. */
  lemma TickIs(rule: Rule, obs: Observation, current: int)
    requires rule.Sound()
    ensures var next, busy := Adjusted(rule, obs, current), obs.active as real;
            var atHigh := obs.limit > 0 && busy >= rule.high * obs.limit as real;
            var belowLow := if obs.limit > 0 then busy < rule.low * obs.limit as real else rule.low > 0.0;
            if obs.waiting > 0 && atHigh && current < rule.maxLimit then
              Envelope.IsMove(current, rule.maxLimit, rule.step, next)
            else if obs.waiting == 0 && belowLow && current > rule.minLimit then
              Envelope.IsMove(current, rule.minLimit, rule.step, next)
            else next == current
  {
    if obs.limit > 0 {
      RatioAtLeast(obs.active, obs.limit, rule.high);
      RatioAtLeast(obs.active, obs.limit, rule.low);
    }
  }

  /** In every state the protocol can reach, a queued request means full utilisation:
      the limit is never lowered then, however wrong `waiting` is. It is raised
      exactly when there is room and the lag of `waiting` is below the queue length. */
  lemma QueuedNeverShrinks<T>(rule: Rule, s: Protocol.State<T>)
    requires rule.Sound() && Protocol.Inv(s) && s.core.queue != []
    ensures var next := Adjusted(rule, Observe(s.core), s.core.limit);
            && next >= s.core.limit
            && (next > s.core.limit <==>
                  s.core.limit < rule.maxLimit && AdmissionRuns.Lag(s) < |s.core.queue|)
  {
    RatioAtLeast(s.core.active, s.core.limit, 1.0);
  }

  /** The undercount can hide a waiting request altogether: after the cancellation
      race and one more arrival, a saturated controller with a queued request is left
      at its limit by every rule, whatever the limit. */
  lemma UndercountHidesSaturation(rule: Rule, limit: int)
    requires rule.Sound() && limit >= 1
    ensures var es := AdmissionRuns.HiddenWaiter(limit);
            var t := Protocol.Exec(Protocol.Init(limit), es);
            && Protocol.Legal(Protocol.Init(limit), es)
            && t.core == Core(limit, limit, 0, [limit + 2])
            && Adjusted(rule, Observe(t.core), limit) == limit
  {
    AdmissionRuns.WaiterCanBeHidden(limit);
    hide Protocol.Exec, Protocol.Legal;
    RatioAtLeast(limit, limit, 1.0);
  }

  /** After a growth step, the next tick at the same active count undoes it exactly
      when nothing waits any more, that count lies below the low threshold of the grown
      limit, and that limit is above the lower bound, under which a backend may start. */
  lemma ReversedIff(rule: Rule, before: Observation, after: Observation)
    requires rule.Sound() && before.limit >= 1
    requires Saturated(rule, before) && before.limit < rule.maxLimit
    requires after.limit == Adjusted(rule, before, before.limit) && after.active == before.active
    ensures Adjusted(rule, after, after.limit) < after.limit
            <==> && after.limit > rule.minLimit && after.waiting == 0
                 && after.active as real < rule.low * after.limit as real
  {
    RatioAtLeast(after.active, after.limit, rule.low);
  }

  lemma Scaled(a: real, m: int, n: int)
    requires a >= 0.0 && m <= n
    ensures a * m as real <= a * n as real
  {
    assert a * (n as real - m as real) >= 0.0;
  }

  /** If the high threshold of a limit is no lower than the low threshold of the
      limit one step up, growth is never undone by the next tick. */
  lemma GrowthSticks(rule: Rule, before: Observation, after: Observation)
    requires rule.Sound() && before.limit >= 1
    requires Saturated(rule, before) && before.limit < rule.maxLimit
    requires after.limit == Adjusted(rule, before, before.limit) && after.active == before.active
    requires rule.high * before.limit as real >= rule.low * (before.limit + rule.step) as real
    ensures Adjusted(rule, after, after.limit) >= after.limit
  {
    RatioAtLeast(after.active, after.limit, rule.low);
    RatioAtLeast(before.active, before.limit, rule.high);
    assert after.limit <= before.limit + rule.step;
    Scaled(rule.low, after.limit, before.limit + rule.step);
  }

  lemma Factor(a: real, b: real, n: int)
    requires a <= b && n >= 0
    ensures a * n as real <= b * n as real
  {
    assert (b - a) * n as real >= 0.0;
  }

  lemma WideGap(high: real, low: real, limit: int, step: int)
    requires high >= 0.9 && low <= 0.3 && limit >= 1 && 0 <= step <= 2
    ensures high * limit as real >= low * (limit + step) as real
  {
    calc {
      low * (limit + step) as real;
    <=  { Factor(low, 0.3, limit + step); }
      0.3 * (limit + step) as real;
    <=
      0.9 * limit as real;
    <=  { Factor(0.9, high, limit); }
      high * limit as real;
    }
  }

  /** Thresholds of 0.9 and 0.3, with a step of 2, are far enough apart at every limit,
      and so are any further apart. */
  lemma WideThresholdsStick(rule: Rule, before: Observation, after: Observation)
    requires rule.Sound() && before.limit >= 1
    requires rule.step <= 2 && rule.high >= 0.9 && rule.low <= 0.3
    requires Saturated(rule, before) && before.limit < rule.maxLimit
    requires after.limit == Adjusted(rule, before, before.limit) && after.active == before.active
    ensures Adjusted(rule, after, after.limit) >= after.limit
  {
    WideGap(rule.high, rule.low, before.limit, rule.step);
    hide Adjusted, Saturated;
    GrowthSticks(rule, before, after);
  }

  // ----- runs of ticks -----

  function Ticks(rule: Rule, obs: seq<Observation>, current: int): int
    decreases |obs|
  {
    if obs == [] then current else Ticks(rule, obs[1..], Adjusted(rule, obs[0], current))
  }

  /** Lasting saturation takes a limit up to its bound in exactly
      ceil((maxLimit - limit) / step) ticks. */
  lemma {:induction false} SaturationClimbs(rule: Rule, obs: seq<Observation>, current: int)
    requires rule.Sound() && current <= rule.maxLimit
    requires forall o :: o in obs ==> Saturated(rule, o)
    ensures rule.step * |obs| >= 0
    ensures Ticks(rule, obs, current) == Envelope.Toward(current, rule.maxLimit, rule.step * |obs|)
    ensures Ticks(rule, obs, current) == rule.maxLimit
            <==> |obs| >= Envelope.StepsTo(current, rule.maxLimit, rule.step)
    decreases |obs|
  {
    Envelope.ArrivesAt(current, rule.maxLimit, rule.step, |obs|);
    if obs == [] {
      Envelope.TowardTwice(current, rule.maxLimit, 0, 0);
    } else {
      assert obs[0] in obs && forall o :: o in obs[1..] ==> o in obs;
      SaturationClimbs(rule, obs[1..], Adjusted(rule, obs[0], current));
      StepThenSteps(current, rule.maxLimit, rule.step, |obs| - 1);
    }
  }

  /** Lasting underuse takes it down to its bound in exactly as many ticks as fit. */
  lemma {:induction false} UnderuseDescends(rule: Rule, obs: seq<Observation>, current: int)
    requires rule.Sound() && current >= rule.minLimit
    requires forall o :: o in obs ==> Underused(rule, o)
    ensures rule.step * |obs| >= 0
    ensures Ticks(rule, obs, current) == Envelope.Toward(current, rule.minLimit, rule.step * |obs|)
    ensures Ticks(rule, obs, current) == rule.minLimit
            <==> |obs| >= Envelope.StepsTo(current, rule.minLimit, rule.step)
    decreases |obs|
  {
    Envelope.ArrivesAt(current, rule.minLimit, rule.step, |obs|);
    if obs == [] {
      Envelope.TowardTwice(current, rule.minLimit, 0, 0);
    } else {
      assert obs[0] in obs && forall o :: o in obs[1..] ==> o in obs;
      UnderuseDescends(rule, obs[1..], Adjusted(rule, obs[0], current));
      StepThenSteps(current, rule.minLimit, rule.step, |obs| - 1);
    }
  }

  lemma StepThenSteps(x: int, y: int, d: int, n: nat)
    requires d >= 1
    ensures d * n >= 0 && d * (n + 1) >= 0
    ensures Envelope.Toward(Envelope.Toward(x, y, d), y, d * n) == Envelope.Toward(x, y, d * (n + 1))
  {
    Envelope.TimesMonotone(d, n, n + 1);
    Envelope.ArrivesAt(x, y, d, n);
    Envelope.TowardTwice(x, y, d, d * n);
  }

  // ----- the rule of the backend -----

  /** What the backend passes: a step of 2, and no thresholds, which are then zero. */
  function BackendConfig(minLimit: int, maxLimit: int): Config {
    Config(minLimit, maxLimit, 2, 0.0, 0.0)
  }

  /** Only the high threshold gets its default; zero is a valid low one. */
  lemma BackendRule(minLimit: int, maxLimit: int)
    ensures var rule := Normalised(BackendConfig(minLimit, maxLimit));
            && rule.Sound() && rule.high == 0.9 && rule.low == 0.0 && rule.step == 2
            && (1 <= minLimit <= maxLimit ==> rule.minLimit == minLimit && rule.maxLimit == maxLimit)
  {
  }

  lemma UtilizationIsPositive(obs: Observation)
    requires obs.active >= 0
    ensures Utilization(obs) >= 0.0
  {
    if obs.limit > 0 { RatioAtLeast(obs.active, obs.limit, 0.0); }
  }

  lemma ZeroNeverShrinks(rule: Rule, obs: Observation, current: int)
    requires rule.low == 0.0 && rule.Sound() && obs.active >= 0
    ensures Adjusted(rule, obs, current) >= current
  {
    UtilizationIsPositive(obs);
  }

  /** A rule can lower the limit at all, on what a controller can report, exactly when
      its low threshold is positive. */
  lemma ShrinksIff(rule: Rule)
    requires rule.Sound()
    ensures (exists obs: Observation, current ::
               obs.active >= 0 && obs.limit >= 1 && Adjusted(rule, obs, current) < current)
            <==> rule.low > 0.0
  {
    if rule.low > 0.0 {
      var idle := Observation(0, 0, 1);
      RatioAtLeast(0, 1, rule.low);
      assert Adjusted(rule, idle, rule.minLimit + 1) < rule.minLimit + 1;
    } else {
      forall obs: Observation, current | obs.active >= 0 ensures Adjusted(rule, obs, current) >= current {
        ZeroNeverShrinks(rule, obs, current);
      }
    }
  }

  /** Over any run of ticks of the backend's rule the limit never falls, however idle
      the backend is. */
  lemma {:induction false} BackendNeverShrinks(minLimit: int, maxLimit: int,
                                               obs: seq<Observation>, current: int)
    requires forall o :: o in obs ==> o.active >= 0
    ensures Ticks(Normalised(BackendConfig(minLimit, maxLimit)), obs, current) >= current
    decreases |obs|
  {
    var rule := Normalised(BackendConfig(minLimit, maxLimit));
    if obs != [] {
      BackendRule(minLimit, maxLimit);
      assert obs[0] in obs && forall o :: o in obs[1..] ==> o in obs;
      ZeroNeverShrinks(rule, obs[0], current);
      BackendNeverShrinks(minLimit, maxLimit, obs[1..], Adjusted(rule, obs[0], current));
    }
  }

  lemma BackendGrowthSticks(minLimit: int, maxLimit: int, before: Observation, after: Observation)
    requires var rule := Normalised(BackendConfig(minLimit, maxLimit));
             && before.limit >= 1 && Saturated(rule, before) && before.limit < rule.maxLimit
             && after.limit == Adjusted(rule, before, before.limit) && after.active == before.active
    ensures Adjusted(Normalised(BackendConfig(minLimit, maxLimit)), after, after.limit) >= after.limit
  {
    BackendRule(minLimit, maxLimit);
    WideThresholdsStick(Normalised(BackendConfig(minLimit, maxLimit)), before, after);
  }

  /** A run of the protocol in which every limit change is a tick of the rule, on any
      observation at all with an active count that is not negative. */
  ghost predicate Ruled<T>(rule: Rule, s: Protocol.State<T>, es: seq<Protocol.Event<T>>)
    decreases |es|
  {
    es == [] ||
    (&& (es[0].SetLimit? ==>
           exists obs: Observation :: obs.active >= 0 && es[0].n == Adjusted(rule, obs, s.core.limit))
     && Ruled(rule, Protocol.Next(s, es[0]), es[1..]))
  }

  lemma {:induction false} RuledNeverFalls<T>(rule: Rule, s: Protocol.State<T>, es: seq<Protocol.Event<T>>)
    requires rule.Sound() && rule.low == 0.0 && s.core.limit >= 1 && Ruled(rule, s, es)
    ensures AdmissionRuns.NeverFalls(s, es)
    decreases |es|
  {
    if es != [] {
      AdmissionRuns.LimitStep(s, es[0]);
      if es[0].SetLimit? {
        var obs: Observation :| obs.active >= 0 && es[0].n == Adjusted(rule, obs, s.core.limit);
        ZeroNeverShrinks(rule, obs, s.core.limit);
      }
      hide Protocol.Next;
      RuledNeverFalls(rule, Protocol.Next(s, es[0]), es[1..]);
    }
  }

  /** In the backend as it is deployed the limit never falls over any run of requests
      and ticks, so that `active` does stay within it. */
  lemma BackendStaysWithinLimit<T>(minLimit: int, maxLimit: int, limit: int, es: seq<Protocol.Event<T>>)
    requires Protocol.Legal(Protocol.Init<T>(limit), es)
    requires Ruled(Normalised(BackendConfig(minLimit, maxLimit)), Protocol.Init<T>(limit), es)
    ensures AdmissionRuns.NeverFalls(Protocol.Init<T>(limit), es)
    ensures var c := Protocol.Exec(Protocol.Init<T>(limit), es).core;
            c.active <= c.limit
  {
    BackendRule(minLimit, maxLimit);
    RuledNeverFalls(Normalised(BackendConfig(minLimit, maxLimit)), Protocol.Init<T>(limit), es);
    AdmissionRuns.ActiveBounded(limit, es);
  }
}
