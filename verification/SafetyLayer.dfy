/** The controller service's own safety layer, and how it composes with the
    backend's envelope. */
module Safety {
  import opened Envelope

  datatype Reason = Hysteresis | NoChange | Cooldown | Increase | Decrease

  datatype Decision = Decision(appliedLimit: int, changed: bool, reason: Reason)

  datatype Settings = Settings(
    minLimit: int, maxLimit: int, maxDelta: int, cooldown: int, threshold: real)

  /** What one evaluation is asked. */
  datatype Query = Query(current: int, candidate: int, hint: Option<real>, now: int)

  function Bounded(cfg: Settings, candidate: int): int {
    Max(cfg.minLimit, Min(cfg.maxLimit, candidate))
  }

  predicate Insignificant(cfg: Settings, q: Query) {
    q.hint.Some? && q.hint.value < cfg.threshold
  }

  predicate TooSoon(cfg: Settings, lastChange: int, now: int) {
    lastChange > 0 && now - lastChange < cfg.cooldown
  }

  /** The layer changes the limit. */
  predicate Changes(cfg: Settings, lastChange: int, q: Query) {
    && !Insignificant(cfg, q)
    && Bounded(cfg, q.candidate) != q.current
    && !TooSoon(cfg, lastChange, q.now)
  }

  function Target(cfg: Settings, q: Query): int {
    Toward(q.current, Bounded(cfg, q.candidate), cfg.maxDelta)
  }

  function Verdict(cfg: Settings, lastChange: int, q: Query): Decision {
    if Changes(cfg, lastChange, q) then
      Decision(Target(cfg, q), true, if Target(cfg, q) > q.current then Increase else Decrease)
    else
      Decision(q.current, false,
               if Insignificant(cfg, q) then Hysteresis
               else if Bounded(cfg, q.candidate) == q.current then NoChange
               else Cooldown)
  }

  class SafetyLayer {
    const cfg: Settings
    var lastChange: int

    constructor (cfg: Settings)
      ensures this.cfg == cfg && lastChange == 0
    {
      this.cfg := cfg;
      lastChange := 0;
    }

    /** `evaluate`; the clock is a parameter. */
    method Evaluate(q: Query) returns (d: Decision)
      modifies this
      ensures d == Verdict(cfg, old(lastChange), q)
      ensures lastChange == if d.changed then q.now else old(lastChange)
    {
      var bounded := Max(cfg.minLimit, Min(cfg.maxLimit, q.candidate));
      if q.hint.Some? && q.hint.value < cfg.threshold {
        return Decision(q.current, false, Hysteresis);
      }
      if bounded == q.current {
        return Decision(q.current, false, NoChange);
      }
      var clamped := Max(q.current - cfg.maxDelta, Min(q.current + cfg.maxDelta, bounded));
      if lastChange > 0 && q.now - lastChange < cfg.cooldown {
        return Decision(q.current, false, Cooldown);
      }
      lastChange := q.now;
      d := Decision(clamped, true, if clamped > q.current then Increase else Decrease);
    }
  }

  /** A decision that changes the limit moves it towards the bounded candidate, by at
      least one and at most `maxDelta`, without overshooting and never further out of
      bounds, in the direction it reports; any other decision keeps it. */
  predicate IsSafe(cfg: Settings, lastChange: int, q: Query) {
    var d, b := Verdict(cfg, lastChange, q), Bounded(cfg, q.candidate);
    && (d.changed <==> d.appliedLimit != q.current)
    && Magnitude(d.appliedLimit - q.current) <= cfg.maxDelta
    && Magnitude(b - d.appliedLimit) + Magnitude(d.appliedLimit - q.current) == Magnitude(b - q.current)
    && (d.reason == Increase <==> d.appliedLimit > q.current)
    && (d.reason == Decrease <==> d.appliedLimit < q.current)
    && (cfg.minLimit <= q.current <= cfg.maxLimit ==>
          cfg.minLimit <= d.appliedLimit <= cfg.maxLimit)
  }

  /** Every decision is safe exactly when the step is positive, which the service does
      not check: with a step of zero or less the layer reports changes that are none,
      or moves away from its candidate. */
  lemma SafeIffStepPositive(cfg: Settings)
    ensures (forall lastChange, q :: IsSafe(cfg, lastChange, q)) <==> cfg.maxDelta >= 1
  {
    if cfg.maxDelta < 1 {
      var q := Query(Bounded(cfg, cfg.maxLimit) + 1, cfg.maxLimit, None, 0);
      assert !IsSafe(cfg, 0, q);
    } else {
      forall lastChange, q ensures IsSafe(cfg, lastChange, q) {
        VerdictIsSafe(cfg, lastChange, q);
      }
    }
  }

  lemma VerdictIsSafe(cfg: Settings, lastChange: int, q: Query)
    requires cfg.maxDelta >= 1
    ensures IsSafe(cfg, lastChange, q)
  {
  }

  /** What the layer decides, and why. A hint below the threshold comes first, then a
      goal that is in force already, then a change that is less than a cooldown ago; if
      none of these holds it back, it moves the limit towards its goal, which is the
      candidate or the bound that it is beyond. */
  lemma DecisionIs(cfg: Settings, lastChange: int, q: Query, goal: int)
    requires cfg.minLimit <= cfg.maxLimit && cfg.maxDelta >= 1
    requires IsWithin(cfg.minLimit, cfg.maxLimit, q.candidate, goal)
    ensures var d := Verdict(cfg, lastChange, q);
            if q.hint.Some? && q.hint.value < cfg.threshold then d == Decision(q.current, false, Hysteresis)
            else if goal == q.current then d == Decision(q.current, false, NoChange)
            else if lastChange > 0 && q.now - lastChange < cfg.cooldown then
              d == Decision(q.current, false, Cooldown)
            else
              && d.changed && IsMove(q.current, goal, cfg.maxDelta, d.appliedLimit)
              && d.reason == if goal > q.current then Increase else Decrease
  {
  }

  /** The stamps of the changes made in a run of evaluations. */
  function ChangeTimes(cfg: Settings, lastChange: int, qs: seq<Query>): seq<int>
    decreases |qs|
  {
    if qs == [] then []
    else if Changes(cfg, lastChange, qs[0]) then
      [qs[0].now] + ChangeTimes(cfg, qs[0].now, qs[1..])
    else ChangeTimes(cfg, lastChange, qs[1..])
  }

  /** On a clock that reads positive values, changes are at least one cooldown apart
      over any run of evaluations, and from the last change before it. */
  lemma {:induction false} ChangesAreSpaced(cfg: Settings, lastChange: int, qs: seq<Query>)
    requires cfg.cooldown >= 0
    requires forall q :: q in qs ==> q.now > 0
    ensures var ts := ChangeTimes(cfg, lastChange, qs);
            && (lastChange > 0 && ts != [] ==> ts[0] >= lastChange + cfg.cooldown)
            && (forall i :: 0 <= i < |ts| ==> ts[i] > 0)
            && (forall i :: 0 < i < |ts| ==> ts[i] >= ts[i - 1] + cfg.cooldown)
    decreases |qs|
  {
    if qs != [] {
      assert qs[0] in qs && forall q :: q in qs[1..] ==> q in qs;
      if Changes(cfg, lastChange, qs[0]) {
        var rest := ChangeTimes(cfg, qs[0].now, qs[1..]);
        ChangesAreSpaced(cfg, qs[0].now, qs[1..]);
        assert ChangeTimes(cfg, lastChange, qs) == [qs[0].now] + rest;
      } else {
        ChangesAreSpaced(cfg, lastChange, qs[1..]);
        assert ChangeTimes(cfg, lastChange, qs) == ChangeTimes(cfg, lastChange, qs[1..]);
      }
    }
  }

  /** When the layer changed the limit last, after a run of evaluations. */
  function LastChange(cfg: Settings, lastChange: int, qs: seq<Query>): int {
    var ts := ChangeTimes(cfg, lastChange, qs);
    if ts == [] then lastChange else ts[|ts| - 1]
  }

  /** After any run of evaluations one more changes the limit exactly when it asks for
      another limit, no hint holds it back, and the last change, if the clock has been
      positive, is at least a cooldown ago: the layer never blocks longer. */
  lemma {:induction false} ChangesAgainIff(cfg: Settings, lastChange: int, qs: seq<Query>, q: Query, goal: int)
    requires cfg.minLimit <= cfg.maxLimit && IsWithin(cfg.minLimit, cfg.maxLimit, q.candidate, goal)
    ensures var last := LastChange(cfg, lastChange, qs);
            var free := && (q.hint.Some? ==> q.hint.value >= cfg.threshold) && goal != q.current
                        && (last > 0 ==> q.now - last >= cfg.cooldown);
            ChangeTimes(cfg, lastChange, qs + [q])
            == ChangeTimes(cfg, lastChange, qs) + if free then [q.now] else []
    decreases |qs|
  {
    if qs == [] {
      assert qs + [q] == [q] && [q][1..] == [];
    } else {
      var next := if Changes(cfg, lastChange, qs[0]) then qs[0].now else lastChange;
      ChangesAgainIff(cfg, next, qs[1..], q, goal);
      assert (qs + [q])[0] == qs[0] && (qs + [q])[1..] == qs[1..] + [q];
      hide Changes;
    }
  }

  // ----- the two layers together -----

  /** The backend runs with the bounds and step of the controller service. */
  predicate Matches(cfg: Settings, b: Bounds) {
    cfg.minLimit == b.minLimit && cfg.maxLimit == b.maxLimit && cfg.maxDelta == b.maxDelta
  }

  /** A decision taken from a view of the limit, in bounds but perhaps stale, reaches
      a backend at another limit in bounds. Outside its cooldown the backend stores
      exactly that decision if and only if it is within one step of its live limit,
      as it always is when the view was live; in any case what it stores is in bounds
      and within one step of the live limit. */
  lemma LayersCompose(cfg: Settings, lastChange: int, q: Query, b: Bounds, s: Status, stamp: int)
    requires b.Sound() && Matches(cfg, b)
    requires b.minLimit <= q.current <= b.maxLimit && b.minLimit <= s.limit <= b.maxLimit
    ensures var d := Verdict(cfg, lastChange, q);
            var t := Apply(b, s, Call(d.appliedLimit, stamp));
            && b.minLimit <= t.limit <= b.maxLimit
            && Magnitude(t.limit - s.limit) <= b.maxDelta
            && (!Cooling(b, s, stamp) ==>
                  (t.limit == d.appliedLimit <==> Magnitude(d.appliedLimit - s.limit) <= b.maxDelta))
            && (!Cooling(b, s, stamp) && q.current == s.limit ==> t.limit == d.appliedLimit)
  {
    VerdictIsSafe(cfg, lastChange, q);
  }
}
