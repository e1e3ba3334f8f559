/** The adaptive strategy: the envelope of module `Envelope`, run step by step on
    top of the real controller. */
module AdaptiveControl {
  import opened AdmissionCore
  import opened AdmissionController
  import opened Envelope

  const SECOND := 1_000_000_000

  /** The settings as the caller passes them, before normalisation. */
  datatype Config = Config(
    minLimit: int, maxLimit: int, maxDelta: int,
    cooldown: int, fallbackTo: int, freshTimeout: int)

  /** The bounds the strategy runs with: every setting that makes no sense is
      replaced, the fallback is clamped. */
  function Normalised(cfg: Config): Bounds {
    var lo := Max(cfg.minLimit, 1);
    var hi := Max(cfg.maxLimit, lo);
    Bounds(lo, hi,
           if cfg.maxDelta >= 1 then cfg.maxDelta else 4,
           if cfg.cooldown > 0 then cfg.cooldown else 5 * SECOND,
           Max(lo, Min(hi, cfg.fallbackTo)),
           if cfg.freshTimeout > 0 then cfg.freshTimeout else 60 * SECOND)
  }

  /** Any settings at all become sound bounds, and sound ones are left alone. The
      clamped fallback is the fallback asked for exactly when that was in bounds. */
  lemma NormalisedIsSound(cfg: Config)
    ensures var b := Normalised(cfg);
            && b.Sound()
            && Normalised(Config(b.minLimit, b.maxLimit, b.maxDelta, b.cooldown, b.fallbackTo,
                                 b.freshTimeout)) == b
            && (b.fallbackTo == cfg.fallbackTo <==> b.minLimit <= cfg.fallbackTo <= b.maxLimit)
            && b.fallbackTo == Clamp(b, cfg.fallbackTo)
  {
  }

  /** Every setting by itself: a valid one is kept whatever the others are, an invalid one
      gets its replacement. The maximum is judged by the minimum in force, and the
      fallback is brought within both. */
  lemma NormalisedFields(cfg: Config)
    ensures var b := Normalised(cfg);
            && b.minLimit == (if cfg.minLimit < 1 then 1 else cfg.minLimit)
            && b.maxLimit == (if cfg.maxLimit < b.minLimit then b.minLimit else cfg.maxLimit)
            && b.maxDelta == (if cfg.maxDelta < 1 then 4 else cfg.maxDelta)
            && b.cooldown == (if cfg.cooldown <= 0 then 5_000_000_000 else cfg.cooldown)
            && b.freshTimeout == (if cfg.freshTimeout <= 0 then 60_000_000_000 else cfg.freshTimeout)
            && IsWithin(b.minLimit, b.maxLimit, cfg.fallbackTo, b.fallbackTo)
  {
  }

  /** So sound settings are kept as they are. */
  lemma SoundSettingsAreKept(b: Bounds)
    requires b.Sound()
    ensures Normalised(Config(b.minLimit, b.maxLimit, b.maxDelta, b.cooldown, b.fallbackTo,
                              b.freshTimeout)) == b
  {
  }

  class AdaptiveStrategy {
    const controller: Controller
    const bounds: Bounds
    var lastApply: Option<int>
    var lastSignal: int
    // the freshness goroutine has found the strategy stale and not yet called `Apply`
    var pending: bool

    ghost predicate Valid()
      reads this, controller, controller.cells, controller.queue
    {
      bounds.Sound() && controller.Valid()
    }

    ghost function Status(): Status
      reads this, controller
    {
      Envelope.Status(controller.limit, lastApply, lastSignal)
    }

    ghost function Watch(): Watch
      reads this, controller
    {
      Envelope.Watch(Status(), pending)
    }

    constructor (controller: Controller, cfg: Config, now: int)
      requires controller.Valid()
      ensures Valid() && this.controller == controller
      ensures bounds == Normalised(cfg)
      ensures Watch() == Envelope.Watch(Envelope.Status(controller.limit, None, now), false)
    {
      var c := cfg;
      if c.minLimit < 1 {
        c := c.(minLimit := 1);
      }
      if c.maxLimit < c.minLimit {
        c := c.(maxLimit := c.minLimit);
      }
      if c.maxDelta < 1 {
        c := c.(maxDelta := 4);
      }
      if c.cooldown <= 0 {
        c := c.(cooldown := 5 * SECOND);
      }
      if c.fallbackTo < c.minLimit {
        c := c.(fallbackTo := c.minLimit);
      } else if c.fallbackTo > c.maxLimit {
        c := c.(fallbackTo := c.maxLimit);
      }
      if c.freshTimeout <= 0 {
        c := c.(freshTimeout := 60 * SECOND);
      }
      if c.fallbackTo < c.minLimit {
        c := c.(fallbackTo := c.minLimit);
      }
      this.controller := controller;
      bounds := Bounds(c.minLimit, c.maxLimit, c.maxDelta, c.cooldown, c.fallbackTo, c.freshTimeout);
      lastApply := None;
      lastSignal := now;
      pending := false;
    }

    /** `Apply`: the stamp `now` was read before the lock. The result is the limit in
        force afterwards, and the controller has gone through `SetLimit` with it if
        and only if the call was accepted. */
    method Apply(candidate: int, now: int) returns (applied: int)
      requires Valid()
      modifies this, controller, controller.queue
      ensures Valid() && controller.cells == old(controller.cells)
      ensures Status() == Envelope.Apply(bounds, old(Status()), Call(candidate, now))
      ensures pending == old(pending)
      ensures applied == controller.limit
      ensures controller.Abs() == if Accepts(bounds, old(Status()), Call(candidate, now))
                                  then Notify(Relimit(old(controller.Abs()), applied))
                                  else old(controller.Abs())
    {
      var clamped := ClampInt(candidate, bounds.minLimit, bounds.maxLimit);

      lastSignal := now;

      var current := controller.limit;

      if clamped == current {
        return current;
      }

      if lastApply.Some? && now - lastApply.value < bounds.cooldown {
        return current;
      }

      var delta := AbsInt(clamped - current);
      if delta > bounds.maxDelta {
        if clamped > current {
          clamped := current + bounds.maxDelta;
        } else {
          clamped := current - bounds.maxDelta;
        }
      }

      controller.SetLimit(clamped);
      lastApply := Some(now);
      return clamped;
    }

    /** The first half of `EnsureFresh`, under the lock; the source tests for a zero
        `lastSignal` too, which the constructor rules out. */
    method Look(now: int)
      requires Valid()
      modifies `pending
      ensures Valid() && Watch() == Act(bounds, old(Watch()), Action.Look(now))
    {
      if !pending {
        pending := now - lastSignal > bounds.freshTimeout;
      }
    }

    /** The second half: the fallback call, after whatever got the lock in between. */
    method Fire(stamp: int)
      requires Valid()
      modifies this, controller, controller.queue
      ensures Valid() && controller.cells == old(controller.cells)
      ensures Watch() == Act(bounds, old(Watch()), Action.Fire(stamp))
      ensures controller.Abs() ==
              if old(pending) && Accepts(bounds, old(Status()), Call(bounds.fallbackTo, stamp))
              then Notify(Relimit(old(controller.Abs()), controller.limit))
              else old(controller.Abs())
    {
      if pending {
        var _ := Apply(bounds.fallbackTo, stamp);
        pending := false;
      }
    }

    /** `EnsureFresh` with nothing between its two halves is one tick of the fail-safe. */
    method EnsureFresh(tick: Tick)
      requires Valid() && !pending
      modifies this, controller, controller.queue
      ensures Valid() && controller.cells == old(controller.cells)
      ensures Watch() == Acts(bounds, old(Watch()), [Action.Look(tick.check), Action.Fire(tick.stamp)])
      ensures Watch() == Envelope.Watch(Envelope.EnsureFresh(bounds, old(Status()), tick), false)
    {
      Undisturbed(bounds, Status(), tick);
      Look(tick.check);
      Fire(tick.stamp);
    }
  }

  function ClampInt(v: int, lo: int, hi: int): (r: int)
    ensures lo <= hi ==> lo <= r <= hi && (lo <= v <= hi ==> r == v)
  {
    if v < lo then lo else if v > hi then hi else v
  }

  function AbsInt(v: int): int {
    if v < 0 then -v else v
  }
}
