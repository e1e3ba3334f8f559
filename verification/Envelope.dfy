/** The safety envelope of the adaptive strategy as a state machine over time: a
    call carries a candidate limit and the stamp its caller read before taking the
    lock. Time counts nanoseconds. */
module Envelope {

  datatype Option<+T> = None | Some(value: T)

  /** The bounds a strategy runs with. */
  datatype Bounds = Bounds(
    minLimit: int, maxLimit: int, maxDelta: int,
    cooldown: int, fallbackTo: int, freshTimeout: int)
  {
    predicate Sound() {
      && 1 <= minLimit <= maxLimit
      && maxDelta >= 1
      && cooldown > 0 && freshTimeout > 0
      && minLimit <= fallbackTo <= maxLimit
    }
  }

  /** `lastApply` is None while it is the zero time. */
  datatype Status = Status(limit: int, lastApply: Option<int>, lastSignal: int)

  datatype Call = Call(candidate: int, stamp: int)

  function Min(a: int, b: int): int {
    if a < b then a else b
  }

  function Max(a: int, b: int): int {
    if a > b then a else b
  }

  function Magnitude(v: int): nat {
    if v < 0 then -v else v
  }

  function Clamp(b: Bounds, v: int): int {
    Max(b.minLimit, Min(b.maxLimit, v))
  }

  /** From `x` at most `d` in the direction of `y`, never past it. */
  function Toward(x: int, y: int, d: int): int {
    Max(x - d, Min(x + d, y))
  }

  predicate Cooling(b: Bounds, s: Status, stamp: int) {
    s.lastApply.Some? && stamp - s.lastApply.value < b.cooldown
  }

  /** The call changes the limit. */
  predicate Accepts(b: Bounds, s: Status, c: Call) {
    Clamp(b, c.candidate) != s.limit && !Cooling(b, s, c.stamp)
  }

  function Apply(b: Bounds, s: Status, c: Call): Status {
    if Accepts(b, s, c) then
      Status(Toward(s.limit, Clamp(b, c.candidate), b.maxDelta), Some(c.stamp), c.stamp)
    else
      s.(lastSignal := c.stamp)
  }

  predicate Stale(b: Bounds, s: Status, now: int) {
    now - s.lastSignal > b.freshTimeout
  }

  function Play(b: Bounds, s: Status, cs: seq<Call>): Status
    decreases |cs|
  {
    if cs == [] then s else Play(b, Apply(b, s, cs[0]), cs[1..])
  }

  // ----- every call -----

  /** How far a limit lies outside the bounds. */
  function Outside(b: Bounds, limit: int): nat {
    if limit < b.minLimit then b.minLimit - limit
    else if limit > b.maxLimit then limit - b.maxLimit
    else 0
  }

  /** A call moves the limit by at most `maxDelta`, not past the clamped candidate,
      and never further out of bounds; the stored limit is at least 1, so that the
      controller's own floor never alters it. */
  lemma CallIsSafe(b: Bounds, s: Status, c: Call)
    requires b.Sound() && s.limit >= 1
    ensures var t := Apply(b, s, c);
            && t.limit >= 1
            && Magnitude(t.limit - s.limit) <= b.maxDelta
            && Outside(b, t.limit) <= Outside(b, s.limit)
            && Magnitude(Clamp(b, c.candidate) - t.limit) + Magnitude(t.limit - s.limit)
               == Magnitude(Clamp(b, c.candidate) - s.limit)
            && (t.limit != s.limit <==> Accepts(b, s, c))
  {
  }

  /** Over any run of calls, whatever the candidates and stamps, a limit in bounds
      stays in bounds and one outside never moves further out. Fallback calls are
      calls like any other. */
  lemma {:induction false} RunStaysInEnvelope(b: Bounds, s: Status, cs: seq<Call>)
    requires b.Sound() && s.limit >= 1
    ensures var t := Play(b, s, cs);
            && t.limit >= 1 && Outside(b, t.limit) <= Outside(b, s.limit)
            && (b.minLimit <= s.limit <= b.maxLimit ==> b.minLimit <= t.limit <= b.maxLimit)
    decreases |cs|
  {
    if cs != [] {
      CallIsSafe(b, s, cs[0]);
      RunStaysInEnvelope(b, Apply(b, s, cs[0]), cs[1..]);
    }
  }

  /** `goal` is what remains of `v` within lo..hi. */
  predicate IsWithin(lo: int, hi: int, v: int, goal: int) {
    && (v <= lo ==> goal == lo)
    && (v >= hi ==> goal == hi)
    && (lo <= v <= hi ==> goal == v)
  }

  /** `z` is one move of at most `d` from `x` to `goal`: a full one, or all the way. */
  predicate IsMove(x: int, goal: int, d: int, z: int) {
    && (goal >= x + d ==> z == x + d)
    && (goal <= x - d ==> z == x - d)
    && (x - d <= goal <= x + d ==> z == goal)
  }

  /** All that a call does. With the cooldown over it moves the limit towards its
      candidate, or towards the bound that the candidate is beyond; during the cooldown
      it leaves the limit alone. It is a signal in any case, and the latest change
      exactly if the limit changed. */
  lemma CallMoves(b: Bounds, s: Status, c: Call, goal: int)
    requires b.Sound() && IsWithin(b.minLimit, b.maxLimit, c.candidate, goal)
    ensures var t := Apply(b, s, c);
            && (if s.lastApply.Some? && c.stamp - s.lastApply.value < b.cooldown then t.limit == s.limit
                else IsMove(s.limit, goal, b.maxDelta, t.limit))
            && t.lastApply == (if t.limit == s.limit then s.lastApply else Some(c.stamp))
            && t.lastSignal == c.stamp
  {
  }

  // ----- products -----

  lemma Distribute(d: int, j: int, k: int)
    ensures d * (j + k) == d * j + d * k
    ensures d * (j - k) == d * j - d * k
  {
  }

  lemma ProductNonNegative(d: nat, k: nat)
    ensures d * k >= 0
  {
  }

  lemma TimesMonotone(d: int, j: int, k: int)
    requires d >= 0 && j <= k
    ensures d * j <= d * k
    ensures d * (j + 1) == d * j + d
  {
    ProductNonNegative(d, k - j);
    Distribute(d, k, j);
    Distribute(d, j, 1);
  }

  lemma TimesStrict(c: int, i: int, j: int)
    requires c > 0 && i < j
    ensures c * i + c <= c * j
  {
    TimesMonotone(c, i + 1, j);
    Distribute(c, i, 1);
  }

  // ----- the slew rate -----

  /** The total distance the limit travels in accepted calls stamped in [lo, hi]. */
  function Travel(b: Bounds, s: Status, cs: seq<Call>, lo: int, hi: int): nat
    decreases |cs|
  {
    if cs == [] then 0 else
      (if Accepts(b, s, cs[0]) && lo <= cs[0].stamp <= hi
       then Magnitude(Apply(b, s, cs[0]).limit - s.limit) else 0)
      + Travel(b, Apply(b, s, cs[0]), cs[1..], lo, hi)
  }

  /** How many stamps `cooldown` apart fit in [lo, hi]. */
  function Slots(b: Bounds, lo: int, hi: int): nat
    requires b.cooldown > 0
  {
    if lo > hi then 0 else (hi - lo) / b.cooldown + 1
  }

  /** The earliest stamp not before `lo` that can still be accepted. */
  function Earliest(b: Bounds, s: Status, lo: int): int {
    if s.lastApply.Some? then Max(lo, s.lastApply.value + b.cooldown) else lo
  }

  lemma SlotsStep(b: Bounds, lo: int, u: int, hi: int)
    requires b.cooldown > 0 && lo <= u
    ensures Slots(b, u, hi) <= Slots(b, lo, hi)
    ensures u <= hi ==> Slots(b, u + b.cooldown, hi) + 1 == Slots(b, u, hi)
  {
    var c := b.cooldown;
    if u <= hi {
      DivMonotone(hi - u, hi - lo, c);
      DivShift(hi - u, c);
    }
  }

  lemma DivMonotone(x: nat, y: nat, c: int)
    requires x <= y && c > 0
    ensures x / c <= y / c
  {
    var i, j := x / c, y / c;
    assert c * i <= x && y < c * (j + 1);
    if i > j { TimesMonotone(c, j + 1, i); }
  }

  /** The quotient of a number is the only one that leaves a proper remainder. */
  lemma QuotientUnique(x: int, c: int, q: int)
    requires c > 0 && c * q <= x < c * q + c
    ensures x / c == q
  {
    var i := x / c;
    assert c * i <= x < c * i + c;
    if i < q {
      TimesStrict(c, i, q);
    } else if q < i {
      TimesStrict(c, q, i);
    }
  }

  lemma DivShift(x: nat, c: int)
    requires c > 0
    ensures x < c ==> x / c == 0
    ensures x >= c ==> (x - c) / c + 1 == x / c
  {
    var q := (x - c) / c;
    assert c * q <= x - c < c * q + c;
    assert c * (q + 1) == c * q + c;
    QuotientUnique(x, c, q + 1);
  }

  lemma {:induction false} TravelFrom(b: Bounds, s: Status, cs: seq<Call>, lo: int, hi: int)
    requires b.Sound() && s.limit >= 1
    ensures Travel(b, s, cs, lo, hi) <= b.maxDelta * Slots(b, Earliest(b, s, lo), hi)
    decreases |cs|
  {
    if cs != [] {
      var c, t := cs[0], Apply(b, s, cs[0]);
      CallIsSafe(b, s, c);
      TravelFrom(b, t, cs[1..], lo, hi);
      TravelOne(b, s, c, lo, hi);
    }
  }

  /** One call uses up the slots it needs: what it travels in the window, and the
      allowance left after it, fit in the allowance before it. */
  lemma TravelOne(b: Bounds, s: Status, c: Call, lo: int, hi: int)
    requires b.Sound() && s.limit >= 1
    ensures var t := Apply(b, s, c);
            (if Accepts(b, s, c) && lo <= c.stamp <= hi then Magnitude(t.limit - s.limit) else 0)
            + b.maxDelta * Slots(b, Earliest(b, t, lo), hi)
            <= b.maxDelta * Slots(b, Earliest(b, s, lo), hi)
  {
    var t := Apply(b, s, c);
    CallIsSafe(b, s, c);
    if Accepts(b, s, c) {
      var from, from' := Earliest(b, s, lo), Earliest(b, t, lo);
      var k, k' := Slots(b, from, hi), Slots(b, from', hi);
      if lo <= c.stamp <= hi {
        assert from <= c.stamp && from' == c.stamp + b.cooldown;
        SlotsStep(b, from, c.stamp, hi);
        TimesMonotone(b.maxDelta, k' + 1, k);
        TimesMonotone(b.maxDelta, k', k' + 1);
      } else {
        if from <= from' { SlotsStep(b, from, from', hi); }
        TimesMonotone(b.maxDelta, k', k);
      }
    }
  }

  /** Slew rate: in any run of calls, with stamps reaching the lock in any order, the
      limit travels at most maxDelta * (width / cooldown + 1) within a stamp
      window of that width. */
  lemma SlewRate(b: Bounds, s: Status, cs: seq<Call>, lo: int, width: nat)
    requires b.Sound() && s.limit >= 1
    ensures Travel(b, s, cs, lo, lo + width) <= b.maxDelta * (width / b.cooldown + 1)
  {
    TravelFrom(b, s, cs, lo, lo + width);
    SlotsStep(b, lo, Earliest(b, s, lo), lo + width);
    TimesMonotone(b.maxDelta, Slots(b, Earliest(b, s, lo), lo + width), Slots(b, lo, lo + width));
  }

  /** The stamps of the accepted calls of a run. */
  function AcceptedStamps(b: Bounds, s: Status, cs: seq<Call>): seq<int>
    decreases |cs|
  {
    if cs == [] then []
    else (if Accepts(b, s, cs[0]) then [cs[0].stamp] else [])
         + AcceptedStamps(b, Apply(b, s, cs[0]), cs[1..])
  }

  /** Whatever order the stamps reach the lock in, those of accepted calls increase
      from one to the next by at least a cooldown. */
  lemma {:induction false} AcceptedAreSpaced(b: Bounds, s: Status, cs: seq<Call>)
    ensures var ts := AcceptedStamps(b, s, cs);
            && (ts != [] && s.lastApply.Some? ==> ts[0] >= s.lastApply.value + b.cooldown)
            && (forall i :: 0 < i < |ts| ==> ts[i] >= ts[i - 1] + b.cooldown)
    decreases |cs|
  {
    if cs != [] {
      AcceptedAreSpaced(b, Apply(b, s, cs[0]), cs[1..]);
    }
  }

  // ----- convergence -----

  /** Each stamp is at least one cooldown after the one before. */
  predicate Spaced(b: Bounds, s: Status, cs: seq<Call>)
    decreases |cs|
  {
    cs == [] || (!Cooling(b, s, cs[0].stamp)
                 && Spaced(b, s.(lastApply := Some(cs[0].stamp)), cs[1..]))
  }

  /** The number of steps of size `d` from `x` to `y`, rounded up. */
  function StepsTo(x: int, y: int, d: int): nat
    requires d >= 1
  {
    (Magnitude(y - x) + d - 1) / d
  }

  lemma TowardTwice(x: int, y: int, a: nat, d: nat)
    ensures Toward(Toward(x, y, a), y, d) == Toward(x, y, a + d)
    ensures Toward(x, y, 0) == x
  {
  }

  /** A limit moved `n` full steps has arrived exactly when n reaches `StepsTo`. */
  lemma ArrivesAt(x: int, y: int, d: int, n: nat)
    requires d >= 1
    ensures d * n >= 0
    ensures Toward(x, y, d * n) == y <==> n >= StepsTo(x, y, d)
  {
    var k := Magnitude(y - x);
    assert Toward(x, y, d * n) == y <==> d * n >= k;
    CeilingSteps(k, d, n);
  }

  lemma CeilingSteps(k: nat, d: int, n: nat)
    requires d >= 1
    ensures d * n >= 0
    ensures d * n >= k <==> n >= (k + d - 1) / d
  {
    var m := (k + d - 1) / d;
    assert d * m <= k + d - 1 < d * m + d;
    if n >= m {
      TimesMonotone(d, m, n);
    } else {
      TimesMonotone(d, n + 1, m);
      TimesMonotone(d, n, n);
    }
  }

  /** An accepted-or-idle call at a stamp out of cooldown is one step towards its
      clamped candidate. */
  lemma FreeCallSteps(b: Bounds, s: Status, c: Call)
    requires b.Sound() && !Cooling(b, s, c.stamp)
    ensures Apply(b, s, c).limit == Toward(s.limit, Clamp(b, c.candidate), b.maxDelta)
  {
  }

  lemma {:induction false} LateStampsStayFree(b: Bounds, s: Status, t: Status, cs: seq<Call>)
    requires Spaced(b, s, cs)
    requires t.lastApply.None? || (s.lastApply.Some? && t.lastApply.value <= s.lastApply.value)
    ensures Spaced(b, t, cs)
    decreases |cs|
  {
    if cs != [] {
      assert s.(lastApply := Some(cs[0].stamp)).lastApply == t.(lastApply := Some(cs[0].stamp)).lastApply;
      LateStampsStayFree(b, s.(lastApply := Some(cs[0].stamp)), t.(lastApply := Some(cs[0].stamp)), cs[1..]);
    }
  }

  lemma {:induction false} RepeatedGoal(b: Bounds, s: Status, goal: int, cs: seq<Call>)
    requires b.Sound() && Spaced(b, s, cs)
    requires forall k :: k in cs ==> Clamp(b, k.candidate) == goal
    ensures b.maxDelta * |cs| >= 0
    ensures Play(b, s, cs).limit == Toward(s.limit, goal, b.maxDelta * |cs|)
    decreases |cs|
  {
    if cs == [] {
      TowardTwice(s.limit, goal, 0, 0);
    } else {
      var t, rest := Apply(b, s, cs[0]), cs[1..];
      assert cs[0] in cs && forall k :: k in rest ==> k in cs;
      FreeCallSteps(b, s, cs[0]);
      if s.lastApply.Some? && t.lastApply.Some? {
        assert t.lastApply.value <= cs[0].stamp;
      }
      LateStampsStayFree(b, s.(lastApply := Some(cs[0].stamp)), t, rest);
      RepeatedGoal(b, t, goal, rest);
      TowardTwice(s.limit, goal, b.maxDelta, b.maxDelta * |rest|);
      TimesMonotone(b.maxDelta, |rest|, |rest|);
    }
  }

  /** Repeating one candidate at stamps a cooldown apart takes the limit to the
      clamped candidate in exactly ceil(distance / maxDelta) calls, not fewer; after
      that every call leaves it there. */
  lemma ExactConvergence(b: Bounds, s: Status, c: int, cs: seq<Call>)
    requires b.Sound() && Spaced(b, s, cs)
    requires forall k :: k in cs ==> k.candidate == c
    ensures Play(b, s, cs).limit == Clamp(b, c)
            <==> |cs| >= StepsTo(s.limit, Clamp(b, c), b.maxDelta)
  {
    RepeatedGoal(b, s, Clamp(b, c), cs);
    ArrivesAt(s.limit, Clamp(b, c), b.maxDelta, |cs|);
  }

  /** Any candidates at or below the minimum, at such stamps, take the limit down to
      the minimum by full moves and keep it there; any at or above the maximum take it
      up to the maximum. */
  lemma ExtremesReachBounds(b: Bounds, s: Status, cs: seq<Call>)
    requires b.Sound() && Spaced(b, s, cs) && b.minLimit <= s.limit <= b.maxLimit
    ensures var end := Play(b, s, cs).limit;
            && ((forall k :: k in cs ==> k.candidate <= b.minLimit) ==>
                  end == (if s.limit - b.maxDelta * |cs| > b.minLimit then s.limit - b.maxDelta * |cs|
                          else b.minLimit))
            && ((forall k :: k in cs ==> k.candidate >= b.maxLimit) ==>
                  end == (if s.limit + b.maxDelta * |cs| < b.maxLimit then s.limit + b.maxDelta * |cs|
                          else b.maxLimit))
  {
    if forall k :: k in cs ==> k.candidate <= b.minLimit {
      RepeatedGoal(b, s, b.minLimit, cs);
    }
    if forall k :: k in cs ==> k.candidate >= b.maxLimit {
      RepeatedGoal(b, s, b.maxLimit, cs);
    }
  }

  // ----- the fail-safe -----

  /** One tick of the freshness loop: the instant at which staleness is tested and
      the stamp the fallback call would read if it is stale. */
  datatype Tick = Tick(check: int, stamp: int)

  function EnsureFresh(b: Bounds, s: Status, t: Tick): Status {
    if Stale(b, s, t.check) then Apply(b, s, Call(b.fallbackTo, t.stamp)) else s
  }

  function Silence(b: Bounds, s: Status, ts: seq<Tick>): Status
    decreases |ts|
  {
    if ts == [] then s else Silence(b, EnsureFresh(b, s, ts[0]), ts[1..])
  }

  function Firings(b: Bounds, s: Status, ts: seq<Tick>): nat
    decreases |ts|
  {
    if ts == [] then 0
    else (if Stale(b, s, ts[0].check) then 1 else 0) + Firings(b, EnsureFresh(b, s, ts[0]), ts[1..])
  }

  /** Ticks run one after the other, test at most `period` after the test before,
      and stamp at most `delay` after their test. */
  predicate Regular(ts: seq<Tick>, test: int, done: int, period: int, delay: int)
    decreases |ts|
  {
    ts == [] ||
    (&& done <= ts[0].check <= test + period
     && ts[0].check <= ts[0].stamp <= ts[0].check + delay
     && Regular(ts[1..], ts[0].check, ts[0].stamp, period, delay))
  }

  /** Stamps reached the lock in order so far. */
  predicate Ordered(s: Status) {
    s.lastApply.Some? ==> s.lastApply.value <= s.lastSignal
  }

  /** With stamps in lock order, no firing of the fail-safe can ever run into the
      cooldown exactly when the cooldown is at most one instant longer than the
      freshness timeout; the settings are not checked for that. */
  lemma NeverBlockedIff(b: Bounds)
    requires b.Sound()
    ensures (forall s: Status, t: Tick ::
               Ordered(s) && t.check <= t.stamp && Stale(b, s, t.check) ==> !Cooling(b, s, t.stamp))
            <==> b.cooldown <= b.freshTimeout + 1
  {
    if b.cooldown > b.freshTimeout + 1 {
      var s := Status(b.minLimit, Some(0), 0);
      var t := Tick(b.freshTimeout + 1, b.freshTimeout + 1);
      assert Ordered(s) && Stale(b, s, t.check) && Cooling(b, s, t.stamp);
    }
  }

  /** How many firings of a silence move the limit: those that are not at the fallback
      already and do not run into the cooldown. */
  function FallbackSteps(b: Bounds, s: Status, ts: seq<Tick>): nat
    decreases |ts|
  {
    if ts == [] then 0
    else (if Stale(b, s, ts[0].check) && Accepts(b, s, Call(b.fallbackTo, ts[0].stamp)) then 1 else 0)
         + FallbackSteps(b, EnsureFresh(b, s, ts[0]), ts[1..])
  }

  /** How long after a step a firing can still meet the cooldown it started. */
  function Blocking(b: Bounds): int {
    if b.cooldown <= b.freshTimeout + 1 then 0 else b.cooldown - 1
  }

  /** The longest time from one step of the fail-safe to the next. */
  function LongestGap(b: Bounds, period: int, delay: int): int {
    Blocking(b) + b.freshTimeout + period + delay
  }

  /** The shortest. */
  function ShortestGap(b: Bounds): int {
    Max(b.cooldown, b.freshTimeout + 1)
  }

  function Earlier(b: Bounds, m: nat): int {
    (m - 1) * ShortestGap(b)
  }

  function Later(b: Bounds, m: nat, period: int, delay: int): int {
    m * LongestGap(b, period, delay)
  }

  lemma OneGapMore(b: Bounds, m: nat, period: int, delay: int)
    ensures Earlier(b, 1) == 0 && Later(b, 0, period, delay) == 0
    ensures Earlier(b, m + 1) == Earlier(b, m) + ShortestGap(b)
    ensures Later(b, m + 1, period, delay) == Later(b, m, period, delay) + LongestGap(b, period, delay)
  {
    var short, long := ShortestGap(b), LongestGap(b, period, delay);
    hide ShortestGap, LongestGap;
    Distribute(short, m - 1, 1);
    Distribute(long, m, 1);
  }

  lemma MoreGaps(b: Bounds, m: nat, n: nat, period: nat, delay: nat)
    requires b.Sound() && m <= n
    ensures Earlier(b, m) <= Earlier(b, n)
    ensures Later(b, m, period, delay) <= Later(b, n, period, delay)
  {
    var short, long := ShortestGap(b), LongestGap(b, period, delay);
    assert short >= 0 && long >= 0;
    hide ShortestGap, LongestGap;
    TimesMonotone(short, m - 1, n - 1);
    TimesMonotone(long, m, n);
  }

  /** Where a silence that began at `s` stands after `m` steps: how far it got, when
      the last step came, and how long firings without effect can have gone on. */
  ghost predicate Descent(b: Bounds, s: Status, t: Status, m: nat, period: int, delay: int) {
    && Ordered(t) && s.lastSignal <= t.lastSignal
    && t.limit == Toward(s.limit, b.fallbackTo, b.maxDelta * m)
    && (m == 0 ==> t.lastApply == s.lastApply)
    && (m > 0 ==>
          && t.lastApply.Some?
          && s.lastSignal + b.freshTimeout + 1 + Earlier(b, m) <= t.lastApply.value
          && t.lastApply.value <= s.lastSignal + Later(b, m, period, delay))
    && (t.limit != b.fallbackTo ==>
          t.lastSignal <= Blocking(b) + if m > 0 then t.lastApply.value else s.lastSignal)
  }

  /** One test later a silence is where it was, or one step further, which then came
      no sooner and no later than the gaps allow. */
  lemma DescentStep(b: Bounds, s: Status, t: Status, k: Tick, m: nat,
                    test: int, period: nat, delay: nat)
    requires b.Sound() && Ordered(s) && Descent(b, s, t, m, period, delay)
    requires test <= t.lastSignal + b.freshTimeout
    requires k.check <= test + period && k.check <= k.stamp <= k.check + delay
    ensures var u := EnsureFresh(b, t, k);
            && Descent(b, s, u, m + FallbackSteps(b, t, [k]), period, delay)
            && k.check <= u.lastSignal + b.freshTimeout
  {
    var fallback := Call(b.fallbackTo, k.stamp);
    assert [k][1..] == [];
    if Stale(b, t, k.check) && Accepts(b, t, fallback) {
      var d := b.maxDelta;
      OneGapMore(b, m, period, delay);
      ProductNonNegative(d, m);
      Distribute(d, m, 1);
      hide Earlier, Later;
      TowardTwice(s.limit, b.fallbackTo, d * m, d);
    } else {
      hide Earlier, Later, Toward;
    }
  }

  /** Silence over any settings: every test keeps the account. */
  lemma {:induction false} SilenceSteps(b: Bounds, s: Status, t: Status, m: nat, ts: seq<Tick>,
                                        test: int, done: int, period: nat, delay: nat)
    requires b.Sound() && Ordered(s) && Descent(b, s, t, m, period, delay)
    requires Regular(ts, test, done, period, delay) && test <= t.lastSignal + b.freshTimeout
    ensures var u := Silence(b, t, ts);
            && Descent(b, s, u, m + FallbackSteps(b, t, ts), period, delay)
            && (ts != [] ==> ts[|ts| - 1].check <= u.lastSignal + b.freshTimeout)
    decreases |ts|
  {
    if ts != [] {
      var k, rest := ts[0], ts[1..];
      DescentStep(b, s, t, k, m, test, period, delay);
      assert [k][1..] == [];
      hide Descent;
      SilenceSteps(b, s, EnsureFresh(b, t, k), m + FallbackSteps(b, t, [k]), rest,
                   k.check, k.stamp, period, delay);
      assert rest != [] ==> rest[|rest| - 1] == ts[|ts| - 1];
    }
  }

  /** The stamps of the firings that move the limit. */
  function StepStamps(b: Bounds, s: Status, ts: seq<Tick>): seq<int>
    decreases |ts|
  {
    if ts == [] then []
    else (if Stale(b, s, ts[0].check) && Accepts(b, s, Call(b.fallbackTo, ts[0].stamp)) then [ts[0].stamp] else [])
         + StepStamps(b, EnsureFresh(b, s, ts[0]), ts[1..])
  }

  /** Where a silence stands after a step stamped `last`, or a last signal at that time:
      firings without effect stop before a cooldown from it is over. */
  predicate Since(b: Bounds, s: Status, last: int) {
    && Ordered(s) && last <= s.lastSignal
    && (s.lastApply.Some? ==> s.lastApply.value <= last)
    && (s.limit != b.fallbackTo ==> s.lastSignal <= last + Blocking(b))
  }

  lemma SinceStep(b: Bounds, s: Status, k: Tick, last: int, test: int, period: nat, delay: nat)
    requires b.Sound() && Since(b, s, last)
    requires test <= s.lastSignal + b.freshTimeout
    requires k.check <= test + period && k.check <= k.stamp <= k.check + delay
    ensures var u := EnsureFresh(b, s, k);
            && k.check <= u.lastSignal + b.freshTimeout
            && if Stale(b, s, k.check) && Accepts(b, s, Call(b.fallbackTo, k.stamp)) then
                 && Since(b, u, k.stamp) && u.lastApply == Some(k.stamp)
                 && last + b.freshTimeout + 1 <= k.stamp <= last + LongestGap(b, period, delay)
                 && (s.lastApply == Some(last) ==> last + ShortestGap(b) <= k.stamp)
               else Since(b, u, last) && u.lastApply == s.lastApply
  {
  }

  /** From one step of a silence to the next it takes at least the shortest and at most
      the longest gap; the first one comes within the longest gap of the last signal,
      and not before the timeout is over. An ordered status is `Since` its last signal. */
  lemma {:induction false} StepGaps(b: Bounds, s: Status, last: int, ts: seq<Tick>,
                                    test: int, done: int, period: nat, delay: nat)
    requires b.Sound() && Since(b, s, last)
    requires Regular(ts, test, done, period, delay) && test <= s.lastSignal + b.freshTimeout
    ensures |StepStamps(b, s, ts)| == FallbackSteps(b, s, ts)
    ensures var steps := StepStamps(b, s, ts);
            && (steps != [] ==>
                  && last + b.freshTimeout + 1 <= steps[0] <= last + LongestGap(b, period, delay)
                  && (s.lastApply == Some(last) ==> last + ShortestGap(b) <= steps[0]))
            && (forall i :: 0 < i < |steps| ==>
                  steps[i - 1] + ShortestGap(b) <= steps[i] <= steps[i - 1] + LongestGap(b, period, delay))
    decreases |ts|
  {
    if ts != [] {
      var k, u := ts[0], EnsureFresh(b, s, ts[0]);
      var moves := Stale(b, s, k.check) && Accepts(b, s, Call(b.fallbackTo, k.stamp));
      SinceStep(b, s, k, last, test, period, delay);
      hide EnsureFresh, Stale, Accepts, Since, ShortestGap, LongestGap;
      StepGaps(b, u, if moves then k.stamp else last, ts[1..], k.check, k.stamp, period, delay);
      var steps, rest := StepStamps(b, s, ts), StepStamps(b, u, ts[1..]);
      assert FallbackSteps(b, s, ts) == (if moves then 1 else 0) + FallbackSteps(b, u, ts[1..]);
      assert steps == (if moves then [k.stamp] else []) + rest;
      hide StepStamps, FallbackSteps, Regular;
      forall i | 0 < i < |steps|
        ensures steps[i - 1] + ShortestGap(b) <= steps[i] <= steps[i - 1] + LongestGap(b, period, delay)
      {
        if moves { assert steps[i] == rest[i - 1] && (i > 1 ==> steps[i - 1] == rest[i - 2]); }
      }
    }
  }

  lemma FiringIsNeverBlocked(b: Bounds, s: Status, t: Tick)
    requires b.Sound() && b.cooldown <= b.freshTimeout + 1 && Ordered(s)
    requires t.check <= t.stamp && Stale(b, s, t.check)
    ensures EnsureFresh(b, s, t).limit == Toward(s.limit, b.fallbackTo, b.maxDelta)
    ensures Ordered(EnsureFresh(b, s, t))
  {
  }

  /** With a cooldown short enough every firing is one full step. */
  lemma {:induction false} FiringSteps(b: Bounds, s: Status, ts: seq<Tick>,
                                       test: int, done: int, period: nat, delay: nat)
    requires b.Sound() && b.cooldown <= b.freshTimeout + 1 && Ordered(s)
    requires Regular(ts, test, done, period, delay)
    ensures Silence(b, s, ts).limit
            == Toward(s.limit, b.fallbackTo, b.maxDelta * Firings(b, s, ts))
    decreases |ts|
  {
    if ts == [] {
      TowardTwice(s.limit, b.fallbackTo, 0, 0);
    } else {
      var d, k, u, rest := b.maxDelta, ts[0], EnsureFresh(b, s, ts[0]), ts[1..];
      if Stale(b, s, k.check) { FiringIsNeverBlocked(b, s, k); }
      FiringSteps(b, u, rest, k.check, k.stamp, period, delay);
      var n := Firings(b, u, rest);
      ProductNonNegative(d, n);
      Distribute(d, n, 1);
      TowardTwice(s.limit, b.fallbackTo, d, d * n);
    }
  }

  /** Fail-safe under silence, for all settings. With `needed` = ceil(|limit -
      fallbackTo| / maxDelta), the fallback is in force after exactly that many steps.
      It is certain once a test runs late enough for each step to have taken its
      longest gap, and the last step never comes before each has taken its shortest.
      Only with a cooldown at most one instant longer than the timeout is every firing
      a step; a longer one makes firings idle and stretches the longest gap. */
  lemma FailSafe(b: Bounds, s: Status, ts: seq<Tick>, period: nat, delay: nat)
    requires b.Sound() && Ordered(s)
    requires ts != [] && Regular(ts, s.lastSignal, s.lastSignal, period, delay)
    ensures var needed := StepsTo(s.limit, b.fallbackTo, b.maxDelta);
            var t := Silence(b, s, ts);
            && (t.limit == b.fallbackTo <==> FallbackSteps(b, s, ts) >= needed)
            && (b.cooldown <= b.freshTimeout + 1 ==>
                  (t.limit == b.fallbackTo <==> Firings(b, s, ts) >= needed))
            && (ts[|ts| - 1].check > s.lastSignal + Blocking(b) + b.freshTimeout
                                     + (needed - 1) * LongestGap(b, period, delay)
                ==> t.limit == b.fallbackTo)
            && (needed > 0 && t.limit == b.fallbackTo ==>
                  t.lastApply.Some? && t.lastApply.value
                    >= s.lastSignal + b.freshTimeout + 1 + (needed - 1) * ShortestGap(b))
  {
    var needed := StepsTo(s.limit, b.fallbackTo, b.maxDelta);
    var t, steps := Silence(b, s, ts), FallbackSteps(b, s, ts);
    TowardTwice(s.limit, b.fallbackTo, 0, 0);
    SilenceSteps(b, s, s, 0, ts, s.lastSignal, s.lastSignal, period, delay);
    ArrivesAt(s.limit, b.fallbackTo, b.maxDelta, steps);
    if b.cooldown <= b.freshTimeout + 1 {
      FiringSteps(b, s, ts, s.lastSignal, s.lastSignal, period, delay);
      ArrivesAt(s.limit, b.fallbackTo, b.maxDelta, Firings(b, s, ts));
    }
    hide StepsTo, Toward;
    OneGapMore(b, 0, period, delay);
    if steps < needed {
      MoreGaps(b, steps, needed - 1, period, delay);
    } else {
      MoreGaps(b, needed, steps, period, delay);
    }
  }

  // ----- liveness and its limits -----

  /** After any run of calls a check finds the strategy stale exactly when the call
      that came last through the lock is too old: not the call stamped last. */
  lemma {:induction false} StaleIffLastThroughLock(b: Bounds, s: Status, cs: seq<Call>, now: int)
    requires cs != []
    ensures Stale(b, Play(b, s, cs), now) <==> now - cs[|cs| - 1].stamp > b.freshTimeout
    decreases |cs|
  {
    if |cs| > 1 {
      assert cs[1..][|cs| - 2] == cs[|cs| - 1];
      StaleIffLastThroughLock(b, Apply(b, s, cs[0]), cs[1..], now);
    }
  }

  /** A strategy can look stale right after a signal: a call stamped earlier is
      overtaken on its way to the lock. */
  lemma LiveCanLookStale()
    ensures var b := Bounds(4, 64, 4, 5, 4, 60);
            var cs := [Call(20, 100), Call(20, 30)];
            b.Sound() && Stale(b, Play(b, Status(20, None, 0), cs), 101)
  {
    var b := Bounds(4, 64, 4, 5, 4, 60);
    StaleIffLastThroughLock(b, Status(20, None, 0), [Call(20, 100), Call(20, 30)], 101);
  }

  /** A heartbeat leaves the limit alone exactly when it carries the live limit, up
      to clamping, or arrives during the cooldown; either way it is a signal. */
  lemma HeartbeatNeutralIff(b: Bounds, s: Status, c: Call)
    requires b.Sound() && s.limit >= 1
    ensures Apply(b, s, c).limit == s.limit <==> Clamp(b, c.candidate) == s.limit || Cooling(b, s, c.stamp)
    ensures Apply(b, s, c).lastSignal == c.stamp
    ensures b.minLimit <= s.limit <= b.maxLimit && c.candidate == s.limit ==>
              Apply(b, s, c) == s.(lastSignal := c.stamp)
  {
    CallIsSafe(b, s, c);
  }

  // ----- the freshness test and its fallback, two critical sections -----

  /** The strategy beside the one goroutine that tests its freshness; `pending` is set
      while that has found it stale and not yet called the fallback. */
  datatype Watch = Watch(status: Status, pending: bool)

  datatype Action = Live(c: Call) | Look(now: int) | Fire(stamp: int)

  /** One critical section. The goroutine tests again only after its fallback. */
  function Act(b: Bounds, w: Watch, a: Action): Watch {
    match a
    case Live(c) => w.(status := Apply(b, w.status, c))
    case Look(now) => if w.pending then w else w.(pending := Stale(b, w.status, now))
    case Fire(stamp) =>
      if w.pending then Watch(Apply(b, w.status, Call(b.fallbackTo, stamp)), false) else w
  }

  function Acts(b: Bounds, w: Watch, actions: seq<Action>): Watch
    decreases |actions|
  {
    if actions == [] then w else Acts(b, Act(b, w, actions[0]), actions[1..])
  }

  /** Once a test has found the strategy stale, its fallback stays pending, whatever
      happens, until it fires; firing ends it. */
  lemma {:induction false} StaysPending(b: Bounds, w: Watch, actions: seq<Action>)
    requires w.pending && forall a :: a in actions ==> !a.Fire?
    ensures Acts(b, w, actions).pending
    ensures forall stamp :: !Act(b, Acts(b, w, actions), Fire(stamp)).pending
    decreases |actions|
  {
    if actions != [] {
      assert actions[0] in actions && forall a :: a in actions[1..] ==> a in actions;
      StaysPending(b, Act(b, w, actions[0]), actions[1..]);
    }
  }

  /** The calls an interleaving amounts to. */
  function Calls(b: Bounds, w: Watch, actions: seq<Action>): seq<Call>
    decreases |actions|
  {
    if actions == [] then []
    else (match actions[0]
          case Live(c) => [c]
          case Look(_) => []
          case Fire(stamp) => if w.pending then [Call(b.fallbackTo, stamp)] else [])
         + Calls(b, Act(b, w, actions[0]), actions[1..])
  }

  /** Every interleaving of live calls with tests and fallbacks goes exactly as a run of
      calls, so that all that holds over runs of calls holds for it. */
  lemma {:induction false} InterleavingsAreRuns(b: Bounds, w: Watch, actions: seq<Action>)
    ensures Acts(b, w, actions).status == Play(b, w.status, Calls(b, w, actions))
    decreases |actions|
  {
    if actions != [] {
      InterleavingsAreRuns(b, Act(b, w, actions[0]), actions[1..]);
      hide Apply;
      var rest := Calls(b, Act(b, w, actions[0]), actions[1..]);
      var calls := Calls(b, w, actions);
      assert calls == rest || calls[1..] == rest;
    }
  }

  /** Two sections back to back are one tick of the fail-safe. */
  lemma Undisturbed(b: Bounds, s: Status, t: Tick)
    ensures Acts(b, Watch(s, false), [Look(t.check), Fire(t.stamp)]) == Watch(EnsureFresh(b, s, t), false)
  {
    var w, u := Watch(s, false), Act(b, Watch(s, false), Look(t.check));
    var both := [Look(t.check), Fire(t.stamp)];
    assert both[1..] == [Fire(t.stamp)] && both[1..][1..] == [];
    hide Apply, Stale;
    assert Acts(b, w, both) == Acts(b, u, both[1..]) == Acts(b, Act(b, u, Fire(t.stamp)), []);
  }

  /** When the limit last changed, after a run of calls. */
  function LastChange(b: Bounds, s: Status, cs: seq<Call>): Option<int> {
    var stamps := AcceptedStamps(b, s, cs);
    if stamps == [] then s.lastApply else Some(stamps[|stamps| - 1])
  }

  lemma {:induction false} LastChangeIsStored(b: Bounds, s: Status, cs: seq<Call>)
    ensures Play(b, s, cs).lastApply == LastChange(b, s, cs)
    decreases |cs|
  {
    if cs != [] {
      LastChangeIsStored(b, Apply(b, s, cs[0]), cs[1..]);
    }
  }

  function LiveCalls(cs: seq<Call>): seq<Action> {
    seq(|cs|, k requires 0 <= k < |cs| => Live(cs[k]))
  }

  lemma {:induction false} LiveCallsThen(b: Bounds, w: Watch, cs: seq<Call>, last: Action)
    ensures Acts(b, w, LiveCalls(cs) + [last]) == Act(b, w.(status := Play(b, w.status, cs)), last)
    decreases |cs|
  {
    var actions := LiveCalls(cs) + [last];
    if cs == [] {
      assert actions == [last] && actions[1..] == [];
    } else {
      assert actions[0] == Live(cs[0]) && actions[1..] == LiveCalls(cs[1..]) + [last];
      LiveCallsThen(b, Act(b, w, actions[0]), cs[1..], last);
    }
  }

  /** The race, whatever calls slip in between test and fallback. The fallback moves
      the limit exactly when the test found the strategy stale, those calls have not
      brought the limit to the fallback, and the last accepted one, or the last change
      before if none was, is at least a cooldown ago: a live call accepted less than a
      cooldown before turns the fallback into a mere signal. Otherwise the test costs
      one step. */
  lemma FallbackRace(b: Bounds, s: Status, check: int, live: seq<Call>, fire: int)
    requires b.Sound() && s.limit >= 1
    ensures var u := Play(b, s, live);
            var end := Acts(b, Watch(s, false), [Look(check)] + (LiveCalls(live) + [Fire(fire)]));
            var last := LastChange(b, s, live);
            && !end.pending
            && (end.status.limit != u.limit
                <==> Stale(b, s, check) && u.limit != b.fallbackTo
                     && (last.Some? ==> fire - last.value >= b.cooldown))
            && (end.status.limit != u.limit ==>
                  end.status.limit == Toward(u.limit, b.fallbackTo, b.maxDelta))
            && end.status.lastSignal == (if Stale(b, s, check) then fire else u.lastSignal)
  {
    var w := Act(b, Watch(s, false), Look(check));
    var actions := [Look(check)] + (LiveCalls(live) + [Fire(fire)]);
    assert actions[1..] == LiveCalls(live) + [Fire(fire)];
    LiveCallsThen(b, w, live, Fire(fire));
    LastChangeIsStored(b, s, live);
    RunStaysInEnvelope(b, s, live);
    CallIsSafe(b, Play(b, s, live), Call(b.fallbackTo, fire));
    hide Play, LastChange;
  }

  /** The distance the limit travels in fallback calls. */
  function FallbackTravel(b: Bounds, w: Watch, actions: seq<Action>): nat
    decreases |actions|
  {
    if actions == [] then 0
    else (if actions[0].Fire? then Magnitude(Act(b, w, actions[0]).status.limit - w.status.limit) else 0)
         + FallbackTravel(b, Act(b, w, actions[0]), actions[1..])
  }

  /** How many tests find the strategy stale. */
  function StaleLooks(b: Bounds, w: Watch, actions: seq<Action>): nat
    decreases |actions|
  {
    if actions == [] then 0
    else (if actions[0].Look? && !w.pending && Act(b, w, actions[0]).pending then 1 else 0)
         + StaleLooks(b, Act(b, w, actions[0]), actions[1..])
  }

  /** In every interleaving a stale test costs at most one step of the limit. */
  lemma {:induction false} StaleLooksCostSteps(b: Bounds, w: Watch, actions: seq<Action>)
    requires b.Sound() && w.status.limit >= 1
    ensures FallbackTravel(b, w, actions)
            <= b.maxDelta * (StaleLooks(b, w, actions) + if w.pending then 1 else 0)
    decreases |actions|
  {
    if actions != [] {
      var a, rest := actions[0], actions[1..];
      var v := Act(b, w, a);
      match a {
        case Live(c) => CallIsSafe(b, w.status, c);
        case Look(_) =>
        case Fire(stamp) => CallIsSafe(b, w.status, Call(b.fallbackTo, stamp));
      }
      hide Apply;
      StaleLooksCostSteps(b, v, rest);
      TimesMonotone(b.maxDelta, StaleLooks(b, v, rest), StaleLooks(b, v, rest) + 1);
    }
  }

  // ----- machine integers -----

  /** If the settings and the limit fit in machine integers up to `top`, so does every
      value the strategy computes, although `current + maxDelta` is not guarded. */
  lemma NoOverflow(b: Bounds, s: Status, c: Call, top: int)
    requires b.Sound() && b.maxLimit <= top && b.maxDelta <= top && 1 <= s.limit <= top
    ensures var target := Clamp(b, c.candidate);
            && Magnitude(target - s.limit) <= top
            && (Magnitude(target - s.limit) > b.maxDelta ==>
                  if target > s.limit then s.limit + b.maxDelta <= top else s.limit - b.maxDelta >= 1)
  {
  }
}
