/** Properties of whole runs of the admission protocol: who gets slots, in which
    order, after how long, and how far the counters may drift. */
module AdmissionRuns {
  import opened AdmissionCore
  import opened Protocol

  // ----- conservation of slots -----

  /** A step in which the `Acquire` call of `r` returns nil. */
  predicate Acquires<T(==)>(s: State<T>, e: Event<T>, r: T) {
    e == Wake(r) || (e == Acquire(r) && s.core.active < s.core.limit)
  }

  ghost function AcquireCount<T>(s: State<T>, es: seq<Event<T>>, r: T): nat
    decreases |es|
  {
    if es == [] then 0
    else (if Acquires(s, es[0], r) then 1 else 0) + AcquireCount(Next(s, es[0]), es[1..], r)
  }

  ghost function ReleaseCount<T>(es: seq<Event<T>>, r: T): nat {
    if es == [] then 0
    else (if es[0] == Release(r) then 1 else 0) + ReleaseCount(es[1..], r)
  }

  function HasAcquired<T(==)>(s: State<T>, r: T): nat {
    if r in s.pc && (s.pc[r] == Running || s.pc[r] == Finished(true)) then 1 else 0
  }

  function HasReleased<T(==)>(s: State<T>, r: T): nat {
    if r in s.pc && s.pc[r] == Finished(true) then 1 else 0
  }

  lemma {:induction false} CountsFollowPhase<T>(s: State<T>, es: seq<Event<T>>, r: T)
    requires Legal(s, es)
    ensures HasAcquired(Exec(s, es), r) == HasAcquired(s, r) + AcquireCount(s, es, r)
    ensures HasReleased(Exec(s, es), r) == HasReleased(s, r) + ReleaseCount(es, r)
    decreases |es|
  {
    if es != [] {
      PhaseStep(s, es[0], r);
      hide Next, HasAcquired, HasReleased, Acquires;
      CountsFollowPhase(Next(s, es[0]), es[1..], r);
    }
  }

  lemma PhaseStep<T>(s: State<T>, e: Event<T>, r: T)
    requires Enabled(s, e)
    ensures HasAcquired(Next(s, e), r) == HasAcquired(s, r) + if Acquires(s, e, r) then 1 else 0
    ensures HasReleased(Next(s, e), r) == HasReleased(s, r) + if e == Release(r) then 1 else 0
  {
  }

  /** A request has acquired at most once, and released at most as often; once it is
      finished it has released exactly as often as it acquired: once if admitted, never
      if cancelled. */
  ghost predicate Balanced<T>(t: State<T>, r: T, acquired: nat, released: nat) {
    && acquired <= 1 && released <= acquired
    && (r in t.pc && t.pc[r].Finished? ==>
          released == acquired == if t.pc[r].admitted then 1 else 0)
  }

  /** In every run, `active` is the number of requests that own a slot, and every
      request is balanced. */
  lemma SlotsConserved<T>(limit: int, es: seq<Event<T>>, r: T)
    requires Legal(Init(limit), es)
    ensures var t := Exec(Init(limit), es);
            && Inv(t) && t.core.active == |Owners(t)|
            && Balanced(t, r, AcquireCount(Init(limit), es, r), ReleaseCount(es, r))
  {
    InitInv<T>(limit);
    RunInv(Init(limit), es);
    CountsFollowPhase(Init(limit), es, r);
  }

  // ----- first in, first out -----

  function Joins<T(==)>(s: State<T>, e: Event<T>): seq<T> {
    if e.Acquire? && s.core.active >= s.core.limit then [e.r] else []
  }

  function Drops<T(==)>(s: State<T>, e: Event<T>): set<T> {
    if e.Abandon? && e.r in s.core.queue then {e.r} else {}
  }

  ghost function EnqueueLog<T>(s: State<T>, es: seq<Event<T>>): seq<T>
    decreases |es|
  {
    if es == [] then [] else Joins(s, es[0]) + EnqueueLog(Next(s, es[0]), es[1..])
  }

  ghost function GrantLog<T>(s: State<T>, es: seq<Event<T>>): seq<T>
    decreases |es|
  {
    if es == [] then [] else Granted(s, es[0]) + GrantLog(Next(s, es[0]), es[1..])
  }

  /** The requests cancelled while still queued. */
  ghost function Dropped<T>(s: State<T>, es: seq<Event<T>>): set<T>
    decreases |es|
  {
    if es == [] then {} else Drops(s, es[0]) + Dropped(Next(s, es[0]), es[1..])
  }

  function Except<T(==)>(q: seq<T>, drop: set<T>): seq<T> {
    if q == [] then []
    else (if q[0] in drop then [] else [q[0]]) + Except(q[1..], drop)
  }

  lemma {:induction false} ExceptAppend<T>(a: seq<T>, b: seq<T>, drop: set<T>)
    ensures Except(a + b, drop) == Except(a, drop) + Except(b, drop)
  {
    if a == [] {
      assert a + b == b;
    } else {
      assert (a + b)[1..] == a[1..] + b;
      ExceptAppend(a[1..], b, drop);
    }
  }

  lemma {:induction false} ExceptNone<T>(a: seq<T>, drop: set<T>)
    requires forall r :: r in a ==> r !in drop
    ensures Except(a, drop) == a
  {
    if a != [] { ExceptNone(a[1..], drop); }
  }

  lemma {:induction false} ExceptMore<T>(a: seq<T>, drop: set<T>, more: set<T>)
    requires forall r :: r in a ==> (r in drop <==> r in more)
    ensures Except(a, drop) == Except(a, more)
  {
    if a != [] { ExceptMore(a[1..], drop, more); }
  }

  /** Only a request that is queued, or has not arrived yet, is ever dropped from
      the queue, and nobody is queued a second time. */
  lemma {:induction false} DroppedWasQueued<T>(s: State<T>, es: seq<Event<T>>, r: T)
    requires Inv(s) && Legal(s, es)
    requires r in s.pc && r !in s.core.queue
    ensures r !in Dropped(s, es) && r !in Exec(s, es).core.queue
    ensures r !in EnqueueLog(s, es) && r !in GrantLog(s, es)
    decreases |es|
  {
    if es != [] {
      NextInv(s, es[0]);
      StaysOut(s, es[0], r);
      hide Next, Enabled, Inv, Granted;
      DroppedWasQueued(Next(s, es[0]), es[1..], r);
    }
  }

  lemma StaysOut<T>(s: State<T>, e: Event<T>, r: T)
    requires Inv(s) && Enabled(s, e) && r in s.pc && r !in s.core.queue
    ensures r in Next(s, e).pc && r !in Next(s, e).core.queue
    ensures r !in Granted(s, e) && r !in Joins(s, e) && r !in Drops(s, e)
  {
    QueueStep(s, e);
    GrantedWait(s, e);
  }

  /** No request is granted a slot from the queue, and so sent its token, twice. */
  lemma {:induction false} GrantedOnce<T>(s: State<T>, es: seq<Event<T>>)
    requires Inv(s) && Legal(s, es)
    ensures Distinct(GrantLog(s, es))
    decreases |es|
  {
    if es != [] {
      var t, g := Next(s, es[0]), Granted(s, es[0]);
      NextInv(s, es[0]);
      GrantedWait(s, es[0]);
      forall r | r in g ensures r !in GrantLog(t, es[1..]) {
        GrantedLeaves(s, es[0], r);
        DroppedWasQueued(t, es[1..], r);
      }
      hide Next, Enabled, Inv, Granted;
      GrantedOnce(t, es[1..]);
      DistinctAppend(g, GrantLog(t, es[1..]));
    }
  }

  lemma DistinctAppend<T>(a: seq<T>, b: seq<T>)
    requires Distinct(a) && Distinct(b) && forall r :: r in a ==> r !in b
    ensures Distinct(a + b)
  {
    forall i, j | 0 <= i < j < |a + b| ensures (a + b)[i] != (a + b)[j] {
      if i < |a| <= j { assert a[i] in a && b[j - |a|] in b; }
    }
  }

  /** Grants are first in, first out over any run: what was granted from the queue,
      followed by who still waits, is the order of enqueueing without the requests
      cancelled before their grant. */
  lemma {:induction false} FirstInFirstOut<T>(s: State<T>, es: seq<Event<T>>)
    requires Inv(s) && Legal(s, es)
    ensures GrantLog(s, es) + Exec(s, es).core.queue
            == Except(s.core.queue + EnqueueLog(s, es), Dropped(s, es))
    decreases |es|
  {
    if es == [] {
      ExceptNone(s.core.queue, {});
      assert s.core.queue + [] == s.core.queue;
    } else {
      hide Next, Enabled, Inv, Granted;
      NextInv(s, es[0]);
      FirstInFirstOut(Next(s, es[0]), es[1..]);
      FifoStep(s, es[0], es[1..]);
      Associative(Granted(s, es[0]), GrantLog(Next(s, es[0]), es[1..]), Exec(s, es).core.queue);
    }
  }

  lemma FifoStep<T>(s: State<T>, e: Event<T>, rest: seq<Event<T>>)
    requires Inv(s) && Enabled(s, e) && Legal(Next(s, e), rest) && Inv(Next(s, e))
    ensures var later, d := EnqueueLog(Next(s, e), rest), Dropped(Next(s, e), rest);
            Except(s.core.queue + (Joins(s, e) + later), Drops(s, e) + d)
            == Granted(s, e) + Except(Next(s, e).core.queue + later, d)
  {
    hide Next, Enabled, Inv, Granted;
    var later, d := EnqueueLog(Next(s, e), rest), Dropped(Next(s, e), rest);
    if e.Abandon? && e.r in s.core.queue {
      DropShift(s, e);
      DroppedWasQueued(Next(s, e), rest, e.r);
      ExceptRemoved(s.core.queue, e.r, later, d);
      assert Joins(s, e) + later == later;
    } else {
      forall r | r in Granted(s, e) ensures r !in d {
        GrantedLeaves(s, e, r);
        DroppedWasQueued(Next(s, e), rest, r);
      }
      QueueShift(s, e);
      ExceptPrefix(s.core.queue, Joins(s, e), Granted(s, e), Next(s, e).core.queue, later, d);
      assert Drops(s, e) + d == d;
    }
  }

  lemma ExceptPrefix<T>(q: seq<T>, joins: seq<T>, g: seq<T>, q': seq<T>, later: seq<T>, d: set<T>)
    requires q + joins == g + q' && forall r :: r in g ==> r !in d
    ensures Except(q + (joins + later), d) == g + Except(q' + later, d)
  {
    hide Except;
    ExceptNone(g, d);
    ExceptAppend(g, q' + later, d);
    Associative(q, joins, later);
    Associative(g, q', later);
  }

  lemma Associative<T>(a: seq<T>, b: seq<T>, c: seq<T>)
    ensures (a + b) + c == a + (b + c)
  {
  }

  lemma ExceptRemoved<T>(q: seq<T>, r: T, later: seq<T>, d: set<T>)
    requires Distinct(q) && r in q && r !in later && r !in d
    ensures Except(q + later, {r} + d) == Except(Without(q, r) + later, d)
  {
    var i := IndexOf(q, r);
    var a, b := q[..i], q[i + 1..];
    ExceptSkip(r, b + later, {r} + d);
    ExceptAppend(a, [r] + (b + later), {r} + d);
    ExceptAppend(a, b + later, d);
    assert forall x :: x in a || x in b ==> x != r;
    hide Except;
    ExceptMore(a, {r} + d, d);
    ExceptMore(b + later, {r} + d, d);
    assert q + later == a + ([r] + (b + later)) by {
      assert q == a + ([r] + b);
      Associative(a, [r] + b, later);
      Associative([r], b, later);
    }
    Associative(a, b, later);
  }

  lemma ExceptSkip<T>(r: T, q: seq<T>, drop: set<T>)
    requires r in drop
    ensures Except([r] + q, drop) == Except(q, drop)
  {
    assert ([r] + q)[1..] == q;
  }

  lemma DropShift<T>(s: State<T>, e: Event<T>)
    requires Inv(s) && Enabled(s, e) && Drops(s, e) != {}
    ensures e.Abandon? && e.r in s.core.queue && Distinct(s.core.queue)
    ensures Next(s, e).core.queue == Without(s.core.queue, e.r) && Granted(s, e) == []
    ensures e.r in Next(s, e).pc && e.r !in Next(s, e).core.queue
    ensures Drops(s, e) == {e.r} && Joins(s, e) == []
  {
    WithoutFacts(s.core.queue, e.r);
  }

  lemma GrantedLeaves<T>(s: State<T>, e: Event<T>, r: T)
    requires Inv(s) && Enabled(s, e) && r in Granted(s, e)
    ensures r in Next(s, e).pc && r !in Next(s, e).core.queue
  {
    GrantedWait(s, e);
    QueueStep(s, e);
  }

  lemma QueueShift<T>(s: State<T>, e: Event<T>)
    requires Inv(s) && Enabled(s, e) && Drops(s, e) == {}
    ensures s.core.queue + Joins(s, e) == Granted(s, e) + Next(s, e).core.queue
  {
    GrantedWait(s, e);
    if e.Abandon? {
      assert e.r in Drops(s, e) || e.r !in s.core.queue;
    }
  }

  /** While anybody is queued, an arrival queues up behind. */
  lemma NoOvertaking<T>(s: State<T>, r: T)
    requires Inv(s) && Enabled(s, Acquire(r)) && s.core.queue != []
    ensures Next(s, Acquire(r)).core.queue == s.core.queue + [r]
    ensures !Owns(Next(s, Acquire(r)), r)
  {
  }

  // ----- how long a queued request waits -----

  /** The number of slots that have to come free before `r` is granted one. */
  function Rank<T(==)>(s: State<T>, r: T): int
    requires r in s.core.queue
  {
    IndexOf(s.core.queue, r) + 1 + s.core.active - s.core.limit
  }

  /** What one step takes off the rank of `r`. */
  function Advance<T(==)>(s: State<T>, e: Event<T>, r: T): int
    requires r in s.core.queue
  {
    if IsReturn(s, e) then 1
    else if e.Abandon? then (if IndexOf(s.core.queue, e.r) < IndexOf(s.core.queue, r) then 1 else 0)
    else if e.SetLimit? then AtLeastOne(e.n) - s.core.limit
    else 0
  }

  lemma NotifyRank<T>(c: Core<T>, r: T)
    requires Distinct(c.queue) && r in c.queue
    ensures var raw := IndexOf(c.queue, r) + 1 + c.active - c.limit;
            var d := Notify(c);
            && (r in d.queue <==> raw > 0)
            && (r in d.queue ==> IndexOf(d.queue, r) + 1 + d.active - d.limit == raw)
            && (r in c.queue[..GrantCount(c)] <==> raw <= 0)
  {
    SuffixIndex(c.queue, GrantCount(c), r);
  }

  /** The rank of a queued request is positive, changes by exactly `Advance` in
      every step, and the request is granted its slot in precisely the step that
      would bring the rank to zero or below. Later arrivals do not matter. */
  lemma RankStep<T>(s: State<T>, e: Event<T>, r: T)
    requires Inv(s) && Enabled(s, e) && r in s.core.queue && e != Abandon(r)
    ensures Rank(s, r) >= 1
    ensures r in Next(s, e).core.queue <==> Rank(s, r) - Advance(s, e, r) > 0
    ensures r in Next(s, e).core.queue ==> Rank(Next(s, e), r) == Rank(s, r) - Advance(s, e, r)
    ensures r !in Next(s, e).core.queue ==>
              r in Granted(s, e) && r in Next(s, e).pc && Owns(Next(s, e), r)
  {
    if WakesUp(s, e) {
      RankWakeUp(s, e, r);
    } else if e.Abandon? {
      WithoutFacts(s.core.queue, e.r);
    } else if e.Acquire? {
      QueueStep(s, e);
      DistinctIndex(Next(s, e).core.queue, r, IndexOf(s.core.queue, r));
    }
  }

  lemma RankWakeUp<T>(s: State<T>, e: Event<T>, r: T)
    requires Inv(s) && Enabled(s, e) && r in s.core.queue && WakesUp(s, e)
    ensures r in Next(s, e).core.queue <==> Rank(s, r) - Advance(s, e, r) > 0
    ensures r in Next(s, e).core.queue ==> Rank(Next(s, e), r) == Rank(s, r) - Advance(s, e, r)
    ensures r !in Next(s, e).core.queue ==>
              r in Granted(s, e) && r in Next(s, e).pc && Owns(Next(s, e), r)
  {
    if IsReturn(s, e) { FloorsNeverFire(s, e); }
    NotifyRank(BeforeWakeUp(s, e), r);
    assert OneToken(s, r);
    OwnsStep(s, e, r);
  }

  /** Slots given back, and cancellations ahead of `r`, during a run. */
  ghost function Progress<T>(s: State<T>, es: seq<Event<T>>, r: T): nat
    decreases |es|
  {
    if es == [] || r !in s.core.queue then 0
    else (if IsReturn(s, es[0]) || (es[0].Abandon? && Advance(s, es[0], r) == 1) then 1 else 0)
         + Progress(Next(s, es[0]), es[1..], r)
  }

  /** Only a limit change changes the limit: to what it asks for, or to 1 if that is
      less. */
  lemma LimitStep<T>(s: State<T>, e: Event<T>)
    ensures Next(s, e).core.limit
            == if !e.SetLimit? then s.core.limit else if e.n < 1 then 1 else e.n
  {
  }

  /** Over a run that leaves `r` queued, its rank falls by exactly the progress
      made plus the net rise of the limit. */
  lemma {:induction false} RankTelescopes<T>(s: State<T>, es: seq<Event<T>>, r: T)
    requires Inv(s) && Legal(s, es) && Abandon(r) !in es
    requires r in s.core.queue && r in Exec(s, es).core.queue
    ensures var t := Exec(s, es);
            1 <= Rank(t, r) == Rank(s, r) - Progress(s, es, r) - (t.core.limit - s.core.limit)
    decreases |es|
  {
    if es == [] {
      assert OneToken(s, r);
    } else {
      LimitStep(s, es[0]);
      hide Next, Enabled, Inv;
      var t := Next(s, es[0]);
      NextInv(s, es[0]);
      RankStep(s, es[0], r);
      if r !in t.core.queue {
        DroppedWasQueued(t, es[1..], r);
      } else {
        RankTelescopes(t, es[1..], r);
      }
    }
  }

  /** Bounded waiting: a request at rank k that does not give up is out of the queue
      after a run that makes k units of progress, counting a net rise of the limit. */
  lemma BoundedWaiting<T>(s: State<T>, es: seq<Event<T>>, r: T)
    requires Inv(s) && Legal(s, es) && Abandon(r) !in es
    requires r in s.core.queue
    requires Progress(s, es, r) + Exec(s, es).core.limit - s.core.limit >= Rank(s, r)
    ensures r !in Exec(s, es).core.queue
  {
    if r in Exec(s, es).core.queue {
      RankTelescopes(s, es, r);
    }
  }

  // ----- the limit -----

  function Excess<T>(s: State<T>): nat {
    if s.core.active > s.core.limit then s.core.active - s.core.limit else 0
  }

  /** Lowering the limit takes no slot away: only that step can raise the excess of
      active requests over the limit, by at most the amount lowered, and nobody is
      admitted while the limit is reached. */
  lemma ShrinkIsNonPreemptive<T>(s: State<T>, e: Event<T>)
    requires Inv(s) && Enabled(s, e)
    ensures Excess(Next(s, e)) > Excess(s) ==> e.SetLimit? && Next(s, e).core.limit < s.core.limit
    ensures Next(s, e).core.limit < s.core.limit ==>
              Excess(Next(s, e)) <= Excess(s) + s.core.limit - Next(s, e).core.limit
    ensures e.SetLimit? ==> Owners(s) <= Owners(Next(s, e))
    ensures Next(s, e).core.active > s.core.active ==>
              Next(s, e).core.active <= Next(s, e).core.limit
    ensures s.core.active >= s.core.limit && !e.SetLimit? ==> Next(s, e).core.active <= s.core.active
  {
    ActiveStep(s, e);
    if IsReturn(s, e) { FloorsNeverFire(s, e); }
    if e.SetLimit? {
      GrantedWait(s, e);
      forall r | r in Owners(s) ensures r in Owners(Next(s, e)) {
        assert OneToken(s, r);
        OwnsStep(s, e, r);
      }
    }
  }

  /** From a state within the limit, a step stays within it exactly when it does
      not set the limit below the number of active requests. */
  lemma WithinLimitIff<T>(s: State<T>, e: Event<T>)
    requires Inv(s) && Enabled(s, e) && s.core.active <= s.core.limit
    ensures Next(s, e).core.active <= Next(s, e).core.limit
            <==> !(e.SetLimit? && AtLeastOne(e.n) < s.core.active)
  {
    ActiveStep(s, e);
  }

  lemma UnfoldRun<T>(s: State<T>, es: seq<Event<T>>)
    requires es != []
    ensures Exec(s, es) == Exec(Next(s, es[0]), es[1..])
    ensures Legal(s, es) <==> Enabled(s, es[0]) && Legal(Next(s, es[0]), es[1..])
  {
  }

  lemma {:induction false} RunsCompose<T>(s: State<T>, a: seq<Event<T>>, b: seq<Event<T>>)
    requires Legal(s, a) && Legal(Exec(s, a), b)
    ensures Legal(s, a + b) && Exec(s, a + b) == Exec(Exec(s, a), b)
    decreases |a|
  {
    hide Next;
    if a == [] {
      assert a + b == b;
    } else {
      assert (a + b)[1..] == a[1..] + b;
      RunsCompose(Next(s, a[0]), a[1..], b);
    }
  }

  lemma OneStep<T>(s: State<T>, e: Event<T>)
    ensures Legal(s, [e]) == Enabled(s, e) && Exec(s, [e]) == Next(s, e)
  {
    hide Next, Enabled;
    UnfoldRun(s, [e]);
  }

  lemma OneMore<T>(s: State<T>, es: seq<Event<T>>, e: Event<T>)
    requires Legal(s, es) && Enabled(Exec(s, es), e)
    ensures Legal(s, es + [e]) && Exec(s, es + [e]) == Next(Exec(s, es), e)
  {
    hide Next, Enabled, Exec, Legal;
    OneStep(Exec(s, es), e);
    RunsCompose(s, es, [e]);
  }

  /** The first `n` requests arrive. */
  function Arrivals(n: nat): seq<Event<int>> {
    if n == 0 then [] else Arrivals(n - 1) + [Acquire(n - 1)]
  }

  function FirstRunning(n: nat): (pc: map<int, PC>)
    ensures forall r :: r in pc <==> 0 <= r < n
    ensures forall r :: r in pc ==> pc[r] == Running
  {
    if n == 0 then map[] else FirstRunning(n - 1)[n - 1 := Running]
  }

  /** `n` requests hold slots and nobody else has come. */
  function Filled(limit: int, n: nat): State<int> {
    State(Core(limit, n, 0, []), FirstRunning(n), {})
  }

  lemma {:induction false} FillUp(limit: int, n: nat)
    requires 1 <= limit && n <= limit
    ensures Legal(Init(limit), Arrivals(n)) && Exec(Init(limit), Arrivals(n)) == Filled(limit, n)
  {
    if n > 0 {
      FillUp(limit, n - 1);
      AcquireIs(Filled(limit, n - 1), n - 1);
      hide Exec, Legal, Next;
      OneMore(Init(limit), Arrivals(n - 1), Acquire(n - 1));
    }
  }

  /** "active never exceeds limit" is not an invariant: with every slot taken, the
      limit drops to anything below. */
  lemma ActiveCanExceedLimit(limit: int, n: int)
    requires 1 <= n < limit
    ensures var es := Arrivals(limit) + [SetLimit(n)];
            var c := Exec(Init(limit), es).core;
            Legal(Init(limit), es) && c.active == limit && c.limit == n
  {
    FillUp(limit, limit);
    assert Next(Filled(limit, limit), SetLimit(n)).core == Core(n, limit, 0, []);
    hide Exec, Legal, Next;
    OneMore(Init(limit), Arrivals(limit), SetLimit(n));
  }

  /** The largest limit in force at any moment of a run. */
  ghost function PeakLimit<T>(s: State<T>, es: seq<Event<T>>): int
    decreases |es|
  {
    if es == [] then s.core.limit else
      var rest := PeakLimit(Next(s, es[0]), es[1..]);
      if s.core.limit > rest then s.core.limit else rest
  }

  ghost predicate NeverFalls<T>(s: State<T>, es: seq<Event<T>>)
    decreases |es|
  {
    es == [] || (s.core.limit <= Next(s, es[0]).core.limit && NeverFalls(Next(s, es[0]), es[1..]))
  }

  lemma {:induction false} PeakBoundsActive<T>(s: State<T>, es: seq<Event<T>>)
    requires Inv(s) && Legal(s, es)
    ensures Exec(s, es).core.active <= s.core.active || Exec(s, es).core.active <= PeakLimit(s, es)
    ensures NeverFalls(s, es) && s.core.active <= s.core.limit ==>
              Exec(s, es).core.active <= Exec(s, es).core.limit
    decreases |es|
  {
    hide Next, Enabled, Inv;
    if es != [] {
      var t := Next(s, es[0]);
      NextInv(s, es[0]);
      ShrinkIsNonPreemptive(s, es[0]);
      PeakBoundsActive(t, es[1..]);
      PeakAtLeastNow(t, es[1..]);
    }
  }

  lemma PeakAtLeastNow<T>(s: State<T>, es: seq<Event<T>>)
    ensures PeakLimit(s, es) >= s.core.limit
  {
  }

  /** In every run from start-up, `active` never exceeds the largest limit so far,
      and never the limit itself if the limit only rose. */
  lemma ActiveBounded<T>(limit: int, es: seq<Event<T>>)
    requires Legal(Init(limit), es)
    ensures Exec(Init(limit), es).core.active <= PeakLimit(Init(limit), es)
    ensures NeverFalls(Init(limit), es) ==>
              Exec(Init(limit), es).core.active <= Exec(Init(limit), es).core.limit
  {
    InitInv<T>(limit);
    PeakAtLeastNow(Init(limit), es);
    PeakBoundsActive(Init(limit), es);
  }

  // ----- the waiting counter -----

  /** By how much the counter `waiting` understates the queue. */
  function Lag<T>(s: State<T>): int {
    |s.core.queue| - s.core.waiting
  }

  /** The lag changes in exactly one kind of step, a cancellation after the grant:
      there the second decrement adds one, but the floor at zero caps the lag at
      the queue length of that moment. */
  lemma LagStep<T>(s: State<T>, e: Event<T>)
    requires Inv(s) && Enabled(s, e) && Lag(s) >= 0
    ensures Lag(Next(s, e)) ==
            if IsGiveBack(s, e) then
              (if Lag(s) + 1 < |s.core.queue| then Lag(s) + 1 else |s.core.queue|)
            else Lag(s)
  {
  }

  ghost function GiveBacks<T>(s: State<T>, es: seq<Event<T>>): nat
    decreases |es|
  {
    if es == [] then 0
    else (if IsGiveBack(s, es[0]) then 1 else 0) + GiveBacks(Next(s, es[0]), es[1..])
  }

  lemma {:induction false} LagRun<T>(s: State<T>, es: seq<Event<T>>)
    requires Inv(s) && Legal(s, es) && Lag(s) >= 0
    ensures 0 <= Lag(Exec(s, es)) <= Lag(s) + GiveBacks(s, es)
    decreases |es|
  {
    if es != [] {
      NextInv(s, es[0]);
      LagStep(s, es[0]);
      LagRun(Next(s, es[0]), es[1..]);
    }
  }

  /** `waiting` never overstates the queue, understates it by at most the number of
      cancellations after a grant, and is exact in a run without one. */
  lemma WaitingBounds<T>(limit: int, es: seq<Event<T>>)
    requires Legal(Init(limit), es)
    ensures var t := Exec(Init(limit), es);
            && |t.core.queue| - GiveBacks(Init(limit), es) <= t.core.waiting <= |t.core.queue|
            && (GiveBacks(Init(limit), es) == 0 ==> t.core.waiting == |t.core.queue|)
  {
    InitInv<T>(limit);
    LagRun(Init(limit), es);
  }

  /** The last give-back of a run found nobody queued; `otherwise` if there is none. */
  ghost predicate LastFoundEmpty<T>(s: State<T>, es: seq<Event<T>>, otherwise: bool)
    decreases |es|
  {
    if es == [] then otherwise
    else LastFoundEmpty(Next(s, es[0]), es[1..],
                        if IsGiveBack(s, es[0]) then s.core.queue == [] else otherwise)
  }

  lemma {:induction false} LagZeroIff<T>(s: State<T>, es: seq<Event<T>>)
    requires Inv(s) && Legal(s, es) && Lag(s) >= 0
    ensures Lag(Exec(s, es)) == 0 <==> LastFoundEmpty(s, es, Lag(s) == 0)
    decreases |es|
  {
    if es != [] {
      NextInv(s, es[0]);
      LagStep(s, es[0]);
      hide Next, Inv, IsGiveBack;
      LagZeroIff(Next(s, es[0]), es[1..]);
    }
  }

  /** `waiting` is exact after a run from start-up exactly when the run has no
      cancellation after a grant, or the last one found nobody queued. */
  lemma WaitingExactIff<T>(limit: int, es: seq<Event<T>>)
    requires Legal(Init(limit), es)
    ensures var t := Exec(Init(limit), es);
            t.core.waiting == |t.core.queue| <==> LastFoundEmpty(Init(limit), es, true)
  {
    InitInv<T>(limit);
    LagZeroIff(Init(limit), es);
  }

  /** Requests 0 to limit - 1 hold all the slots; two more queue up. */
  function Crowd(limit: nat): seq<Event<int>> {
    Arrivals(limit) + [Acquire(limit)] + [Acquire(limit + 1)]
  }

  function Crowded(limit: nat): State<int> {
    State(Core(limit, limit, 2, [limit, limit + 1]),
          FirstRunning(limit)[limit := Selecting][limit + 1 := Selecting], {})
  }

  function OneQueued(limit: nat): State<int> {
    State(Core(limit, limit, 1, [limit]), FirstRunning(limit)[limit := Selecting], {})
  }

  lemma FirstQueues(limit: int)
    requires 1 <= limit
    ensures Enabled(Filled(limit, limit), Acquire(limit))
    ensures Next(Filled(limit, limit), Acquire(limit)) == OneQueued(limit)
  {
    AcquireIs(Filled(limit, limit), limit);
    hide Next;
  }

  lemma SecondQueues(limit: int)
    requires 1 <= limit
    ensures Enabled(OneQueued(limit), Acquire(limit + 1))
    ensures Next(OneQueued(limit), Acquire(limit + 1)) == Crowded(limit)
  {
    AcquireIs(OneQueued(limit), limit + 1);
    hide Next;
    assert [limit] + [limit + 1] == [limit, limit + 1];
  }

  lemma CrowdQueues(limit: int)
    requires 1 <= limit
    ensures Legal(Init(limit), Crowd(limit)) && Exec(Init(limit), Crowd(limit)) == Crowded(limit)
  {
    FillUp(limit, limit);
    FirstQueues(limit);
    SecondQueues(limit);
    hide Exec, Legal, Next, Enabled, Filled, Crowded, Arrivals;
    OneMore(Init(limit), Arrivals(limit), Acquire(limit));
    OneMore(Init(limit), Arrivals(limit) + [Acquire(limit)], Acquire(limit + 1));
  }

  /** The first of the two picks ctx.Done, is granted a slot before it gets the lock,
      and gives it back, which admits the second. */
  function Race(limit: nat): seq<Event<int>> {
    Crowd(limit) + [ChooseCancel(limit)] + [Release(0)] + [Abandon(limit)]
  }

  lemma GrantDuringRace(s: State<int>, limit: int)
    requires 1 <= limit && s.core == Core(limit, limit, 2, [limit, limit + 1])
    ensures var t := Next(s, Release(0));
            && t.core == Core(limit, limit, 1, [limit + 1]) && t.pc == s.pc[0 := Finished(true)]
  {
    ReleaseIs(s, 0);
    hide Next;
    assert s.core.queue[1..] == [limit + 1];
  }

  lemma GiveBackDuringRace(s: State<int>, limit: int)
    requires 1 <= limit && s.core == Core(limit, limit, 1, [limit + 1])
    ensures var t := Next(s, Abandon(limit));
            && t.core == Core(limit, limit, -1, []) && t.pc == s.pc[limit := Finished(false)]
  {
    GiveBackIs(s, limit);
    hide Next;
    assert s.core.queue[1..] == [];
  }

  /** Where the race ends: requests 1 to limit - 1 run, and one more has not come. */
  ghost predicate AfterRace(s: State<int>, limit: int) {
    && s.core == Core(limit, limit, -1, []) && limit + 2 !in s.pc
    && (forall r :: 1 <= r < limit ==> r in s.pc && s.pc[r] == Running)
  }

  function Cancelling(limit: nat): State<int> {
    Crowded(limit).(pc := Crowded(limit).pc[limit := Abandoning])
  }

  lemma CancelStep(limit: int)
    requires 1 <= limit
    ensures Enabled(Crowded(limit), ChooseCancel(limit))
    ensures Next(Crowded(limit), ChooseCancel(limit)) == Cancelling(limit)
  {
    ChooseCancelIs(Crowded(limit), limit);
    hide Next;
  }

  lemma GrantStep(limit: int)
    requires 1 <= limit
    ensures var s := Cancelling(limit);
            && Enabled(s, Release(0)) && Next(s, Release(0)).pc == s.pc[0 := Finished(true)]
            && Next(s, Release(0)).core == Core(limit, limit, 1, [limit + 1])
  {
    GrantDuringRace(Cancelling(limit), limit);
    hide Next;
  }

  lemma GiveBackStep(s: State<int>, limit: int)
    requires 1 <= limit && s.core == Core(limit, limit, 1, [limit + 1])
    requires s.pc == Cancelling(limit).pc[0 := Finished(true)]
    ensures Enabled(s, Abandon(limit)) && AfterRace(Next(s, Abandon(limit)), limit)
  {
    GiveBackDuringRace(s, limit);
    hide Next;
  }

  lemma RaceOutcome(limit: int)
    requires 1 <= limit
    ensures Legal(Init(limit), Race(limit)) && AfterRace(Exec(Init(limit), Race(limit)), limit)
  {
    var s, es := Init(limit), Crowd(limit);
    CrowdQueues(limit);
    CancelStep(limit);
    GrantStep(limit);
    GiveBackStep(Next(Cancelling(limit), Release(0)), limit);
    hide Exec, Legal, Next, Enabled, Crowd, Crowded, Cancelling, AfterRace;
    OneMore(s, es, ChooseCancel(limit));
    OneMore(s, es + [ChooseCancel(limit)], Release(0));
    OneMore(s, es + [ChooseCancel(limit)] + [Release(0)], Abandon(limit));
  }

  predicate KeepsLimit<T(==)>(es: seq<Event<T>>) {
    forall e :: e in es ==> !e.SetLimit?
  }

  lemma {:induction false} ArrivalsKeepLimit(n: nat)
    ensures KeepsLimit(Arrivals(n))
  {
    if n > 0 { ArrivalsKeepLimit(n - 1); }
  }

  lemma RaceKeepsLimit(limit: nat)
    ensures KeepsLimit(Race(limit))
  {
    ArrivalsKeepLimit(limit);
  }

  /** From every initial limit, without any limit change, a state can be reached in
      which nobody waits and `waiting` is -1. */
  lemma WaitingCanBeNegative(limit: int)
    requires 1 <= limit
    ensures var es := Race(limit);
            && KeepsLimit(es) && Legal(Init(limit), es)
            && Exec(Init(limit), es).core == Core(limit, limit, -1, [])
  {
    RaceOutcome(limit);
    RaceKeepsLimit(limit);
    hide Exec, Legal, Race, KeepsLimit;
  }

  /** The race, and then one more arrival. */
  function HiddenWaiter(limit: nat): seq<Event<int>> {
    Race(limit) + [Acquire(limit + 2)]
  }

  lemma WaiterCanBeHidden(limit: int)
    requires 1 <= limit
    ensures KeepsLimit(HiddenWaiter(limit)) && Legal(Init(limit), HiddenWaiter(limit))
    ensures Exec(Init(limit), HiddenWaiter(limit)).core == Core(limit, limit, 0, [limit + 2])
  {
    RaceOutcome(limit);
    RaceKeepsLimit(limit);
    var s := Exec(Init(limit), Race(limit));
    AcquireIs(s, limit + 2);
    hide Next, Exec, Legal, Race;
    OneMore(Init(limit), Race(limit), Acquire(limit + 2));
  }

  /** Requests r to n - 1 return. */
  function Returns(r: int, n: int): seq<Event<int>>
    decreases n - r
  {
    if r >= n then [] else [Release(r)] + Returns(r + 1, n)
  }

  lemma {:induction false} ReturnsKeepLimit(r: int, n: int)
    ensures KeepsLimit(Returns(r, n))
    decreases n - r
  {
    if r < n { ReturnsKeepLimit(r + 1, n); }
  }

  lemma {:induction false} Drain(s: State<int>, r: int, n: int)
    requires r <= n && s.core.queue == [] && s.core.active >= n - r
    requires forall q :: r <= q < n ==> q in s.pc && s.pc[q] == Running
    ensures Legal(s, Returns(r, n))
    ensures Exec(s, Returns(r, n)).core == s.core.(active := s.core.active - (n - r))
    decreases n - r
  {
    if r < n {
      var t := Next(s, Release(r));
      ReleaseIs(s, r);
      hide Next, Exec, Legal;
      assert t.core == s.core.(active := s.core.active - 1);
      Drain(t, r + 1, n);
      var es := Returns(r, n);
      assert es[0] == Release(r) && es[1..] == Returns(r + 1, n);
      hide Returns;
      UnfoldRun(s, es);
    }
  }

  /** The race, and then all but the one admitted last return. */
  function QuietRace(limit: nat): seq<Event<int>> {
    Race(limit) + Returns(1, limit)
  }

  /** So `waiting` can be -1 at every limit with a single request being served. */
  lemma UndercountAtEveryLimit(limit: int)
    requires 1 <= limit
    ensures var es := QuietRace(limit);
            && KeepsLimit(es) && Legal(Init(limit), es)
            && Exec(Init(limit), es).core == Core(limit, 1, -1, [])
  {
    RaceOutcome(limit);
    RaceKeepsLimit(limit);
    ReturnsKeepLimit(1, limit);
    var s := Exec(Init(limit), Race(limit));
    Drain(s, 1, limit);
    hide Exec, Legal, Race, Returns;
    RunsCompose(Init(limit), Race(limit), Returns(1, limit));
  }

  // ----- the counter without its second decrement -----

  /** The step with lines 109-112 of the controller deleted. */
  function NextRepaired<T(==)>(s: State<T>, e: Event<T>): State<T> {
    var t := Next(s, e);
    if IsGiveBack(s, e) then
      t.(core := t.core.(waiting := s.core.waiting - |Granted(s, e)|))
    else t
  }

  ghost function ExecRepaired<T>(s: State<T>, es: seq<Event<T>>): State<T>
    decreases |es|
  {
    if es == [] then s else ExecRepaired(NextRepaired(s, es[0]), es[1..])
  }

  function SameButWaiting<T>(s: State<T>, waiting: int): State<T> {
    s.(core := s.core.(waiting := waiting))
  }

  lemma WaitingIsPassiveBefore<T>(s: State<T>, w: int, e: Event<T>)
    ensures var c := BeforeWakeUp(SameButWaiting(s, w), e);
            c == BeforeWakeUp(s, e).(waiting := c.waiting)
    ensures WakesUp(SameButWaiting(s, w), e) == WakesUp(s, e)
    ensures NextPC(SameButWaiting(s, w), e) == NextPC(s, e)
  {
  }

  lemma WaitingIsPassive<T>(s: State<T>, w: int, e: Event<T>)
    ensures Granted(SameButWaiting(s, w), e) == Granted(s, e)
    ensures var t := Next(SameButWaiting(s, w), e);
            t == SameButWaiting(Next(s, e), t.core.waiting)
  {
    WaitingIsPassiveBefore(s, w, e);
    hide BeforeWakeUp, NextPC, WakesUp;
  }

  /** Deleting the second decrement changes nothing but `waiting`, which then counts
      the queue exactly after every run. */
  lemma {:induction false} RepairedWaitingExact<T>(s: State<T>, w: int, es: seq<Event<T>>)
    requires Inv(s) && Legal(s, es) && w == |s.core.queue|
    ensures var t := ExecRepaired(SameButWaiting(s, w), es);
            t == SameButWaiting(Exec(s, es), |Exec(s, es).core.queue|)
    decreases |es|
  {
    if es != [] {
      RepairedStep(s, es[0]);
      NextInv(s, es[0]);
      RepairedWaitingExact(Next(s, es[0]), |Next(s, es[0]).core.queue|, es[1..]);
    }
  }

  lemma RepairedStep<T>(s: State<T>, e: Event<T>)
    requires Inv(s) && Enabled(s, e)
    ensures NextRepaired(SameButWaiting(s, |s.core.queue|), e)
            == SameButWaiting(Next(s, e), |Next(s, e).core.queue|)
  {
    WaitingIsPassive(s, |s.core.queue|, e);
    RepairedCount(s, |s.core.queue|, e);
  }

  lemma RepairedCount<T>(s: State<T>, w: int, e: Event<T>)
    requires Inv(s) && Enabled(s, e) && w == |s.core.queue|
    ensures NextRepaired(SameButWaiting(s, w), e).core.waiting == |Next(s, e).core.queue|
  {
    WaitingIsPassive(s, w, e);
    GrantedWait(s, e);
  }
}
