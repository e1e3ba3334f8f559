/** Any number of concurrent requests, each running `execute` against one
    controller whose limit may change at any time. A step is one critical section
    or one choice of the scheduler, so a run is a sequence of steps. */
module Protocol {
  import opened AdmissionCore

  /** Where a request stands. One that is absent has not called `Acquire` yet. */
  datatype PC =
    | Selecting                  // blocked in the select of `Acquire`
    | Abandoning                 // chose ctx.Done, has yet to lock in `abandon`
    | Running                    // admitted: `execute` runs its function
    | Finished(admitted: bool)
  {
    predicate Waiting() {
      Selecting? || Abandoning?
    }
  }

  /** `tokens` are the requests whose channel has its token in the buffer. */
  datatype State<T> = State(core: Core<T>, pc: map<T, PC>, tokens: set<T>)

  datatype Event<T> =
    | Acquire(r: T)
    | Wake(r: T)                 // the select receives the token
    | ChooseCancel(r: T)         // the select picks ctx.Done, token or not
    | Abandon(r: T)
    | Release(r: T)
    | SetLimit(n: int)

  function Init<T>(limit: int): State<T> {
    State(Core(AtLeastOne(limit), 0, 0, []), map[], {})
  }

  predicate Enabled<T(==)>(s: State<T>, e: Event<T>) {
    match e
    case Acquire(r) => r !in s.pc
    case Wake(r) => r in s.pc && s.pc[r] == Selecting && r in s.tokens
    case ChooseCancel(r) => r in s.pc && s.pc[r] == Selecting
    case Abandon(r) => r in s.pc && s.pc[r] == Abandoning
    case Release(r) => r in s.pc && s.pc[r] == Running
    case SetLimit(_) => true
  }

  /** The event gives a slot back after its request was granted and cancelled. */
  predicate IsGiveBack<T(==)>(s: State<T>, e: Event<T>) {
    e.Abandon? && e.r !in s.core.queue
  }

  predicate IsReturn<T(==)>(s: State<T>, e: Event<T>) {
    e.Release? || IsGiveBack(s, e)
  }

  /** The controller as the event leaves it before it wakes anybody up. */
  function BeforeWakeUp<T(==)>(s: State<T>, e: Event<T>): Core<T> {
    match e
    case Acquire(r) => Enter(s.core, r)
    case Wake(_) => s.core
    case ChooseCancel(_) => s.core
    case Abandon(r) => if r in s.core.queue then Leave(s.core, r) else GiveBack(s.core)
    case Release(_) => Returned(s.core)
    case SetLimit(n) => Relimit(s.core, n)
  }

  predicate WakesUp<T(==)>(s: State<T>, e: Event<T>) {
    IsReturn(s, e) || e.SetLimit?
  }

  /** The waiters the event grants a slot, oldest first. */
  function Granted<T(==)>(s: State<T>, e: Event<T>): seq<T> {
    if WakesUp(s, e) then
      var c := BeforeWakeUp(s, e);
      c.queue[..GrantCount(c)]
    else []
  }

  function NextPC<T(==)>(s: State<T>, e: Event<T>): map<T, PC> {
    match e
    case Acquire(r) => s.pc[r := if s.core.active < s.core.limit then Running else Selecting]
    case Wake(r) => s.pc[r := Running]
    case ChooseCancel(r) => s.pc[r := Abandoning]
    case Abandon(r) => s.pc[r := Finished(false)]
    case Release(r) => s.pc[r := Finished(true)]
    case SetLimit(_) => s.pc
  }

  function Next<T(==)>(s: State<T>, e: Event<T>): State<T> {
    var c := BeforeWakeUp(s, e);
    var kept := if e.Wake? then s.tokens - {e.r} else s.tokens;
    State(if WakesUp(s, e) then Notify(c) else c,
          NextPC(s, e),
          kept + (set r | r in Granted(s, e)))
  }

  lemma AcquireIs<T>(s: State<T>, r: T)
    ensures Next(s, Acquire(r)) ==
            State(Enter(s.core, r),
                  s.pc[r := if s.core.active < s.core.limit then Running else Selecting], s.tokens)
  {
  }

  lemma WakeIs<T>(s: State<T>, r: T)
    ensures Next(s, Wake(r)) == State(s.core, s.pc[r := Running], s.tokens - {r})
  {
    assert Granted(s, Wake(r)) == [];
  }

  lemma ChooseCancelIs<T>(s: State<T>, r: T)
    ensures Next(s, ChooseCancel(r)) == s.(pc := s.pc[r := Abandoning])
  {
    assert Granted(s, ChooseCancel(r)) == [];
  }

  lemma LeaveIs<T>(s: State<T>, r: T)
    requires r in s.core.queue
    ensures Next(s, Abandon(r)) == State(Leave(s.core, r), s.pc[r := Finished(false)], s.tokens)
  {
  }

  lemma GiveBackIs<T>(s: State<T>, r: T)
    requires r !in s.core.queue
    ensures var c := GiveBack(s.core);
            Next(s, Abandon(r)) ==
            State(Notify(c), s.pc[r := Finished(false)],
                  s.tokens + (set x | x in s.core.queue[..GrantCount(c)]))
  {
  }

  lemma ReleaseIs<T>(s: State<T>, r: T)
    ensures var c := Returned(s.core);
            Next(s, Release(r)) ==
            State(Notify(c), s.pc[r := Finished(true)],
                  s.tokens + (set x | x in s.core.queue[..GrantCount(c)]))
  {
  }

  // ----- the invariant -----

  /** `r` has a slot: it runs, or it was granted one and has neither woken up nor
      abandoned yet. */
  predicate Owns<T(==)>(s: State<T>, r: T) {
    r in s.pc && (s.pc[r] == Running || (s.pc[r].Waiting() && r in s.tokens))
  }

  function Owners<T(==)>(s: State<T>): set<T> {
    set r | r in s.pc && Owns(s, r)
  }

  /** While a request waits, its channel is either in the queue or holds its single
      token, never both; other channels are not queued, and hold a token only when
      it was left behind by a cancellation. */
  predicate OneToken<T(==)>(s: State<T>, r: T) {
    && (r in s.core.queue ==> r in s.pc && s.pc[r].Waiting() && r !in s.tokens)
    && (r in s.pc && s.pc[r].Waiting() ==> r in s.core.queue || r in s.tokens)
    && (r in s.tokens ==> r in s.pc && (s.pc[r].Waiting() || s.pc[r] == Finished(false)))
  }

  ghost predicate Inv<T>(s: State<T>) {
    && s.core.limit >= 1
    && Distinct(s.core.queue)
    && (forall r :: r in s.core.queue ==> r in s.pc)
    && s.tokens <= s.pc.Keys
    && (forall r :: r in s.pc ==> OneToken(s, r))
    && s.core.active == |Owners(s)|
    && (s.core.queue != [] ==> s.core.active >= s.core.limit)
  }

  lemma InitInv<T>(limit: int)
    ensures Inv(Init<T>(limit))
  {
    assert Owners(Init<T>(limit)) == {};
  }

  lemma DistinctCount<T>(q: seq<T>)
    requires Distinct(q)
    ensures |set r | r in q| == |q|
    decreases |q|
  {
    if q != [] {
      var front := q[..|q| - 1];
      DistinctCount(front);
      assert (set r | r in q) == (set r | r in front) + {q[|q| - 1]};
    }
  }

  lemma GrantedWait<T>(s: State<T>, e: Event<T>)
    requires Distinct(s.core.queue)
    ensures forall r :: r in Granted(s, e) ==> r in s.core.queue
    ensures Distinct(Granted(s, e))
    ensures WakesUp(s, e) ==> Granted(s, e) + Next(s, e).core.queue == s.core.queue
  {
    if WakesUp(s, e) {
      var c := BeforeWakeUp(s, e);
      assert c.queue == s.core.queue;
      var k := GrantCount(c);
      assert c.queue == c.queue[..k] + c.queue[k..];
    }
  }

  /** The event admits a request without queueing it. */
  predicate IsFastPath<T>(s: State<T>, e: Event<T>) {
    e.Acquire? && s.core.active < s.core.limit
  }

  /** Who owns a slot after a step: those who did, except the one that gave its
      slot back, and also the one admitted directly and the ones granted. */
  lemma OwnsStep<T>(s: State<T>, e: Event<T>, r: T)
    requires OneToken(s, r) && Enabled(s, e)
    requires r in Granted(s, e) ==> r in s.core.queue
    ensures Owns(Next(s, e), r) <==>
            || (Owns(s, r) && !(IsReturn(s, e) && e.r == r))
            || (IsFastPath(s, e) && e.r == r)
            || r in Granted(s, e)
  {
    assert r in Next(s, e).tokens <==> (r in s.tokens && e != Wake(r)) || r in Granted(s, e);
  }

  lemma CountChange<T>(before: set<T>, after: set<T>, back: set<T>, direct: set<T>, granted: seq<T>)
    requires back <= before && direct !! before && Distinct(granted)
    requires forall r :: r in granted ==> r !in before && r !in direct
    requires forall r :: r in after <==> (r in before && r !in back) || r in direct || r in granted
    ensures |after| == |before| - |back| + |direct| + |granted|
  {
    var g := set r | r in granted;
    DistinctCount(granted);
    assert after == (before - back) + direct + g;
  }

  /** The floors on the counter `active` never take effect: a slot given back is
      always counted. */
  lemma FloorsNeverFire<T>(s: State<T>, e: Event<T>)
    requires Inv(s) && Enabled(s, e) && IsReturn(s, e)
    ensures s.core.active >= 1
    ensures BeforeWakeUp(s, e).active == s.core.active - 1
  {
    assert Owns(s, e.r);
    assert e.r in Owners(s);
  }

  lemma ActiveStep<T>(s: State<T>, e: Event<T>)
    requires Inv(s) && Enabled(s, e)
    ensures Next(s, e).core.active == s.core.active + |Granted(s, e)|
              + (if IsFastPath(s, e) then 1 else 0) - (if IsReturn(s, e) then 1 else 0)
  {
    if IsReturn(s, e) { FloorsNeverFire(s, e); }
  }

  lemma OwnersStep<T>(s: State<T>, e: Event<T>, back: set<T>, direct: set<T>)
    requires Inv(s) && Enabled(s, e)
    requires back == if IsReturn(s, e) then {e.r} else {}
    requires direct == if IsFastPath(s, e) then {e.r} else {}
    ensures forall r :: r in Owners(Next(s, e)) <==>
                        (r in Owners(s) && r !in back) || r in direct || r in Granted(s, e)
  {
    GrantedWait(s, e);
    forall r ensures r in Owners(Next(s, e)) <==>
                     (r in Owners(s) && r !in back) || r in direct || r in Granted(s, e)
    {
      assert OneToken(s, r);
      OwnsStep(s, e, r);
    }
  }

  lemma QueuedOwnsNothing<T>(s: State<T>, r: T)
    requires Inv(s) && r in s.core.queue
    ensures r !in Owners(s)
  {
    assert OneToken(s, r);
  }

  lemma ReturningOwns<T>(s: State<T>, e: Event<T>)
    requires Inv(s) && Enabled(s, e) && IsReturn(s, e)
    ensures e.r in Owners(s)
  {
    assert OneToken(s, e.r) && Owns(s, e.r);
  }

  lemma NewOwners<T>(s: State<T>, e: Event<T>)
    requires Inv(s) && Enabled(s, e)
    ensures IsReturn(s, e) ==> e.r in Owners(s)
    ensures IsFastPath(s, e) ==> e.r !in Owners(s) && Granted(s, e) == []
    ensures Distinct(Granted(s, e))
    ensures forall r :: r in Granted(s, e) ==> r !in Owners(s)
  {
    GrantedWait(s, e);
    if IsReturn(s, e) { ReturningOwns(s, e); }
    assert IsFastPath(s, e) ==> e.r !in Owners(s);
    hide Inv, Owns, Owners, Next, Distinct;
    forall r | r in Granted(s, e) ensures r !in Owners(s) {
      QueuedOwnsNothing(s, r);
    }
  }

  lemma SlotsStep<T>(s: State<T>, e: Event<T>)
    requires Inv(s) && Enabled(s, e)
    ensures |Owners(Next(s, e))| == Next(s, e).core.active
  {
    var back := if IsReturn(s, e) then {e.r} else {};
    var direct := if IsFastPath(s, e) then {e.r} else {};
    NewOwners(s, e);
    OwnersStep(s, e, back, direct);
    ActiveStep(s, e);
    assert |Owners(s)| == s.core.active;
    hide Next, Granted, Inv, Enabled, Owners;
    CountChange(Owners(s), Owners(Next(s, e)), back, direct, Granted(s, e));
  }

  lemma QueueStep<T>(s: State<T>, e: Event<T>)
    requires Inv(s) && Enabled(s, e)
    ensures forall r :: r in Next(s, e).core.queue <==>
                        || (r in s.core.queue && r !in Granted(s, e) && e != Abandon(r))
                        || (e == Acquire(r) && s.core.active >= s.core.limit)
    ensures Distinct(Next(s, e).core.queue)
  {
    var q := s.core.queue;
    GrantedWait(s, e);
    if e.Abandon? && e.r in q {
      WithoutFacts(q, e.r);
    } else if WakesUp(s, e) {
      var k := |Granted(s, e)|;
      assert Next(s, e).core.queue == q[k..] && Granted(s, e) == q[..k];
      forall r | r in q ensures r in q[k..] <==> r !in q[..k] {
        SuffixIndex(q, k, r);
      }
    }
  }

  lemma TokenStep<T>(s: State<T>, e: Event<T>, r: T)
    requires OneToken(s, r) && Enabled(s, e)
    requires r in Next(s, e).core.queue <==>
             || (r in s.core.queue && r !in Granted(s, e) && e != Abandon(r))
             || (e == Acquire(r) && s.core.active >= s.core.limit)
    requires r in Granted(s, e) ==> r in s.core.queue
    ensures OneToken(Next(s, e), r)
  {
    assert r in Next(s, e).tokens <==> (r in s.tokens && e != Wake(r)) || r in Granted(s, e);
    assert e.Abandon? && e.r == r && r in s.core.queue ==> Granted(s, e) == [];
  }

  lemma ShapeStep<T>(s: State<T>, e: Event<T>)
    requires Inv(s) && Enabled(s, e)
    ensures var t := Next(s, e);
            && t.core.limit >= 1
            && t.tokens <= t.pc.Keys
            && (t.core.queue != [] ==> t.core.active >= t.core.limit)
  {
    GrantedWait(s, e);
  }

  /** Every step of every request keeps the invariant. */
  lemma NextInv<T>(s: State<T>, e: Event<T>)
    requires Inv(s) && Enabled(s, e)
    ensures Inv(Next(s, e))
  {
    ShapeStep(s, e);
    SlotsStep(s, e);
    QueueStep(s, e);
    GrantedWait(s, e);
    forall r | r in Next(s, e).pc ensures OneToken(Next(s, e), r) {
      TokenStep(s, e, r);
    }
    forall r | r in Next(s, e).core.queue ensures r in Next(s, e).pc {
      assert r in s.core.queue || e == Acquire(r);
      assert r in s.core.queue ==> r in s.pc;
      PhasesStay(s, e, r);
    }
    hide Next, Enabled, Granted, Owners;
  }

  lemma PhasesStay<T>(s: State<T>, e: Event<T>, r: T)
    requires r in s.pc || e == Acquire(r)
    ensures r in Next(s, e).pc
  {
  }

  // ----- runs -----

  ghost predicate Legal<T>(s: State<T>, es: seq<Event<T>>)
    decreases |es|
  {
    es == [] || (Enabled(s, es[0]) && Legal(Next(s, es[0]), es[1..]))
  }

  ghost function Exec<T>(s: State<T>, es: seq<Event<T>>): State<T>
    decreases |es|
  {
    if es == [] then s else Exec(Next(s, es[0]), es[1..])
  }

  lemma {:induction false} RunInv<T>(s: State<T>, es: seq<Event<T>>)
    requires Inv(s) && Legal(s, es)
    ensures Inv(Exec(s, es))
    decreases |es|
  {
    if es != [] {
      NextInv(s, es[0]);
      RunInv(Next(s, es[0]), es[1..]);
    }
  }

  /** Whoever waits, some request owns a slot and can take a step of its own that
      moves it towards giving the slot back: the protocol never deadlocks. */
  lemma NeverDeadlocks<T>(s: State<T>)
    requires Inv(s) && s.core.queue != []
    ensures exists r :: Owns(s, r) &&
              (Enabled(s, Wake(r)) || Enabled(s, Abandon(r)) || Enabled(s, Release(r)))
  {
    assert |Owners(s)| >= 1;
    assert Owners(s) != {};
    var r :| r in Owners(s);
    assert Owns(s, r);
  }
}
