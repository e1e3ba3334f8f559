/** `execute` and the two halves of `Acquire` around the real controller. Every
    request is known by the channel it would wait on; the source makes that channel
    only when the request has to wait, which no one can observe. Each method is one
    atomic step of one request, and takes exactly the protocol step it is named for,
    so everything proved about runs of the protocol holds of this code. */
module AdmissionServer {
  import opened AdmissionCore
  import opened AdmissionController
  import opened Protocol

  /** How a call of `execute` ends. */
  datatype Outcome = Result | FunctionError | Rejected

  class Server {
    const controller: Controller
    var pc: map<Channel, PC>

    /** The tokens on the channels of all requests. */
    ghost function Tokens(): set<Channel>
      reads this, pc.Keys
    {
      set ch | ch in pc && ch.tokens == 1
    }

    ghost function Abs(): State<Channel>
      reads this, controller, pc.Keys
    {
      State(controller.Abs(), pc, Tokens())
    }

    ghost predicate Valid()
      reads this, controller, controller.cells, controller.queue, pc.Keys
    {
      && controller.Valid()
      && (forall ch :: ch in pc ==> ch.tokens <= 1)
      && Inv(Abs())
    }

    constructor (limit: int)
      ensures Valid() && fresh(controller) && fresh(controller.cells)
      ensures Abs() == Init(limit)
    {
      controller := new Controller(limit);
      pc := map[];
      new;
      InitInv<Channel>(limit);
      assert Abs() == Init(limit);
    }

    /** `Acquire` up to its select: admitted at once, or queued. */
    method Acquire(ch: Channel) returns (admitted: bool)
      requires Valid() && Enabled(Abs(), Event.Acquire(ch)) && ch.tokens == 0
      modifies this, controller, controller.cells
      ensures Valid()
      ensures controller.cells == old(controller.cells) || fresh(controller.cells)
      ensures Abs() == Next(old(Abs()), Event.Acquire(ch))
      ensures admitted <==> Owns(Abs(), ch)
    {
      NextInv(Abs(), Event.Acquire(ch));
      AcquireIs(Abs(), ch);
      hide Next, Inv;
      ghost var before := Abs();
      admitted := controller.Enter(ch);
      pc := pc[ch := if admitted then Running else Selecting];
      assert Abs().tokens == before.tokens;
      assert Abs() == Next(before, Event.Acquire(ch));
    }

    /** The select receives the token: `Acquire` returns nil. */
    method Wake(ch: Channel)
      requires Valid() && Enabled(Abs(), Event.Wake(ch))
      modifies `pc, ch
      ensures Valid()
      ensures Abs() == Next(old(Abs()), Event.Wake(ch))
    {
      NextInv(Abs(), Event.Wake(ch));
      WakeIs(Abs(), ch);
      ghost var before := Abs();
      assert OneToken(before, ch);
      hide Next, Inv;
      ch.Receive();
      pc := pc[ch := Running];
      assert Abs().tokens == before.tokens - {ch};
      assert Abs() == Next(before, Event.Wake(ch));
    }

    /** The select picks ctx.Done, whether or not the token is there. */
    method ChooseCancel(ch: Channel)
      requires Valid() && Enabled(Abs(), Event.ChooseCancel(ch))
      modifies `pc
      ensures Valid()
      ensures Abs() == Next(old(Abs()), Event.ChooseCancel(ch))
    {
      NextInv(Abs(), Event.ChooseCancel(ch));
      ghost var before := Abs();
      MoveTo(ch, Abandoning);
      assert Abs() == Next(before, Event.ChooseCancel(ch));
    }

    /** After a wake-up pass that took `k` channels off the queue, exactly they have
        a token that had none before. */
    lemma TokensSent(before: State<Channel>, k: nat)
      requires Inv(before) && k <= |before.core.queue|
      requires controller.Valid() && controller.queue == before.core.queue[k..]
      requires controller.Woken(before.core.queue, k)
      requires forall ch :: ch in before.pc && ch !in before.core.queue ==>
                 (ch.tokens == 1 <==> ch in before.tokens)
      ensures (set ch | ch in before.pc && ch.tokens == 1)
              == before.tokens + (set ch | ch in before.core.queue[..k])
      ensures forall ch :: ch in before.core.queue ==> ch.tokens <= 1
    {
      var q := before.core.queue;
      forall ch | ch in before.pc
        ensures ch.tokens == 1 <==> ch in before.tokens || ch in q[..k]
        ensures ch in q ==> ch.tokens <= 1
      {
        assert OneToken(before, ch);
        if ch in q {
          SuffixIndex(q, k, ch);
          var p := IndexOf(q, ch);
          assert k <= p ==> controller.queue[p - k] == ch;
          assert q[p] == ch;
        }
      }
    }

    /** A request moves on; its own program counter is all that changes. */
    method MoveTo(ch: Channel, p: PC)
      requires controller.Valid() && ch in pc
      requires forall c :: c in pc ==> c.tokens <= 1
      modifies `pc
      ensures controller.Valid() && controller.Abs() == old(controller.Abs())
      ensures forall c :: c in pc ==> c.tokens <= 1
      ensures pc == old(pc)[ch := p] && Tokens() == old(Tokens())
    {
      pc := pc[ch := p];
    }

    /** `abandon` under the lock. */
    method LeaveQueueOrGiveBack(ch: Channel)
      requires Valid() && ch in pc
      modifies controller, controller.cells, controller.queue
      ensures controller.Valid() && controller.cells == old(controller.cells)
      ensures forall c :: c in pc ==> c.tokens <= 1
      ensures State(controller.Abs(), pc[ch := Finished(false)], Tokens())
              == Next(old(Abs()), Event.Abandon(ch))
    {
      ghost var before := Abs();
      hide Next, Granted, Notify, GrantCount, GiveBack, IndexOf, Without;
      controller.Abandon(ch);
      if ch in before.core.queue {
        LeaveIs(before, ch);
        WithoutFacts(before.core.queue, ch);
        assert Tokens() == before.tokens;
      } else {
        GiveBackIs(before, ch);
        GiveBackTakes(before.core);
        TokensSent(before, GrantCount(GiveBack(before.core)));
      }
    }

    /** `abandon`, after which `execute` returns the context error. */
    method Abandon(ch: Channel) returns (r: Outcome)
      requires Valid() && Enabled(Abs(), Event.Abandon(ch))
      modifies this, controller, controller.cells, controller.queue
      ensures Valid() && controller.cells == old(controller.cells)
      ensures Abs() == Next(old(Abs()), Event.Abandon(ch))
      ensures r == Rejected
    {
      NextInv(Abs(), Event.Abandon(ch));
      hide Next, Inv;
      ghost var before := Abs();
      LeaveQueueOrGiveBack(ch);
      MoveTo(ch, Finished(false));
      assert Abs() == Next(before, Event.Abandon(ch));
      r := Rejected;
    }

    /** The deferred `Release` under the lock. */
    method GiveSlotBack(ch: Channel)
      requires Valid() && ch in pc
      modifies controller, controller.queue
      ensures controller.Valid() && controller.cells == old(controller.cells)
      ensures forall c :: c in pc ==> c.tokens <= 1
      ensures State(controller.Abs(), pc[ch := Finished(true)], Tokens())
              == Next(old(Abs()), Event.Release(ch))
    {
      ghost var before := Abs();
      controller.Release();
      ReleaseIs(before, ch);
      TokensSent(before, GrantCount(Returned(before.core)));
    }

    /** `execute` after its admission: whether the function fails or not, the
        deferred `Release` runs exactly once before `execute` returns. */
    method Return(ch: Channel, failed: bool) returns (r: Outcome)
      requires Valid() && Enabled(Abs(), Event.Release(ch))
      modifies this, controller, controller.queue
      ensures Valid() && controller.cells == old(controller.cells)
      ensures Abs() == Next(old(Abs()), Event.Release(ch))
      ensures r == if failed then FunctionError else Result
    {
      NextInv(Abs(), Event.Release(ch));
      hide Next, Inv;
      ghost var before := Abs();
      r := if failed then FunctionError else Result;
      GiveSlotBack(ch);
      MoveTo(ch, Finished(true));
      assert Abs() == Next(before, Event.Release(ch));
    }

    method SetLimit(n: int)
      requires Valid()
      modifies controller, controller.queue
      ensures Valid() && controller.cells == old(controller.cells)
      ensures Abs() == Next(old(Abs()), Event.SetLimit(n))
    {
      NextInv(Abs(), Event.SetLimit(n));
      ghost var before := Abs();
      controller.SetLimit(n);
      TokensSent(before, GrantCount(Relimit(before.core, n)));
      assert Abs() == Next(before, Event.SetLimit(n));
    }
  }
}
