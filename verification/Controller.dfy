/** The admission controller as the source runs it: counters, and a queue of
    channels kept as a window of a backing array. Each method is one critical
    section under the controller's mutex. */
module AdmissionController {
  import opened AdmissionCore

  /** A channel with a one-place buffer. Sending to a full channel would block. */
  class Channel {
    var tokens: nat

    constructor ()
      ensures tokens == 0
    {
      tokens := 0;
    }

    method Send()
      requires tokens == 0
      modifies this
      ensures tokens == 1
    {
      tokens := tokens + 1;
    }

    method Receive()
      requires tokens == 1
      modifies this
      ensures tokens == 0
    {
      tokens := tokens - 1;
    }
  }

  class Controller {
    var limit: int
    var active: int
    var waiting: int

    // The slice `queue`: `len` cells of `cells`, starting at `off`.
    var cells: array<Channel?>
    var off: nat
    var len: nat
    ghost var queue: seq<Channel>

    /** The window holds the queue, its channels are distinct, and none of them
        has been sent its token yet. */
    ghost predicate WellFormed()
      reads this, cells, queue
    {
      && limit >= 1
      && off + len <= cells.Length
      && len == |queue|
      && (forall i :: 0 <= i < len ==> cells[off + i] == queue[i])
      && Distinct(queue)
      && (forall i :: 0 <= i < len ==> queue[i].tokens == 0)
    }

    /** What holds whenever the mutex is free. */
    ghost predicate Valid()
      reads this, cells, queue
    {
      WellFormed() && (queue != [] ==> active >= limit)
    }

    ghost function Abs(): Core<Channel>
      reads this
    {
      Core(limit, active, waiting, queue)
    }

    constructor (initial: int)
      ensures Valid() && fresh(cells)
      ensures Abs() == Core(AtLeastOne(initial), 0, 0, [])
    {
      limit := if initial < 1 then 1 else initial;
      active, waiting := 0, 0;
      cells, off, len := new Channel?[0], 0, 0;
      queue := [];
    }

    /** The first critical section of `Acquire`: take a free slot, or join the
        queue. `ch` is the channel the request would wait on. */
    method Enter(ch: Channel) returns (admitted: bool)
      requires Valid() && ch.tokens == 0 && ch !in queue
      modifies this, cells
      ensures Valid()
      ensures cells == old(cells) || fresh(cells)
      ensures admitted <==> old(active) < old(limit)
      ensures Abs() == AdmissionCore.Enter(old(Abs()), ch)
    {
      if active < limit {
        active := active + 1;
        return true;
      }
      PushBack(ch);
      waiting := waiting + 1;
      return false;
    }

    /** `append(c.queue, granted)`: in place while the backing array has room
        behind the window, else into a larger array. */
    method PushBack(ch: Channel)
      requires WellFormed() && ch.tokens == 0 && ch !in queue
      modifies `cells, `off, `len, `queue, cells
      ensures WellFormed()
      ensures cells == old(cells) || fresh(cells)
      ensures queue == old(queue) + [ch]
    {
      if off + len == cells.Length {
        var larger := new Channel?[2 * len + 1](_ => null);
        for i := 0 to len
          modifies larger
          invariant forall j :: 0 <= j < i ==> larger[j] == queue[j]
        {
          larger[i] := cells[off + i];
        }
        cells, off := larger, 0;
      }
      cells[off + len] := ch;
      len := len + 1;
      queue := queue + [ch];
    }

    /** `notifyLocked`: admits waiters from the head while there is capacity. The
        loop admits exactly the oldest `GrantCount` waiters and sends each of them
        one token; the others have none. */
    method NotifyLocked()
      requires WellFormed()
      modifies `active, `waiting, `off, `len, `queue, queue
      ensures Valid()
      ensures Abs() == Notify(old(Abs()))
      ensures Woken(old(queue), GrantCount(old(Abs())))
    {
      ghost var q, n := queue, 0;
      while len > 0 && active < limit
        invariant 0 <= n <= |q| && WellFormed()
        invariant queue == q[n..]
        invariant active == old(active) + n && waiting == old(waiting) - n
        invariant n == 0 || active <= limit
        invariant Woken(q, n)
        decreases len
      {
        assert q[n..][0] == q[n] && q[n..][1..] == q[n + 1..];
        AdmitFront();
        n := n + 1;
      }
      assert n == GrantCount(old(Abs()));
    }

    /** The first `k` channels of `q` have been sent their token. */
    ghost predicate Woken(q: seq<Channel>, k: nat)
      requires k <= |q|
      reads q
    {
      forall i :: 0 <= i < k ==> q[i].tokens == 1
    }

    /** One round of the loop: `next := c.queue[0]; c.queue = c.queue[1:]`, count
        it, and send the token; the buffer is empty, so the send cannot block. */
    method AdmitFront()
      requires WellFormed() && len > 0
      modifies `active, `waiting, `off, `len, `queue, queue[0]
      ensures WellFormed()
      ensures queue == old(queue)[1..] && old(queue)[0].tokens == 1
      ensures active == old(active) + 1 && waiting == old(waiting) - 1
    {
      assert cells[off + 0] == queue[0];
      var next := cells[off];
      off, len, queue := off + 1, len - 1, queue[1..];
      active := active + 1;
      waiting := waiting - 1;
      assert next !in queue;
      next.Send();
    }

    /** `abandon`: scan for the channel; if it is still queued shift the rest of
        the window left over it, otherwise the slot was granted and goes back. */
    method Abandon(ch: Channel)
      requires Valid()
      modifies this, cells, queue
      ensures Valid() && cells == old(cells)
      ensures Abs() == if ch in old(queue) then Leave(old(Abs()), ch)
                       else Notify(GiveBack(old(Abs())))
      ensures ch !in old(queue) ==> Woken(old(queue), GrantCount(GiveBack(old(Abs()))))
      ensures ch in old(queue) ==> ch.tokens == 0
    {
      var i := 0;
      while i < len
        invariant i <= len
        invariant ch !in queue[..i]
      {
        if cells[off + i] == ch {
          RemoveAt(i);
          waiting := waiting - 1;
          return;
        }
        i := i + 1;
      }
      assert queue[..len] == queue;
      active := active - 1;
      if active < 0 {
        active := 0;
      }
      waiting := waiting - 1;
      if waiting < 0 {
        waiting := 0;
      }
      assert Abs() == GiveBack(old(Abs()));
      hide Notify;
      NotifyLocked();
    }

    /** `append(c.queue[:i], c.queue[i+1:]...)`: copies the tail one cell to the
        left inside the same backing array. */
    method RemoveAt(i: nat)
      requires WellFormed() && i < len && queue[i] !in queue[..i]
      modifies `len, `queue, cells
      ensures WellFormed()
      ensures queue == Without(old(queue), old(queue[i]))
    {
      DistinctIndex(queue, queue[i], i);
      WithoutFacts(queue, queue[i]);
      ShiftLeft(off + i, off + len);
      len := len - 1;
      queue := queue[..i] + queue[i + 1..];
      assert forall k :: 0 <= k < len ==> queue[k] == old(queue)[if k < i then k else k + 1];
    }

    /** Moves the cells between `from` and `end` one place to the left. */
    method ShiftLeft(from: nat, end: nat)
      requires from < end <= cells.Length
      modifies cells
      ensures forall k :: 0 <= k < cells.Length ==>
                cells[k] == old(cells[if from <= k < end - 1 then k + 1 else k])
    {
      var j := from;
      while j + 1 < end
        invariant from <= j < end
        invariant forall k :: 0 <= k < cells.Length ==>
                    cells[k] == old(cells[if from <= k < j then k + 1 else k])
      {
        cells[j] := cells[j + 1];
        j := j + 1;
      }
    }

    method Release()
      requires Valid()
      modifies this, queue
      ensures Valid() && cells == old(cells)
      ensures Abs() == Notify(Returned(old(Abs())))
      ensures Woken(old(queue), GrantCount(Returned(old(Abs()))))
    {
      hide Notify;
      if active > 0 {
        active := active - 1;
      }
      assert Abs() == Returned(old(Abs()));
      NotifyLocked();
    }

    method SetLimit(n: int)
      requires Valid()
      modifies this, queue
      ensures Valid() && cells == old(cells)
      ensures Abs() == Notify(Relimit(old(Abs()), n))
      ensures Woken(old(queue), GrantCount(Relimit(old(Abs()), n)))
    {
      hide Notify;
      limit := if n < 1 then 1 else n;
      assert Abs() == Relimit(old(Abs()), n);
      NotifyLocked();
    }
  }
}
