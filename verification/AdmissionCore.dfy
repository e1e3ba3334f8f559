/** The state one critical section of the admission controller works on, and the
    effect of each critical section as a function of that state. Waiters are
    values of an arbitrary type: the array-backed `Controller` uses channels. */
module AdmissionCore {

  datatype Core<T> = Core(limit: int, active: int, waiting: int, queue: seq<T>)

  ghost predicate Distinct<T>(q: seq<T>) {
    forall i, j :: 0 <= i < j < |q| ==> q[i] != q[j]
  }

  /** The first position of `r`, as the scan in `abandon` finds it. */
  function IndexOf<T(==)>(q: seq<T>, r: T): (i: nat)
    requires r in q
    ensures i < |q| && q[i] == r && r !in q[..i]
  {
    if q[0] == r then 0 else
      var i := IndexOf(q[1..], r);
      assert q[..i + 1] == [q[0]] + q[1..][..i];
      i + 1
  }

  function Without<T(==)>(q: seq<T>, r: T): (w: seq<T>)
    requires r in q
    ensures |w| == |q| - 1
  {
    var i := IndexOf(q, r);
    q[..i] + q[i + 1..]
  }

  function AtLeastOne(n: int): int {
    if n < 1 then 1 else n
  }

  /** How many waiters one wake-up pass admits: the oldest ones, as far as the
      free capacity goes. */
  function GrantCount<T>(c: Core<T>): (k: nat)
    ensures k <= |c.queue|
  {
    if c.active >= c.limit then 0
    else if |c.queue| <= c.limit - c.active then |c.queue|
    else c.limit - c.active
  }

  function Notify<T>(c: Core<T>): Core<T> {
    var k := GrantCount(c);
    Core(c.limit, c.active + k, c.waiting - k, c.queue[k..])
  }

  function Enter<T>(c: Core<T>, r: T): Core<T> {
    if c.active < c.limit then c.(active := c.active + 1)
    else c.(queue := c.queue + [r], waiting := c.waiting + 1)
  }

  function Returned<T>(c: Core<T>): Core<T> {
    c.(active := if c.active > 0 then c.active - 1 else c.active)
  }

  function Leave<T(==)>(c: Core<T>, r: T): Core<T>
    requires r in c.queue
  {
    c.(queue := Without(c.queue, r), waiting := c.waiting - 1)
  }

  /** A waiter cancelled after its grant gives the slot back; it lowers `waiting`
      although its grant already did. Both counters are floored at zero. */
  function GiveBack<T>(c: Core<T>): Core<T> {
    c.(active := if c.active - 1 < 0 then 0 else c.active - 1,
       waiting := if c.waiting - 1 < 0 then 0 else c.waiting - 1)
  }

  function Relimit<T>(c: Core<T>, n: int): Core<T> {
    c.(limit := AtLeastOne(n))
  }

  // ----- facts about queues -----

  lemma DistinctIndex<T>(q: seq<T>, r: T, p: nat)
    requires Distinct(q) && p < |q| && q[p] == r
    ensures IndexOf(q, r) == p
  {
  }

  lemma WithoutAt<T>(q: seq<T>, r: T, p: nat)
    requires Distinct(q) && r in q && p < |q| && p != IndexOf(q, r)
    ensures var p' := if IndexOf(q, r) < p then p - 1 else p;
            p' < |Without(q, r)| && Without(q, r)[p'] == q[p]
  {
  }

  lemma WithoutMembers<T>(q: seq<T>, r: T)
    requires Distinct(q) && r in q
    ensures Distinct(Without(q, r))
    ensures forall x :: x in Without(q, r) <==> x in q && x != r
  {
    var i, w := IndexOf(q, r), Without(q, r);
    assert forall j :: 0 <= j < |w| ==> w[j] == q[if j < i then j else j + 1];
    forall x | x in q && x != r ensures x in w {
      WithoutAt(q, r, IndexOf(q, x));
    }
  }

  /** In a queue without duplicates, removal takes out exactly `r`, keeps the
      order, and moves up by one exactly those behind it. */
  lemma WithoutFacts<T>(q: seq<T>, r: T)
    requires Distinct(q) && r in q
    ensures Distinct(Without(q, r))
    ensures forall x :: x in Without(q, r) <==> x in q && x != r
    ensures forall x :: x in q && x != r ==>
              IndexOf(Without(q, r), x) ==
              IndexOf(q, x) - (if IndexOf(q, r) < IndexOf(q, x) then 1 else 0)
  {
    WithoutMembers(q, r);
    forall x | x in q && x != r
      ensures IndexOf(Without(q, r), x) ==
              IndexOf(q, x) - (if IndexOf(q, r) < IndexOf(q, x) then 1 else 0)
    {
      var i, p := IndexOf(q, r), IndexOf(q, x);
      WithoutAt(q, r, p);
      DistinctIndex(Without(q, r), x, if i < p then p - 1 else p);
    }
  }

  lemma PrefixMember<T>(q: seq<T>, k: nat, r: T)
    requires Distinct(q) && k <= |q| && r in q
    ensures r in q[..k] <==> IndexOf(q, r) < k
  {
    var p := IndexOf(q, r);
    if p < k { assert q[..k][p] == r; }
    if r in q[..k] {
      var j :| 0 <= j < k && q[..k][j] == r;
      DistinctIndex(q, r, j);
    }
  }

  lemma SuffixIndex<T>(q: seq<T>, k: nat, r: T)
    requires Distinct(q) && k <= |q| && r in q
    ensures Distinct(q[k..])
    ensures r in q[k..] <==> k <= IndexOf(q, r)
    ensures r in q[..k] <==> IndexOf(q, r) < k
    ensures r in q[k..] ==> IndexOf(q[k..], r) == IndexOf(q, r) - k
  {
    var p, tail := IndexOf(q, r), q[k..];
    PrefixMember(q, k, r);
    assert forall i :: 0 <= i < |tail| ==> tail[i] == q[k + i];
    if k <= p { assert tail[p - k] == r; }
    if r in tail {
      var j :| 0 <= j < |tail| && tail[j] == r;
      DistinctIndex(q, r, k + j);
      DistinctIndex(tail, r, j);
    }
  }

  // ----- work conservation -----

  lemma GiveBackTakes<T>(c: Core<T>)
    ensures var k := GrantCount(GiveBack(c));
            k <= |c.queue| && Notify(GiveBack(c)).queue == c.queue[k..]
  {
  }

  /** After a wake-up pass nobody waits beside a free slot, the admitted are
      exactly the oldest min(|queue|, max(0, limit - active)) waiters, and `active`
      was never pushed past the limit by it. */
  lemma NotifyConservesWork<T>(c: Core<T>)
    ensures var d := Notify(c);
            && (d.queue != [] ==> d.active >= d.limit)
            && c.queue[..GrantCount(c)] + d.queue == c.queue
            && d.active + |d.queue| == c.active + |c.queue|
            && d.active <= (if c.active > c.limit then c.active else c.limit)
            && Notify(d) == d
  {
  }

  /** Two limit changes in a row have the effect of the second alone exactly when
      the first did not admit more waiters than the second would have. */
  lemma SetLimitTwice<T>(c: Core<T>, a: int, b: int)
    ensures Notify(Relimit(Notify(Relimit(c, a)), b)) == Notify(Relimit(c, b))
            <==> || AtLeastOne(a) <= AtLeastOne(b)
                 || c.active >= AtLeastOne(a)
                 || |c.queue| <= AtLeastOne(b) - c.active
                 || c.queue == []
  {
    var a', b' := AtLeastOne(a), AtLeastOne(b);
    var mid := Notify(Relimit(c, a));
    var k := GrantCount(Relimit(c, a));
    var j := GrantCount(mid.(limit := b'));
    assert c.queue[k..][j..] == c.queue[k + j..];
    assert Notify(Relimit(mid, b)).active == c.active + k + j;
  }
}
