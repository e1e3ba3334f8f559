/** The grid search over candidate limits with a predictor that may fail on any of
    them. */
module Optimizer {
  import opened Envelope

  datatype GridShape = GridShape(window: int, step: int)

  /** A grid with a step below 1 cannot be built. */
  type Grid = g: GridShape | g.step >= 1 witness GridShape(8, 2)

  datatype Evaluation = Evaluation(limit: int, cost: real)

  /** `bestCost` is None for the infinite cost of a search without any evaluation. */
  datatype Result = Result(bestLimit: int, bestCost: Option<real>, evaluated: seq<Evaluation>)

  function Low(g: Grid, current: int, lo: int): int {
    Max(lo, current - g.window)
  }

  function High(g: Grid, current: int, hi: int): int {
    Min(hi, current + g.window)
  }

  function Range(first: int, last: int, step: int): seq<int>
    requires step >= 1
    decreases last - first
  {
    if first > last then [] else [first] + Range(first + step, last, step)
  }

  function Candidates(g: Grid, current: int, lo: int, hi: int): seq<int> {
    var range := Range(Low(g, current, lo), High(g, current, hi), g.step);
    if current in range then range else range + [current]
  }

  function Evaluate(predict: int -> Option<real>, cs: seq<int>): seq<Evaluation> {
    if cs == [] then []
    else
      Evaluate(predict, cs[..|cs| - 1]) +
      match predict(cs[|cs| - 1]) {
        case Some(cost) => [Evaluation(cs[|cs| - 1], cost)]
        case None => []
      }
  }

  /** The first of the cheapest evaluations. */
  ghost predicate IsFirstMin(ev: seq<Evaluation>, k: nat) {
    && k < |ev|
    && (forall i :: 0 <= i < |ev| ==> ev[k].cost <= ev[i].cost)
    && (forall i :: 0 <= i < k ==> ev[k].cost < ev[i].cost)
  }

  function FirstMin(ev: seq<Evaluation>): (k: nat)
    requires ev != []
    ensures IsFirstMin(ev, k)
  {
    if |ev| == 1 then 0
    else
      var front := ev[..|ev| - 1];
      var k := FirstMin(front);
      assert front[k] == ev[k];
      if ev[|ev| - 1].cost < ev[k].cost then |ev| - 1 else k
  }

  lemma FirstMinUnique(ev: seq<Evaluation>, k: nat)
    requires ev != [] && IsFirstMin(ev, k)
    ensures k == FirstMin(ev)
  {
  }

  function Search(g: Grid, predict: int -> Option<real>, current: int, lo: int, hi: int): Result {
    var ev := Evaluate(predict, Candidates(g, current, lo, hi));
    if ev == [] then Result(current, None, [])
    else Result(ev[FirstMin(ev)].limit, Some(ev[FirstMin(ev)].cost), ev)
  }

  method ListCandidates(g: Grid, current: int, lo: int, hi: int) returns (candidates: seq<int>)
    ensures candidates == Candidates(g, current, lo, hi)
  {
    candidates := [];
    var first, last := Max(lo, current - g.window), Min(hi, current + g.window);
    var c := first;
    while c <= last
      invariant candidates + Range(c, last, g.step) == Range(first, last, g.step)
      decreases last - c
    {
      var rest := Range(c + g.step, last, g.step);
      assert Range(c, last, g.step) == [c] + rest;
      assert candidates + ([c] + rest) == (candidates + [c]) + rest;
      candidates := candidates + [c];
      c := c + g.step;
    }
    assert candidates + [] == candidates;
    if current !in candidates {
      candidates := candidates + [current];
    }
  }

  method EvaluateAll(predict: int -> Option<real>, candidates: seq<int>)
      returns (evaluated: seq<Evaluation>)
    ensures evaluated == Evaluate(predict, candidates)
  {
    evaluated := [];
    for i := 0 to |candidates|
      invariant evaluated == Evaluate(predict, candidates[..i])
    {
      assert candidates[..i + 1][..i] == candidates[..i];
      var cost := predict(candidates[i]);
      if cost.Some? {
        evaluated := evaluated + [Evaluation(candidates[i], cost.value)];
      }
    }
    assert candidates[..|candidates|] == candidates;
  }

  /** Python's `min` over the dictionary: the first minimum in insertion order. */
  method PickFirst(evaluated: seq<Evaluation>) returns (best: nat)
    requires evaluated != []
    ensures best == FirstMin(evaluated)
  {
    best := 0;
    for i := 1 to |evaluated|
      invariant best < i
      invariant forall j :: 0 <= j < i ==> evaluated[best].cost <= evaluated[j].cost
      invariant forall j :: 0 <= j < best ==> evaluated[best].cost < evaluated[j].cost
    {
      if evaluated[i].cost < evaluated[best].cost {
        best := i;
      }
    }
    FirstMinUnique(evaluated, best);
  }

  /** `optimize`: list the candidates, evaluate what can be evaluated, and take the
      first minimum. */
  method Optimize(g: Grid, predict: int -> Option<real>, current: int, lo: int, hi: int)
      returns (r: Result)
    ensures r == Search(g, predict, current, lo, hi)
  {
    var candidates := ListCandidates(g, current, lo, hi);
    var evaluated := EvaluateAll(predict, candidates);
    if evaluated == [] {
      return Result(current, None, []);
    }
    var best := PickFirst(evaluated);
    r := Result(evaluated[best].limit, Some(evaluated[best].cost), evaluated);
  }

  // ----- what is searched -----

  predicate OnGrid(g: Grid, current: int, lo: int, hi: int, c: int) {
    Low(g, current, lo) <= c <= High(g, current, hi) && (c - Low(g, current, lo)) % g.step == 0
  }

  lemma OnGridMeans(g: Grid, current: int, lo: int, hi: int, c: int)
    ensures OnGrid(g, current, lo, hi, c) <==>
            && lo <= c <= hi && current - g.window <= c <= current + g.window
            && (c - if lo > current - g.window then lo else current - g.window) % g.step == 0
  {
  }

  lemma StepsBack(x: int, d: int)
    requires d >= 1
    ensures (x - d) % d == x % d
  {
    var q, m := x / d, x % d;
    assert x == d * q + m;
    assert x - d == d * (q - 1) + m;
    RemainderUnique(x - d, d, q - 1, m);
  }

  lemma RemainderUnique(x: int, d: int, q: int, m: int)
    requires d >= 1 && x == d * q + m && 0 <= m < d
    ensures x % d == m
  {
    QuotientUnique(x, d, q);
  }

  lemma {:induction false} RangeExactly(first: int, last: int, step: int, c: int)
    requires step >= 1
    ensures c in Range(first, last, step) <==> first <= c <= last && (c - first) % step == 0
    decreases last - first
  {
    if first <= last {
      RangeExactly(first + step, last, step, c);
      StepsBack(c - first, step);
      if first < c < first + step {
        RemainderUnique(c - first, step, 0, c - first);
      }
    }
  }

  lemma {:induction false} EvaluatedExactly(predict: int -> Option<real>, cs: seq<int>, e: Evaluation)
    ensures e in Evaluate(predict, cs) <==> e.limit in cs && predict(e.limit) == Some(e.cost)
  {
    if cs != [] {
      var front := cs[..|cs| - 1];
      EvaluatedExactly(predict, front, e);
      assert cs == front + [cs[|cs| - 1]];
    }
  }

  lemma CandidatesExactly(g: Grid, current: int, lo: int, hi: int, c: int)
    ensures c in Candidates(g, current, lo, hi) <==> OnGrid(g, current, lo, hi, c) || c == current
  {
    RangeExactly(Low(g, current, lo), High(g, current, hi), g.step, c);
    hide Range;
  }

  lemma {:induction false} NothingEvaluated(predict: int -> Option<real>, cs: seq<int>)
    requires forall c :: predict(c).None?
    ensures Evaluate(predict, cs) == []
  {
    if cs != [] { NothingEvaluated(predict, cs[..|cs| - 1]); }
  }

  /** Evaluated is exactly what can be predicted among the current limit and what lies
      within the bounds, within the window, and whole steps above the lower end of both.
      The proposal was evaluated, or is the current limit if nothing was. */
  lemma SearchStaysOnGrid(g: Grid, predict: int -> Option<real>, current: int, lo: int, hi: int,
                          e: Evaluation)
    ensures var r := Search(g, predict, current, lo, hi);
            && (e in r.evaluated <==>
                  && predict(e.limit) == Some(e.cost)
                  && (|| e.limit == current
                      || (&& lo <= e.limit <= hi && current - g.window <= e.limit <= current + g.window
                          && (e.limit - if lo > current - g.window then lo else current - g.window) % g.step == 0)))
            && (r.bestCost.Some? ==> Evaluation(r.bestLimit, r.bestCost.value) in r.evaluated)
            && (r.bestCost.None? ==> r.bestLimit == current)
  {
    CandidatesExactly(g, current, lo, hi, e.limit);
    EvaluatedExactly(predict, Candidates(g, current, lo, hi), e);
    OnGridMeans(g, current, lo, hi, e.limit);
    hide OnGrid, Candidates, Evaluate;
  }

  lemma CandidatesInBounds(g: Grid, current: int, lo: int, hi: int)
    requires lo <= current <= hi
    ensures forall c :: c in Candidates(g, current, lo, hi) ==> lo <= c <= hi
  {
    forall c | c in Candidates(g, current, lo, hi) ensures lo <= c <= hi {
      CandidatesExactly(g, current, lo, hi, c);
    }
  }

  /** From a limit in bounds the proposal is in bounds and within the window, whatever
      the predictor does; a negative window leaves only the current limit. */
  lemma ProposalInBounds(g: Grid, predict: int -> Option<real>, current: int, lo: int, hi: int)
    requires lo <= current <= hi
    ensures var r := Search(g, predict, current, lo, hi);
            lo <= r.bestLimit <= hi && Magnitude(r.bestLimit - current) <= Max(g.window, 0)
  {
    var r := Search(g, predict, current, lo, hi);
    if r.bestCost.Some? {
      SearchStaysOnGrid(g, predict, current, lo, hi, Evaluation(r.bestLimit, r.bestCost.value));
    }
  }

  // ----- which way the search goes -----

  /** What is below `current` comes before everything that is not. */
  predicate BelowFirst(limits: seq<int>, current: int) {
    forall i, j :: 0 <= i < j < |limits| && limits[j] < current ==> limits[i] < current
  }

  lemma {:induction false} RangeIncreases(first: int, last: int, step: int)
    requires step >= 1
    ensures var range := Range(first, last, step);
            && (forall i, j :: 0 <= i < j < |range| ==> range[i] < range[j])
            && (range != [] ==> range[0] == first)
    decreases last - first
  {
    if first <= last {
      var range, rest := Range(first, last, step), Range(first + step, last, step);
      RangeIncreases(first + step, last, step);
      assert range == [first] + rest;
      hide Range;
      forall i, j | 0 <= i < j < |range| ensures range[i] < range[j] {
        assert range[j] == rest[j - 1] && rest[0] <= rest[j - 1];
        if i > 0 { assert range[i] == rest[i - 1]; }
      }
    }
  }

  lemma CandidatesBelowFirst(g: Grid, current: int, lo: int, hi: int)
    ensures BelowFirst(Candidates(g, current, lo, hi), current)
  {
    var range := Range(Low(g, current, lo), High(g, current, hi), g.step);
    RangeIncreases(Low(g, current, lo), High(g, current, hi), g.step);
    var cs := Candidates(g, current, lo, hi);
    assert cs == range || cs == range + [current];
    hide Range, Candidates;
    forall i, j | 0 <= i < j < |cs| && cs[j] < current ensures cs[i] < current {
      assert cs[i] == range[i] && cs[j] == range[j];
    }
  }

  /** The smallest candidate: the minimum as soon as the window reaches it. */
  function Bottom(g: Grid, current: int, lo: int): int {
    if g.window < 0 then current else if current - g.window < lo then lo else current - g.window
  }

  lemma BottomIsFirst(g: Grid, current: int, lo: int, hi: int)
    requires lo <= current <= hi
    ensures Candidates(g, current, lo, hi)[0] == Bottom(g, current, lo)
  {
  }

  /** From a limit not below the bounds, the first candidate is the smallest. */
  lemma SmallestFirst(g: Grid, current: int, lo: int, hi: int)
    requires lo <= current
    ensures var cs := Candidates(g, current, lo, hi);
            forall c :: c in cs ==> cs[0] <= c
  {
    var range := Range(Low(g, current, lo), High(g, current, hi), g.step);
    RangeIncreases(Low(g, current, lo), High(g, current, hi), g.step);
    hide Range;
    if range != [] { assert range[0] == Low(g, current, lo); }
  }

  function Limits(ev: seq<Evaluation>): seq<int> {
    seq(|ev|, k requires 0 <= k < |ev| => ev[k].limit)
  }

  /** The evaluations keep the order of the candidates. */
  lemma {:induction false} EvaluatedInOrder(predict: int -> Option<real>, cs: seq<int>, i: nat, j: nat)
      returns (m: nat, n: nat)
    requires i < j < |Evaluate(predict, cs)|
    ensures m < n < |cs|
    ensures cs[m] == Evaluate(predict, cs)[i].limit && cs[n] == Evaluate(predict, cs)[j].limit
    decreases |cs|
  {
    var front, last := cs[..|cs| - 1], |cs| - 1;
    var ev, all := Evaluate(predict, front), Evaluate(predict, cs);
    assert all[..|ev|] == ev && (|all| > |ev| ==> all[|ev|].limit == cs[last]);
    if j < |ev| {
      m, n := EvaluatedInOrder(predict, front, i, j);
    } else {
      n := last;
      assert all[i] in ev;
      EvaluatedExactly(predict, front, all[i]);
      m :| 0 <= m < |front| && front[m] == all[i].limit;
    }
  }

  lemma EvaluatedBelowFirst(predict: int -> Option<real>, cs: seq<int>, current: int)
    requires BelowFirst(cs, current)
    ensures BelowFirst(Limits(Evaluate(predict, cs)), current)
  {
    var ev := Evaluate(predict, cs);
    forall i, j | 0 <= i < j < |ev| && ev[j].limit < current ensures ev[i].limit < current {
      var m, n := EvaluatedInOrder(predict, cs, i, j);
    }
    hide Evaluate;
  }

  lemma NotBeforeFirstMin(ev: seq<Evaluation>, e: Evaluation) returns (j: nat)
    requires e in ev && ev[FirstMin(ev)].cost == e.cost
    ensures FirstMin(ev) <= j < |ev| && ev[j] == e
  {
    j :| 0 <= j < |ev| && ev[j] == e;
    assert IsFirstMin(ev, FirstMin(ev));
    hide FirstMin;
  }

  /** Of equally cheap evaluations the search proposes the smallest limit; only a current
      limit off the grid, listed last, gives way to larger ones. */
  lemma FirstOfCheapest(g: Grid, predict: int -> Option<real>, current: int, lo: int, hi: int, e: Evaluation)
    ensures var r := Search(g, predict, current, lo, hi);
            e in r.evaluated && r.bestCost == Some(e.cost) ==>
              || r.bestLimit <= e.limit
              || (e.limit == current && !OnGrid(g, current, lo, hi, current))
  {
    var cs := Candidates(g, current, lo, hi);
    var ev := Evaluate(predict, cs);
    hide Candidates, Evaluate, OnGrid, FirstMin;
    if e in ev && ev[FirstMin(ev)].cost == e.cost {
      var k := FirstMin(ev);
      var j := NotBeforeFirstMin(ev, e);
      if k < j {
        var m, n := EvaluatedInOrder(predict, cs, k, j);
        CandidatesInOrder(g, current, lo, hi, m, n);
      }
    }
  }

  lemma CandidatesInOrder(g: Grid, current: int, lo: int, hi: int, m: nat, n: nat)
    requires m < n < |Candidates(g, current, lo, hi)|
    ensures var cs := Candidates(g, current, lo, hi);
            cs[m] < cs[n] || (cs[n] == current && !OnGrid(g, current, lo, hi, current))
  {
    var range := Range(Low(g, current, lo), High(g, current, hi), g.step);
    RangeIncreases(Low(g, current, lo), High(g, current, hi), g.step);
    RangeExactly(Low(g, current, lo), High(g, current, hi), g.step, current);
    hide Range;
  }

  /** Something not below `current` is strictly cheaper than everything below it. */
  ghost predicate HoldsUp(ev: seq<Evaluation>, current: int) {
    exists e :: e in ev && e.limit >= current
                && forall c :: c in ev && c.limit < current ==> e.cost < c.cost
  }

  /** The search proposes a smaller limit exactly when it could evaluate something and
      nothing of the rest is strictly cheaper than all that is smaller: of equal costs
      the smaller limit wins. */
  lemma ProposesLessIff(g: Grid, predict: int -> Option<real>, current: int, lo: int, hi: int)
    ensures var r := Search(g, predict, current, lo, hi);
            r.bestLimit < current <==> r.evaluated != [] && !HoldsUp(r.evaluated, current)
  {
    var cs := Candidates(g, current, lo, hi);
    var ev := Evaluate(predict, cs);
    CandidatesBelowFirst(g, current, lo, hi);
    EvaluatedBelowFirst(predict, cs, current);
    if ev != [] {
      FirstMinBelowIff(ev, current);
    }
  }

  lemma FirstMinBelowIff(ev: seq<Evaluation>, current: int)
    requires ev != [] && BelowFirst(Limits(ev), current)
    ensures ev[FirstMin(ev)].limit < current <==> !HoldsUp(ev, current)
  {
    var k := FirstMin(ev);
    assert IsFirstMin(ev, k) && ev[k] in ev;
    hide FirstMin;
    if ev[k].limit >= current {
      forall c | c in ev && c.limit < current ensures ev[k].cost < c.cost {
        var i :| 0 <= i < |ev| && ev[i] == c;
        assert Limits(ev)[i] < current && Limits(ev)[k] >= current;
      }
    }
  }

  // ----- how far up a climb can look -----

  /** The highest grid point of a range that is not empty. */
  function GridTop(g: Grid, low: int, high: int): int
    requires low <= high
  {
    low + g.step * ((high - low) / g.step)
  }

  /** The largest candidate. */
  function Top(g: Grid, current: int, lo: int, hi: int): int {
    var low, high := Low(g, current, lo), High(g, current, hi);
    if low > high then current else Max(current, GridTop(g, low, high))
  }

  lemma GridTopIsPoint(g: Grid, low: int, high: int)
    requires low <= high
    ensures low <= GridTop(g, low, high) && high - g.step < GridTop(g, low, high) <= high
    ensures (GridTop(g, low, high) - low) % g.step == 0
  {
    var d, q := g.step, (high - low) / g.step;
    assert d * q <= high - low < d * q + d;
    ProductNonNegative(d, q);
    RemainderUnique(d * q, d, q, 0);
  }

  lemma Quotients(d: int, x: int, y: int)
    requires d >= 1 && 0 <= x <= y && x % d == 0
    ensures x <= d * (y / d)
  {
    DivMonotone(x, y, d);
    assert x == d * (x / d);
    TimesMonotone(d, x / d, y / d);
  }

  lemma GridTopIsHighest(g: Grid, low: int, high: int, c: int)
    requires low <= high
    ensures high - g.step < GridTop(g, low, high) <= high
    ensures low <= GridTop(g, low, high) && (GridTop(g, low, high) - low) % g.step == 0
    ensures low <= c <= high && (c - low) % g.step == 0 ==> c <= GridTop(g, low, high)
  {
    GridTopIsPoint(g, low, high);
    if low <= c <= high && (c - low) % g.step == 0 { Quotients(g.step, c - low, high - low); }
  }

  lemma TopIsLargest(g: Grid, current: int, lo: int, hi: int)
    ensures var cs := Candidates(g, current, lo, hi);
            Top(g, current, lo, hi) in cs && forall c :: c in cs ==> c <= Top(g, current, lo, hi)
  {
    var cs, top := Candidates(g, current, lo, hi), Top(g, current, lo, hi);
    var low, high := Low(g, current, lo), High(g, current, hi);
    CandidatesExactly(g, current, lo, hi, top);
    if low <= high { GridTopIsHighest(g, low, high, current); }
    hide Candidates, GridTop;
    forall c | c in cs ensures c <= top {
      CandidatesExactly(g, current, lo, hi, c);
      if low <= high { GridTopIsHighest(g, low, high, c); }
    }
  }

  lemma TopInBounds(g: Grid, current: int, lo: int, hi: int)
    requires lo <= current <= hi
    ensures current <= Top(g, current, lo, hi) <= hi
  {
    TopIsLargest(g, current, lo, hi);
    CandidatesInBounds(g, current, lo, hi);
    CandidatesExactly(g, current, lo, hi, current);
    hide Candidates, Top;
  }

  lemma NextPoint(d: int, x: nat, y: nat)
    requires d >= 1
    ensures d * (y / d) > x <==> x + d - x % d <= y
  {
    var k, q := x / d, y / d;
    assert x == d * k + x % d && d * q <= y < d * q + d;
    if q <= k { TimesMonotone(d, q, k); } else { TimesStrict(d, k, q); }
  }

  /** From a limit not below the bounds there is nothing larger to propose exactly when
      the next grid point above it is out of reach. */
  lemma NothingAboveIff(g: Grid, current: int, lo: int, hi: int)
    requires lo <= current
    ensures var low, high := Low(g, current, lo), High(g, current, hi);
            Top(g, current, lo, hi) == current
            <==> low > high || current + g.step - (current - low) % g.step > high
  {
    var low, high := Low(g, current, lo), High(g, current, hi);
    if low <= high { NextPoint(g.step, current - low, high - low); }
  }

  /** One step of a climb. */
  function ClimbOnce(g: Grid, lo: int, hi: int, delta: int, current: int): int {
    Toward(current, Top(g, current, lo, hi), delta)
  }

  function Climb(g: Grid, lo: int, hi: int, delta: int, current: int, n: nat): int
    decreases n
  {
    if n == 0 then current else Climb(g, lo, hi, delta, ClimbOnce(g, lo, hi, delta, current), n - 1)
  }

  /** The grid sees a move and a step ahead, its steps divide its window, and the bounds
      are wider than that. */
  predicate Wide(g: Grid, lo: int, hi: int, delta: int) {
    && g.window % g.step == 0 && delta + g.step <= g.window + 1
    && g.window <= hi - g.step + 1 - lo
  }

  /** Its steps also divide the move, for which there is room, too. */
  predicate Aligned(g: Grid, lo: int, hi: int, delta: int) {
    && g.window % g.step == 0 && delta % g.step == 0
    && delta + g.step <= g.window + 1 && g.window + delta + g.step <= hi - lo + 2
  }

  predicate Rests(g: Grid, lo: int, hi: int, current: int) {
    Top(g, current, lo, hi) == current
  }

  lemma ClimbNext(g: Grid, lo: int, hi: int, delta: int, current: int, n: nat)
    ensures Climb(g, lo, hi, delta, current, n + 1)
            == Climb(g, lo, hi, delta, ClimbOnce(g, lo, hi, delta, current), n)
  {
  }

  lemma ClimbZero(g: Grid, lo: int, hi: int, delta: int, current: int)
    ensures Climb(g, lo, hi, delta, current, 0) == current
  {
  }

  lemma ClimbOnceRises(g: Grid, lo: int, hi: int, delta: int, current: int)
    requires delta >= 1 && lo <= current <= hi
    ensures var next := ClimbOnce(g, lo, hi, delta, current);
            current <= next <= hi && next <= current + delta
            && (next == current <==> Rests(g, lo, hi, current))
    ensures Rests(g, lo, hi, hi)
  {
    TopInBounds(g, current, lo, hi);
    TopInBounds(g, hi, lo, hi);
    hide Top;
  }

  /** For all grids and steps, a climb stays in bounds, never falls, and rests after at
      most as many steps as there are limits above its start. */
  lemma {:induction false} ClimbRests(g: Grid, lo: int, hi: int, delta: int, current: int, n: nat)
    requires delta >= 1 && lo <= current <= hi
    ensures var end := Climb(g, lo, hi, delta, current, n);
            current <= end <= hi && (n >= hi - current ==> Rests(g, lo, hi, end))
    decreases n
  {
    ClimbOnceRises(g, lo, hi, delta, current);
    if n > 0 {
      var next := ClimbOnce(g, lo, hi, delta, current);
      ClimbRests(g, lo, hi, delta, next, n - 1);
      hide Rests, ClimbOnce;
      if next == current { RestStays(g, lo, hi, delta, current, n - 1); }
    }
  }

  lemma {:induction false} RestStays(g: Grid, lo: int, hi: int, delta: int, current: int, n: nat)
    requires delta >= 1 && lo <= current <= hi && Rests(g, lo, hi, current)
    ensures Climb(g, lo, hi, delta, current, n) == current
    decreases n
  {
    ClimbOnceRises(g, lo, hi, delta, current);
    if n > 0 {
      RestStays(g, lo, hi, delta, current, n - 1);
    }
  }

  lemma {:induction false} ClimbAdds(g: Grid, lo: int, hi: int, delta: int, current: int, m: nat, n: nat)
    ensures Climb(g, lo, hi, delta, current, m + n)
            == Climb(g, lo, hi, delta, Climb(g, lo, hi, delta, current, m), n)
    decreases m
  {
    if m > 0 { ClimbAdds(g, lo, hi, delta, ClimbOnce(g, lo, hi, delta, current), m - 1, n); }
  }

  /** A climb at rest stays where it is. */
  lemma ClimbStays(g: Grid, lo: int, hi: int, delta: int, current: int, m: nat, n: nat)
    requires delta >= 1 && lo <= current <= hi && m <= n
    requires Rests(g, lo, hi, Climb(g, lo, hi, delta, current, m))
    ensures Climb(g, lo, hi, delta, current, n) == Climb(g, lo, hi, delta, current, m)
  {
    hide Rests, ClimbOnce;
    ClimbRests(g, lo, hi, delta, current, m);
    ClimbAdds(g, lo, hi, delta, current, m, n - m);
    RestStays(g, lo, hi, delta, Climb(g, lo, hi, delta, current, m), n - m);
  }

  /** Before a limit at which it does not rest a climb is below it. */
  lemma ClimbBelow(g: Grid, lo: int, hi: int, delta: int, current: int, m: nat, n: nat)
    requires delta >= 1 && lo <= current <= hi && m <= n
    requires !Rests(g, lo, hi, Climb(g, lo, hi, delta, current, n))
    ensures Climb(g, lo, hi, delta, current, m) <= Climb(g, lo, hi, delta, current, n)
    ensures Climb(g, lo, hi, delta, current, m) == Climb(g, lo, hi, delta, current, n) <==> m == n
  {
    var c := Climb(g, lo, hi, delta, current, m);
    ClimbRests(g, lo, hi, delta, current, m);
    ClimbAdds(g, lo, hi, delta, current, m, n - m);
    if m < n {
      var next := ClimbOnce(g, lo, hi, delta, c);
      ClimbOnceRises(g, lo, hi, delta, c);
      ClimbNext(g, lo, hi, delta, c, n - m - 1);
      if next == c { RestStays(g, lo, hi, delta, c, n - m); }
      ClimbRests(g, lo, hi, delta, next, n - m - 1);
    }
  }

  /** A grid that looks a step and a move ahead never shortens a move short of the last
      grid step below the maximum. */
  lemma ClimbOnceFull(g: Grid, lo: int, hi: int, delta: int, current: int)
    requires delta >= 1 && lo <= current <= hi && delta + g.step <= g.window + 1
    ensures var zone := hi - g.step + 1;
            Min(ClimbOnce(g, lo, hi, delta, current), zone) == Min(current + delta, zone)
  {
    var low, high := Low(g, current, lo), High(g, current, hi);
    ClimbOnceRises(g, lo, hi, delta, current);
    GridTopIsHighest(g, low, high, current);
    hide GridTop;
  }

  lemma ZoneShift(zone: int, x: int, y: int, p: nat)
    requires Min(x, zone) == Min(y, zone)
    ensures x + p >= zone <==> y + p >= zone
  {
  }

  /** Such a climb is within one grid step of the maximum after exactly the number of
      moves the distance takes, not fewer. */
  lemma {:induction false} ClimbReaches(g: Grid, lo: int, hi: int, delta: int, current: int, n: nat)
    requires delta >= 1 && lo <= current <= hi && delta + g.step <= g.window + 1
    ensures Climb(g, lo, hi, delta, current, n) > hi - g.step <==> current + delta * n > hi - g.step
    decreases n
  {
    if n > 0 {
      var next := ClimbOnce(g, lo, hi, delta, current);
      ClimbOnceRises(g, lo, hi, delta, current);
      ClimbOnceFull(g, lo, hi, delta, current);
      ClimbReaches(g, lo, hi, delta, next, n - 1);
      assert Climb(g, lo, hi, delta, current, n) == Climb(g, lo, hi, delta, next, n - 1);
      hide ClimbOnce, Climb, Min;
      ProductNonNegative(delta, n - 1);
      Distribute(delta, n - 1, 1);
      ZoneShift(hi - g.step + 1, next, current + delta, delta * (n - 1));
    }
  }

  /** If the steps divide the window and the bounds are wider than it, a climb rests
      exactly within one grid step of the maximum, which need not be the maximum. */
  lemma RestsNearMaximumIff(g: Grid, lo: int, hi: int, current: int)
    requires lo <= current <= hi && g.window % g.step == 0 && g.step <= g.window <= hi - g.step + 1 - lo
    ensures Rests(g, lo, hi, current) <==> current > hi - g.step
  {
    NothingAboveIff(g, current, lo, hi);
    hide Top;
  }

  /** Such a climb rests within one grid step of the maximum, and from exactly the move
      that the distance takes on. */
  lemma ClimbRestsIff(g: Grid, lo: int, hi: int, delta: int, current: int, n: nat)
    requires delta >= 1 && lo <= current <= hi && Wide(g, lo, hi, delta)
    ensures var end := Climb(g, lo, hi, delta, current, n);
            && (Rests(g, lo, hi, end) <==> end > hi - g.step)
            && (Rests(g, lo, hi, end) <==> current + delta * n > hi - g.step)
  {
    ClimbRests(g, lo, hi, delta, current, n);
    ClimbReaches(g, lo, hi, delta, current, n);
    RestsNearMaximumIff(g, lo, hi, Climb(g, lo, hi, delta, current, n));
  }

  lemma SameRemainder(x: int, y: int, d: int)
    requires d >= 1 && (x - y) % d == 0
    ensures x % d == y % d
  {
    var k, q := (x - y) / d, y / d;
    assert x - y == d * k && y == d * q + y % d;
    Distribute(d, k, q);
    RemainderUnique(x, d, k + q, y % d);
  }

  lemma MultiplesAdd(x: int, y: int, d: int)
    requires d >= 1 && x % d == 0 && y % d == 0
    ensures (x + y) % d == 0 && (x - y) % d == 0
  {
    var k, q := x / d, y / d;
    assert x == d * k && y == d * q;
    Distribute(d, k, q);
    RemainderUnique(x + y, d, k + q, 0);
    RemainderUnique(x - y, d, k - q, 0);
  }

  /** A move keeps its place among the grid steps counted from the maximum. */
  lemma ClimbOnceKeepsOffset(g: Grid, lo: int, hi: int, delta: int, current: int)
    requires delta >= 1 && lo <= current <= hi && Aligned(g, lo, hi, delta)
    ensures (hi - ClimbOnce(g, lo, hi, delta, current)) % g.step == (hi - current) % g.step
  {
    var low, high, next := Low(g, current, lo), High(g, current, hi), ClimbOnce(g, lo, hi, delta, current);
    GridTopIsHighest(g, low, high, current);
    var top := GridTop(g, low, high);
    hide GridTop;
    MultiplesAdd(0, delta, g.step);
    if next != current + delta && next != current {
      assert next == top && low == current - g.window;
      MultiplesAdd(g.window, top - low, g.step);
    }
    assert (current - next) % g.step == 0;
    SameRemainder(hi - next, hi - current, g.step);
  }

  /** So the place where the climb rests is known beforehand. */
  lemma {:induction false} ClimbRestsAt(g: Grid, lo: int, hi: int, delta: int, current: int, n: nat)
    requires delta >= 1 && lo <= current <= hi && Aligned(g, lo, hi, delta)
    ensures var end := Climb(g, lo, hi, delta, current, n);
            Rests(g, lo, hi, end) ==> end == hi - (hi - current) % g.step
    decreases n
  {
    if n == 0 {
      RestsNearMaximumIff(g, lo, hi, current);
      hide Rests;
      if 0 <= hi - current < g.step { RemainderUnique(hi - current, g.step, 0, hi - current); }
    } else {
      ClimbOnceRises(g, lo, hi, delta, current);
      ClimbOnceKeepsOffset(g, lo, hi, delta, current);
      hide ClimbOnce, Rests;
      ClimbRestsAt(g, lo, hi, delta, ClimbOnce(g, lo, hi, delta, current), n - 1);
    }
  }

  /** All of it: where a climb goes, where it rests, and from which move on. */
  predicate EndsAt(g: Grid, lo: int, hi: int, delta: int, start: int, n: nat, end: int) {
    && start <= end <= hi
    && (n >= hi - start ==> Rests(g, lo, hi, end))
    && (Wide(g, lo, hi, delta) ==>
          && (Rests(g, lo, hi, end) <==> end > hi - g.step)
          && (Rests(g, lo, hi, end) <==> start + delta * n > hi - g.step))
    && (Aligned(g, lo, hi, delta) && Rests(g, lo, hi, end) ==> end == hi - (hi - start) % g.step)
  }

  lemma ClimbEnd(g: Grid, lo: int, hi: int, delta: int, start: int, n: nat)
    requires delta >= 1 && lo <= start <= hi
    ensures EndsAt(g, lo, hi, delta, start, n, Climb(g, lo, hi, delta, start, n))
  {
    hide Climb, Rests, Wide, Aligned;
    ClimbRests(g, lo, hi, delta, start, n);
    if Wide(g, lo, hi, delta) { ClimbRestsIff(g, lo, hi, delta, start, n); }
    if Aligned(g, lo, hi, delta) { ClimbRestsAt(g, lo, hi, delta, start, n); }
  }

  // ----- the improvement hint -----

  /** The relative gain the loop reports to the safety layer. A cost of zero counts as
      missing. */
  function Hint(predict: int -> Option<real>, current: int, r: Result): Option<real> {
    match (predict(current), r.bestCost)
    case (Some(base), Some(best)) =>
      if base == 0.0 || best == 0.0 then None
      else Some((base - best) / (if base < 0.0 then -base else base))
    case _ => None
  }

  /** There is a hint exactly if the present cost is known and both costs count; scaled
      by the size of the present cost it is what the proposal saves. */
  lemma HintIs(predict: int -> Option<real>, current: int, r: Result)
    ensures var hint := Hint(predict, current, r);
            && (hint.Some? <==>
                  && predict(current).Some? && r.bestCost.Some?
                  && predict(current).value != 0.0 && r.bestCost.value != 0.0)
            && (hint.Some? && predict(current).value > 0.0 ==>
                  hint.value * predict(current).value == predict(current).value - r.bestCost.value)
            && (hint.Some? && predict(current).value < 0.0 ==>
                  hint.value * predict(current).value == r.bestCost.value - predict(current).value)
  {
    if predict(current).Some? && r.bestCost.Some? && predict(current).value != 0.0 {
      var base, best := predict(current).value, r.bestCost.value;
      var size := if base < 0.0 then -base else base;
      assert (base - best) / size * size == base - best;
      if base < 0.0 {
        assert (base - best) / size * base == -((base - best) / size * size);
      }
    }
  }

  lemma NothingCheaper(g: Grid, predict: int -> Option<real>, current: int, lo: int, hi: int)
    ensures var r := Search(g, predict, current, lo, hi);
            && (forall e :: e in r.evaluated ==> r.bestCost.Some? && r.bestCost.value <= e.cost)
            && (predict(current).Some? ==> r.bestCost.Some? && r.bestCost.value <= predict(current).value)
  {
    if predict(current).Some? {
      SearchStaysOnGrid(g, predict, current, lo, hi, Evaluation(current, predict(current).value));
    }
  }

  /** The search never proposes a predicted regression: nothing evaluated is cheaper
      than the proposal, and whenever there is a hint it is not negative. */
  lemma NeverARegression(g: Grid, predict: int -> Option<real>, current: int, lo: int, hi: int)
    ensures var r := Search(g, predict, current, lo, hi);
            && (forall e :: e in r.evaluated ==> r.bestCost.Some? && r.bestCost.value <= e.cost)
            && (Hint(predict, current, r).Some? ==> Hint(predict, current, r).value >= 0.0)
  {
    NothingCheaper(g, predict, current, lo, hi);
    hide Search;
    HintNonNegative(predict, current, Search(g, predict, current, lo, hi));
  }

  lemma HintNonNegative(predict: int -> Option<real>, current: int, r: Result)
    requires predict(current).Some? && r.bestCost.Some? ==> r.bestCost.value <= predict(current).value
    ensures Hint(predict, current, r).Some? ==> Hint(predict, current, r).value >= 0.0
  {
    if Hint(predict, current, r).Some? {
      var base, best := predict(current).value, r.bestCost.value;
      QuotientNonNegative(base - best, if base < 0.0 then -base else base);
    }
  }

  lemma QuotientNonNegative(x: real, y: real)
    requires x >= 0.0 && y > 0.0
    ensures x / y >= 0.0
  {
  }
}
