/** The analytic cost used while no trained model exists. Costs are reals, and no
    telemetry is assumed to have a particular sign: the exported `waiting` can be
    negative. */
module Predictor {

  datatype Telemetry = Telemetry(
    p95: real, p99: real, errorRate: real, active: real, waiting: real,
    poolAcquired: real, poolMax: real)
  {
    /** All measurements but `waiting`, which the admission controller may undercount. */
    predicate Sensible() {
      p95 >= 0.0 && p99 >= 0.0 && errorRate >= 0.0 && active >= 0.0 && poolAcquired >= 0.0
    }
  }

  datatype Weights = Weights(latency: real, error: real, wait: real, resource: real)
  {
    predicate NonNegative() {
      latency >= 0.0 && error >= 0.0 && wait >= 0.0 && resource >= 0.0
    }
  }

  function Capacity(candidate: int): int {
    if candidate > 1 then candidate else 1
  }

  function TailCost(t: Telemetry, utilization: real): real {
    t.p99 * (1.0 + 2.0 * (utilization * utilization))
  }

  function ContentionCost(t: Telemetry, utilization: real): real {
    (t.p95 + t.p99) / 2.0 * utilization
  }

  function LatencyCost(t: Telemetry, utilization: real): real {
    TailCost(t, utilization) + ContentionCost(t, utilization)
  }

  function ResourceCost(t: Telemetry): real {
    t.poolAcquired / (if t.poolMax > 1.0 then t.poolMax else 1.0)
  }

  function Cost(w: Weights, t: Telemetry, candidate: int): real {
    var limit := Capacity(candidate) as real;
    w.latency * LatencyCost(t, t.active / limit)
      + w.error * t.errorRate
      + w.wait * (t.waiting / limit)
      + w.resource * ResourceCost(t)
  }

  // ----- products -----

  lemma Distribute(a: real, x: real, y: real)
    ensures a * (x + y) == a * x + a * y
    ensures a * (x - y) == a * x - a * y
  {
  }

  lemma Regroup(a: real, b: real, c: real)
    ensures a * (b * c) == (a * b) * c
  {
  }

  /** Scaling by a positive factor keeps the sign. */
  lemma SignOfProduct(a: real, x: real)
    requires a > 0.0
    ensures a * x > 0.0 <==> x > 0.0
    ensures a * x < 0.0 <==> x < 0.0
  {
    if x > 0.0 {
      assert a * x > 0.0;
    } else if x < 0.0 {
      assert a * (-x) > 0.0;
      assert a * x == -(a * (-x));
    }
  }

  /** Scaling by a positive factor keeps the order. */
  lemma ScaledOrder(a: real, x: real, y: real)
    requires a > 0.0
    ensures a * x < a * y <==> x < y
    ensures a * x <= a * y <==> x <= y
  {
    SignOfProduct(a, y - x);
    Distribute(a, y, x);
  }

  /** Scaling by a negative factor reverses it. */
  lemma ReversedOrder(a: real, x: real, y: real)
    requires a < 0.0
    ensures a * x < a * y <==> y < x
    ensures a * x <= a * y <==> y <= x
  {
    ScaledOrder(-a, y, x);
    Negated(a, x);
    Negated(a, y);
  }

  lemma Negated(a: real, x: real)
    ensures (-a) * x == -(a * x)
  {
  }

  lemma ProductZero(a: real, x: real)
    requires a >= 0.0 && x >= 0.0
    ensures a * x >= 0.0
    ensures a * x == 0.0 <==> a == 0.0 || x == 0.0
  {
    if a > 0.0 { SignOfProduct(a, x); }
  }

  lemma ScaledNeverFalls(a: real, x: real, y: real)
    requires a >= 0.0 && x <= y
    ensures a * x <= a * y
  {
    ProductZero(a, y - x);
    Distribute(a, y, x);
  }

  function Inverse(n: int): (x: real)
    requires n >= 1
    ensures x * n as real == 1.0
  {
    1.0 / n as real
  }

  lemma Reciprocal(load: real, n: int)
    requires n >= 1
    ensures load / n as real == load * Inverse(n)
  {
  }

  lemma InverseIs(n: int, x: real)
    requires n >= 1 && n as real * x == 1.0
    ensures Inverse(n) == x
  {
    var y := Inverse(n);
    assert n as real * y == y * n as real;
    ScaledOrder(n as real, x, y);
    ScaledOrder(n as real, y, x);
  }

  lemma InversePositive(n: int)
    requires n >= 1
    ensures Inverse(n) > 0.0
  {
    SignOfProduct(n as real, Inverse(n));
  }

  lemma ReciprocalsFall(m: real, n: real, x: real, y: real)
    requires 1.0 <= m < n && x > 0.0 && x * m == 1.0 && y * n == 1.0
    ensures y < x <= 1.0
    ensures n >= 2.0 ==> y <= 0.5
  {
    ScaledOrder(x, m, n);
    ScaledOrder(n, y, x);
    assert n * x > n * y;
    ScaledOrder(m, x, 1.0);
    ScaledOrder(n, y, 0.5);
  }

  /** Reciprocals are positive and fall strictly. */
  lemma InverseFalls(m: int, n: int)
    requires 1 <= m < n
    ensures 0.0 < Inverse(n) < Inverse(m) <= 1.0
    ensures n >= 2 ==> Inverse(n) <= 0.5
  {
    InversePositive(m);
    InversePositive(n);
    ReciprocalsFall(m as real, n as real, Inverse(m), Inverse(n));
  }

  // ----- the cost as a polynomial -----

  /** The coefficient of the square of the reciprocal capacity. */
  function Square(w: Weights, t: Telemetry): real {
    w.latency * (2.0 * t.p99 * (t.active * t.active))
  }

  /** The coefficient of the reciprocal capacity itself. */
  function Slope(w: Weights, t: Telemetry): real {
    w.latency * ((t.p95 + t.p99) / 2.0 * t.active) + w.wait * t.waiting
  }

  /** What no candidate can change. */
  function Fixed(w: Weights, t: Telemetry): real {
    w.latency * t.p99 + w.error * t.errorRate + w.resource * ResourceCost(t)
  }

  lemma TailAt(t: Telemetry, x: real)
    ensures TailCost(t, t.active * x) == t.p99 + 2.0 * t.p99 * (t.active * t.active) * (x * x)
  {
  }

  lemma ContentionAt(t: Telemetry, x: real)
    ensures ContentionCost(t, t.active * x) == (t.p95 + t.p99) / 2.0 * t.active * x
  {
  }

  lemma Expand(a: real, p: real, s: real, z: real, k: real, x: real)
    ensures a * (p + s * z + k * x) == a * p + (a * s) * z + (a * k) * x
  {
    Distribute(a, p + s * z, k * x);
    Distribute(a, p, s * z);
    Regroup(a, s, z);
    Regroup(a, k, x);
  }

  lemma WeightedLatencyAt(w: Weights, t: Telemetry, x: real, u: real)
    requires u == t.active * x
    ensures w.latency * LatencyCost(t, u)
            == w.latency * t.p99 + Square(w, t) * (x * x)
               + w.latency * ((t.p95 + t.p99) / 2.0 * t.active) * x
  {
    TailAt(t, x);
    ContentionAt(t, x);
    hide TailCost, ContentionCost;
    var s, k := 2.0 * t.p99 * (t.active * t.active), (t.p95 + t.p99) / 2.0 * t.active;
    assert LatencyCost(t, u) == t.p99 + s * (x * x) + k * x;
    Expand(w.latency, t.p99, s, x * x, k, x);
  }

  /** The cost is a quadratic polynomial of the reciprocal capacity, for all weights
      and all telemetry; errors and the pool only shift it. */
  lemma CostIsQuadratic(w: Weights, t: Telemetry, c: int)
    ensures var x := Inverse(Capacity(c));
            Cost(w, t, c) == Fixed(w, t) + Slope(w, t) * x + Square(w, t) * (x * x)
  {
    var n := Capacity(c);
    var u, x := t.active / n as real, Inverse(n);
    Reciprocal(t.active, n);
    Reciprocal(t.waiting, n);
    hide LatencyCost, Square, Inverse;
    WeightedLatencyAt(w, t, x, u);
    Regroup(w.wait, t.waiting, x);
    var a, b := w.latency * ((t.p95 + t.p99) / 2.0 * t.active), w.wait * t.waiting;
    assert (a + b) * x == a * x + b * x;
  }

  // ----- comparing candidates -----

  /** What one unit of reciprocal capacity between `c` and `d` is worth. */
  function Relief(w: Weights, t: Telemetry, c: int, d: int): real {
    Square(w, t) * (Inverse(Capacity(c)) + Inverse(Capacity(d))) + Slope(w, t)
  }

  lemma PolynomialDifference(f: real, s: real, q: real, x: real, y: real)
    ensures (f + s * x + q * (x * x)) - (f + s * y + q * (y * y)) == (x - y) * (q * (x + y) + s)
  {
    calc {
      (x - y) * (q * (x + y) + s);
    ==  { Distribute(x - y, q * (x + y), s); }
      (x - y) * (q * (x + y)) + (x - y) * s;
    ==  { Regroup(q, x - y, x + y); }
      q * ((x - y) * (x + y)) + (x - y) * s;
    ==  { assert (x - y) * (x + y) == x * x - y * y; Distribute(q, x * x, y * y); }
      q * (x * x) - q * (y * y) + (x - y) * s;
    }
  }

  /** What a larger capacity saves, exactly, for all weights and telemetry. */
  lemma CostDifference(w: Weights, t: Telemetry, c: int, d: int)
    ensures Cost(w, t, c) - Cost(w, t, d)
            == (Inverse(Capacity(c)) - Inverse(Capacity(d))) * Relief(w, t, c, d)
  {
    CostIsQuadratic(w, t, c);
    CostIsQuadratic(w, t, d);
    hide Cost, Square, Slope, Fixed, Inverse;
    PolynomialDifference(Fixed(w, t), Slope(w, t), Square(w, t),
                         Inverse(Capacity(c)), Inverse(Capacity(d)));
  }

  /** What is saved by going from `c` to `d`. */
  function Gain(w: Weights, t: Telemetry, c: int, d: int): real {
    (Inverse(Capacity(c)) - Inverse(Capacity(d))) * Relief(w, t, c, d)
  }

  function Size(x: real): real {
    if x < 0.0 then -x else x
  }

  lemma QuotientBelow(x: real, y: real, bound: real)
    requires y > 0.0
    ensures x / y < bound <==> x < bound * y
  {
    var r := x / y;
    assert y * r == x;
    ScaledOrder(y, r, bound);
    assert y * bound == bound * y;
  }

  /** The relative gain, as a caller compares it, without the division. */
  lemma RelativeGain(w: Weights, t: Telemetry, c: int, d: int, bound: real)
    requires Cost(w, t, c) != 0.0
    ensures (Cost(w, t, c) - Cost(w, t, d)) / Size(Cost(w, t, c)) < bound
            <==> Gain(w, t, c, d) < bound * Size(Cost(w, t, c))
  {
    CostDifference(w, t, c, d);
    hide Cost, Relief, Inverse;
    QuotientBelow(Cost(w, t, c) - Cost(w, t, d), Size(Cost(w, t, c)), bound);
  }

  lemma InverseNeverRises(m: int, n: int)
    requires 1 <= m <= n
    ensures Inverse(n) <= Inverse(m)
  {
    if m < n { InverseFalls(m, n); }
  }

  /** If the square is not negative, the relief falls as either candidate grows. */
  lemma ReliefFalls(w: Weights, t: Telemetry, c: int, d: int, c': int, d': int)
    requires Square(w, t) >= 0.0 && c <= c' && d <= d'
    ensures Relief(w, t, c, d) >= Relief(w, t, c', d')
  {
    InverseNeverRises(Capacity(c), Capacity(c'));
    InverseNeverRises(Capacity(d), Capacity(d'));
    hide Square, Slope, Inverse;
    var q, z := Square(w, t), Inverse(Capacity(c)) + Inverse(Capacity(d));
    var z' := Inverse(Capacity(c')) + Inverse(Capacity(d'));
    if q > 0.0 { ScaledOrder(q, z', z); }
    assert q * z' <= q * z;
  }

  /** Of two candidates the larger one is no dearer exactly when their capacities
      agree or the relief between them is not negative, and cheaper exactly when they
      differ and it is positive. */
  lemma CostOrder(w: Weights, t: Telemetry, c: int, d: int)
    requires c <= d
    ensures Cost(w, t, d) <= Cost(w, t, c)
            <==> Capacity(c) == Capacity(d) || Relief(w, t, c, d) >= 0.0
    ensures Cost(w, t, d) < Cost(w, t, c)
            <==> Capacity(c) < Capacity(d) && Relief(w, t, c, d) > 0.0
  {
    CostDifference(w, t, c, d);
    hide Cost, Relief, Inverse;
    if Capacity(c) < Capacity(d) {
      InverseFalls(Capacity(c), Capacity(d));
      SignOfProduct(Inverse(Capacity(c)) - Inverse(Capacity(d)), Relief(w, t, c, d));
    }
  }

  // ----- the shape of the whole curve -----

  /** Every larger capacity is strictly cheaper. */
  predicate Pressed(w: Weights, t: Telemetry) {
    Slope(w, t) >= 0.0 && 3.0 * Square(w, t) + 2.0 * Slope(w, t) > 0.0
  }

  /** No larger capacity is dearer. */
  predicate Relaxing(w: Weights, t: Telemetry) {
    Slope(w, t) >= 0.0 && 3.0 * Square(w, t) + 2.0 * Slope(w, t) >= 0.0
  }

  /** Every larger capacity is strictly dearer, as a large enough undercount of the
      waiting requests makes it. */
  predicate Backward(w: Weights, t: Telemetry) {
    Slope(w, t) <= 0.0 && 3.0 * Square(w, t) + 2.0 * Slope(w, t) < 0.0
  }

  /** With a slope that is not negative the relief is smallest for the two largest
      reciprocals, if the square is negative, and for the smallest ones if not. */
  lemma WorstReciprocals(q: real, s: real, z: real)
    requires 0.0 < z <= 1.5 && s >= 0.0
    ensures 3.0 * q + 2.0 * s > 0.0 ==> q * z + s > 0.0
    ensures 3.0 * q + 2.0 * s >= 0.0 ==> q * z + s >= 0.0
  {
    if q < 0.0 {
      assert q * 1.5 <= q * z by { ReversedOrder(q, z, 1.5); }
      assert q * 1.5 == 1.5 * q;
    } else if q > 0.0 {
      assert 0.0 < q * z by { SignOfProduct(q, z); }
    }
  }

  lemma ReliefBounds(w: Weights, t: Telemetry, c: int, d: int)
    requires Capacity(c) < Capacity(d)
    ensures Pressed(w, t) ==> Relief(w, t, c, d) > 0.0
    ensures Relaxing(w, t) ==> Relief(w, t, c, d) >= 0.0
    ensures Backward(w, t) ==> Relief(w, t, c, d) < 0.0
  {
    InverseFalls(Capacity(c), Capacity(d));
    hide Square, Slope, Inverse;
    var q, s, z := Square(w, t), Slope(w, t), Inverse(Capacity(c)) + Inverse(Capacity(d));
    var relief := q * z + s;
    assert Relief(w, t, c, d) == relief;
    hide Relief;
    if s >= 0.0 { WorstReciprocals(q, s, z); }
    if s <= 0.0 {
      WorstReciprocals(-q, -s, z);
      Negated(q, z);
    }
  }

  lemma ReliefAtOneTwo(w: Weights, t: Telemetry)
    ensures 2.0 * Relief(w, t, 1, 2) == 3.0 * Square(w, t) + 2.0 * Slope(w, t)
  {
    assert Inverse(1) == 1.0 && Inverse(2) == 0.5;
  }

  /** A whole number of steps of size `s` exceeds any bound. */
  lemma Archimedes(s: real, bound: real) returns (n: int)
    requires s > 0.0
    ensures n >= 1 && s * n as real > bound
  {
    n := 1;
    if bound > 0.0 {
      var steps := bound / s;
      assert s * steps == bound;
      SignOfProduct(s, steps);
      n := steps.Floor + 1;
      Distribute(s, n as real, steps);
      SignOfProduct(s, n as real - steps);
    } else {
      SignOfProduct(s, 1.0);
    }
  }

  /** A negative slope outweighs the square where reciprocals are small enough. */
  lemma SlopeOutweighs(q: real, s: real, n: int, x: real, y: real)
    requires n >= 1 && x * n as real == 1.0 && 0.0 < y < x && s > 0.0
    requires s * n as real > 2.0 * q
    ensures q * (x + y) < s
  {
    if q > 0.0 {
      calc {
        q * (x + y);
      <  { ScaledOrder(q, x + y, 2.0 * x); }
        q * (2.0 * x);
      ==
        x * (2.0 * q);
      <  { ScaledOrder(x, 2.0 * q, s * n as real); }
        x * (s * n as real);
      ==  { Regroup(s, n as real, x); }
        s * (n as real * x);
      ==  { assert n as real * x == 1.0; }
        s;
      }
    } else if q < 0.0 {
      ReversedOrder(q, 0.0, x + y);
    }
  }

  /** Some far-out pair of candidates shows the slope alone. */
  lemma NegativeSlopeShows(w: Weights, t: Telemetry) returns (c: int)
    requires Slope(w, t) < 0.0
    ensures c >= 1 && Relief(w, t, c, c + 1) < 0.0
  {
    hide Square, Slope;
    var q, s := Square(w, t), Slope(w, t);
    c := Archimedes(-s, 2.0 * q);
    InverseFalls(c, c + 1);
    var x, y := Inverse(c), Inverse(c + 1);
    hide Inverse;
    SlopeOutweighs(q, -s, c, x, y);
    assert Relief(w, t, c, c + 1) == q * (x + y) + s;
  }

  /** The cost never rises with the candidate exactly for relaxing telemetry. */
  lemma AntitoneIff(w: Weights, t: Telemetry)
    ensures (forall c: int, d: int :: c <= d ==> Cost(w, t, d) <= Cost(w, t, c))
            <==> Relaxing(w, t)
  {
    hide Cost, Relief, Square, Slope;
    if Relaxing(w, t) {
      forall c: int, d: int | c <= d ensures Cost(w, t, d) <= Cost(w, t, c) {
        CostOrder(w, t, c, d);
        if Capacity(c) < Capacity(d) { ReliefBounds(w, t, c, d); }
      }
    } else if Slope(w, t) < 0.0 {
      var c := NegativeSlopeShows(w, t);
      CostOrder(w, t, c, c + 1);
    } else {
      ReliefAtOneTwo(w, t);
      CostOrder(w, t, 1, 2);
    }
  }

  /** It falls strictly with every gain in capacity exactly for pressed telemetry. */
  lemma StrictlyAntitoneIff(w: Weights, t: Telemetry)
    ensures (forall c: int, d: int :: Capacity(c) < Capacity(d) ==> Cost(w, t, d) < Cost(w, t, c))
            <==> Pressed(w, t)
  {
    hide Cost, Relief, Square, Slope;
    if Pressed(w, t) {
      forall c: int, d: int | Capacity(c) < Capacity(d) ensures Cost(w, t, d) < Cost(w, t, c) {
        CostOrder(w, t, c, d);
        ReliefBounds(w, t, c, d);
      }
    } else if Slope(w, t) < 0.0 {
      var c := NegativeSlopeShows(w, t);
      CostOrder(w, t, c, c + 1);
      assert Capacity(c) < Capacity(c + 1);
    } else {
      ReliefAtOneTwo(w, t);
      CostOrder(w, t, 1, 2);
      assert Capacity(1) < Capacity(2);
    }
  }

  predicate Level(w: Weights, t: Telemetry) {
    Square(w, t) == 0.0 && Slope(w, t) == 0.0
  }

  /** All candidates cost the same exactly when both coefficients vanish. */
  lemma LevelIff(w: Weights, t: Telemetry)
    ensures (forall c: int, d: int :: Cost(w, t, c) == Cost(w, t, d)) <==> Level(w, t)
  {
    hide Cost, Square, Slope;
    if Level(w, t) {
      forall c: int, d: int ensures Cost(w, t, c) == Cost(w, t, d) {
        CostDifference(w, t, c, d);
      }
    } else {
      ReliefAtOneTwo(w, t);
      CostOrder(w, t, 1, 2);
      CostOrder(w, t, 1, 3);
      CostOrder(w, t, 2, 3);
      assert Inverse(1) == 1.0 && Inverse(2) == 0.5;
      assert Cost(w, t, 1) != Cost(w, t, 2) || Cost(w, t, 1) != Cost(w, t, 3);
    }
  }

  /** In terms of the measurements, if all but `waiting` are sensible: the slope is the
      contention of the active requests plus the weighted waiting ones, so pressure
      means that this is positive, or zero with some active request at a positive p99. */
  lemma PressedMeans(w: Weights, t: Telemetry)
    requires w.NonNegative() && t.Sensible()
    ensures Pressed(w, t) <==>
            || Slope(w, t) > 0.0
            || (Slope(w, t) == 0.0 && w.latency > 0.0 && t.p99 > 0.0 && t.active > 0.0)
    ensures t.waiting >= 0.0 ==>
              (Pressed(w, t) <==>
                || (w.latency > 0.0 && t.active > 0.0 && t.p95 + t.p99 > 0.0)
                || (w.wait > 0.0 && t.waiting > 0.0))
    ensures t.waiting >= 0.0 ==> Relaxing(w, t) && (Pressed(w, t) || Level(w, t))
  {
    ProductZero(t.active, t.active);
    ProductZero(2.0 * t.p99, t.active * t.active);
    ProductZero(w.latency, 2.0 * t.p99 * (t.active * t.active));
    ProductZero((t.p95 + t.p99) / 2.0, t.active);
    ProductZero(w.latency, (t.p95 + t.p99) / 2.0 * t.active);
    if t.waiting >= 0.0 { ProductZero(w.wait, t.waiting); }
  }

  // ----- the sign of the cost -----

  lemma QuotientZero(x: real, y: real)
    requires x >= 0.0 && y > 0.0
    ensures x / y >= 0.0
    ensures x / y == 0.0 <==> x == 0.0
  {
    assert (x / y) * y == x;
    SignOfProduct(y, x / y);
  }

  lemma LatencyCostZero(t: Telemetry, u: real)
    requires t.Sensible() && u >= 0.0
    ensures LatencyCost(t, u) >= 0.0
    ensures LatencyCost(t, u) == 0.0 <==> t.p99 == 0.0 && (t.p95 == 0.0 || u == 0.0)
  {
    ProductZero(u, u);
    ProductZero(t.p99, 1.0 + 2.0 * (u * u));
    ProductZero((t.p95 + t.p99) / 2.0, u);
  }

  /** All of the cost but its waiting term. */
  function CostBesideWaiting(w: Weights, t: Telemetry, c: int): real {
    w.latency * LatencyCost(t, t.active / Capacity(c) as real)
      + w.error * t.errorRate + w.resource * ResourceCost(t)
  }

  lemma BesideWaitingZero(w: Weights, t: Telemetry, c: int)
    requires w.NonNegative() && t.Sensible()
    ensures CostBesideWaiting(w, t, c) >= 0.0
    ensures CostBesideWaiting(w, t, c) == 0.0 <==>
            && (w.latency == 0.0 || (t.p99 == 0.0 && (t.p95 == 0.0 || t.active == 0.0)))
            && (w.error == 0.0 || t.errorRate == 0.0)
            && (w.resource == 0.0 || t.poolAcquired == 0.0)
  {
    var u := t.active / Capacity(c) as real;
    QuotientZero(t.active, Capacity(c) as real);
    QuotientZero(t.poolAcquired, if t.poolMax > 1.0 then t.poolMax else 1.0);
    LatencyCostZero(t, u);
    hide LatencyCost, ResourceCost;
    ProductZero(w.latency, LatencyCost(t, u));
    ProductZero(w.error, t.errorRate);
    ProductZero(w.resource, ResourceCost(t));
  }

  /** The sign of the cost is that of its other terms, scaled by the capacity, plus
      the weighted waiting: an undercount large enough makes the cost negative. */
  lemma CostSign(w: Weights, t: Telemetry, c: int)
    ensures var scaled := Capacity(c) as real * CostBesideWaiting(w, t, c) + w.wait * t.waiting;
            && (Cost(w, t, c) > 0.0 <==> scaled > 0.0)
            && (Cost(w, t, c) < 0.0 <==> scaled < 0.0)
  {
    var n, rest := Capacity(c) as real, CostBesideWaiting(w, t, c);
    var pressure := t.waiting / n;
    assert Cost(w, t, c) == rest + w.wait * pressure;
    hide Cost, CostBesideWaiting;
    assert n * pressure == t.waiting;
    Distribute(n, rest, w.wait * pressure);
    assert n * (w.wait * pressure) == w.wait * t.waiting by {
      Regroup(w.wait, pressure, n);
      assert n * (w.wait * pressure) == (w.wait * pressure) * n;
    }
    SignOfProduct(n, Cost(w, t, c));
  }

  /** With a counter that does not undercount, the cost is never negative, and zero
      exactly when every term that carries weight has nothing to measure. */
  lemma CostIsZeroIff(w: Weights, t: Telemetry, c: int)
    requires w.NonNegative() && t.Sensible()
    ensures t.waiting >= 0.0 ==> Cost(w, t, c) >= 0.0
    ensures t.waiting >= 0.0 ==>
              (Cost(w, t, c) == 0.0 <==>
                && (w.latency == 0.0 || (t.p99 == 0.0 && (t.p95 == 0.0 || t.active == 0.0)))
                && (w.error == 0.0 || t.errorRate == 0.0)
                && (w.wait == 0.0 || t.waiting == 0.0)
                && (w.resource == 0.0 || t.poolAcquired == 0.0))
  {
    CostSign(w, t, c);
    BesideWaitingZero(w, t, c);
    hide Cost, CostBesideWaiting;
    ProductZero(Capacity(c) as real, CostBesideWaiting(w, t, c));
    if t.waiting >= 0.0 { ProductZero(w.wait, t.waiting); }
  }

  // ----- what each term adds -----

  /** The connections in use cost their weight times the part of the pool they take, a
      pool of less than one counting as one: all of the weight for a full pool. */
  lemma PoolAdds(w: Weights, t: Telemetry, c: int)
    ensures var added := Cost(w, t, c) - Cost(w, t.(poolAcquired := 0.0), c);
            && (t.poolMax >= 1.0 ==> added * t.poolMax == w.resource * t.poolAcquired)
            && (t.poolMax <= 1.0 ==> added == w.resource * t.poolAcquired)
            && (t.poolAcquired == t.poolMax >= 1.0 ==> added == w.resource)
            && (w.resource >= 0.0 && 0.0 <= t.poolAcquired <= t.poolMax ==> 0.0 <= added <= w.resource)
  {
    var size := if t.poolMax > 1.0 then t.poolMax else 1.0;
    var part := t.poolAcquired / size;
    assert Cost(w, t, c) - Cost(w, t.(poolAcquired := 0.0), c) == w.resource * part;
    hide Cost;
    assert size * part == t.poolAcquired;
    Regroup(w.resource, part, size);
    assert part * size == size * part;
    if t.poolAcquired == t.poolMax >= 1.0 {
      ScaledOrder(size, part, 1.0);
      ScaledOrder(size, 1.0, part);
    }
    if w.resource >= 0.0 && 0.0 <= t.poolAcquired <= t.poolMax {
      assert 0.0 <= part <= 1.0 by {
        ScaledOrder(size, 1.0, part);
        ScaledOrder(size, part, 0.0);
      }
      ProductZero(w.resource, part);
      ScaledNeverFalls(w.resource, part, 1.0);
      assert w.resource * 1.0 == w.resource;
    }
  }

  /** Errors cost their weight times their rate; those that wait, theirs times their
      number over the capacity. */
  lemma ErrorsAndWaitersAdd(w: Weights, t: Telemetry, c: int)
    requires c >= 1
    ensures Cost(w, t, c) - Cost(w, t.(errorRate := 0.0), c) == w.error * t.errorRate
    ensures (Cost(w, t, c) - Cost(w, t.(waiting := 0.0), c)) * c as real == w.wait * t.waiting
  {
    var pressure := t.waiting / c as real;
    assert Cost(w, t, c) - Cost(w, t.(waiting := 0.0), c) == w.wait * pressure;
    hide Cost;
    assert pressure * c as real == t.waiting;
    Regroup(w.wait, pressure, c as real);
  }

  /** Candidates below 1 count as 1. */
  lemma CandidatesBelowOne(w: Weights, t: Telemetry, c: int)
    requires c <= 1
    ensures Cost(w, t, c) == Cost(w, t, 1)
  {
  }

  // ----- how much a larger capacity can gain -----

  /** Measurements of a system under pressure that has not more active requests than
      the limit `c`, with a counter that does not undercount. */
  predicate Busy(w: Weights, t: Telemetry, c: int) {
    && w.NonNegative() && t.Sensible() && t.waiting >= 0.0
    && Pressed(w, t) && t.active <= c as real
  }

  function HopFactor(r: real): real {
    if r < 0.5 then 1.0 else (5.0 + 4.0 * r) / 7.0
  }

  /** The largest part of its cost that such a system can gain from `c` to `d`. */
  function HopBound(c: int, d: int): real
    requires 1 <= c < d
  {
    var r := c as real / d as real;
    (1.0 - r) * HopFactor(r)
  }

  /** The cost of a busy system in three parts, in terms of its weighted tail latency
      `p` and its utilisation `u`. */
  lemma CostParts(w: Weights, t: Telemetry, c: int) returns (p: real, u: real)
    requires c >= 1 && Busy(w, t, c)
    ensures p >= 0.0 && 0.0 <= u <= 1.0 && Fixed(w, t) >= p
    ensures Slope(w, t) * Inverse(c) >= p * u / 2.0
    ensures Square(w, t) * (Inverse(c) * Inverse(c)) == 2.0 * (p * (u * u))
  {
    var x := Inverse(c);
    p, u := w.latency * t.p99, t.active * x;
    InversePositive(c);
    UtilisationAtMostOne(t.active, c);
    ProductZero(w.latency, t.p99);
    FixedAtLeast(w, t);
    SquareAt(w.latency, t.p99, t.active, x);
    Regroup(2.0, p, u * u);
    SlopeAtLeast(w, t, x);
  }

  lemma UtilisationAtMostOne(active: real, c: int)
    requires c >= 1 && 0.0 <= active <= c as real
    ensures 0.0 <= active * Inverse(c) <= 1.0
  {
    var x := Inverse(c);
    InversePositive(c);
    ProductZero(active, x);
    ScaledOrder(x, active, c as real);
    assert x * active == active * x;
  }

  lemma FixedAtLeast(w: Weights, t: Telemetry)
    requires w.NonNegative() && t.Sensible()
    ensures Fixed(w, t) >= w.latency * t.p99
  {
    QuotientZero(t.poolAcquired, if t.poolMax > 1.0 then t.poolMax else 1.0);
    ProductZero(w.error, t.errorRate);
    hide ResourceCost;
    ProductZero(w.resource, ResourceCost(t));
  }

  lemma SquareAt(l: real, p99: real, active: real, x: real)
    ensures l * (2.0 * p99 * (active * active)) * (x * x) == 2.0 * (l * p99) * ((active * x) * (active * x))
  {
    calc {
      l * (2.0 * p99 * (active * active)) * (x * x);
    ==  { Regroup(l, 2.0 * p99, active * active); }
      (l * (2.0 * p99)) * (active * active) * (x * x);
    ==  { Regroup(l * (2.0 * p99), active * active, x * x); }
      (l * (2.0 * p99)) * ((active * active) * (x * x));
    ==  { assert (active * active) * (x * x) == (active * x) * (active * x); }
      (l * (2.0 * p99)) * ((active * x) * (active * x));
    ==  { assert l * (2.0 * p99) == 2.0 * (l * p99); }
      2.0 * (l * p99) * ((active * x) * (active * x));
    }
  }

  lemma SlopeAtLeast(w: Weights, t: Telemetry, x: real)
    requires w.NonNegative() && t.Sensible() && t.waiting >= 0.0 && x > 0.0
    ensures Slope(w, t) * x >= (w.latency * t.p99) * (t.active * x) / 2.0
  {
    var half, whole := t.p99 / 2.0 * t.active, (t.p95 + t.p99) / 2.0 * t.active;
    assert whole == half + t.p95 / 2.0 * t.active;
    ProductZero(t.p95 / 2.0, t.active);
    ProductZero(w.latency, whole - half);
    Distribute(w.latency, whole, half);
    ProductZero(w.wait, t.waiting);
    ScaledNeverFalls(x, w.latency * half, Slope(w, t));
    assert x * Slope(w, t) == Slope(w, t) * x;
    hide Slope;
    calc {
      x * (w.latency * half);
    ==  { assert x * (w.latency * half) == (w.latency * half) * x; Regroup(w.latency, half, x); }
      w.latency * (half * x);
    ==  { assert half * x == (t.p99 / 2.0) * (t.active * x); }
      w.latency * ((t.p99 / 2.0) * (t.active * x));
    ==  { Regroup(w.latency, t.p99 / 2.0, t.active * x); }
      (w.latency * (t.p99 / 2.0)) * (t.active * x);
    ==  { assert w.latency * (t.p99 / 2.0) == (w.latency * t.p99) / 2.0; }
      (w.latency * t.p99) / 2.0 * (t.active * x);
    }
  }

  lemma HopPolynomial(r: real, u: real)
    requires 0.5 <= r && 0.0 <= u <= 1.0
    ensures 5.0 + 4.0 * r + (2.0 * r - 1.0) * u - (4.0 + 6.0 * r) * (u * u) >= 0.0
  {
    var a, b := 5.0 + 4.0 * r, 4.0 + 6.0 * r;
    ProductZero(b, u);
    ProductZero(1.0 - u, a + b * u);
    assert (1.0 - u) * (a + b * u) == a + (b - a) * u - b * (u * u);
  }

  lemma SevenTimes(f: real, a: real, b: real, p: real, u: real, r: real)
    requires 0.0 <= u <= 1.0 && 0.5 <= r < 1.0 && f >= p >= 0.0
    requires a >= p * u / 2.0 && b == 2.0 * (p * (u * u))
    ensures a + b * (1.0 + r) <= (5.0 + 4.0 * r) / 7.0 * (f + a + b)
  {
    var h := 5.0 + 4.0 * r + (2.0 * r - 1.0) * u - (4.0 + 6.0 * r) * (u * u);
    HopPolynomial(r, u);
    ProductZero(p, h);
    ScaledNeverFalls(5.0 + 4.0 * r, p, f);
    ScaledNeverFalls(4.0 * r - 2.0, p * u / 2.0, a);
    var excess := (5.0 + 4.0 * r) * f + (4.0 * r - 2.0) * a - (2.0 + 3.0 * r) * b;
    assert p * h == (5.0 + 4.0 * r) * p + (4.0 * r - 2.0) * (p * u / 2.0) - (2.0 + 3.0 * r) * (2.0 * (p * (u * u)));
    assert excess >= 0.0;
    assert excess == (5.0 + 4.0 * r) * (f + a + b) - 7.0 * (a + b * (1.0 + r));
  }

  lemma SmallRatio(f: real, a: real, b: real, p: real, u: real, r: real)
    requires 0.0 <= u <= 1.0 && 0.0 < r < 0.5 && f >= p >= 0.0
    requires b == 2.0 * (p * (u * u))
    ensures a + b * (1.0 + r) <= f + a + b
  {
    ProductZero(u, u);
    ProductZero(p, u * u);
    calc {
      b * r;
    <=  { ScaledNeverFalls(b, r, 0.5); }
      b * 0.5;
    ==
      p * (u * u);
    <=  { ScaledNeverFalls(u, u, 1.0); ScaledNeverFalls(p, u * u, 1.0); }
      p * 1.0;
    }
    Distribute(b, 1.0, r);
  }

  lemma HopAlgebra(f: real, a: real, b: real, cost: real, part: real, p: real, u: real, r: real)
    requires cost == f + a + b && part == a + b * (1.0 + r)
    requires 0.0 <= u <= 1.0 && 0.0 < r < 1.0 && f >= p >= 0.0
    requires a >= p * u / 2.0 && b == 2.0 * (p * (u * u))
    ensures part <= HopFactor(r) * cost
  {
    if r < 0.5 { SmallRatio(f, a, b, p, u, r); } else { SevenTimes(f, a, b, p, u, r); }
  }

  lemma RatioOfInverses(c: int, d: int)
    requires 1 <= c < d
    ensures var r := c as real / d as real;
            0.0 < r < 1.0 && Inverse(d) == r * Inverse(c)
  {
    var r, x := c as real / d as real, Inverse(c);
    assert r * d as real == c as real;
    assert d as real * (r * x) == 1.0 by {
      Regroup(d as real, r, x);
      assert d as real * r == r * d as real && c as real * x == x * c as real;
    }
    InverseIs(d, r * x);
    SignOfProduct(d as real, r);
    SignOfProduct(d as real, 1.0 - r);
    Distribute(d as real, 1.0, r);
  }

  lemma GainInParts(s: real, q: real, x: real, r: real)
    ensures (x - r * x) * (q * (x + r * x) + s) == (1.0 - r) * (s * x + q * (x * x) * (1.0 + r))
  {
    assert x - r * x == (1.0 - r) * x && x + r * x == (1.0 + r) * x;
    calc {
      (1.0 - r) * x * (q * ((1.0 + r) * x) + s);
    ==  { Regroup(1.0 - r, x, q * ((1.0 + r) * x) + s); }
      (1.0 - r) * (x * (q * ((1.0 + r) * x) + s));
    ==  { Distribute(x, q * ((1.0 + r) * x), s); }
      (1.0 - r) * (x * (q * ((1.0 + r) * x)) + x * s);
    ==  { assert x * (q * ((1.0 + r) * x)) == q * (x * x) * (1.0 + r) && x * s == s * x; }
      (1.0 - r) * (q * (x * x) * (1.0 + r) + s * x);
    }
  }

  lemma GainByRatio(w: Weights, t: Telemetry, c: int, d: int, r: real,
                    a: real, b: real, part: real)
    requires 1 <= c < d && r == c as real / d as real && part == a + b * (1.0 + r)
    requires a == Slope(w, t) * Inverse(c) && b == Square(w, t) * (Inverse(c) * Inverse(c))
    ensures Gain(w, t, c, d) == (1.0 - r) * part
  {
    var x := Inverse(c);
    RatioOfInverses(c, d);
    assert Capacity(c) == c && Capacity(d) == d;
    hide Inverse, Slope, Square;
    GainInParts(Slope(w, t), Square(w, t), x, r);
    assert Relief(w, t, c, d) == Square(w, t) * (x + r * x) + Slope(w, t);
    hide Relief;
  }

  lemma CostInParts(w: Weights, t: Telemetry, c: int)
    requires c >= 1
    ensures var x := Inverse(c);
            Cost(w, t, c) == Fixed(w, t) + Slope(w, t) * x + Square(w, t) * (x * x)
  {
    CostIsQuadratic(w, t, c);
    hide Cost, Fixed, Slope, Square, Inverse;
  }

  lemma HopBoundTimes(c: int, d: int, r: real, cost: real, part: real, gain: real)
    requires 1 <= c < d && r == c as real / d as real && gain == (1.0 - r) * part
    ensures part <= HopFactor(r) * cost ==> gain <= HopBound(c, d) * cost
    ensures part == HopFactor(r) * cost ==> gain == HopBound(c, d) * cost
  {
    RatioOfInverses(c, d);
    hide HopFactor, Inverse;
    Regroup(1.0 - r, HopFactor(r), cost);
    assert HopBound(c, d) == (1.0 - r) * HopFactor(r);
    hide HopBound;
    if part <= HopFactor(r) * cost { ScaledNeverFalls(1.0 - r, part, HopFactor(r) * cost); }
  }

  /** No busy system gains more than `HopBound` of its cost. */
  lemma HopIsBounded(w: Weights, t: Telemetry, c: int, d: int)
    requires 1 <= c < d && Busy(w, t, c)
    ensures Gain(w, t, c, d) <= HopBound(c, d) * Cost(w, t, c)
  {
    var r, x := c as real / d as real, Inverse(c);
    var p, u := CostParts(w, t, c);
    RatioOfInverses(c, d);
    hide Slope, Square, Fixed, Cost, Gain, HopBound, Inverse, Busy, HopFactor;
    CostInParts(w, t, c);
    var a, b := Slope(w, t) * x, Square(w, t) * (x * x);
    var part := a + b * (1.0 + r);
    GainByRatio(w, t, c, d, r, a, b, part);
    HopAlgebra(Fixed(w, t), a, b, Cost(w, t, c), part, p, u, r);
    HopBoundTimes(c, d, r, Cost(w, t, c), part, Gain(w, t, c, d));
  }

  /** A busy system has a positive cost at every candidate. */
  lemma BusyCostPositive(w: Weights, t: Telemetry, c: int, d: int)
    requires Busy(w, t, c)
    ensures Cost(w, t, d) > 0.0
  {
    CostIsZeroIff(w, t, d);
    PressedMeans(w, t);
    hide Cost, Pressed;
  }

  /** A full system that nobody waits for, with no other cost than its latency: all of
      it contention, or the tail alone. */
  function Full(c: int, contention: bool): Telemetry {
    Telemetry(if contention then 1.0 else 0.0, if contention then 0.0 else 1.0,
              0.0, c as real, 0.0, 0.0, 1.0)
  }

  lemma FullParts(c: int, contention: bool)
    requires c >= 1
    ensures var w, t, x := Weights(1.0, 0.0, 0.0, 0.0), Full(c, contention), Inverse(c);
            && Busy(w, t, c) && Fixed(w, t) == (if contention then 0.0 else 1.0)
            && Slope(w, t) * x == 0.5 && Square(w, t) * (x * x) == if contention then 0.0 else 2.0
  {
    var w, t, x := Weights(1.0, 0.0, 0.0, 0.0), Full(c, contention), Inverse(c);
    var n := c as real;
    assert t.active == n && n * x == 1.0;
    PressedMeans(w, t);
    assert Fixed(w, t) == t.p99;
    assert Slope(w, t) == 0.5 * n;
    Regroup(0.5, n, x);
    assert Square(w, t) == 2.0 * t.p99 * (n * n);
    Regroup(2.0 * t.p99, n * n, x * x);
    assert (n * n) * (x * x) == (n * x) * (n * x);
    hide Slope, Square, Fixed, Pressed, Inverse;
  }

  lemma WorstParts(r: real, b: real, cost: real, part: real)
    requires b == if r < 0.5 then 0.0 else 2.0
    requires cost == (if r < 0.5 then 0.5 else 3.5) && part == 0.5 + b * (1.0 + r)
    ensures part == HopFactor(r) * cost
  {
  }

  lemma FullGain(w: Weights, t: Telemetry, c: int, d: int, b: real)
    requires 1 <= c < d && b == if c as real / d as real < 0.5 then 0.0 else 2.0
    requires Slope(w, t) * Inverse(c) == 0.5 && Square(w, t) * (Inverse(c) * Inverse(c)) == b
    requires Cost(w, t, c) == if c as real / d as real < 0.5 then 0.5 else 3.5
    ensures Gain(w, t, c, d) == HopBound(c, d) * Cost(w, t, c)
  {
    var r, cost := c as real / d as real, Cost(w, t, c);
    var part := 0.5 + b * (1.0 + r);
    hide Slope, Square, Cost, Gain, HopBound, Inverse;
    WorstParts(r, b, cost, part);
    hide HopFactor;
    GainByRatio(w, t, c, d, r, 0.5, b, part);
    HopBoundTimes(c, d, r, cost, part, Gain(w, t, c, d));
  }

  lemma FullCost(c: int, contention: bool)
    requires c >= 1
    ensures Cost(Weights(1.0, 0.0, 0.0, 0.0), Full(c, contention), c) == if contention then 0.5 else 3.5
  {
    hide Cost, Slope, Square, Fixed, Inverse, Busy, Full;
    var w, t := Weights(1.0, 0.0, 0.0, 0.0), Full(c, contention);
    var x := Inverse(c);
    FullParts(c, contention);
    CostInParts(w, t, c);
    var f, a, b := Fixed(w, t), Slope(w, t) * x, Square(w, t) * (x * x);
    assert f + a + b == if contention then 0.5 else 3.5;
  }

  /** Some busy system gains as much. */
  lemma WorstHop(c: int, d: int) returns (w: Weights, t: Telemetry)
    requires 1 <= c < d
    ensures Busy(w, t, c) && Gain(w, t, c, d) == HopBound(c, d) * Cost(w, t, c)
  {
    var contention := c as real / d as real < 0.5;
    w, t := Weights(1.0, 0.0, 0.0, 0.0), Full(c, contention);
    FullParts(c, contention);
    FullCost(c, contention);
    var b := if contention then 0.0 else 2.0;
    hide Slope, Square, Fixed, Cost, Gain, HopBound, Inverse, Busy, Full;
    FullGain(w, t, c, d, b);
  }

  // ----- two measurements -----

  /** The weights the controller service defaults to. */
  const DEFAULT_WEIGHTS := Weights(1.0, 3.0, 1.5, 0.05)

  /** 100 ms of latency, errors at the given rate, an idle pool. */
  function Measured(active: int, waiting: int, errorRate: real): Telemetry {
    Telemetry(0.1, 0.1, errorRate, active as real, waiting as real, 0.0, 1.0)
  }

  lemma CostAt(w: Weights, t: Telemetry, c: int, x: real, z: real)
    requires c >= 1 && c as real * x == 1.0 && z == x * x
    ensures Inverse(Capacity(c)) == x
    ensures Cost(w, t, c) == Fixed(w, t) + Slope(w, t) * x + Square(w, t) * z
  {
    CostIsQuadratic(w, t, c);
    InverseIs(c, x);
    hide Cost, Slope, Square, Fixed, Inverse;
  }

  lemma GainAt(w: Weights, t: Telemetry, c: int, d: int, x: real, y: real, q: real, s: real)
    requires Inverse(Capacity(c)) == x && Inverse(Capacity(d)) == y
    requires Square(w, t) == q && Slope(w, t) == s
    ensures Gain(w, t, c, d) == (x - y) * (q * (x + y) + s)
  {
    hide Inverse, Square, Slope;
  }

  /** An undercount by one turns the curve round although a request is being served. */
  lemma UndercountFigures()
    ensures var w, t := DEFAULT_WEIGHTS, Measured(1, -1, 0.0);
            && Backward(w, t) && Slope(w, t) == -1.4 && Square(w, t) == 0.2
            && Cost(w, t, 20) == 0.0305 && Cost(w, t, 12) < 0.0
            && Gain(w, t, 20, 12) > 0.04
  {
    var w, t := DEFAULT_WEIGHTS, Measured(1, -1, 0.0);
    assert Slope(w, t) == -1.4 && Square(w, t) == 0.2 && Fixed(w, t) == 0.1;
    CostAt(w, t, 20, 0.05, 0.0025);
    CostAt(w, t, 12, 1.0 / 12.0, 1.0 / 144.0);
    GainAt(w, t, 20, 12, 0.05, 1.0 / 12.0, 0.2, -1.4);
    assert Backward(w, t);
    hide *;
  }

  lemma ErrorCoefficients()
    ensures Slope(DEFAULT_WEIGHTS, Measured(1, 0, 1.0)) == 0.1
    ensures Square(DEFAULT_WEIGHTS, Measured(1, 0, 1.0)) == 0.2
    ensures Fixed(DEFAULT_WEIGHTS, Measured(1, 0, 1.0)) == 3.1
  {
    ErrorFixed();
    hide Fixed;
  }

  lemma ErrorFixed()
    ensures Fixed(DEFAULT_WEIGHTS, Measured(1, 0, 1.0)) == 3.1
  {
  }

  /** With every request failing the curve is pressed but nearly flat beside the cost
      of the errors. */
  lemma ErrorFigures()
    ensures var w, t := DEFAULT_WEIGHTS, Measured(1, 0, 1.0);
            && Pressed(w, t)
            && Cost(w, t, 32) > 3.1 && Cost(w, t, 40) > 3.1
            && Gain(w, t, 32, 40) < 0.002
  {
    var w, t := DEFAULT_WEIGHTS, Measured(1, 0, 1.0);
    hide Cost, Inverse, Gain, Slope, Square, Fixed;
    ErrorCoefficients();
    CostAt(w, t, 32, 0.03125, 0.0009765625);
    CostAt(w, t, 40, 0.025, 0.000625);
    GainAt(w, t, 32, 40, 0.03125, 0.025, 0.2, 0.1);
  }
}
