/** Where particles go, and what pulls them. */
module Motion {
  import opened Sums
  import opened Integrator
  import opened Gravity
  import opened Extent
  import opened BruteForce
  import opened SpatialGrid
  import opened QuadTree
  import opened BarnesHut

  // ---- One step ------------------------------------------------------------------------

  /** The acceleration of particle i under a law. */
  ghost function Acceleration(law: Law, ps: seq<Particle>, i: nat, alongX: bool): real
    requires PlaceLaw(law) && i < |ps|
  {
    Along(law(ps)[i], alongX)
  }

  /** The place after time dt, starting at x with velocity v under acceleration a. */
  function Advanced(x: real, v: real, a: real, dt: real): real { x + dt * v + 0.5 * (dt * dt) * a }

  /** The velocity after dt, from v, with acceleration a at the start and b at the end. */
  function SpedUp(v: real, a: real, b: real, dt: real): real { v + 0.5 * dt * (a + b) }

  lemma KickedAxis(p: Particle, a: Vec, dt: real, alongX: bool)
    ensures Velocity(KickOne(p, a, dt), alongX) == Velocity(p, alongX) + Times(0.5 * dt, Along(a, alongX))
    ensures Coordinate(KickOne(p, a, dt), alongX) == Coordinate(p, alongX) && KickOne(p, a, dt).mass == p.mass
  {
  }

  lemma DriftedAxis(p: Particle, dt: real, alongX: bool)
    ensures Coordinate(DriftOne(p, dt), alongX) == Coordinate(p, alongX) + Times(dt, Velocity(p, alongX))
    ensures Velocity(DriftOne(p, dt), alongX) == Velocity(p, alongX) && DriftOne(p, dt).mass == p.mass
  {
    if alongX {
      assert Times(dt, p.vx) == dt * p.vx;
    } else {
      assert Times(dt, p.vy) == dt * p.vy;
    }
  }

  /** Half a kick, a drift, half a kick on one axis. */
  lemma OneAxis(x: real, v: real, a: real, b: real, dt: real, x1: real, v1: real, v2: real)
    requires v1 == v + Times(0.5 * dt, a) && x1 == x + Times(dt, v1) && v2 == v1 + Times(0.5 * dt, b)
    ensures x1 == Advanced(x, v, a, dt) && v2 == SpedUp(v, a, b, dt)
  {
    assert dt * (v + 0.5 * dt * a) == dt * v + dt * (0.5 * dt * a);
    assert dt * (0.5 * dt * a) == 0.5 * (dt * dt) * a;
  }

  /**
   * On each axis a step moves a particle by dt times its velocity and half of dt squared times its
   * acceleration, and adds to the velocity dt times the mean of the accelerations at both ends.
   */
  lemma StepIsVerlet(law: Law, ps: seq<Particle>, dt: real, i: nat, alongX: bool)
    requires PlaceLaw(law) && i < |ps|
    ensures var qs := Step(law, ps, dt);
            var x, v := Coordinate(ps[i], alongX), Velocity(ps[i], alongX);
            var a, b := Acceleration(law, ps, i, alongX), Acceleration(law, qs, i, alongX);
            && |qs| == |ps| && qs[i].mass == ps[i].mass
            && Coordinate(qs[i], alongX) == Advanced(x, v, a, dt)
            && Velocity(qs[i], alongX) == SpedUp(v, a, b, dt)
  {
    var kicked := Kick(ps, law(ps), dt);
    var moved := Drift(kicked, dt);
    var qs := Kick(moved, law(moved), dt);
    assert SamePlaces(moved, qs);
    KickedAxis(ps[i], law(ps)[i], dt, alongX);
    DriftedAxis(kicked[i], dt, alongX);
    KickedAxis(moved[i], law(moved)[i], dt, alongX);
    OneAxis(Coordinate(ps[i], alongX), Velocity(ps[i], alongX), Acceleration(law, ps, i, alongX),
            Acceleration(law, moved, i, alongX), dt,
            Coordinate(moved[i], alongX), Velocity(moved[i], alongX), Velocity(qs[i], alongX));
  }

  // ---- Constant acceleration -------------------------------------------------------------

  /** The law gives particle i the same acceleration wherever the particles are. */
  ghost predicate Constant(law: Law, n: nat, i: nat, alongX: bool, a: real)
    requires PlaceLaw(law)
  {
    forall ps :: |ps| == n && i < n ==> Acceleration(law, ps, i, alongX) == a
  }

  lemma FallsOn(x: real, v: real, a: real, t: real, dt: real)
    ensures Advanced(Advanced(x, v, a, t), SpedUp(v, a, a, t), a, dt) == Advanced(x, v, a, t + dt)
    ensures SpedUp(SpedUp(v, a, a, t), a, a, dt) == SpedUp(v, a, a, t + dt)
  {
    SquareOfSum(t, dt);
    assert SpedUp(v, a, a, t) == v + t * a;
    assert (t + dt) * v == t * v + dt * v;
    assert dt * (v + t * a) == dt * v + dt * (t * a);
    SumTimes(t * t, 2.0 * (t * dt), dt * dt, a);
    assert dt * (t * a) == t * dt * a;
  }

  lemma SquareOfSum(t: real, dt: real)
    ensures (t + dt) * (t + dt) == t * t + 2.0 * (t * dt) + dt * dt
  {
  }

  lemma SumTimes(p: real, q: real, r: real, a: real)
    ensures (p + q + r) * a == p * a + q * a + r * a
  {
  }

  /** How long n steps take. */
  function Elapsed(n: nat, dt: real): real { n as real * dt }

  lemma OneMoreStep(n: nat, dt: real)
    ensures Elapsed(n + 1, dt) == Elapsed(n, dt) + dt && Elapsed(0, dt) == 0.0
  {
  }

  /** q is where particle p gets in time t under acceleration a. */
  ghost predicate FallsTo(p: Particle, q: Particle, alongX: bool, a: real, t: real)
  {
    var x, v := Coordinate(p, alongX), Velocity(p, alongX);
    && q.mass == p.mass
    && Coordinate(q, alongX) == Advanced(x, v, a, t)
    && Velocity(q, alongX) == v + t * a
  }

  lemma FallsNowhere(p: Particle, alongX: bool, a: real, t: real)
    requires t == 0.0
    ensures FallsTo(p, p, alongX, a, t)
  {
  }

  /** A step of length dt after a time t. */
  lemma FallsTwice(p: Particle, q: Particle, r: Particle, alongX: bool, a: real, t: real, dt: real)
    requires FallsTo(p, q, alongX, a, t) && FallsTo(q, r, alongX, a, dt)
    ensures FallsTo(p, r, alongX, a, t + dt)
  {
    FallsOn(Coordinate(p, alongX), Velocity(p, alongX), a, t, dt);
  }

  /** One more step, after which the time is t'. */
  lemma FallsOneStep(law: Law, ps: seq<Particle>, qs: seq<Particle>, dt: real, i: nat, alongX: bool, a: real,
                     t: real, t': real)
    requires PlaceLaw(law) && i < |ps| == |qs| && Constant(law, |ps|, i, alongX, a)
    requires FallsTo(ps[i], qs[i], alongX, a, t) && t' == t + dt
    ensures |Step(law, qs, dt)| == |ps| && FallsTo(ps[i], Step(law, qs, dt)[i], alongX, a, t')
  {
    StepIsVerlet(law, qs, dt, i, alongX);
    FallsTwice(ps[i], qs[i], Step(law, qs, dt)[i], alongX, a, t, dt);
  }

  lemma {:induction false} FallsInSteps(law: Law, ps: seq<Particle>, dt: real, n: nat, i: nat, alongX: bool, a: real,
                                        time: nat -> real)
    requires PlaceLaw(law) && i < |ps| && Constant(law, |ps|, i, alongX, a)
    requires time(0) == 0.0 && forall k: nat :: time(k + 1) == time(k) + dt
    ensures |Steps(law, ps, dt, n)| == |ps|
    ensures FallsTo(ps[i], Steps(law, ps, dt, n)[i], alongX, a, time(n))
  {
    if n == 0 {
      FallsNowhere(ps[i], alongX, a, time(0));
    } else {
      FallsInSteps(law, ps, dt, n - 1, i, alongX, a, time);
      assert time(n - 1 + 1) == time(n - 1) + dt;
      FallsOneStep(law, ps, Steps(law, ps, dt, n - 1), dt, i, alongX, a, time(n - 1), time(n));
    }
  }

  /**
   * Under constant acceleration any number of steps is exact: after time t the place is x + t v + t^2/2 a
   * and the velocity v + t a.
   */
  lemma FallsExactly(law: Law, ps: seq<Particle>, dt: real, n: nat, i: nat, alongX: bool, a: real)
    requires PlaceLaw(law) && i < |ps| && Constant(law, |ps|, i, alongX, a)
    ensures |Steps(law, ps, dt, n)| == |ps|
    ensures FallsTo(ps[i], Steps(law, ps, dt, n)[i], alongX, a, Elapsed(n, dt))
  {
    var time := (k: nat) => Elapsed(k, dt);
    OneMoreStep(0, dt);
    forall k: nat ensures time(k + 1) == time(k) + dt {
      OneMoreStep(k, dt);
    }
    FallsInSteps(law, ps, dt, n, i, alongX, a, time);
  }

  /** From p to q in time t in a straight line at constant speed. */
  ghost predicate GoesStraight(p: Particle, q: Particle, t: real, alongX: bool)
  {
    && Coordinate(q, alongX) == Coordinate(p, alongX) + Times(t, Velocity(p, alongX))
    && Velocity(q, alongX) == Velocity(p, alongX)
  }

  /** Without acceleration a particle goes straight on. */
  lemma UniformMotion(law: Law, ps: seq<Particle>, dt: real, n: nat, i: nat, alongX: bool)
    requires PlaceLaw(law) && i < |ps| && Constant(law, |ps|, i, alongX, 0.0)
    ensures |Steps(law, ps, dt, n)| == |ps|
    ensures GoesStraight(ps[i], Steps(law, ps, dt, n)[i], Elapsed(n, dt), alongX)
  {
    FallsExactly(law, ps, dt, n, i, alongX, 0.0);
    FreeFall(Coordinate(ps[i], alongX), Velocity(ps[i], alongX), Elapsed(n, dt));
  }

  lemma FreeFall(x: real, v: real, t: real)
    ensures Advanced(x, v, 0.0, t) == x + Times(t, v) && v + t * 0.0 == v
  {
  }

  // ---- The pull in numbers --------------------------------------------------------------------

  /** Newton's attraction: G m d over the cube of the softened distance, d being the difference on the axis. */
  ghost function Attraction(ph: Physics, p: Particle, q: Particle, alongX: bool): real
    requires ph.Valid()
  {
    var dx, dy := q.x - p.x, q.y - p.y;
    SquareNotNegative(dx);
    SquareNotNegative(dy);
    TimesPositive(ph.softening, ph.softening);
    ph.g * q.mass * (if alongX then dx else dy)
      / ph.pow15(Times(dx, dx) + Times(dy, dy) + Times(ph.softening, ph.softening))
  }

  lemma PullIs(ph: Physics, p: Particle, q: Particle, alongX: bool)
    requires ph.Valid()
    ensures Pull(ph, p, q, alongX) == Attraction(ph, p, q, alongX)
  {
    var dx, dy := q.x - p.x, q.y - p.y;
    var r := RSq(ph, dx, dy);
    assert r == Times(dx, dx) + Times(dy, dy) + Times(ph.softening, ph.softening);
    if alongX {
      Divided(ph.g, q.mass, dx, ph.pow15(r));
    } else {
      Divided(ph.g, q.mass, dy, ph.pow15(r));
    }
  }

  lemma Divided(g: real, m: real, d: real, c: real)
    requires c > 0.0
    ensures g / c * m * d == g * m * d / c
  {
  }

  lemma SignOfQuotient(k: real, d: real, c: real)
    requires k > 0.0 && c > 0.0
    ensures (k * d / c > 0.0 <==> d > 0.0) && (k * d / c < 0.0 <==> d < 0.0)
  {
    if d > 0.0 {
      TimesPositive(k, d);
      QuotientPositive(k * d, c);
    } else if d < 0.0 {
      TimesPositive(k, -d);
      assert k * d == -(k * -d);
      QuotientPositive(k * -d, c);
    }
  }

  lemma QuotientPositive(a: real, c: real)
    requires a > 0.0 && c > 0.0
    ensures a / c > 0.0 && (-a) / c < 0.0
  {
    var q := a / c;
    assert q * c == a;
    NegatedQuotient(a, c);
    if q <= 0.0 {
      NotPositive(q, c);
    }
  }

  lemma NegatedQuotient(a: real, c: real)
    requires c > 0.0
    ensures (-a) / c == -(a / c)
  {
  }

  lemma NotPositive(q: real, c: real)
    requires q <= 0.0 && c > 0.0
    ensures q * c <= 0.0
  {
  }

  /** A positive mass pulls towards itself. */
  lemma PullsTowards(ph: Physics, p: Particle, q: Particle, alongX: bool)
    requires ph.Valid() && ph.g > 0.0 && q.mass > 0.0
    ensures Pull(ph, p, q, alongX) > 0.0 <==> Coordinate(q, alongX) > Coordinate(p, alongX)
    ensures Pull(ph, p, q, alongX) < 0.0 <==> Coordinate(q, alongX) < Coordinate(p, alongX)
  {
    var dx, dy := q.x - p.x, q.y - p.y;
    PullIs(ph, p, q, alongX);
    TimesPositive(ph.g, q.mass);
    SquareNotNegative(dx);
    SquareNotNegative(dy);
    TimesPositive(ph.softening, ph.softening);
    SignOfQuotient(ph.g * q.mass, if alongX then dx else dy,
                   ph.pow15(Times(dx, dx) + Times(dy, dy) + Times(ph.softening, ph.softening)));
  }

  // ---- What the engines feel ------------------------------------------------------------------

  /** The attractions of the particles that count, by index. */
  ghost function Attractions(ph: Physics, ps: seq<Particle>, counts: nat -> bool, i: nat, alongX: bool): nat -> real
    requires ph.Valid() && i < |ps|
  {
    (j: nat) => if j < |ps| && counts(j) then Attraction(ph, ps[i], ps[j], alongX) else 0.0
  }

  lemma FeltIsNewton(ph: Physics, ps: seq<Particle>, meets: (nat, nat) -> bool, counts: nat -> bool, i: nat,
                     alongX: bool)
    requires ph.Valid() && i < |ps| && forall j: nat :: j < |ps| ==> meets(i, j) == counts(j)
    ensures Felt(ph, ps, meets, i, alongX) == Sum(|ps|, Attractions(ph, ps, counts, i, alongX))
  {
    var f, g := Terms(ph, ps, meets, i, alongX), Attractions(ph, ps, counts, i, alongX);
    forall j: nat | j < |ps| ensures f(j) == g(j) {
      PullIs(ph, ps[i], ps[j], alongX);
    }
    SumEqual(|ps|, f, g);
  }

  /** The all-pairs engine: the sum of the attractions of all other particles. */
  lemma BruteAcceleration(ph: Physics, ps: seq<Particle>, i: nat, alongX: bool)
    requires ph.Valid() && i < |ps|
    ensures |BruteLaw(ph)(ps)| == |ps|
    ensures Along(BruteLaw(ph)(ps)[i], alongX) == Sum(|ps|, Attractions(ph, ps, (j: nat) => j != i, i, alongX))
  {
    FeltIsNewton(ph, ps, Others(), (j: nat) => j != i, i, alongX);
  }

  /** In the grid: another particle whose cell differs by at most one on each axis. */
  ghost function InReach(ps: seq<Particle>, c: real, i: nat): nat -> bool
    requires c > 0.0 && i < |ps|
  {
    (j: nat) =>
      && j != i && j < |ps|
      && -1 <= (ps[i].x / c).Floor - (ps[j].x / c).Floor <= 1
      && -1 <= (ps[i].y / c).Floor - (ps[j].y / c).Floor <= 1
  }

  /** The grid engine: the sum over those in reach, which are none that are two cell sizes away, and all within one. */
  lemma SpatialAcceleration(ph: Physics, sqrt: real -> real, ps: seq<Particle>, i: nat, alongX: bool)
    requires ph.Valid() && i < |ps|
    ensures |SpatialLaw(ph, sqrt)(ps)| == |ps|
    ensures Along(SpatialLaw(ph, sqrt)(ps)[i], alongX)
         == Sum(|ps|, Attractions(ph, ps, InReach(ps, CellSize(ph, sqrt, ps), i), i, alongX))
  {
    var c := CellSize(ph, sqrt, ps);
    FeltIsNewton(ph, ps, Nearby(ps, c), InReach(ps, c, i), i, alongX);
  }

  lemma ReachIsBounded(ps: seq<Particle>, c: real, i: nat, j: nat, alongX: bool)
    requires c > 0.0 && i < |ps| && j < |ps| && Nearby(ps, c)(i, j)
    ensures -2.0 * c < Coordinate(ps[i], alongX) - Coordinate(ps[j], alongX) < 2.0 * c
  {
    FloorsApart(Coordinate(ps[i], alongX), Coordinate(ps[j], alongX), c);
    FloorsApart(Coordinate(ps[j], alongX), Coordinate(ps[i], alongX), c);
  }

  lemma FloorsApart(a: real, b: real, c: real)
    requires c > 0.0 && (a / c).Floor - (b / c).Floor <= 1
    ensures a - b < 2.0 * c
  {
    var p, q := a / c, b / c;
    assert p < q + 2.0;
    assert Times(p, c) == a && Times(q, c) == b;
    TimesBelow(p, q + 2.0, c);
    assert Times(q + 2.0, c) == Times(q, c) + 2.0 * c;
  }

  lemma TimesBelow(p: real, q: real, c: real)
    requires p < q && c > 0.0
    ensures Times(p, c) < Times(q, c)
  {
  }

  /** The particles below n that i meets, paired with i. */
  ghost function MetBy(meets: (nat, nat) -> bool, i: nat, n: nat): set<(nat, nat)>
  {
    set j: nat | j < n && meets(i, j) :: (i, j)
  }

  /** All pairs below k and n, in this order, that meet. */
  ghost function Pairs(meets: (nat, nat) -> bool, k: nat, n: nat): set<(nat, nat)>
  {
    set i: nat, j: nat | i < k && j < n && meets(i, j) :: (i, j)
  }

  lemma {:induction false} MetBySize(meets: (nat, nat) -> bool, i: nat, n: nat)
    ensures |MetBy(meets, i, n)| == CountMet(meets, i, n)
  {
    if n == 0 {
      assert MetBy(meets, i, 0) == {};
    } else {
      MetBySize(meets, i, n - 1);
      var last := (i, n - 1);
      if meets(i, n - 1) {
        assert MetBy(meets, i, n) == MetBy(meets, i, n - 1) + {last};
      } else {
        assert MetBy(meets, i, n) == MetBy(meets, i, n - 1);
      }
    }
  }

  lemma {:induction false} PairsSize(meets: (nat, nat) -> bool, k: nat, n: nat)
    ensures |Pairs(meets, k, n)| == SpatialGrid.Interactions(meets, k, n)
  {
    if k == 0 {
      assert Pairs(meets, 0, n) == {};
    } else {
      PairsSize(meets, k - 1, n);
      MetBySize(meets, k - 1, n);
      assert Pairs(meets, k, n) == Pairs(meets, k - 1, n) + MetBy(meets, k - 1, n);
      assert Pairs(meets, k - 1, n) !! MetBy(meets, k - 1, n);
    }
  }

  /** One force computation of the grid engine counts the ordered pairs of particles in reach of each other. */
  lemma InteractionsAreMeetings(ph: Physics, sqrt: real -> real, ps: seq<Particle>)
    requires ph.softening > 0.0
    ensures var c, n := CellSize(ph, sqrt, ps), |ps|;
            Met(ph, sqrt, ps) == |set i: nat, j: nat | i < n && j < n && InReach(ps, c, i)(j) :: (i, j)|
  {
    var c, n := CellSize(ph, sqrt, ps), |ps|;
    PairsSize(Nearby(ps, c), n, n);
    assert Pairs(Nearby(ps, c), n, n) == set i: nat, j: nat | i < n && j < n && InReach(ps, c, i)(j) :: (i, j);
  }

  lemma NothingCounts(ph: Physics, ps: seq<Particle>, counts: nat -> bool, alongX: bool)
    requires ph.Valid() && |ps| == 1 && !counts(0)
    ensures Sum(|ps|, Attractions(ph, ps, counts, 0, alongX)) == 0.0
  {
    SumZero(1, Attractions(ph, ps, counts, 0, alongX));
  }

  lemma LoneFeelsNothing(ph: Physics, sqrt: real -> real, ps: seq<Particle>, alongX: bool)
    requires ph.Valid() && |ps| == 1 && PlaceLaw(BruteLaw(ph)) && PlaceLaw(SpatialLaw(ph, sqrt))
    ensures Acceleration(BruteLaw(ph), ps, 0, alongX) == 0.0 == Acceleration(SpatialLaw(ph, sqrt), ps, 0, alongX)
  {
    BruteAcceleration(ph, ps, 0, alongX);
    SpatialAcceleration(ph, sqrt, ps, 0, alongX);
    NothingCounts(ph, ps, (j: nat) => j != 0, alongX);
    NothingCounts(ph, ps, InReach(ps, CellSize(ph, sqrt, ps), 0), alongX);
  }

  lemma LoneConstant(ph: Physics, sqrt: real -> real, alongX: bool)
    requires ph.Valid() && PlaceLaw(BruteLaw(ph)) && PlaceLaw(SpatialLaw(ph, sqrt))
    ensures Constant(BruteLaw(ph), 1, 0, alongX, 0.0) && Constant(SpatialLaw(ph, sqrt), 1, 0, alongX, 0.0)
  {
    forall ps: seq<Particle> | |ps| == 1
      ensures Acceleration(BruteLaw(ph), ps, 0, alongX) == 0.0 == Acceleration(SpatialLaw(ph, sqrt), ps, 0, alongX)
    {
      LoneFeelsNothing(ph, sqrt, ps, alongX);
    }
  }

  /** A particle on its own goes straight on, in the all-pairs engine and in the grid engine. */
  lemma LoneParticle(ph: Physics, sqrt: real -> real, p: Particle, dt: real, n: nat, alongX: bool)
    requires ph.Valid()
    ensures PlaceLaw(BruteLaw(ph)) && PlaceLaw(SpatialLaw(ph, sqrt))
    ensures var qs := Steps(BruteLaw(ph), [p], dt, n);
            |qs| == 1 && GoesStraight(p, qs[0], Elapsed(n, dt), alongX)
    ensures var qs := Steps(SpatialLaw(ph, sqrt), [p], dt, n);
            |qs| == 1 && GoesStraight(p, qs[0], Elapsed(n, dt), alongX)
  {
    BruteIsPlaceLaw(ph);
    SpatialIsPlaceLaw(ph, sqrt);
    LoneConstant(ph, sqrt, alongX);
    UniformMotion(BruteLaw(ph), [p], dt, n, 0, alongX);
    UniformMotion(SpatialLaw(ph, sqrt), [p], dt, n, 0, alongX);
  }

  // ---- The cell size ----------------------------------------------------------------------------

  /** The larger of the two. */
  ghost predicate IsLarger(m: real, a: real, b: real)
  {
    m >= a && m >= b && (m == a || m == b)
  }

  /**
   * The cell size c is the larger of twice the softening and of the c with c^2 n = 4 w h, where w and h
   * are the spans of the particles, but at least four times the softening.
   */
  lemma CellSizeIs(ph: Physics, sqrt: real -> real, ps: seq<Particle>, w: real, h: real, side: real)
    requires ph.softening > 0.0 && TakesRoots(sqrt) && ps != []
    requires IsLarger(w, Highest(ps, |ps|, true) - Lowest(ps, |ps|, true), 4.0 * ph.softening)
    requires IsLarger(h, Highest(ps, |ps|, false) - Lowest(ps, |ps|, false), 4.0 * ph.softening)
    requires side >= 0.0 && Times(Times(side, side), |ps| as real) == Times(4.0, Times(w, h))
    ensures IsLarger(CellSize(ph, sqrt, ps), 2.0 * ph.softening, side)
  {
    SizeForSide(ph, sqrt, Highest(ps, |ps|, true) - Lowest(ps, |ps|, true),
                Highest(ps, |ps|, false) - Lowest(ps, |ps|, false), |ps|, w, h, side);
  }

  lemma SizeForSide(ph: Physics, sqrt: real -> real, width: real, height: real, n: nat, w: real, h: real, side: real)
    requires ph.softening > 0.0 && TakesRoots(sqrt) && n > 0
    requires IsLarger(w, width, 4.0 * ph.softening) && IsLarger(h, height, 4.0 * ph.softening)
    requires side >= 0.0 && Times(Times(side, side), n as real) == Times(4.0, Times(w, h))
    ensures IsLarger(SizeFor(ph, sqrt, width, height, n), 2.0 * ph.softening, side)
  {
    SizeForIs(ph, sqrt, width, height, n, w, h);
    SideIsRoot(sqrt, w, h, n, side);
  }

  lemma SizeForIs(ph: Physics, sqrt: real -> real, width: real, height: real, n: nat, w: real, h: real)
    requires ph.softening > 0.0 && n > 0
    requires IsLarger(w, width, 4.0 * ph.softening) && IsLarger(h, height, 4.0 * ph.softening)
    ensures IsLarger(SizeFor(ph, sqrt, width, height, n), 2.0 * ph.softening, sqrt(AreaEach(w, h, n)) * 2.0)
  {
    assert w == Larger(width, ph.softening * 4.0);
    assert h == Larger(height, ph.softening * 4.0);
  }

  lemma SideIsRoot(sqrt: real -> real, w: real, h: real, n: nat, side: real)
    requires TakesRoots(sqrt) && w > 0.0 && h > 0.0 && n > 0
    requires side >= 0.0 && Times(Times(side, side), n as real) == Times(4.0, Times(w, h))
    ensures side == sqrt(AreaEach(w, h, n)) * 2.0
  {
    var area := AreaEach(w, h, n);
    TimesPositive(w, h);
    QuotientPositive(Times(w, h), n as real);
    var root := sqrt(area);
    FourTimesRoot(root, area);
    SquaresAgree(Times(side, side), area, Times(w, h), n as real);
    SameRoot(side, root * 2.0);
  }

  lemma FourTimesRoot(root: real, area: real)
    requires Times(root, root) == area
    ensures Times(root * 2.0, root * 2.0) == 4.0 * area
  {
  }

  lemma SquaresAgree(a: real, area: real, p: real, n: real)
    requires n > 0.0 && area == p / n && a * n == 4.0 * p
    ensures a == 4.0 * area
  {
    assert area * n == p;
    SameFactor(a, 4.0 * area, n);
  }

  /** Numbers that are not negative are equal if their squares are. */
  lemma SameRoot(a: real, b: real)
    requires a >= 0.0 && b >= 0.0 && Times(a, a) == Times(b, b)
    ensures a == b
  {
    var d := a - b;
    assert Times(a + b, d) == Times(a, a) - Times(b, b);
    if d > 0.0 {
      TimesPositive(a + b, d);
      assert false;
    } else if d < 0.0 {
      TimesPositive(a + b, -d);
      TimesLaws(a + b, d, 0.0);
      assert false;
    }
  }

  // ---- The tree ----------------------------------------------------------------------------------

  /** Every particle of t lies to the left, or not, and above, or not. */
  ghost predicate Beside(t: Tree, ps: seq<Particle>, x: real, y: real, left: bool, above: bool)
  {
    forall i: nat :: Count(t, i) > 0 ==> (At(ps, i).x < x <==> left) && (At(ps, i).y < y <==> above)
  }

  /**
   * A node at (x, y) of this size: its children, of half the size, hold what lies to their side of the
   * centre, a quarter of the size off; several particles stay undivided only below 2 10^-10.
   */
  ghost predicate Stands(t: Tree, ps: seq<Particle>, x: real, y: real, size: real)
  {
    match t
    case Bucket(_) => size < 0.0000000002
    case Inner(c0, c1, c2, c3) =>
      && Beside(c0, ps, x, y, true, true) && Stands(c0, ps, x - size / 4.0, y - size / 4.0, size / 2.0)
      && Beside(c1, ps, x, y, false, true) && Stands(c1, ps, x + size / 4.0, y - size / 4.0, size / 2.0)
      && Beside(c2, ps, x, y, true, false) && Stands(c2, ps, x - size / 4.0, y + size / 4.0, size / 2.0)
      && Beside(c3, ps, x, y, false, false) && Stands(c3, ps, x + size / 4.0, y + size / 4.0, size / 2.0)
    case _ => true
  }

  lemma ChildIsBeside(c: Tree, q: nat, f: Frame, ps: seq<Particle>)
    requires q < 4 && InQuadrant(c, q, f, ps)
    ensures Beside(c, ps, f.x, f.y, q == 0 || q == 2, q < 2)
  {
    forall i: nat | Count(c, i) > 0
      ensures (At(ps, i).x < f.x <==> q == 0 || q == 2) && (At(ps, i).y < f.y <==> q < 2)
    {
      assert QuadrantOf(f, At(ps, i)) == q;
    }
  }

  lemma {:induction false} PlacedStands(t: Tree, f: Frame, ps: seq<Particle>)
    requires Placed(t, f, ps)
    ensures Stands(t, ps, f.x, f.y, f.size)
    decreases t, 0
  {
    if t.Inner? {
      ChildStands(t.c0, 0, f, ps);
      ChildStands(t.c1, 1, f, ps);
      ChildStands(t.c2, 2, f, ps);
      ChildStands(t.c3, 3, f, ps);
    }
  }

  lemma {:induction false} ChildStands(c: Tree, q: nat, f: Frame, ps: seq<Particle>)
    requires q < 4 && ChildPlaced(c, q, f, ps)
    ensures Beside(c, ps, f.x, f.y, q == 0 || q == 2, q < 2)
    ensures Stands(c, ps, if q == 0 || q == 2 then f.x - f.size / 4.0 else f.x + f.size / 4.0,
                   if q < 2 then f.y - f.size / 4.0 else f.y + f.size / 4.0, f.size / 2.0)
    decreases c, 1
  {
    ChildIsBeside(c, q, f, ps);
    PlacedStands(c, ChildFrame(f, q), ps);
  }

  /** The tree of all particles divides the plane into quarters, down to the smallest cells. */
  lemma TreeDividesPlane(f: Frame, ps: seq<Particle>)
    ensures Stands(Build(f, ps, |ps|), ps, f.x, f.y, f.size)
  {
    if ps == [] {
      FreshIsPlaced(f, ps);
    } else {
      BuildHolds(f, ps, |ps|);
    }
    PlacedStands(Build(f, ps, |ps|), f, ps);
  }

  /** A node is far exactly if twice its size is less than the softened distance of its centre and a trifle. */
  lemma FarExactlyIf(ph: Physics, sqrt: real -> real, p: Particle, size: real, w: Weight, r: real)
    requires ph.softening > 0.0 && TakesRoots(sqrt) && r >= 0.0
    requires Times(r, r) == Times(w.cx - p.x, w.cx - p.x) + Times(w.cy - p.y, w.cy - p.y)
                            + Times(ph.softening, ph.softening)
    ensures IsFar(ph, sqrt, p, size, w) <==> 2.0 * size < r + 0.0000000001
  {
    SameRoot(r, sqrt(RSq(ph, w.cx - p.x, w.cy - p.y)));
    HalfExactly(size, r + 0.0000000001);
  }

  lemma HalfExactly(size: real, r: real)
    requires r > 0.0
    ensures size / r < 0.5 <==> 2.0 * size < r
  {
    var q := size / r;
    assert Times(q, r) == size && Times(0.5, r) == 0.5 * r;
    if q < 0.5 {
      TimesBelow(q, 0.5, r);
    } else if q > 0.5 {
      TimesBelow(0.5, q, r);
    }
  }

  lemma {:induction false} ListNotPositive(s: seq<nat>, m: nat -> real)
    requires forall i: nat :: m(i) <= 0.0
    ensures ListSum(s, m) <= 0.0
  {
    if s != [] {
      ListNotPositive(s[..|s| - 1], m);
    }
  }

  lemma {:induction false} TreeNotPositive(t: Tree, m: nat -> real)
    requires forall i: nat :: m(i) <= 0.0
    ensures TreeSum(t, m) <= 0.0
  {
    match t
    case Inner(c0, c1, c2, c3) =>
      TreeNotPositive(c0, m);
      TreeNotPositive(c1, m);
      TreeNotPositive(c2, m);
      TreeNotPositive(c3, m);
    case Bucket(s) => ListNotPositive(s, m);
    case _ =>
  }

  lemma NotEntered(c: Cell, q: nat, ps: seq<Particle>, far: Test, i: nat)
    requires c.Split? && q < 4 && Weighed(c, ps) && forall j: nat :: At(ps, j).mass <= 0.0
    ensures Below(CellChild(c, q), far, i) == []
  {
    var child := CellChild(c, q);
    ChildWeighed(c, q, ps);
    if child != Null {
      TreeNotPositive(Shape(child), MassOf(ps));
      if !child.Alone? {
        WeighedBalances(child, ps);
      }
    }
  }

  /** Without any mass there are no interactions but, if the root is far, the one with the root. */
  lemma NoMassNoInteraction(root: Cell, ps: seq<Particle>, far: Test, i: nat)
    requires root.Split? && Weighed(root, ps) && forall j: nat :: At(ps, j).mass <= 0.0
    ensures BarnesHut.Interactions(root, far, i) == if far(root.size, root.w) then [Whole(root)] else []
  {
    NotEntered(root, 0, ps, far, i);
    NotEntered(root, 1, ps, far, i);
    NotEntered(root, 2, ps, far, i);
    NotEntered(root, 3, ps, far, i);
  }

  /** When the root is far, a particle feels all mass at the common centre of mass. */
  lemma FarRootPullsAsOne(root: Cell, f: Frame, ph: Physics, ps: seq<Particle>, far: Test, i: nat, centre: Particle,
                          alongX: bool)
    requires ph.Valid() && IsRoot(root, f, ps) && i < |ps| && NonNegative(ps)
    requires root.Split? && far(root.size, root.w)
    requires centre.mass == Sum(|ps|, (j: nat) => At(ps, j).mass) > 0.0
    requires Times(centre.x, centre.mass) == Sum(|ps|, (j: nat) => Times(At(ps, j).x, At(ps, j).mass))
    requires Times(centre.y, centre.mass) == Sum(|ps|, (j: nat) => Times(At(ps, j).y, At(ps, j).mass))
    ensures Total(BarnesHut.Interactions(root, far, i), PullOf(ph, ps, ps[i], alongX))
         == Attraction(ph, ps[i], centre, alongX)
  {
    RootHasAllMass(root, f, ps);
    AtCommonCentre(root.w, ps, centre);
    SameFactor(centre.x, root.w.cx, centre.mass);
    SameFactor(centre.y, root.w.cy, centre.mass);
    WholeRoot(root, ph, ps, far, i, alongX);
    SamePull(ph, ps[i], AtCentre(root.w), ps[i], centre, alongX);
    PullIs(ph, ps[i], centre, alongX);
  }

  lemma WholeRoot(root: Cell, ph: Physics, ps: seq<Particle>, far: Test, i: nat, alongX: bool)
    requires ph.Valid() && i < |ps| && root.Split? && far(root.size, root.w)
    ensures Total(BarnesHut.Interactions(root, far, i), PullOf(ph, ps, ps[i], alongX))
         == Pull(ph, ps[i], AtCentre(root.w), alongX)
  {
    TotalOne(Whole(root), PullOf(ph, ps, ps[i], alongX));
  }

  lemma AtCommonCentre(w: Weight, ps: seq<Particle>, centre: Particle)
    requires NonNegative(ps) && SumsUpTo(w, |ps|, MeasureOf(ps))
    requires centre.mass == Sum(|ps|, (j: nat) => At(ps, j).mass)
    requires Times(centre.x, centre.mass) == Sum(|ps|, (j: nat) => Times(At(ps, j).x, At(ps, j).mass))
    requires Times(centre.y, centre.mass) == Sum(|ps|, (j: nat) => Times(At(ps, j).y, At(ps, j).mass))
    ensures w.mass == centre.mass
    ensures Times(w.cx, w.mass) == Times(centre.x, centre.mass) && Times(w.cy, w.mass) == Times(centre.y, centre.mass)
  {
    SumEqual(|ps|, MassOf(ps), (j: nat) => At(ps, j).mass);
    SumEqual(|ps|, MomentOf(ps, true), (j: nat) => Times(At(ps, j).x, At(ps, j).mass));
    SumEqual(|ps|, MomentOf(ps, false), (j: nat) => Times(At(ps, j).y, At(ps, j).mass));
  }

  lemma SameFactor(a: real, b: real, m: real)
    requires m > 0.0 && Times(a, m) == Times(b, m)
    ensures a == b
  {
    if a < b {
      TimesBelow(a, b, m);
    } else if b < a {
      TimesBelow(b, a, m);
    }
  }
}
