/**
 * The softened attraction between two particles, why mutual attraction cancels, and the in-place
 * updates of the particle engines.
 */
module Gravity {
  import opened Sums
  import opened Integrator

  /** G, the softening length, and `Math.pow(_, 1.5)`, of which only the sign matters. */
  datatype Physics = Physics(g: real, softening: real, pow15: real -> real)
  {
    ghost predicate Valid()
    {
      softening > 0.0 && forall r: real :: r > 0.0 ==> pow15(r) > 0.0
    }
  }

  /** The softened squared distance. */
  function RSq(ph: Physics, dx: real, dy: real): (r: real)
    requires ph.softening > 0.0
    ensures r > 0.0
  {
    SquareNotNegative(dx);
    SquareNotNegative(dy);
    TimesPositive(ph.softening, ph.softening);
    Times(dx, dx) + Times(dy, dy) + Times(ph.softening, ph.softening)
  }

  /** `factor`: G over the softened distance cubed. */
  ghost function Factor(ph: Physics, p: Particle, q: Particle): real
    requires ph.Valid()
  {
    ph.g / ph.pow15(RSq(ph, q.x - p.x, q.y - p.y))
  }

  lemma FactorSymmetric(ph: Physics, p: Particle, q: Particle)
    requires ph.Valid()
    ensures Factor(ph, p, q) == Factor(ph, q, p)
  {
    SquareNotNegative(q.x - p.x);
    SquareNotNegative(q.y - p.y);
    assert p.x - q.x == -(q.x - p.x) && p.y - q.y == -(q.y - p.y);
  }

  /** The acceleration q gives p, along one axis. */
  ghost function Pull(ph: Physics, p: Particle, q: Particle, alongX: bool): real
    requires ph.Valid()
  {
    Factor(ph, p, q) * q.mass * (if alongX then q.x - p.x else q.y - p.y)
  }

  /** Every action has its reaction: m_p times the pull of q on p is minus m_q times that of p on q. */
  lemma PullsOppose(ph: Physics, p: Particle, q: Particle, alongX: bool)
    requires ph.Valid()
    ensures Times(p.mass, Pull(ph, p, q, alongX)) == -Times(q.mass, Pull(ph, q, p, alongX))
  {
    FactorSymmetric(ph, p, q);
    Rearranged(Factor(ph, p, q), p.mass, q.mass, if alongX then q.x - p.x else q.y - p.y);
  }

  lemma Rearranged(f: real, m: real, n: real, d: real)
    ensures Times(m, f * n * d) == -Times(n, f * m * -d)
  {
    assert m * (f * n * d) == f * m * n * d;
    assert n * (f * m * -d) == -(f * m * n * d);
  }

  /** What particle i feels from each j it meets. */
  ghost function Terms(ph: Physics, ps: seq<Particle>, meets: (nat, nat) -> bool, i: nat, alongX: bool): nat -> real
    requires ph.Valid()
  {
    (j: nat) => if i < |ps| && j < |ps| && meets(i, j) then Pull(ph, ps[i], ps[j], alongX) else 0.0
  }

  ghost function Felt(ph: Physics, ps: seq<Particle>, meets: (nat, nat) -> bool, i: nat, alongX: bool): real
    requires ph.Valid()
  {
    Sum(|ps|, Terms(ph, ps, meets, i, alongX))
  }

  ghost function FeltAll(ph: Physics, ps: seq<Particle>, meets: (nat, nat) -> bool): (a: seq<Vec>)
    requires ph.Valid()
    ensures |a| == |ps|
  {
    seq(|ps|, i requires 0 <= i < |ps| =>
      Vec(Felt(ph, ps, meets, i, true), Felt(ph, ps, meets, i, false)))
  }

  /** If meeting is mutual, the forces between the particles cancel. */
  lemma MutualForcesCancel(ph: Physics, ps: seq<Particle>, meets: (nat, nat) -> bool, alongX: bool)
    requires ph.Valid() && forall i, j :: meets(i, j) <==> meets(j, i)
    ensures Force(ps, FeltAll(ph, ps, meets), alongX) == 0.0
  {
    var n := |ps|;
    var f := (i: nat, j: nat) => if i < n then Times(ps[i].mass, Terms(ph, ps, meets, i, alongX)(j)) else 0.0;
    forall i: nat, j: nat | i < n && j < n ensures f(i, j) == -f(j, i) {
      assert meets(i, j) <==> meets(j, i);
      assert Terms(ph, ps, meets, i, alongX)(j) == if meets(i, j) then Pull(ph, ps[i], ps[j], alongX) else 0.0;
      assert Terms(ph, ps, meets, j, alongX)(i) == if meets(j, i) then Pull(ph, ps[j], ps[i], alongX) else 0.0;
      PullsOppose(ph, ps[i], ps[j], alongX);
      TimesLaws(ps[i].mass, 0.0, 0.0);
      TimesLaws(ps[j].mass, 0.0, 0.0);
    }
    AntisymmetricSum(n, f);
    ForceIsBlock(ph, ps, meets, alongX, f);
  }

  lemma ForceIsBlock(ph: Physics, ps: seq<Particle>, meets: (nat, nat) -> bool, alongX: bool, f: (nat, nat) -> real)
    requires ph.Valid()
    requires forall i: nat, j: nat ::
               i < |ps| && j < |ps| ==> f(i, j) == Times(ps[i].mass, Terms(ph, ps, meets, i, alongX)(j))
    ensures Force(ps, FeltAll(ph, ps, meets), alongX) == Block(|ps|, |ps|, f)
  {
    var n, a := |ps|, FeltAll(ph, ps, meets);
    var rows := (i: nat) => Sum(n, (j: nat) => f(i, j));
    var forces := (i: nat) => if i < n then Times(ps[i].mass, Along(a[i], alongX)) else 0.0;
    forall i: nat | i < n ensures rows(i) == forces(i) {
      SumScales(n, ps[i].mass, Terms(ph, ps, meets, i, alongX), (j: nat) => f(i, j));
    }
    SumEqual(n, rows, forces);
  }

  lemma SamePull(ph: Physics, p: Particle, q: Particle, p': Particle, q': Particle, alongX: bool)
    requires ph.Valid() && p.x == p'.x && p.y == p'.y && q.x == q'.x && q.y == q'.y && q.mass == q'.mass
    ensures Pull(ph, p, q, alongX) == Pull(ph, p', q', alongX)
  {
  }

  /** Forces depend on places and masses only. */
  lemma SameFelt(ph: Physics, ps: seq<Particle>, qs: seq<Particle>, meets: (nat, nat) -> bool,
                 i: nat, alongX: bool)
    requires ph.Valid() && SamePlaces(ps, qs) && i < |ps|
    ensures Felt(ph, ps, meets, i, alongX) == Felt(ph, qs, meets, i, alongX)
  {
    var f, g := Terms(ph, ps, meets, i, alongX), Terms(ph, qs, meets, i, alongX);
    forall j: nat | j < |ps| ensures f(j) == g(j) {
      SamePull(ph, ps[i], ps[j], qs[i], qs[j], alongX);
    }
    SumEqual(|ps|, f, g);
  }

  /** `ax += factor * pj.mass * ddx; ay += factor * pj.mass * ddy`. */
  method AddPull(ph: Physics, p: Particle, q: Particle, a: Vec) returns (b: Vec)
    requires ph.Valid()
    ensures b == Vec(a.x + Pull(ph, p, q, true), a.y + Pull(ph, p, q, false))
  {
    var ddx, ddy := q.x - p.x, q.y - p.y;
    var factor := ph.g / ph.pow15(RSq(ph, ddx, ddy));
    b := Vec(a.x + factor * q.mass * ddx, a.y + factor * q.mass * ddy);
  }

  /** The same with `(G * mass) / Math.pow(rSq, 1.5)` computed first. */
  method AddMassPull(ph: Physics, p: Particle, q: Particle, a: Vec) returns (b: Vec)
    requires ph.Valid()
    ensures b == Vec(a.x + Pull(ph, p, q, true), a.y + Pull(ph, p, q, false))
  {
    var dx, dy := q.x - p.x, q.y - p.y;
    var cubed := ph.pow15(RSq(ph, dx, dy));
    var factor := ph.g * q.mass / cubed;
    DivideFirst(ph.g, q.mass, cubed);
    b := Vec(a.x + factor * dx, a.y + factor * dy);
  }

  lemma DivideFirst(g: real, m: real, c: real)
    requires c > 0.0
    ensures g * m / c == g / c * m
  {
  }

  // ---- Arrays -------------------------------------------------------------------

  function Vectors(ax: seq<real>, ay: seq<real>): (a: seq<Vec>)
    requires |ax| == |ay|
    ensures |a| == |ax|
  {
    seq(|ax|, i requires 0 <= i < |ax| => Vec(ax[i], ay[i]))
  }

  /** The loops `p.vx += 0.5 * dt * ax[i]; p.vy += 0.5 * dt * ay[i]`. */
  method KickInPlace(ps: array<Particle>, ax: array<real>, ay: array<real>, dt: real)
    requires ax.Length == ay.Length == ps.Length
    modifies ps
    ensures ps[..] == Kick(old(ps[..]), Vectors(ax[..], ay[..]), dt)
  {
    for i := 0 to ps.Length
      invariant forall k :: 0 <= k < ps.Length ==>
        ps[k] == if k < i then KickOne(old(ps[k]), Vec(ax[k], ay[k]), dt) else old(ps[k])
    {
      ps[i] := ps[i].(vx := ps[i].vx + 0.5 * dt * ax[i], vy := ps[i].vy + 0.5 * dt * ay[i]);
    }
  }

  /** The loops `p.x += dt * p.vx; p.y += dt * p.vy`. */
  method DriftInPlace(ps: array<Particle>, dt: real)
    modifies ps
    ensures ps[..] == Drift(old(ps[..]), dt)
  {
    for i := 0 to ps.Length
      invariant forall k :: 0 <= k < ps.Length ==> ps[k] == if k < i then DriftOne(old(ps[k]), dt) else old(ps[k])
    {
      ps[i] := ps[i].(x := ps[i].x + dt * ps[i].vx, y := ps[i].y + dt * ps[i].vy);
    }
  }

  method Zero(a: array<real>)
    modifies a
    ensures forall k :: 0 <= k < a.Length ==> a[k] == 0.0
  {
    forall k | 0 <= k < a.Length {
      a[k] := 0.0;
    }
  }
}
