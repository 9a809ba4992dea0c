/** The kick-drift-kick step all three particle engines share, over exact reals. */
module Integrator {
  import opened Sums

  datatype Particle = Particle(x: real, y: real, vx: real, vy: real, mass: real)

  datatype Vec = Vec(x: real, y: real)

  /** One acceleration per particle. */
  type Law = seq<Particle> -> seq<Vec>

  /** Particles in the same places with the same masses. */
  ghost predicate SamePlaces(ps: seq<Particle>, qs: seq<Particle>)
  {
    |ps| == |qs| && forall i :: 0 <= i < |ps| ==>
      ps[i].x == qs[i].x && ps[i].y == qs[i].y && ps[i].mass == qs[i].mass
  }

  /** The law gives each particle an acceleration that depends on places and masses only. */
  ghost predicate PlaceLaw(law: Law)
  {
    && (forall ps :: |law(ps)| == |ps|)
    && (forall ps, qs {:trigger SamePlaces(ps, qs)} :: SamePlaces(ps, qs) ==> law(ps) == law(qs))
  }

  function KickOne(p: Particle, a: Vec, dt: real): Particle
  {
    p.(vx := p.vx + Times(0.5 * dt, a.x), vy := p.vy + Times(0.5 * dt, a.y))
  }

  function DriftOne(p: Particle, dt: real): Particle
  {
    p.(x := p.x + dt * p.vx, y := p.y + dt * p.vy)
  }

  function Kick(ps: seq<Particle>, a: seq<Vec>, dt: real): (r: seq<Particle>)
    requires |a| == |ps|
    ensures |r| == |ps|
  {
    seq(|ps|, i requires 0 <= i < |ps| => KickOne(ps[i], a[i], dt))
  }

  function Drift(ps: seq<Particle>, dt: real): (r: seq<Particle>)
    ensures |r| == |ps|
  {
    seq(|ps|, i requires 0 <= i < |ps| => DriftOne(ps[i], dt))
  }

  ghost function Step(law: Law, ps: seq<Particle>, dt: real): seq<Particle>
    requires PlaceLaw(law)
  {
    var moved := Drift(Kick(ps, law(ps), dt), dt);
    Kick(moved, law(moved), dt)
  }

  ghost function Steps(law: Law, ps: seq<Particle>, dt: real, n: nat): seq<Particle>
    requires PlaceLaw(law)
  {
    if n == 0 then ps else Step(law, Steps(law, ps, dt, n - 1), dt)
  }

  function Reversed(ps: seq<Particle>): (r: seq<Particle>)
    ensures |r| == |ps|
  {
    seq(|ps|, i requires 0 <= i < |ps| => ps[i].(vx := -ps[i].vx, vy := -ps[i].vy))
  }

  // ---- Reversibility ------------------------------------------------------------

  lemma KickReversed(p: Particle, a: Vec, dt: real)
    ensures KickOne(KickOne(p, a, dt).(vx := -KickOne(p, a, dt).vx, vy := -KickOne(p, a, dt).vy), a, dt)
         == p.(vx := -p.vx, vy := -p.vy)
  {
  }

  lemma DriftReversed(p: Particle, dt: real)
    ensures DriftOne(DriftOne(p, dt).(vx := -p.vx, vy := -p.vy), dt) == p.(vx := -p.vx, vy := -p.vy)
  {
    NegatedProduct(dt, p.vx);
    NegatedProduct(dt, p.vy);
  }

  lemma NegatedProduct(a: real, b: real)
    ensures a * -b == -(a * b)
  {
  }

  /** Step, turn all velocities round, step: every particle is back, going the other way. */
  lemma StepIsReversible(law: Law, ps: seq<Particle>, dt: real)
    requires PlaceLaw(law)
    ensures Step(law, Reversed(Step(law, ps, dt)), dt) == Reversed(ps)
  {
    var a := law(ps);
    var kicked := Kick(ps, a, dt);
    var moved := Drift(kicked, dt);
    var b := law(moved);
    var back := Reversed(Kick(moved, b, dt));
    assert SamePlaces(back, moved);
    assert Kick(back, b, dt) == Reversed(moved) by {
      forall i | 0 <= i < |ps| ensures Kick(back, b, dt)[i] == Reversed(moved)[i] {
        KickReversed(moved[i], b[i], dt);
      }
    }
    assert Drift(Reversed(moved), dt) == Reversed(kicked) by {
      forall i | 0 <= i < |ps| ensures Drift(Reversed(moved), dt)[i] == Reversed(kicked)[i] {
        DriftReversed(kicked[i], dt);
      }
    }
    assert SamePlaces(Reversed(kicked), ps);
    forall i | 0 <= i < |ps| ensures Kick(Reversed(kicked), a, dt)[i] == Reversed(ps)[i] {
      KickReversed(ps[i], a[i], dt);
    }
  }

  lemma {:induction false} FirstStep(law: Law, ps: seq<Particle>, dt: real, n: nat)
    requires PlaceLaw(law) && n > 0
    ensures Steps(law, ps, dt, n) == Steps(law, Step(law, ps, dt), dt, n - 1)
  {
    if n > 1 {
      FirstStep(law, ps, dt, n - 1);
    } else {
      assert Steps(law, ps, dt, 0) == ps;
    }
  }

  /** The same for any number of steps. */
  lemma {:induction false} StepsAreReversible(law: Law, ps: seq<Particle>, dt: real, n: nat)
    requires PlaceLaw(law)
    ensures Steps(law, Reversed(Steps(law, ps, dt, n)), dt, n) == Reversed(ps)
  {
    if n > 0 {
      var q := Steps(law, ps, dt, n - 1);
      StepIsReversible(law, q, dt);
      FirstStep(law, Reversed(Step(law, q, dt)), dt, n);
      StepsAreReversible(law, ps, dt, n - 1);
    }
  }

  // ---- Momentum -----------------------------------------------------------------

  function Velocity(p: Particle, alongX: bool): real { if alongX then p.vx else p.vy }

  function Along(v: Vec, alongX: bool): real { if alongX then v.x else v.y }

  /** The total momentum along one axis: the sum of mass times velocity. */
  ghost function Momentum(ps: seq<Particle>, alongX: bool): real
  {
    Sum(|ps|, (i: nat) => if i < |ps| then Times(ps[i].mass, Velocity(ps[i], alongX)) else 0.0)
  }

  /** The total force along one axis: the sum of mass times acceleration. */
  ghost function Force(ps: seq<Particle>, a: seq<Vec>, alongX: bool): real
    requires |a| == |ps|
  {
    Sum(|ps|, (i: nat) => if i < |ps| then Times(ps[i].mass, Along(a[i], alongX)) else 0.0)
  }

  /** The forces of the law add up to nothing, wherever the particles are. */
  ghost predicate Balanced(law: Law)
    requires PlaceLaw(law)
  {
    forall ps, alongX :: Force(ps, law(ps), alongX) == 0.0
  }

  lemma KickMomentum(ps: seq<Particle>, a: seq<Vec>, dt: real, alongX: bool)
    requires |a| == |ps| && Force(ps, a, alongX) == 0.0
    ensures Momentum(Kick(ps, a, dt), alongX) == Momentum(ps, alongX)
  {
    var qs := Kick(ps, a, dt);
    KickMomentumAxis(|ps|, 0.5 * dt,
      (i: nat) => if i < |ps| then ps[i].mass else 0.0,
      (i: nat) => if i < |ps| then Velocity(ps[i], alongX) else 0.0,
      (i: nat) => if i < |ps| then Along(a[i], alongX) else 0.0,
      (i: nat) => if i < |ps| then Times(ps[i].mass, Velocity(ps[i], alongX)) else 0.0,
      (i: nat) => if i < |ps| then Times(ps[i].mass, Along(a[i], alongX)) else 0.0,
      (i: nat) => if i < |qs| then Times(qs[i].mass, Velocity(qs[i], alongX)) else 0.0);
  }

  lemma KickMomentumAxis(n: nat, c: real, m: nat -> real, v: nat -> real, a: nat -> real,
                         mv: nat -> real, ma: nat -> real, after: nat -> real)
    requires forall i: nat :: i < n ==> mv(i) == Times(m(i), v(i)) && ma(i) == Times(m(i), a(i))
    requires forall i: nat :: i < n ==> after(i) == Times(m(i), v(i) + Times(c, a(i)))
    requires Sum(n, ma) == 0.0
    ensures Sum(n, after) == Sum(n, mv)
  {
    var gain := (i: nat) => Times(c, ma(i));
    forall i: nat | i < n ensures after(i) == mv(i) + gain(i) {
      TimesLaws(m(i), v(i), Times(c, a(i)));
      Regroup(m(i), c, a(i));
    }
    SumAdds(n, mv, gain, after);
    SumScales(n, c, ma, gain);
    TimesLaws(c, 0.0, 0.0);
  }

  lemma Regroup(m: real, c: real, a: real)
    ensures Times(m, Times(c, a)) == Times(c, Times(m, a))
  {
  }

  lemma DriftMomentum(ps: seq<Particle>, dt: real, alongX: bool)
    ensures Momentum(Drift(ps, dt), alongX) == Momentum(ps, alongX)
  {
    var qs := Drift(ps, dt);
    SumEqual(|ps|, (i: nat) => if i < |ps| then Times(ps[i].mass, Velocity(ps[i], alongX)) else 0.0,
                   (i: nat) => if i < |qs| then Times(qs[i].mass, Velocity(qs[i], alongX)) else 0.0);
  }

  lemma StepKeepsMomentum(law: Law, ps: seq<Particle>, dt: real, alongX: bool)
    requires PlaceLaw(law) && Balanced(law)
    ensures Momentum(Step(law, ps, dt), alongX) == Momentum(ps, alongX)
  {
    var kicked := Kick(ps, law(ps), dt);
    var moved := Drift(kicked, dt);
    assert Force(ps, law(ps), alongX) == 0.0 && Force(moved, law(moved), alongX) == 0.0;
    KickMomentum(ps, law(ps), dt, alongX);
    DriftMomentum(kicked, dt, alongX);
    KickMomentum(moved, law(moved), dt, alongX);
  }

  /** A balanced law keeps the total momentum over any number of steps. */
  lemma {:induction false} StepsKeepMomentum(law: Law, ps: seq<Particle>, dt: real, n: nat, alongX: bool)
    requires PlaceLaw(law) && Balanced(law)
    ensures Momentum(Steps(law, ps, dt, n), alongX) == Momentum(ps, alongX)
  {
    if n > 0 {
      StepsKeepMomentum(law, ps, dt, n - 1, alongX);
      StepKeepsMomentum(law, Steps(law, ps, dt, n - 1), dt, alongX);
    }
  }
}
