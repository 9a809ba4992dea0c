/** The all-pairs engine (genes/particle-brute). */
module BruteForce {
  import opened Sums
  import opened Integrator
  import opened Gravity

  ghost function Others(): (nat, nat) -> bool
  {
    (i: nat, j: nat) => i != j
  }

  /** Every particle feels every other. */
  ghost function BruteLaw(ph: Physics): Law
    requires ph.Valid()
  {
    (ps: seq<Particle>) => FeltAll(ph, ps, Others())
  }

  lemma BruteIsPlaceLaw(ph: Physics)
    requires ph.Valid()
    ensures PlaceLaw(BruteLaw(ph))
  {
    var law := BruteLaw(ph);
    forall ps, qs {:trigger SamePlaces(ps, qs)} | SamePlaces(ps, qs) ensures law(ps) == law(qs) {
      forall i | 0 <= i < |ps| ensures law(ps)[i] == law(qs)[i] {
        SameFelt(ph, ps, qs, Others(), i, true);
        SameFelt(ph, ps, qs, Others(), i, false);
      }
    }
  }

  // ---- The pair loops -----------------------------------------------------------

  /** The pair of k and l has been visited before the loops reach (i, j). */
  ghost function Visited(i: int, j: int): (nat, nat) -> bool
  {
    (k: nat, l: nat) =>
      var low, high := if k < l then k else l, if k < l then l else k;
      k != l && (low < i || (low == i && high < j))
  }

  /** Particle k has felt exactly the pairs visited before (i, j). */
  ghost predicate FeltSoFar(ph: Physics, ps: seq<Particle>, a: seq<real>, i: int, j: int, alongX: bool)
    requires ph.Valid()
  {
    |a| == |ps| && forall k: nat :: k < |ps| ==> a[k] == Felt(ph, ps, Visited(i, j), k, alongX)
  }

  /** Visiting the pair (i, j) adds one term to the sum of each of the two, and none elsewhere. */
  lemma OnePair(ph: Physics, ps: seq<Particle>, i: nat, j: nat, k: nat, alongX: bool)
    requires ph.Valid() && i < j < |ps| && k < |ps|
    ensures Felt(ph, ps, Visited(i, j + 1), k, alongX)
         == Felt(ph, ps, Visited(i, j), k, alongX)
            + (if k == i then Pull(ph, ps[i], ps[j], alongX)
               else if k == j then Pull(ph, ps[j], ps[i], alongX) else 0.0)
  {
    var f, g := Terms(ph, ps, Visited(i, j), k, alongX), Terms(ph, ps, Visited(i, j + 1), k, alongX);
    var l := if k == i then j else i;
    forall m: nat | m < |ps| && ((k != i && k != j) || m != l) ensures f(m) == g(m) {
      assert Visited(i, j + 1)(k, m) == Visited(i, j)(k, m);
    }
    if k == i || k == j {
      SumChanges(|ps|, l, f, g);
    } else {
      SumEqual(|ps|, f, g);
    }
  }

  lemma SameVisits(ph: Physics, ps: seq<Particle>, k: nat, alongX: bool,
                   meets: (nat, nat) -> bool, meets': (nat, nat) -> bool)
    requires ph.Valid() && k < |ps| && forall l: nat :: l < |ps| ==> meets(k, l) == meets'(k, l)
    ensures Felt(ph, ps, meets, k, alongX) == Felt(ph, ps, meets', k, alongX)
  {
    var f, g := Terms(ph, ps, meets, k, alongX), Terms(ph, ps, meets', k, alongX);
    forall l: nat | l < |ps| ensures f(l) == g(l) {
    }
    SumEqual(|ps|, f, g);
  }

  lemma NextRow(ph: Physics, ps: seq<Particle>, a: seq<real>, i: nat, alongX: bool)
    requires ph.Valid() && i < |ps| && FeltSoFar(ph, ps, a, i, |ps|, alongX)
    ensures FeltSoFar(ph, ps, a, i + 1, i + 2, alongX)
  {
    forall k: nat | k < |ps| ensures a[k] == Felt(ph, ps, Visited(i + 1, i + 2), k, alongX) {
      SameVisits(ph, ps, k, alongX, Visited(i, |ps|), Visited(i + 1, i + 2));
    }
  }

  lemma NothingVisited(ph: Physics, ps: seq<Particle>, a: seq<real>, alongX: bool)
    requires ph.Valid() && |a| == |ps| && forall k :: 0 <= k < |a| ==> a[k] == 0.0
    ensures FeltSoFar(ph, ps, a, 0, 1, alongX)
  {
    forall k: nat | k < |ps| ensures Felt(ph, ps, Visited(0, 1), k, alongX) == 0.0 {
      var f := Terms(ph, ps, Visited(0, 1), k, alongX);
      forall l: nat | l < |ps| ensures f(l) == 0.0 {
      }
      SumZero(|ps|, f);
    }
  }

  lemma AllVisited(ph: Physics, ps: seq<Particle>, a: seq<real>, alongX: bool)
    requires ph.Valid() && FeltSoFar(ph, ps, a, |ps|, |ps| + 1, alongX)
    ensures forall k: nat :: k < |ps| ==> a[k] == Felt(ph, ps, Others(), k, alongX)
  {
    forall k: nat | k < |ps| ensures a[k] == Felt(ph, ps, Others(), k, alongX) {
      SameVisits(ph, ps, k, alongX, Visited(|ps|, |ps| + 1), Others());
    }
  }

  /** The double loop over all pairs i < j, updating both accelerations at once. */
  method ComputeForces(ph: Physics, ps: array<Particle>, ax: array<real>, ay: array<real>)
    requires ph.Valid() && ax != ay && ax.Length == ay.Length == ps.Length
    modifies ax, ay
    ensures Vectors(ax[..], ay[..]) == BruteLaw(ph)(ps[..])
  {
    Zero(ax);
    Zero(ay);
    NothingVisited(ph, ps[..], ax[..], true);
    NothingVisited(ph, ps[..], ay[..], false);
    for i := 0 to ps.Length
      invariant FeltSoFar(ph, ps[..], ax[..], i, i + 1, true)
      invariant FeltSoFar(ph, ps[..], ay[..], i, i + 1, false)
    {
      AddRow(ph, ps, ax, ay, i);
    }
    AllVisited(ph, ps[..], ax[..], true);
    AllVisited(ph, ps[..], ay[..], false);
  }

  /** The inner loop: all pairs (i, j) with j > i. */
  method AddRow(ph: Physics, ps: array<Particle>, ax: array<real>, ay: array<real>, i: nat)
    requires ph.Valid() && ax != ay && ax.Length == ay.Length == ps.Length && i < ps.Length
    requires FeltSoFar(ph, ps[..], ax[..], i, i + 1, true) && FeltSoFar(ph, ps[..], ay[..], i, i + 1, false)
    modifies ax, ay
    ensures FeltSoFar(ph, ps[..], ax[..], i + 1, i + 2, true) && FeltSoFar(ph, ps[..], ay[..], i + 1, i + 2, false)
  {
    for j := i + 1 to ps.Length
      invariant FeltSoFar(ph, ps[..], ax[..], i, j, true)
      invariant FeltSoFar(ph, ps[..], ay[..], i, j, false)
    {
      AddPair(ph, ps, ax, i, j, true);
      AddPair(ph, ps, ay, i, j, false);
    }
    NextRow(ph, ps[..], ax[..], i, true);
    NextRow(ph, ps[..], ay[..], i, false);
  }

  /** `a[i] += factor * pj.mass * d; a[j] -= factor * pi.mass * d` on one axis. */
  method AddPair(ph: Physics, ps: array<Particle>, a: array<real>, i: nat, j: nat, alongX: bool)
    requires ph.Valid() && i < j < ps.Length == a.Length
    requires FeltSoFar(ph, ps[..], a[..], i, j, alongX)
    modifies a
    ensures FeltSoFar(ph, ps[..], a[..], i, j + 1, alongX)
  {
    ghost var before := a[..];
    var pi, pj := ps[i], ps[j];
    var d := if alongX then pj.x - pi.x else pj.y - pi.y;
    var factor := ph.g / ph.pow15(RSq(ph, pj.x - pi.x, pj.y - pi.y));
    PairPulls(ph, pi, pj, factor, d, alongX);
    a[i] := a[i] + factor * pj.mass * d;
    a[j] := a[j] - factor * pi.mass * d;
    PairAdded(ph, ps[..], before, a[..], i, j, alongX);
  }

  /** What the two assignments add is what the two particles feel from each other. */
  lemma PairPulls(ph: Physics, pi: Particle, pj: Particle, factor: real, d: real, alongX: bool)
    requires ph.Valid() && d == if alongX then pj.x - pi.x else pj.y - pi.y
    requires factor == ph.g / ph.pow15(RSq(ph, pj.x - pi.x, pj.y - pi.y))
    ensures factor * pj.mass * d == Pull(ph, pi, pj, alongX)
    ensures -(factor * pi.mass * d) == Pull(ph, pj, pi, alongX)
  {
    FactorSymmetric(ph, pi, pj);
    BackPull(factor, pi.mass, d);
  }

  lemma BackPull(f: real, m: real, d: real)
    ensures f * m * -d == -(f * m * d)
  {
  }

  lemma PairAdded(ph: Physics, ps: seq<Particle>, a: seq<real>, b: seq<real>, i: nat, j: nat, alongX: bool)
    requires ph.Valid() && i < j < |ps| && FeltSoFar(ph, ps, a, i, j, alongX)
    requires b == a[i := a[i] + Pull(ph, ps[i], ps[j], alongX)][j := a[j] + Pull(ph, ps[j], ps[i], alongX)]
    ensures FeltSoFar(ph, ps, b, i, j + 1, alongX)
  {
    forall k: nat | k < |ps| ensures b[k] == Felt(ph, ps, Visited(i, j + 1), k, alongX) {
      OnePair(ph, ps, i, j, k, alongX);
    }
  }

  /** The step loop of `express`. */
  method Run(ph: Physics, ps: array<Particle>, dt: real, steps: nat)
    requires ph.Valid()
    modifies ps
    ensures PlaceLaw(BruteLaw(ph))
    ensures ps[..] == Steps(BruteLaw(ph), old(ps[..]), dt, steps)
  {
    BruteIsPlaceLaw(ph);
    var ax, ay := new real[ps.Length], new real[ps.Length];
    for step := 0 to steps
      invariant ps[..] == Steps(BruteLaw(ph), old(ps[..]), dt, step)
    {
      StepInPlace(ph, ps, ax, ay, dt);
    }
  }

  /** One step: half a kick, a drift, half a kick. */
  method StepInPlace(ph: Physics, ps: array<Particle>, ax: array<real>, ay: array<real>, dt: real)
    requires ph.Valid() && PlaceLaw(BruteLaw(ph)) && ax != ay && ax.Length == ay.Length == ps.Length
    modifies ps, ax, ay
    ensures ps[..] == Step(BruteLaw(ph), old(ps[..]), dt)
  {
    ComputeForces(ph, ps, ax, ay);
    KickInPlace(ps, ax, ay, dt);
    DriftInPlace(ps, dt);
    ComputeForces(ph, ps, ax, ay);
    KickInPlace(ps, ax, ay, dt);
  }

  // ---- What the engine keeps ----------------------------------------------------

  lemma BruteIsBalanced(ph: Physics)
    requires ph.Valid()
    ensures PlaceLaw(BruteLaw(ph))
    ensures Balanced(BruteLaw(ph))
  {
    BruteIsPlaceLaw(ph);
    forall ps, alongX ensures Force(ps, BruteLaw(ph)(ps), alongX) == 0.0 {
      MutualForcesCancel(ph, ps, Others(), alongX);
    }
  }

  /** The brute-force engine conserves momentum along both axes over any number of steps. */
  lemma BruteKeepsMomentum(ph: Physics, ps: seq<Particle>, dt: real, n: nat, alongX: bool)
    requires ph.Valid()
    ensures PlaceLaw(BruteLaw(ph))
    ensures Momentum(Steps(BruteLaw(ph), ps, dt, n), alongX) == Momentum(ps, alongX)
  {
    BruteIsPlaceLaw(ph);
    BruteIsBalanced(ph);
    StepsKeepMomentum(BruteLaw(ph), ps, dt, n, alongX);
  }

  /** ... and runs backwards exactly when all velocities are turned round. */
  lemma BruteIsReversible(ph: Physics, ps: seq<Particle>, dt: real, n: nat)
    requires ph.Valid()
    ensures PlaceLaw(BruteLaw(ph))
    ensures Steps(BruteLaw(ph), Reversed(Steps(BruteLaw(ph), ps, dt, n)), dt, n) == Reversed(ps)
  {
    BruteIsPlaceLaw(ph);
    StepsAreReversible(BruteLaw(ph), ps, dt, n);
  }
}
