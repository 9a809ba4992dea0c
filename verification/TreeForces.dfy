/** The steps of genes/particle-barneshut: bounds, tree, weights, forces, kicks. */
module TreeForces {
  import opened Integrator
  import opened Gravity
  import opened Extent
  import opened TreeLaw
  import opened QuadTree
  import opened BarnesHut
  import opened QuadNodes

  /** How many interactions it takes. */
  ghost function CountInTree(root: Cell, ph: Physics, sqrt: real -> real, ps: seq<Particle>): nat -> nat
    requires ph.Valid() && TakesRoots(sqrt)
  {
    (i: nat) => if i < |ps| then |Interactions(root, Far(ph, sqrt, ps[i]), i)| else 0
  }

  ghost function CountUpTo(count: nat -> nat, n: nat): nat
  {
    if n == 0 then 0 else CountUpTo(count, n - 1) + count(n - 1)
  }

  lemma {:induction false} CountBound(count: nat -> nat, n: nat, m: nat)
    requires forall i: nat :: i < n ==> count(i) <= m
    ensures CountUpTo(count, n) <= n * m
  {
    if n > 0 {
      CountBound(count, n - 1, m);
      assert n * m == (n - 1) * m + m;
    }
  }

  /** The tree never computes more interactions than the square of the number of particles. */
  lemma CountIsBounded(root: Cell, f: Frame, ph: Physics, sqrt: real -> real, ps: seq<Particle>)
    requires ph.Valid() && TakesRoots(sqrt) && IsRoot(root, f, ps)
    ensures CountUpTo(CountInTree(root, ph, sqrt, ps), |ps|) <= |ps| * |ps|
  {
    var count := CountInTree(root, ph, sqrt, ps);
    forall i: nat | i < |ps| ensures count(i) <= |ps| {
      NoMoreThanParticles(root, f, ps, Far(ph, sqrt, ps[i]), i);
    }
    CountBound(count, |ps|, |ps|);
  }

  method InsertAll(ps: seq<Particle>, f: Frame) returns (root: QuadNode)
    ensures fresh(root.Repr) && root.Valid() && root.Where() == f && root.tree == Build(f, ps, |ps|)
  {
    root := new QuadNode(f.x, f.y, f.size);
    for i := 0 to |ps|
      invariant fresh(root.Repr) && root.Valid() && root.Where() == f && root.tree == Build(f, ps, i)
    {
      root.InsertParticle(ps, i);
    }
  }

  lemma WeighedIsRoot(c: Cell, f: Frame, ps: seq<Particle>)
    requires Shape(c) == Build(f, ps, |ps|)
    ensures IsRoot(Weigh(c, ps), f, ps)
  {
    WeighIsWeighed(c, ps);
  }

  method BuildTree(ps: seq<Particle>, f: Frame) returns (root: QuadNode)
    ensures fresh(root.Repr) && root.Valid() && IsRoot(root.View(), f, ps) && Sized(root.View(), f)
  {
    root := InsertAll(ps, f);
    ghost var before := root.View();
    WeighedIsRoot(before, f, ps);
    root.ComputeCenterOfMass(ps);
    root.ViewIsSized();
  }

  /** Both accelerations of the first n particles are set, those of the others still zero. */
  ghost predicate FeltUpTo(felt: (nat, bool) -> real, n: nat, ax: seq<real>, ay: seq<real>)
    requires |ax| == |ay|
  {
    forall k: nat :: k < |ax| ==>
      ax[k] == (if k < n then felt(k, true) else 0.0) && ay[k] == (if k < n then felt(k, false) else 0.0)
  }

  lemma FeltNext(felt: (nat, bool) -> real, n: nat, ax: seq<real>, ay: seq<real>, ax': seq<real>, ay': seq<real>)
    requires n < |ax| == |ay| == |ax'| == |ay'| && FeltUpTo(felt, n, ax, ay)
    requires ax' == ax[n := ax[n] + felt(n, true)] && ay' == ay[n := ay[n] + felt(n, false)]
    ensures FeltUpTo(felt, n + 1, ax', ay')
  {
  }

  /** One turn of the loop, in terms of what the particle feels. */
  method ForceOn(node: QuadNode, ph: Physics, sqrt: real -> real, ps: seq<Particle>, i: nat,
                 ax: array<real>, ay: array<real>, count: nat, ghost root: Cell,
                 ghost felt: (nat, bool) -> real, ghost counts: nat -> nat) returns (count': nat)
    requires node.Valid() && ph.Valid() && TakesRoots(sqrt) && i < |ps| && node.View() == root
    requires ax != ay && ax.Length == ay.Length == |ps|
    requires felt == FeltInTree(root, ph, sqrt, ps) && counts == CountInTree(root, ph, sqrt, ps)
    requires FeltUpTo(felt, i, ax[..], ay[..])
    modifies ax, ay
    ensures FeltUpTo(felt, i + 1, ax[..], ay[..])
    ensures count' == count + counts(i)
  {
    ghost var ax0, ay0 := ax[..], ay[..];
    count' := node.ComputeForce(ph, sqrt, ps, i, ax, ay, count);
    FeltNext(felt, i, ax0, ay0, ax[..], ay[..]);
  }

  /** The loop that calls `computeForce` for every particle. */
  method ForceLoop(node: QuadNode, ph: Physics, sqrt: real -> real, ps: seq<Particle>, ax: array<real>, ay: array<real>,
                   ghost root: Cell, ghost felt: (nat, bool) -> real, ghost counts: nat -> nat)
    returns (count: nat)
    requires node.Valid() && ph.Valid() && TakesRoots(sqrt) && node.View() == root
    requires ax != ay && ax.Length == ay.Length == |ps|
    requires felt == FeltInTree(root, ph, sqrt, ps) && counts == CountInTree(root, ph, sqrt, ps)
    requires FeltUpTo(felt, 0, ax[..], ay[..])
    modifies ax, ay
    ensures FeltUpTo(felt, |ps|, ax[..], ay[..])
    ensures count == CountUpTo(counts, |ps|)
  {
    count := 0;
    for i := 0 to |ps|
      invariant node.Valid() && node.View() == root
      invariant FeltUpTo(felt, i, ax[..], ay[..])
      invariant count == CountUpTo(counts, i)
    {
      count := ForceOn(node, ph, sqrt, ps, i, ax, ay, count, root, felt, counts);
    }
  }

  /** `ax.fill(0); ay.fill(0);` and the loop. */
  method ForcesIn(node: QuadNode, ph: Physics, sqrt: real -> real, ps: seq<Particle>, ax: array<real>, ay: array<real>,
                  ghost root: Cell) returns (count: nat)
    requires node.Valid() && ph.Valid() && TakesRoots(sqrt) && node.View() == root
    requires ax != ay && ax.Length == ay.Length == |ps|
    modifies ax, ay
    ensures FeltUpTo(FeltInTree(root, ph, sqrt, ps), |ps|, ax[..], ay[..])
    ensures count == CountUpTo(CountInTree(root, ph, sqrt, ps), |ps|)
  {
    Zero(ax);
    Zero(ay);
    count := ForceLoop(node, ph, sqrt, ps, ax, ay, root, FeltInTree(root, ph, sqrt, ps),
                       CountInTree(root, ph, sqrt, ps));
  }

  /** The first half of a step of `express`, up to the kick; the second half repeats it. */
  method ComputeForces(ph: Physics, sqrt: real -> real, particles: array<Particle>, ax: array<real>, ay: array<real>)
    returns (count: nat, ghost root: Cell)
    requires ph.Valid() && TakesRoots(sqrt) && particles.Length > 0
    requires ax != ay && ax.Length == ay.Length == particles.Length
    modifies ax, ay
    ensures IsRoot(root, FrameOf(particles[..]), particles[..])
    ensures Sized(root, FrameOf(particles[..]))
    ensures FeltUpTo(FeltInTree(root, ph, sqrt, particles[..]), particles.Length, ax[..], ay[..])
    ensures count == CountUpTo(CountInTree(root, ph, sqrt, particles[..]), particles.Length)
  {
    var minX, maxX := Bounds(particles[..], true);
    var minY, maxY := Bounds(particles[..], false);
    var node := BuildTree(particles[..], RootFrame(minX, maxX, minY, maxY));
    root := node.View();
    count := ForcesIn(node, ph, sqrt, particles[..], ax, ay, root);
  }

  // ---- The step loop ------------------------------------------------------------------------

  /** For masses that are not negative the accelerations are those of the law. */
  lemma FeltIsLaw(root: Cell, ph: Physics, sqrt: real -> real, ps: seq<Particle>, ax: seq<real>, ay: seq<real>)
    requires ph.Valid() && TakesRoots(sqrt) && ps != [] && |ax| == |ay| == |ps| && NonNegative(ps)
    requires IsRoot(root, FrameOf(ps), ps) && Sized(root, FrameOf(ps))
    requires FeltUpTo(FeltInTree(root, ph, sqrt, ps), |ps|, ax, ay)
    ensures Vectors(ax, ay) == LawOfTree(ph, sqrt)(ps)
  {
    var felt := FeltInTree(RootOf(ps, FrameOf(ps)), ph, sqrt, ps);
    forall i: nat | i < |ps| ensures Vectors(ax, ay)[i] == Vec(felt(i, true), felt(i, false)) {
      OneFelt(root, FrameOf(ps), ph, sqrt, ps, i, true);
      OneFelt(root, FrameOf(ps), ph, sqrt, ps, i, false);
    }
  }

  ghost predicate SameMasses(ps: seq<Particle>, qs: seq<Particle>)
  {
    |ps| == |qs| && forall i :: 0 <= i < |ps| ==> ps[i].mass == qs[i].mass
  }

  lemma MassesStay(ps: seq<Particle>, qs: seq<Particle>)
    requires SameMasses(ps, qs) && NonNegative(ps)
    ensures NonNegative(qs)
  {
    forall i: nat | i < |qs| ensures At(qs, i).mass >= 0.0 {
      assert At(ps, i).mass >= 0.0;
    }
  }

  /** Build the tree for the current places, compute the forces, kick. */
  method HalfStep(ph: Physics, sqrt: real -> real, ps: array<Particle>, ax: array<real>, ay: array<real>, dt: real)
    returns (interactions: nat)
    requires ph.Valid() && TakesRoots(sqrt) && ps.Length > 0
    requires ax != ay && ax.Length == ay.Length == ps.Length
    modifies ps, ax, ay
    ensures SameMasses(old(ps[..]), ps[..]) && interactions <= ps.Length * ps.Length
    ensures NonNegative(old(ps[..])) ==> ps[..] == Kick(old(ps[..]), LawOfTree(ph, sqrt)(old(ps[..])), dt)
  {
    ghost var root;
    interactions, root := ComputeForces(ph, sqrt, ps, ax, ay);
    CountIsBounded(root, FrameOf(ps[..]), ph, sqrt, ps[..]);
    if NonNegative(ps[..]) {
      FeltIsLaw(root, ph, sqrt, ps[..], ax[..], ay[..]);
    }
    KickInPlace(ps, ax, ay, dt);
  }

  /** One turn of the step loop. */
  method StepInPlace(ph: Physics, sqrt: real -> real, ps: array<Particle>, ax: array<real>, ay: array<real>, dt: real)
    returns (interactions: nat)
    requires ph.Valid() && TakesRoots(sqrt) && ps.Length > 0 && PlaceLaw(LawOfTree(ph, sqrt))
    requires ax != ay && ax.Length == ay.Length == ps.Length
    modifies ps, ax, ay
    ensures SameMasses(old(ps[..]), ps[..]) && interactions <= 2 * (ps.Length * ps.Length)
    ensures NonNegative(old(ps[..])) ==> ps[..] == Step(LawOfTree(ph, sqrt), old(ps[..]), dt)
  {
    var first := HalfStep(ph, sqrt, ps, ax, ay, dt);
    DriftInPlace(ps, dt);
    ghost var moved := ps[..];
    if NonNegative(old(ps[..])) {
      MassesStay(old(ps[..]), moved);
    }
    var second := HalfStep(ph, sqrt, ps, ax, ay, dt);
    interactions := first + second;
  }

  /** The step loop of `express`. */
  method Run(ph: Physics, sqrt: real -> real, ps: array<Particle>, dt: real, steps: nat) returns (interactions: nat)
    requires ph.Valid() && TakesRoots(sqrt) && ps.Length > 0
    modifies ps
    ensures PlaceLaw(LawOfTree(ph, sqrt))
    ensures SameMasses(old(ps[..]), ps[..]) && interactions <= steps * (2 * (ps.Length * ps.Length))
    ensures NonNegative(old(ps[..])) ==> ps[..] == Steps(LawOfTree(ph, sqrt), old(ps[..]), dt, steps)
  {
    TreeIsPlaceLaw(ph, sqrt);
    var ax, ay := new real[ps.Length], new real[ps.Length];
    interactions := 0;
    for step := 0 to steps
      invariant SameMasses(old(ps[..]), ps[..]) && interactions <= step * (2 * (ps.Length * ps.Length))
      invariant NonNegative(old(ps[..])) ==> ps[..] == Steps(LawOfTree(ph, sqrt), old(ps[..]), dt, step)
    {
      if NonNegative(old(ps[..])) {
        MassesStay(old(ps[..]), ps[..]);
      }
      var more := StepInPlace(ph, sqrt, ps, ax, ay, dt);
      OneMoreTime(step, 2 * (ps.Length * ps.Length));
      interactions := interactions + more;
    }
  }

  lemma OneMoreTime(n: nat, m: nat)
    ensures (n + 1) * m == n * m + m
  {
  }
}
