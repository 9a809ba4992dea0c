/** Within the root square no cell large against the softening is far. */
module Inside {
  import opened Common
  import opened Sums
  import opened Integrator
  import opened Gravity
  import opened QuadTree
  import opened BarnesHut
  import opened TreeLaw

  /** On one axis: within half the size of the centre. */
  predicate Within(a: real, centre: real, size: real)
  {
    centre - size / 2.0 <= a <= centre + size / 2.0
  }

  predicate InSquare(p: Particle, f: Frame)
  {
    Within(p.x, f.x, f.size) && Within(p.y, f.y, f.size)
  }

  ghost predicate AllInside(t: Tree, f: Frame, ps: seq<Particle>)
  {
    forall x: nat :: Count(t, x) > 0 ==> InSquare(At(ps, x), f)
  }

  lemma ChildSquare(p: Particle, f: Frame, q: nat)
    requires InSquare(p, f) && QuadrantOf(f, p) == q
    ensures InSquare(p, ChildFrame(f, q))
  {
  }

  lemma {:induction false} ChildInside(t: Tree, q: nat, f: Frame, ps: seq<Particle>)
    requires t.Inner? && q < 4 && Placed(t, f, ps) && AllInside(t, f, ps)
    ensures AllInside(Child(t, q), ChildFrame(f, q), ps)
  {
    PlacedChild(t, f, ps, q);
    forall x: nat | Count(Child(t, q), x) > 0 ensures InSquare(At(ps, x), ChildFrame(f, q)) {
      ChildCounts(t, x);
      ChildSquare(At(ps, x), f, q);
    }
  }

  // ---- The centre of mass lies among the particles --------------------------------------

  lemma {:induction false} ListSumNotNegative(s: seq<nat>, h: nat -> real)
    requires forall x: nat :: CountIn(s, x) > 0 ==> h(x) >= 0.0
    ensures ListSum(s, h) >= 0.0
  {
    if s != [] {
      var front, last := s[..|s| - 1], s[|s| - 1];
      MemberCounts(s, |s| - 1);
      forall x: nat | CountIn(front, x) > 0 ensures h(x) >= 0.0 {
        assert CountIn(s, x) > 0;
      }
      ListSumNotNegative(front, h);
    }
  }

  lemma {:induction false} TreeSumNotNegative(t: Tree, h: nat -> real)
    requires forall x: nat :: Count(t, x) > 0 ==> h(x) >= 0.0
    ensures TreeSum(t, h) >= 0.0
  {
    match t
    case Empty =>
    case Leaf(i) => assert Count(t, i) > 0;
    case Bucket(s) =>
      assert forall x: nat :: CountIn(s, x) > 0 ==> Count(t, x) > 0;
      ListSumNotNegative(s, h);
    case Inner(c0, c1, c2, c3) =>
      forall x: nat | Count(c0, x) > 0 || Count(c1, x) > 0 || Count(c2, x) > 0 || Count(c3, x) > 0
        ensures h(x) >= 0.0
      {
        ChildCounts(t, x);
      }
      TreeSumNotNegative(c0, h);
      TreeSumNotNegative(c1, h);
      TreeSumNotNegative(c2, h);
      TreeSumNotNegative(c3, h);
  }

  lemma {:induction false} ListSumDiffers(s: seq<nat>, h: nat -> real, a: nat -> real, b: nat -> real, k: real)
    requires forall i: nat :: h(i) == a(i) - Times(k, b(i))
    ensures ListSum(s, h) == ListSum(s, a) - Times(k, ListSum(s, b))
  {
    TimesLaws(k, 0.0, 0.0);
    if s != [] {
      ListSumDiffers(s[..|s| - 1], h, a, b, k);
      TimesLaws(k, ListSum(s[..|s| - 1], b), b(s[|s| - 1]));
    }
  }

  lemma {:induction false} TreeSumDiffers(t: Tree, h: nat -> real, a: nat -> real, b: nat -> real, k: real)
    requires forall i: nat :: h(i) == a(i) - Times(k, b(i))
    ensures TreeSum(t, h) == TreeSum(t, a) - Times(k, TreeSum(t, b))
  {
    TimesLaws(k, 0.0, 0.0);
    match t
    case Bucket(s) => ListSumDiffers(s, h, a, b, k);
    case Inner(c0, c1, c2, c3) =>
      TreeSumDiffers(c0, h, a, b, k);
      TreeSumDiffers(c1, h, a, b, k);
      TreeSumDiffers(c2, h, a, b, k);
      TreeSumDiffers(c3, h, a, b, k);
      FourTimes(k, TreeSum(c0, b), TreeSum(c1, b), TreeSum(c2, b), TreeSum(c3, b));
    case _ =>
  }

  lemma FourTimes(k: real, a: real, b: real, c: real, d: real)
    ensures Times(k, a + b + c + d) == Times(k, a) + Times(k, b) + Times(k, c) + Times(k, d)
  {
  }

  lemma NotBelow(c: real, k: real, m: real)
    requires m > 0.0 && Times(c, m) - Times(k, m) >= 0.0
    ensures c >= k
  {
    assert Times(k - c, m) == Times(k, m) - Times(c, m);
    if c < k {
      TimesPositive(k - c, m);
      assert false;
    }
  }

  lemma NotAbove(c: real, k: real, m: real)
    requires m > 0.0 && Times(c, m) - Times(k, m) <= 0.0
    ensures c <= k
  {
    if c > k {
      NotBelow(k, c, m);
    }
  }

  /** The moment of particles on one axis, all of them at or beyond k and none of negative mass. */
  lemma CentreNotBelow(t: Tree, m: nat -> real, moment: nat -> real, at: nat -> real, c: real, k: real)
    requires (forall i: nat :: moment(i) == Times(at(i), m(i)))
    requires (forall i: nat :: m(i) >= 0.0) && forall x: nat :: Count(t, x) > 0 ==> at(x) >= k
    requires TreeSum(t, m) > 0.0 && Times(c, TreeSum(t, m)) == TreeSum(t, moment)
    ensures c >= k
  {
    var h := (i: nat) => moment(i) - Times(k, m(i));
    forall x: nat | Count(t, x) > 0 ensures h(x) >= 0.0 {
      NotSmaller(at(x), k, m(x));
    }
    TreeSumNotNegative(t, h);
    TreeSumDiffers(t, h, moment, m, k);
    NotBelow(c, k, TreeSum(t, m));
  }

  lemma NotSmaller(a: real, k: real, m: real)
    requires a >= k && m >= 0.0
    ensures Times(a, m) - Times(k, m) >= 0.0
  {
    assert Times(a, m) - Times(k, m) == Times(a - k, m);
    if a > k && m > 0.0 {
      TimesPositive(a - k, m);
    }
  }

  /** The same from the other side. */
  lemma CentreNotAbove(t: Tree, m: nat -> real, moment: nat -> real, at: nat -> real, c: real, k: real)
    requires (forall i: nat :: moment(i) == Times(at(i), m(i)))
    requires (forall i: nat :: m(i) >= 0.0) && forall x: nat :: Count(t, x) > 0 ==> at(x) <= k
    requires TreeSum(t, m) > 0.0 && Times(c, TreeSum(t, m)) == TreeSum(t, moment)
    ensures c <= k
  {
    var h := (i: nat) => Times(k, m(i)) - moment(i);
    forall x: nat | Count(t, x) > 0 ensures h(x) >= 0.0 {
      NotSmaller(k, at(x), m(x));
    }
    TreeSumNotNegative(t, h);
    var g := (i: nat) => moment(i) - Times(k, m(i));
    TreeSumDiffers(t, g, moment, m, k);
    TreeSumOpposes(t, g, h);
    NotAbove(c, k, TreeSum(t, m));
  }

  lemma {:induction false} TreeSumOpposes(t: Tree, g: nat -> real, h: nat -> real)
    requires forall i: nat :: h(i) == -g(i)
    ensures TreeSum(t, h) == -TreeSum(t, g)
  {
    match t
    case Bucket(s) => ListSumOpposes(s, g, h);
    case Inner(c0, c1, c2, c3) =>
      TreeSumOpposes(c0, g, h);
      TreeSumOpposes(c1, g, h);
      TreeSumOpposes(c2, g, h);
      TreeSumOpposes(c3, g, h);
    case _ =>
  }

  lemma {:induction false} ListSumOpposes(s: seq<nat>, g: nat -> real, h: nat -> real)
    requires forall i: nat :: h(i) == -g(i)
    ensures ListSum(s, h) == -ListSum(s, g)
  {
    if s != [] {
      ListSumOpposes(s[..|s| - 1], g, h);
    }
  }

  ghost function PlaceOf(ps: seq<Particle>, alongX: bool): nat -> real
  {
    (i: nat) => if alongX then At(ps, i).x else At(ps, i).y
  }

  lemma MomentIsPlaceTimesMass(ps: seq<Particle>, alongX: bool)
    ensures forall i: nat :: MomentOf(ps, alongX)(i) == Times(PlaceOf(ps, alongX)(i), MassOf(ps)(i))
  {
  }

  lemma MassesNotNegative(ps: seq<Particle>)
    requires NonNegative(ps)
    ensures forall i: nat :: MassOf(ps)(i) >= 0.0
  {
  }

  /** On one axis the centre of mass lies between bounds that hold for all particles of the node. */
  lemma CentreWithin(t: Tree, ps: seq<Particle>, alongX: bool, c: real, centre: real, size: real)
    requires NonNegative(ps) && TreeSum(t, MassOf(ps)) > 0.0
    requires Times(c, TreeSum(t, MassOf(ps))) == TreeSum(t, MomentOf(ps, alongX))
    requires forall x: nat :: Count(t, x) > 0 ==> Within(PlaceOf(ps, alongX)(x), centre, size)
    ensures Within(c, centre, size)
  {
    MomentIsPlaceTimesMass(ps, alongX);
    MassesNotNegative(ps);
    CentreNotBelow(t, MassOf(ps), MomentOf(ps, alongX), PlaceOf(ps, alongX), c, centre - size / 2.0);
    CentreNotAbove(t, MassOf(ps), MomentOf(ps, alongX), PlaceOf(ps, alongX), c, centre + size / 2.0);
  }

  lemma CentreInSquare(w: Weight, t: Tree, f: Frame, ps: seq<Particle>)
    requires NonNegative(ps) && Balances(w, t, MeasureOf(ps)) && w.mass > 0.0 && AllInside(t, f, ps)
    ensures InSquare(AtCentre(w), f)
  {
    forall x: nat | Count(t, x) > 0
      ensures Within(PlaceOf(ps, true)(x), f.x, f.size) && Within(PlaceOf(ps, false)(x), f.y, f.size)
    {
      assert InSquare(At(ps, x), f);
    }
    CentreWithin(t, ps, true, w.cx, f.x, f.size);
    CentreWithin(t, ps, false, w.cy, f.y, f.size);
  }

  // ---- Near enough --------------------------------------------------------------------------

  const EPS := 0.0000000001

  /** A cell this large is opened by everything inside it: r <= sqrt(2 size^2 + softening^2) <= 2 size - 1e-10. */
  ghost predicate LargeAgainst(size: real, softening: real)
  {
    2.0 * size >= EPS &&
    2.0 * Times(size, size) + Times(softening, softening) <= Times(2.0 * size - EPS, 2.0 * size - EPS)
  }

  lemma SquareWithin(d: real, size: real)
    requires -size <= d <= size
    ensures Times(d, d) <= Times(size, size)
  {
    var a := if d < 0.0 then -d else d;
    assert Times(a, a) == Times(d, d);
    NotSmaller(size, a, a);
    NotSmaller(size, a, size);
    TimesLaws(size, a, 0.0);
  }

  lemma RootNotAbove(r: real, b: real)
    requires b >= 0.0 && r >= 0.0 && Times(r, r) <= Times(b, b)
    ensures r <= b
  {
    TimesLaws(r, b, 0.0);
    assert Times(r - b, r) == Times(r, r) - Times(b, r);
    if r > b {
      NotSmaller(r, b, b);
      TimesPositive(r - b, r);
      assert false;
    }
  }

  lemma HalfOrMore(size: real, r: real)
    requires r > 0.0 && r <= 2.0 * size
    ensures size / r >= THETA
  {
    var q := size / r;
    assert Times(THETA - q, r) == 0.5 * r - size;
    if q < THETA {
      TimesPositive(THETA - q, r);
      assert false;
    }
  }

  lemma InsideIsNear(ph: Physics, sqrt: real -> real, p: Particle, f: Frame, w: Weight)
    requires ph.softening > 0.0 && TakesRoots(sqrt) && LargeAgainst(f.size, ph.softening)
    requires InSquare(p, f) && InSquare(AtCentre(w), f)
    ensures !IsFar(ph, sqrt, p, f.size, w)
  {
    var dx, dy := w.cx - p.x, w.cy - p.y;
    SquareWithin(dx, f.size);
    SquareWithin(dy, f.size);
    var rSq := RSq(ph, dx, dy);
    var r := sqrt(rSq);
    assert Times(r, r) == rSq <= 2.0 * Times(f.size, f.size) + Times(ph.softening, ph.softening);
    RootNotAbove(r, 2.0 * f.size - EPS);
    HalfOrMore(f.size, r + EPS);
  }

  /** Every divided node is large against the softening. */
  ghost predicate AllLarge(c: Cell, softening: real)
  {
    c.Split? ==>
      && LargeAgainst(c.size, softening)
      && AllLarge(c.c0, softening) && AllLarge(c.c1, softening)
      && AllLarge(c.c2, softening) && AllLarge(c.c3, softening)
  }

  lemma {:induction false} NotInFarCell(c: Cell, f: Frame, ph: Physics, sqrt: real -> real, ps: seq<Particle>, idx: nat,
                                        far: Test)
    requires ph.softening > 0.0 && TakesRoots(sqrt) && far == Far(ph, sqrt, At(ps, idx))
    requires NonNegative(ps) && Weighed(c, ps) && Sized(c, f) && Entered(c)
    requires Placed(Shape(c), f, ps) && AllInside(Shape(c), f, ps) && AllLarge(c, ph.softening)
    ensures !InFarCell(c, far, idx)
    decreases c, 1
  {
    if c.Split? {
      if Count(Shape(c), idx) > 0 {
        WeighedBalances(c, ps);
        CentreInSquare(c.w, Shape(c), f, ps);
        InsideIsNear(ph, sqrt, At(ps, idx), f, c.w);
      }
      NotInFarChild(c, 0, f, ph, sqrt, ps, idx, far);
      NotInFarChild(c, 1, f, ph, sqrt, ps, idx, far);
      NotInFarChild(c, 2, f, ph, sqrt, ps, idx, far);
      NotInFarChild(c, 3, f, ph, sqrt, ps, idx, far);
    }
  }

  lemma {:induction false} NotInFarChild(c: Cell, q: nat, f: Frame, ph: Physics, sqrt: real -> real, ps: seq<Particle>,
                                         idx: nat, far: Test)
    requires ph.softening > 0.0 && TakesRoots(sqrt) && far == Far(ph, sqrt, At(ps, idx)) && c.Split? && q < 4
    requires NonNegative(ps) && Weighed(c, ps) && Sized(c, f)
    requires Placed(Shape(c), f, ps) && AllInside(Shape(c), f, ps) && AllLarge(c, ph.softening)
    ensures !InFarCellBelow(CellChild(c, q), far, idx)
    decreases c, 0
  {
    var d := CellChild(c, q);
    if Entered(d) {
      ChildWeighed(c, q, ps);
      SameShape(c, q);
      PlacedChild(Shape(c), f, ps, q);
      ChildInside(Shape(c), q, f, ps);
      NotInFarCell(d, ChildFrame(f, q), ph, sqrt, ps, idx, far);
    }
  }

  /**
   * If every particle lies within the root's square and every divided node is large against the
   * softening, no particle is among what pulls it.
   */
  lemma InsidersDoNotPullThemselves(root: Cell, f: Frame, ph: Physics, sqrt: real -> real, ps: seq<Particle>, idx: nat)
    requires ph.softening > 0.0 && TakesRoots(sqrt) && IsRoot(root, f, ps) && Sized(root, f) && idx < |ps|
    requires NonNegative(ps) && Entered(root) && AllLarge(root, ph.softening)
    requires forall i: nat :: i < |ps| ==> InSquare(At(ps, i), f)
    ensures !InFarCell(root, Far(ph, sqrt, ps[idx]), idx)
  {
    BuildHolds(f, ps, |ps|);
    forall x: nat | Count(Shape(root), x) > 0 ensures InSquare(At(ps, x), f) {
      assert x < |ps|;
    }
    assert At(ps, idx) == ps[idx];
    NotInFarCell(root, f, ph, sqrt, ps, idx, Far(ph, sqrt, ps[idx]));
  }

  /** The softening matters: a cell no wider than half of it is far from everything, even from what it holds. */
  lemma SmallCellsAreFar(ph: Physics, sqrt: real -> real, p: Particle, size: real, w: Weight)
    requires ph.softening > 0.0 && TakesRoots(sqrt) && 0.0 <= size && 2.0 * size <= ph.softening
    ensures IsFar(ph, sqrt, p, size, w)
  {
    var dx, dy := w.cx - p.x, w.cy - p.y;
    SquareNotNegative(dx);
    SquareNotNegative(dy);
    var r := sqrt(RSq(ph, dx, dy));
    RootNotAbove(ph.softening, r);
    LessThanHalf(size, r + EPS);
  }

  lemma LessThanHalf(size: real, r: real)
    requires r > 0.0 && 2.0 * size < r
    ensures size / r < THETA
  {
    var q := size / r;
    assert Times(q, r) == size && Times(THETA, r) == 0.5 * r;
    if q >= THETA {
      NotSmaller(q, THETA, r);
      assert false;
    }
  }
}
