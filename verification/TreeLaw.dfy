/** The tree engine's accelerations depend on places and masses only. */
module TreeLaw {
  import opened Common
  import opened Sums
  import opened Integrator
  import opened Gravity
  import opened QuadTree
  import opened BarnesHut
  import opened Extent

  const MARGIN := 0.1

  /** Centre and size of the root: the size is half the larger extent, at least 1/2, and a margin. */
  function RootFrame(minX: real, maxX: real, minY: real, maxY: real): Frame
  {
    var w, h := maxX - minX, maxY - minY;
    var extent := if w >= h && w >= 1.0 then w else if h >= 1.0 then h else 1.0;
    Frame((minX + maxX) / 2.0, (minY + maxY) / 2.0, extent / 2.0 + MARGIN)
  }

  function FrameOf(ps: seq<Particle>): Frame
    requires ps != []
  {
    RootFrame(Lowest(ps, |ps|, true), Highest(ps, |ps|, true), Lowest(ps, |ps|, false), Highest(ps, |ps|, false))
  }

  /** What the engine gives particle i along one axis. */
  ghost function FeltInTree(root: Cell, ph: Physics, sqrt: real -> real, ps: seq<Particle>): (nat, bool) -> real
    requires ph.Valid() && TakesRoots(sqrt)
  {
    (i: nat, alongX: bool) =>
      if i < |ps| then Total(Interactions(root, Far(ph, sqrt, ps[i]), i), PullOf(ph, ps, ps[i], alongX)) else 0.0
  }

  // ---- One root for given particles ---------------------------------------------------

  /** The sizes of divided nodes are those of their frames. */
  ghost predicate Sized(c: Cell, f: Frame)
  {
    match c
    case Split(size, _, c0, c1, c2, c3) =>
      && size == f.size
      && Sized(c0, ChildFrame(f, 0)) && Sized(c1, ChildFrame(f, 1))
      && Sized(c2, ChildFrame(f, 2)) && Sized(c3, ChildFrame(f, 3))
    case _ => true
  }

  /** A tree as cells of no weight yet. */
  ghost function CellOf(t: Tree, f: Frame): Cell
  {
    var w := Weight(0.0, 0.0, 0.0);
    match t
    case Empty => Null
    case Leaf(i) => Alone(i, w)
    case Bucket(s) => Crowd(s, w)
    case Inner(c0, c1, c2, c3) =>
      Split(f.size, w, CellOf(c0, ChildFrame(f, 0)), CellOf(c1, ChildFrame(f, 1)),
            CellOf(c2, ChildFrame(f, 2)), CellOf(c3, ChildFrame(f, 3)))
  }

  lemma {:induction false} CellOfTree(t: Tree, f: Frame)
    ensures Shape(CellOf(t, f)) == t && Sized(CellOf(t, f), f)
  {
    if t.Inner? {
      CellOfTree(t.c0, ChildFrame(f, 0));
      CellOfTree(t.c1, ChildFrame(f, 1));
      CellOfTree(t.c2, ChildFrame(f, 2));
      CellOfTree(t.c3, ChildFrame(f, 3));
    }
  }

  lemma {:induction false} WeighBySized(c: Cell, f: Frame, own: nat -> Weight, g: Measure)
    requires Sized(c, f)
    ensures Sized(WeighBy(c, own, g), f)
  {
    if c.Split? {
      WeighBySized(c.c0, ChildFrame(f, 0), own, g);
      WeighBySized(c.c1, ChildFrame(f, 1), own, g);
      WeighBySized(c.c2, ChildFrame(f, 2), own, g);
      WeighBySized(c.c3, ChildFrame(f, 3), own, g);
    }
  }

  /** The weighed tree of all particles. */
  ghost function RootOf(ps: seq<Particle>, f: Frame): Cell
  {
    Weigh(CellOf(Build(f, ps, |ps|), f), ps)
  }

  ghost predicate Positive(ps: seq<Particle>)
  {
    forall i: nat :: i < |ps| ==> At(ps, i).mass > 0.0
  }

  /** Every node that is there has mass. */
  ghost predicate Heavy(t: Tree, m: nat -> real)
  {
    match t
    case Empty => true
    case Inner(c0, c1, c2, c3) =>
      TreeSum(t, m) > 0.0 && Heavy(c0, m) && Heavy(c1, m) && Heavy(c2, m) && Heavy(c3, m)
    case _ => TreeSum(t, m) > 0.0
  }

  /** Only particles with mass, and some in every node. */
  ghost predicate Populated(t: Tree, m: nat -> real)
  {
    match t
    case Empty => true
    case Leaf(i) => m(i) > 0.0
    case Bucket(s) => s != [] && forall k :: 0 <= k < |s| ==> m(s[k]) > 0.0
    case Inner(c0, c1, c2, c3) =>
      && !(c0 == c1 == c2 == c3 == Empty)
      && Populated(c0, m) && Populated(c1, m) && Populated(c2, m) && Populated(c3, m)
  }

  lemma {:induction false} ListHasMass(s: seq<nat>, m: nat -> real)
    requires forall k :: 0 <= k < |s| ==> m(s[k]) > 0.0
    ensures ListSum(s, m) >= 0.0 && (s != [] ==> ListSum(s, m) > 0.0)
  {
    if s != [] {
      ListHasMass(s[..|s| - 1], m);
    }
  }

  lemma {:induction false} PopulatedIsHeavy(t: Tree, m: nat -> real)
    requires Populated(t, m)
    ensures Heavy(t, m) && (t != Empty ==> TreeSum(t, m) > 0.0)
  {
    match t
    case Bucket(s) => ListHasMass(s, m);
    case Inner(c0, c1, c2, c3) =>
      PopulatedIsHeavy(c0, m);
      PopulatedIsHeavy(c1, m);
      PopulatedIsHeavy(c2, m);
      PopulatedIsHeavy(c3, m);
    case _ =>
  }

  lemma SameQuotient(a: real, b: real, m: real)
    requires m > 0.0 && Times(a, m) == Times(b, m)
    ensures a == b
  {
  }

  lemma SameWeight(v: Weight, w: Weight, t: Tree, g: Measure)
    requires Balances(v, t, g) && Balances(w, t, g) && g.nonNegative && TreeSum(t, g.mass) > 0.0
    ensures v == w
  {
    SameQuotient(v.cx, w.cx, w.mass);
    SameQuotient(v.cy, w.cy, w.mass);
  }

  /** Where every node has mass, shape, sizes and particles leave no choice for the cells. */
  lemma {:induction false} OneCell(c: Cell, d: Cell, t: Tree, f: Frame, own: nat -> Weight, g: Measure)
    requires Shape(c) == Shape(d) == t && Sized(c, f) && Sized(d, f)
    requires WeighedBy(c, own, g) && WeighedBy(d, own, g) && g.nonNegative && Heavy(t, g.mass)
    ensures c == d
    decreases t
  {
    match t
    case Bucket(s) => SameWeight(c.w, d.w, t, g);
    case Inner(c0, c1, c2, c3) =>
      SameWeight(c.w, d.w, t, g);
      OneCell(c.c0, d.c0, c0, ChildFrame(f, 0), own, g);
      OneCell(c.c1, d.c1, c1, ChildFrame(f, 1), own, g);
      OneCell(c.c2, d.c2, c2, ChildFrame(f, 2), own, g);
      OneCell(c.c3, d.c3, c3, ChildFrame(f, 3), own, g);
    case _ =>
  }

  lemma {:induction false} ListIsPopulated(s: seq<nat>, m: nat -> real, k: nat)
    requires (forall x: nat :: CountIn(s, x) > 0 ==> m(x) > 0.0) && k < |s|
    ensures m(s[k]) > 0.0
  {
    MemberCounts(s, k);
  }

  lemma {:induction false} MemberCounts(s: seq<nat>, k: nat)
    requires k < |s|
    ensures CountIn(s, s[k]) > 0
  {
    if k < |s| - 1 {
      MemberCounts(s[..|s| - 1], k);
    }
  }

  lemma {:induction false} ChildCounts(t: Tree, x: nat)
    requires t.Inner?
    ensures Count(t.c0, x) <= Count(t, x) && Count(t.c1, x) <= Count(t, x)
    ensures Count(t.c2, x) <= Count(t, x) && Count(t.c3, x) <= Count(t, x)
  {
  }

  /** A placed tree of particles with mass is populated. */
  lemma {:induction false} PlacedIsPopulated(t: Tree, f: Frame, ps: seq<Particle>, m: nat -> real)
    requires Placed(t, f, ps) && t != FRESH && forall x: nat :: Count(t, x) > 0 ==> m(x) > 0.0
    ensures Populated(t, m)
    decreases t
  {
    match t
    case Empty =>
    case Leaf(i) => assert Count(t, i) > 0;
    case Bucket(s) =>
      assert forall x: nat :: CountIn(s, x) > 0 ==> Count(t, x) > 0;
      forall k: nat | k < |s| ensures m(s[k]) > 0.0 {
        ListIsPopulated(s, m, k);
      }
    case Inner(c0, c1, c2, c3) =>
      forall x: nat | Count(c0, x) > 0 || Count(c1, x) > 0 || Count(c2, x) > 0 || Count(c3, x) > 0
        ensures m(x) > 0.0
      {
        ChildCounts(t, x);
      }
      PlacedIsPopulated(c0, ChildFrame(f, 0), ps, m);
      PlacedIsPopulated(c1, ChildFrame(f, 1), ps, m);
      PlacedIsPopulated(c2, ChildFrame(f, 2), ps, m);
      PlacedIsPopulated(c3, ChildFrame(f, 3), ps, m);
  }

  lemma BuildIsHeavy(f: Frame, ps: seq<Particle>)
    requires Positive(ps) && ps != []
    ensures Heavy(Build(f, ps, |ps|), MassOf(ps))
  {
    var t := Build(f, ps, |ps|);
    BuildHolds(f, ps, |ps|);
    FreshIsPlaced(f, ps);
    assert Count(t, 0) == 1;
    PlacedIsPopulated(t, f, ps, MassOf(ps));
    PopulatedIsHeavy(t, MassOf(ps));
  }

  lemma PositiveIsNonNegative(ps: seq<Particle>)
    requires Positive(ps)
    ensures NonNegative(ps) && MeasureOf(ps).nonNegative
  {
  }

  // ---- Positive masses lose nothing -------------------------------------------------------

  /** Where every node that is there has mass, every child that is there is entered. */
  lemma {:induction false} HeavyLosesNone(c: Cell, far: Test, idx: nat, own: nat -> Weight, g: Measure)
    requires WeighedBy(c, own, g) && MatchingLeaves(own, g) && Heavy(Shape(c), g.mass)
    ensures Lost(c, far, idx) == 0
    decreases c, 0
  {
    if c.Split? {
      HeavyLosesNoneBelow(c.c0, far, idx, own, g);
      HeavyLosesNoneBelow(c.c1, far, idx, own, g);
      HeavyLosesNoneBelow(c.c2, far, idx, own, g);
      HeavyLosesNoneBelow(c.c3, far, idx, own, g);
    }
  }

  lemma {:induction false} HeavyLosesNoneBelow(c: Cell, far: Test, idx: nat, own: nat -> Weight, g: Measure)
    requires WeighedBy(c, own, g) && MatchingLeaves(own, g) && Heavy(Shape(c), g.mass)
    ensures LostBelow(c, far, idx) == 0
    decreases c, 1
  {
    if c != Null {
      WeighedByBalances(c, own, g);
      HeavyHasMass(Shape(c), g.mass);
      HeavyLosesNone(c, far, idx, own, g);
    }
  }

  lemma HeavyHasMass(t: Tree, m: nat -> real)
    requires Heavy(t, m) && t != Empty
    ensures TreeSum(t, m) > 0.0
  {
  }

  /** With positive masses no particle is lost in a child that is not entered. */
  lemma PositiveLosesNone(root: Cell, f: Frame, ps: seq<Particle>, far: Test, idx: nat)
    requires Positive(ps) && IsRoot(root, f, ps) && idx < |ps|
    ensures Lost(root, far, idx) == 0
  {
    LeavesMatch(ps);
    BuildIsHeavy(f, ps);
    HeavyLosesNone(root, far, idx, OwnWeight(ps), MeasureOf(ps));
  }

  /** With positive masses every quantity, the number of particles included, counts each other particle once. */
  lemma PositiveCountsOnce(root: Cell, f: Frame, ps: seq<Particle>, far: Test, idx: nat, g: nat -> real)
    requires Positive(ps) && IsRoot(root, f, ps) && idx < |ps|
    ensures CountsOnce(root, ps, far, idx, g)
  {
    PositiveLosesNone(root, f, ps, far, idx);
    OnceExactlyIfNoneLost(root, f, ps, far, idx);
  }

  /** With positive masses a particle has n - 1 interactions where no node passes the opening test. */
  lemma OneInteractionEach(root: Cell, f: Frame, ps: seq<Particle>, far: Test, idx: nat)
    requires Positive(ps) && IsRoot(root, f, ps) && idx < |ps| && NeverFar(root, far)
    ensures |Interactions(root, far, idx)| == |ps| - 1
  {
    PositiveLosesNone(root, f, ps, far, idx);
    NoMoreThanParticles(root, f, ps, far, idx);
  }

  // ---- One sum for given particles ----------------------------------------------------------

  /** What a node pulls as a whole depends on its weight only, and is nothing without mass. */
  ghost predicate ByWeight(pull: Source -> real)
  {
    && (forall c, d :: c != Null && d != Null && c.w == d.w ==> pull(Whole(c)) == pull(Whole(d)))
    && (forall c :: c != Null && c.w.mass == 0.0 ==> pull(Whole(c)) == 0.0)
  }

  lemma PullIsByWeight(ph: Physics, ps: seq<Particle>, p: Particle, alongX: bool)
    requires ph.Valid()
    ensures ByWeight(PullOf(ph, ps, p, alongX))
  {
    forall c | c != Null && c.w.mass == 0.0 ensures PullOf(ph, ps, p, alongX)(Whole(c)) == 0.0 {
      NoMassNoPull(ph, p, AtCentre(c.w), alongX);
    }
  }

  /** The same particles below, weighed in both, though the centre of what has no mass is left open. */
  ghost predicate Twins(c: Cell, d: Cell, f: Frame, own: nat -> Weight, g: Measure)
  {
    && Shape(c) == Shape(d) && Sized(c, f) && Sized(d, f)
    && WeighedBy(c, own, g) && WeighedBy(d, own, g) && MatchingLeaves(own, g)
    && g.nonNegative && Massive(g.mass, g.x)
  }

  lemma {:induction false} TwinChild(c: Cell, d: Cell, q: nat, f: Frame, own: nat -> Weight, g: Measure)
    requires c.Split? && d.Split? && q < 4 && Twins(c, d, f, own, g)
    ensures Twins(CellChild(c, q), CellChild(d, q), ChildFrame(f, q), own, g)
  {
  }

  /** Twins have the same mass, and the same weight if that is not zero. */
  lemma {:induction false} TwinWeights(c: Cell, d: Cell, f: Frame, own: nat -> Weight, g: Measure)
    requires c != Null && Twins(c, d, f, own, g)
    ensures d != Null && c.w.mass == d.w.mass >= 0.0 && (c.w.mass > 0.0 ==> c.w == d.w)
  {
    WeighedByBalances(c, own, g);
    WeighedByBalances(d, own, g);
    TreeWithoutMass(Shape(c), g.mass, g.x);
    if TreeSum(Shape(c), g.mass) > 0.0 {
      SameWeight(c.w, d.w, Shape(c), g);
    }
  }

  /** A divided node without mass has no child with mass. */
  lemma {:induction false} NoMassBelow(c: Cell, q: nat, own: nat -> Weight, g: Measure)
    requires c.Split? && q < 4 && c.w.mass == 0.0 && Massive(g.mass, g.x)
    requires WeighedBy(c, own, g) && MatchingLeaves(own, g)
    ensures !Entered(CellChild(c, q))
  {
    var t, d := Shape(c), CellChild(c, q);
    WeighedByBalances(c, own, g);
    SplitSums(t, g.mass);
    TreeWithoutMass(t.c0, g.mass, g.x);
    TreeWithoutMass(t.c1, g.mass, g.x);
    TreeWithoutMass(t.c2, g.mass, g.x);
    TreeWithoutMass(t.c3, g.mass, g.x);
    if d != Null {
      WeighedByBalances(d, own, g);
      SameShape(c, q);
    }
  }

  lemma {:induction false} NoMassNoTotal(c: Cell, far: Test, idx: nat, own: nat -> Weight, g: Measure,
                                         pull: Source -> real)
    requires c.Split? && c.w.mass == 0.0 && Massive(g.mass, g.x) && ByWeight(pull)
    requires WeighedBy(c, own, g) && MatchingLeaves(own, g)
    ensures Total(Interactions(c, far, idx), pull) == 0.0
  {
    if far(c.size, c.w) {
      TotalOne(Whole(c), pull);
    } else {
      NoMassBelow(c, 0, own, g);
      NoMassBelow(c, 1, own, g);
      NoMassBelow(c, 2, own, g);
      NoMassBelow(c, 3, own, g);
      TotalOfOpened(c, far, idx, pull);
    }
  }

  /** Twins pull alike. */
  lemma {:induction false} TwinsPullAlike(c: Cell, d: Cell, f: Frame, far: Test, idx: nat, own: nat -> Weight,
                                          g: Measure, pull: Source -> real)
    requires Twins(c, d, f, own, g) && ByWeight(pull)
    ensures Total(Interactions(c, far, idx), pull) == Total(Interactions(d, far, idx), pull)
    decreases c, 1
  {
    match c
    case Split(_, w, _, _, _, _) =>
      TwinWeights(c, d, f, own, g);
      if w.mass == 0.0 {
        NoMassNoTotal(c, far, idx, own, g, pull);
        NoMassNoTotal(d, far, idx, own, g, pull);
      } else if far(c.size, w) {
        TotalOne(Whole(c), pull);
        TotalOne(Whole(d), pull);
      } else {
        TwinsBelow(c, d, 0, f, far, idx, own, g, pull);
        TwinsBelow(c, d, 1, f, far, idx, own, g, pull);
        TwinsBelow(c, d, 2, f, far, idx, own, g, pull);
        TwinsBelow(c, d, 3, f, far, idx, own, g, pull);
        TotalOfOpened(c, far, idx, pull);
        TotalOfOpened(d, far, idx, pull);
      }
    case _ =>
  }

  lemma {:induction false} TwinsBelow(c: Cell, d: Cell, q: nat, f: Frame, far: Test, idx: nat, own: nat -> Weight,
                                      g: Measure, pull: Source -> real)
    requires c.Split? && d.Split? && q < 4 && Twins(c, d, f, own, g) && ByWeight(pull)
    ensures Total(Below(CellChild(c, q), far, idx), pull) == Total(Below(CellChild(d, q), far, idx), pull)
    decreases c, 0
  {
    var c', d' := CellChild(c, q), CellChild(d, q);
    TwinChild(c, d, q, f, own, g);
    if c' != Null {
      TwinWeights(c', d', ChildFrame(f, q), own, g);
      TwinsPullAlike(c', d', ChildFrame(f, q), far, idx, own, g, pull);
    }
  }

  /** Where masses are not negative, all trees the engine can have for the particles give the same accelerations. */
  lemma OneFelt(root: Cell, f: Frame, ph: Physics, sqrt: real -> real, ps: seq<Particle>, i: nat, alongX: bool)
    requires ph.Valid() && TakesRoots(sqrt) && NonNegative(ps) && IsRoot(root, f, ps) && Sized(root, f)
    ensures FeltInTree(root, ph, sqrt, ps)(i, alongX) == FeltInTree(RootOf(ps, f), ph, sqrt, ps)(i, alongX)
  {
    if i < |ps| {
      var pull := PullOf(ph, ps, ps[i], alongX);
      RootOfTwin(root, f, ps);
      PullIsByWeight(ph, ps, ps[i], alongX);
      TwinsPullAlike(root, RootOf(ps, f), f, Far(ph, sqrt, ps[i]), i, OwnWeight(ps), MeasureOf(ps), pull);
    }
  }

  lemma RootOfTwin(root: Cell, f: Frame, ps: seq<Particle>)
    requires NonNegative(ps) && IsRoot(root, f, ps) && Sized(root, f)
    ensures Twins(root, RootOf(ps, f), f, OwnWeight(ps), MeasureOf(ps))
  {
    var t := Build(f, ps, |ps|);
    CellOfTree(t, f);
    WeighIsWeighed(CellOf(t, f), ps);
    WeighBySized(CellOf(t, f), f, OwnWeight(ps), MeasureOf(ps));
    LeavesMatch(ps);
    NonNegativeIsMassive(ps, true);
  }

  lemma OneTwin(c: Cell, d: Cell, f: Frame, own: nat -> Weight, g: Measure)
    requires Twins(c, d, f, own, g) && Heavy(Shape(c), g.mass)
    ensures c == d
  {
    OneCell(c, d, Shape(c), f, own, g);
  }

  /** For positive masses the engine's root is the one computed here. */
  lemma OneRoot(root: Cell, f: Frame, ps: seq<Particle>)
    requires Positive(ps) && ps != [] && IsRoot(root, f, ps) && Sized(root, f)
    ensures root == RootOf(ps, f)
  {
    PositiveIsNonNegative(ps);
    RootOfTwin(root, f, ps);
    BuildIsHeavy(f, ps);
    OneTwin(root, RootOf(ps, f), f, OwnWeight(ps), MeasureOf(ps));
  }

  // ---- Places and masses are all that matters --------------------------------------------

  ghost predicate SameAt(ps: seq<Particle>, qs: seq<Particle>)
  {
    forall i: nat :: At(ps, i).x == At(qs, i).x && At(ps, i).y == At(qs, i).y && At(ps, i).mass == At(qs, i).mass
  }

  lemma {:induction false} SameInsert(t: Tree, f: Frame, ps: seq<Particle>, qs: seq<Particle>, i: nat)
    requires SameAt(ps, qs)
    ensures Insert(t, f, ps, i) == Insert(t, f, qs, i)
    decreases Rank(f), 1
  {
    if !Smallest(f) && t.Leaf? {
      var q := QuadrantOf(f, At(ps, t.idx));
      assert q == QuadrantOf(f, At(qs, t.idx));
      HalvingLowersRank(f, q);
      SameInsert(FRESH, ChildFrame(f, q), ps, qs, t.idx);
      SameInsertBelow(PushedDown(t, f, ps), f, ps, qs, i);
    } else if !Smallest(f) && t.Inner? {
      SameInsertBelow(t, f, ps, qs, i);
    }
  }

  lemma {:induction false} SameInsertBelow(t: Tree, f: Frame, ps: seq<Particle>, qs: seq<Particle>, i: nat)
    requires SameAt(ps, qs) && t.Inner? && !Smallest(f)
    ensures InsertBelow(t, f, ps, i) == InsertBelow(t, f, qs, i)
    decreases Rank(f), 0
  {
    var q := QuadrantOf(f, At(ps, i));
    assert q == QuadrantOf(f, At(qs, i));
    HalvingLowersRank(f, q);
    SameInsert(Child(t, q), ChildFrame(f, q), ps, qs, i);
  }

  lemma {:induction false} SameBuild(f: Frame, ps: seq<Particle>, qs: seq<Particle>, n: nat)
    requires SameAt(ps, qs)
    ensures Build(f, ps, n) == Build(f, qs, n)
  {
    if n > 0 {
      SameBuild(f, ps, qs, n - 1);
      SameInsert(Build(f, ps, n - 1), f, ps, qs, n - 1);
    }
  }

  lemma {:induction false} SameListSum(s: seq<nat>, g: nat -> real, h: nat -> real)
    requires forall i: nat :: g(i) == h(i)
    ensures ListSum(s, g) == ListSum(s, h)
  {
    if s != [] {
      SameListSum(s[..|s| - 1], g, h);
    }
  }

  lemma {:induction false} SameWeigh(c: Cell, own: nat -> Weight, own': nat -> Weight, g: Measure, g': Measure)
    requires forall i: nat :: own(i) == own'(i)
    requires (forall i: nat :: g.mass(i) == g'.mass(i))
    requires (forall i: nat :: g.x(i) == g'.x(i)) && forall i: nat :: g.y(i) == g'.y(i)
    ensures WeighBy(c, own, g) == WeighBy(c, own', g')
  {
    match c
    case Crowd(s, w) =>
      SameListSum(s, g.mass, g'.mass);
      SameListSum(s, g.x, g'.x);
      SameListSum(s, g.y, g'.y);
    case Split(_, _, c0, c1, c2, c3) =>
      SameWeigh(c0, own, own', g, g');
      SameWeigh(c1, own, own', g, g');
      SameWeigh(c2, own, own', g, g');
      SameWeigh(c3, own, own', g, g');
    case _ =>
  }

  lemma SameRoot(ps: seq<Particle>, qs: seq<Particle>, f: Frame)
    requires SameAt(ps, qs) && |ps| == |qs|
    ensures RootOf(ps, f) == RootOf(qs, f)
  {
    SameBuild(f, ps, qs, |ps|);
    SameWeigh(CellOf(Build(f, ps, |ps|), f), OwnWeight(ps), OwnWeight(qs), MeasureOf(ps), MeasureOf(qs));
  }

  lemma {:induction false} SameInteractions(c: Cell, far: Test, far': Test, idx: nat)
    requires forall size, w :: far(size, w) == far'(size, w)
    ensures Interactions(c, far, idx) == Interactions(c, far', idx)
  {
    if c.Split? {
      SameInteractions(c.c0, far, far', idx);
      SameInteractions(c.c1, far, far', idx);
      SameInteractions(c.c2, far, far', idx);
      SameInteractions(c.c3, far, far', idx);
    }
  }

  lemma {:induction false} SameTotal(s: seq<Source>, g: Source -> real, h: Source -> real)
    requires forall a :: g(a) == h(a)
    ensures Total(s, g) == Total(s, h)
  {
    if s != [] {
      SameTotal(s[..|s| - 1], g, h);
    }
  }

  lemma SamePullOf(ph: Physics, ps: seq<Particle>, qs: seq<Particle>, p: Particle, q: Particle, alongX: bool, a: Source)
    requires ph.Valid() && SameAt(ps, qs) && p.x == q.x && p.y == q.y
    ensures PullOf(ph, ps, p, alongX)(a) == PullOf(ph, qs, q, alongX)(a)
  {
    match a
    case Whole(c) =>
      if c != Null {
        SamePull(ph, p, AtCentre(c.w), q, AtCentre(c.w), alongX);
      }
    case One(j) => SamePull(ph, p, At(ps, j), q, At(qs, j), alongX);
  }

  lemma SameFeltInTree(root: Cell, ph: Physics, sqrt: real -> real, ps: seq<Particle>, qs: seq<Particle>, i: nat,
                       alongX: bool)
    requires ph.Valid() && TakesRoots(sqrt) && SameAt(ps, qs) && |ps| == |qs| && i < |ps|
    ensures FeltInTree(root, ph, sqrt, ps)(i, alongX) == FeltInTree(root, ph, sqrt, qs)(i, alongX)
  {
    var p, q := ps[i], qs[i];
    assert At(ps, i) == p && At(qs, i) == q;
    var far, far' := Far(ph, sqrt, p), Far(ph, sqrt, q);
    forall size, w ensures far(size, w) == far'(size, w) {
    }
    SameInteractions(root, far, far', i);
    forall a ensures PullOf(ph, ps, p, alongX)(a) == PullOf(ph, qs, q, alongX)(a) {
      SamePullOf(ph, ps, qs, p, q, alongX, a);
    }
    SameTotal(Interactions(root, far, i), PullOf(ph, ps, p, alongX), PullOf(ph, qs, q, alongX));
  }

  // ---- The law ------------------------------------------------------------------------------

  /** The tree engine's accelerations; where some mass is negative none are claimed. */
  ghost function LawOfTree(ph: Physics, sqrt: real -> real): Law
    requires ph.Valid() && TakesRoots(sqrt)
  {
    (ps: seq<Particle>) => TreeAccelerations(ph, sqrt, ps)
  }

  ghost function TreeAccelerations(ph: Physics, sqrt: real -> real, ps: seq<Particle>): (a: seq<Vec>)
    requires ph.Valid() && TakesRoots(sqrt)
    ensures |a| == |ps|
  {
    if ps == [] || !NonNegative(ps) then seq(|ps|, _ => Vec(0.0, 0.0))
    else
      var felt := FeltInTree(RootOf(ps, FrameOf(ps)), ph, sqrt, ps);
      seq(|ps|, i requires 0 <= i < |ps| => Vec(felt(i, true), felt(i, false)))
  }

  lemma SamePlacesSameAt(ps: seq<Particle>, qs: seq<Particle>)
    requires SamePlaces(ps, qs)
    ensures SameAt(ps, qs) && |ps| == |qs| && NonNegative(ps) == NonNegative(qs)
  {
    assert SameAt(ps, qs);
    forall i: nat | i < |ps| ensures At(ps, i).mass == At(qs, i).mass {
    }
  }

  lemma SameFrame(ps: seq<Particle>, qs: seq<Particle>)
    requires SamePlaces(ps, qs) && ps != []
    ensures FrameOf(ps) == FrameOf(qs)
  {
    SameExtent(ps, qs, |ps|, true);
    SameExtent(ps, qs, |ps|, false);
  }

  lemma SameAccelerations(ph: Physics, sqrt: real -> real, ps: seq<Particle>, qs: seq<Particle>)
    requires ph.Valid() && TakesRoots(sqrt) && SamePlaces(ps, qs)
    ensures TreeAccelerations(ph, sqrt, ps) == TreeAccelerations(ph, sqrt, qs)
  {
    SamePlacesSameAt(ps, qs);
    if ps != [] && NonNegative(ps) {
      SameFrame(ps, qs);
      SameRoot(ps, qs, FrameOf(ps));
      forall i: nat | i < |ps|
        ensures TreeAccelerations(ph, sqrt, ps)[i] == TreeAccelerations(ph, sqrt, qs)[i]
      {
        SameFeltInTree(RootOf(ps, FrameOf(ps)), ph, sqrt, ps, qs, i, true);
        SameFeltInTree(RootOf(ps, FrameOf(ps)), ph, sqrt, ps, qs, i, false);
      }
    }
  }

  lemma TreeIsPlaceLaw(ph: Physics, sqrt: real -> real)
    requires ph.Valid() && TakesRoots(sqrt)
    ensures PlaceLaw(LawOfTree(ph, sqrt))
  {
    var law := LawOfTree(ph, sqrt);
    forall ps, qs {:trigger SamePlaces(ps, qs)} | SamePlaces(ps, qs) ensures law(ps) == law(qs) {
      SameAccelerations(ph, sqrt, ps, qs);
    }
  }

  /** The tree engine, too, runs backwards when all velocities are turned round. */
  lemma TreeIsReversible(ph: Physics, sqrt: real -> real, ps: seq<Particle>, dt: real, n: nat)
    requires ph.Valid() && TakesRoots(sqrt)
    ensures PlaceLaw(LawOfTree(ph, sqrt))
    ensures Steps(LawOfTree(ph, sqrt), Reversed(Steps(LawOfTree(ph, sqrt), ps, dt, n)), dt, n) == Reversed(ps)
  {
    TreeIsPlaceLaw(ph, sqrt);
    StepsAreReversible(LawOfTree(ph, sqrt), ps, dt, n);
  }

  // ---- An engine frame that does not contain its particles ---------------------------------

  lemma FrameOfTwo()
    ensures FrameOf([LIGHT, HEAVY]) == Frame(5.0, 5.0, 5.1)
  {
    var ps := [LIGHT, HEAVY];
    assert Lowest(ps, 1, true) == 0.0 && Lowest(ps, 1, false) == 0.0;
    assert Highest(ps, 1, true) == 0.0 && Highest(ps, 1, false) == 0.0;
    assert Lowest(ps, 2, true) == 0.0 && Lowest(ps, 2, false) == 0.0;
    assert Highest(ps, 2, true) == 10.0 && Highest(ps, 2, false) == 10.0;
  }

  /** In the frame the engine itself chooses, the light particle is pulled by its own mass. */
  lemma EngineCanPullItself(ph: Physics, sqrt: real -> real, root: Cell)
    requires ph.softening > 0.0 && TakesRoots(sqrt)
    requires IsRoot(root, FrameOf([LIGHT, HEAVY]), [LIGHT, HEAVY]) && Sized(root, FrameOf([LIGHT, HEAVY]))
    ensures Interactions(root, Far(ph, sqrt, LIGHT), 0) == [Whole(root)]
    ensures InFarCell(root, Far(ph, sqrt, LIGHT), 0)
  {
    FrameOfTwo();
    TwoParticleTree(FrameOf([LIGHT, HEAVY]));
    CanPullItself(root, FrameOf([LIGHT, HEAVY]), ph, sqrt);
  }
}
