/** Where the engine's frame holds its particles and they keep apart, none pulls itself. */
module Separation {
  import opened Common
  import opened Sums
  import opened Integrator
  import opened Gravity
  import opened QuadTree
  import opened BarnesHut
  import opened Extent
  import opened TreeLaw
  import opened Inside

  // ---- The engine's frame -------------------------------------------------------------------

  ghost function Span(ps: seq<Particle>, alongX: bool): real
    requires ps != []
  {
    Highest(ps, |ps|, alongX) - Lowest(ps, |ps|, alongX)
  }

  lemma {:induction false} BoundsAreReached(ps: seq<Particle>, n: nat, alongX: bool)
    requires 0 < n <= |ps|
    ensures exists i: nat :: i < n && Coordinate(ps[i], alongX) == Lowest(ps, n, alongX)
    ensures exists i: nat :: i < n && Coordinate(ps[i], alongX) == Highest(ps, n, alongX)
  {
    assert Coordinate(ps[n - 1], alongX) == Coordinate(ps[n - 1], alongX);
    if n > 1 {
      BoundsAreReached(ps, n - 1, alongX);
    }
  }

  /** All particles lie in the square. */
  ghost predicate Contained(ps: seq<Particle>, f: Frame)
  {
    forall i: nat :: i < |ps| ==> InSquare(At(ps, i), f)
  }

  /** On one axis all lie within half a size of the middle exactly if their span is no more than the size. */
  lemma WithinExactlyIfShort(ps: seq<Particle>, alongX: bool, centre: real, size: real)
    requires ps != [] && centre == (Lowest(ps, |ps|, alongX) + Highest(ps, |ps|, alongX)) / 2.0
    ensures (forall i: nat :: i < |ps| ==> Within(Coordinate(At(ps, i), alongX), centre, size))
       <==> Span(ps, alongX) <= size
  {
    BoundsAreReached(ps, |ps|, alongX);
    var i: nat :| i < |ps| && Coordinate(ps[i], alongX) == Lowest(ps, |ps|, alongX);
    var j: nat :| j < |ps| && Coordinate(ps[j], alongX) == Highest(ps, |ps|, alongX);
    assert At(ps, i) == ps[i] && At(ps, j) == ps[j];
    forall k: nat | k < |ps| && Span(ps, alongX) <= size ensures Within(Coordinate(At(ps, k), alongX), centre, size) {
      AllWithinBounds(ps, |ps|, alongX, k);
    }
  }

  /**
   * The root the engine chooses is about half as wide as its particles are spread: it contains
   * them all exactly if they are spread over no more than 0.6 on both axes.
   */
  lemma ContainedExactlyIfNarrow(ps: seq<Particle>)
    requires ps != []
    ensures Contained(ps, FrameOf(ps)) <==> Span(ps, true) <= 0.6 && Span(ps, false) <= 0.6
  {
    var f := FrameOf(ps);
    WithinExactlyIfShort(ps, true, f.x, f.size);
    WithinExactlyIfShort(ps, false, f.y, f.size);
    if Contained(ps, f) {
      forall i: nat | i < |ps|
        ensures Within(Coordinate(At(ps, i), true), f.x, f.size) && Within(Coordinate(At(ps, i), false), f.y, f.size)
      {
        assert InSquare(At(ps, i), f);
      }
    }
    SizeOfSpans(ps);
  }

  lemma SizeOfSpans(ps: seq<Particle>)
    requires ps != []
    ensures Span(ps, true) <= FrameOf(ps).size && Span(ps, false) <= FrameOf(ps).size
       <==> Span(ps, true) <= 0.6 && Span(ps, false) <= 0.6
    ensures FrameOf(ps).size >= 0.6
  {
  }

  // ---- Divided nodes hold two particles, or their parents do -----------------------------------

  ghost predicate ChildrenFilled(t: Tree)
    requires t.Inner?
  {
    Filled(t.c0) && Filled(t.c1) && Filled(t.c2) && Filled(t.c3)
  }

  /** Every node with a divided child holds at least two particles. */
  ghost predicate Filled(t: Tree)
  {
    t.Inner? ==>
      && (t.c0.Inner? || t.c1.Inner? || t.c2.Inner? || t.c3.Inner? ==> Size(t) >= 2)
      && Filled(t.c0) && Filled(t.c1) && Filled(t.c2) && Filled(t.c3)
  }

  lemma SizeBelow(t: Tree, f: Frame, ps: seq<Particle>, i: nat, ones: nat -> real)
    requires t.Inner? && !Smallest(f) && Placed(t, f, ps) && forall k: nat :: ones(k) == 1.0
    ensures Size(InsertBelow(t, f, ps, i)) == Size(t) + 1
  {
    InsertBelowSum(t, f, ps, i, ones);
    SizeIsSum(t, ones);
    SizeIsSum(InsertBelow(t, f, ps, i), ones);
  }

  lemma {:induction false} InsertFilled(t: Tree, f: Frame, ps: seq<Particle>, i: nat)
    requires t != Empty && Placed(t, f, ps) && Filled(t)
    ensures Filled(Insert(t, f, ps, i))
    decreases Rank(f), 1
  {
    if Smallest(f) {
      assert !Insert(t, f, ps, i).Inner?;
    } else if t.Leaf? {
      var q := QuadrantOf(f, At(ps, t.idx));
      HalvingLowersRank(f, q);
      FreshIsPlaced(ChildFrame(f, q), ps);
      FreshIsPlaced(f, ps);
      InsertHolds(FRESH, ChildFrame(f, q), ps, t.idx);
      InsertFilled(FRESH, ChildFrame(f, q), ps, t.idx);
      var below := Insert(FRESH, ChildFrame(f, q), ps, t.idx);
      ReplaceHolds(FRESH, q, below, f, ps, t.idx);
      InsertBelowFilled(WithChild(FRESH, q, below), f, ps, i);
    } else {
      InsertBelowFilled(t, f, ps, i);
    }
  }

  lemma {:induction false} InsertBelowFilled(t: Tree, f: Frame, ps: seq<Particle>, i: nat)
    requires t.Inner? && !Smallest(f) && Placed(t, f, ps) && ChildrenFilled(t)
    ensures Filled(InsertBelow(t, f, ps, i))
    decreases Rank(f), 0
  {
    var q := QuadrantOf(f, At(ps, i));
    HalvingLowersRank(f, q);
    PlacedChild(t, f, ps, q);
    var before := Child(t, q);
    if before != Empty {
      InsertFilled(before, ChildFrame(f, q), ps, i);
    }
    if t != FRESH {
      PlacedHasSize(t, f, ps);
      SizeBelow(t, f, ps, i, Ones());
    }
    NewChildFilled(t, q, if before == Empty then Leaf(i) else Insert(before, ChildFrame(f, q), ps, i));
  }

  lemma NewChildFilled(t: Tree, q: nat, c: Tree)
    requires t.Inner? && q < 4 && ChildrenFilled(t) && Filled(c)
    requires (t == FRESH && !c.Inner?) || Size(WithChild(t, q, c)) >= 2
    ensures Filled(WithChild(t, q, c))
  {
  }

  lemma {:induction false} BuildFilled(f: Frame, ps: seq<Particle>, n: nat)
    ensures Filled(Build(f, ps, n))
  {
    if n > 0 {
      BuildFilled(f, ps, n - 1);
      BuildIsPlaced(f, ps, n - 1);
      InsertFilled(Build(f, ps, n - 1), f, ps, n - 1);
    }
  }

  // ---- Two particles in a node -------------------------------------------------------------------

  ghost predicate HasOther(t: Tree, x: nat)
  {
    exists y: nat :: y != x && Count(t, y) > 0
  }

  lemma {:induction false} OtherInList(s: seq<nat>, x: nat)
    requires |s| > CountIn(s, x)
    ensures exists y: nat :: y != x && CountIn(s, y) > 0
  {
    var last := s[|s| - 1];
    if last != x {
      MemberCounts(s, |s| - 1);
    } else {
      OtherInList(s[..|s| - 1], x);
      var y: nat :| y != x && CountIn(s[..|s| - 1], y) > 0;
      assert CountIn(s, y) > 0;
    }
  }

  lemma {:induction false} OtherInTree(t: Tree, x: nat)
    requires Size(t) > Count(t, x)
    ensures HasOther(t, x)
  {
    match t
    case Leaf(i) => assert Count(t, i) > 0;
    case Bucket(s) =>
      OtherInList(s, x);
      var y: nat :| y != x && CountIn(s, y) > 0;
      assert Count(t, y) > 0;
    case Inner(c0, c1, c2, c3) =>
      var q := if Size(c0) > Count(c0, x) then 0 else if Size(c1) > Count(c1, x) then 1
               else if Size(c2) > Count(c2, x) then 2 else 3;
      OtherInTree(Child(t, q), x);
      var y: nat :| y != x && Count(Child(t, q), y) > 0;
      ChildCounts(t, y);
      assert Count(t, y) > 0;
  }

  /** At least d apart on one of the axes. */
  predicate Apart(p: Particle, q: Particle, d: real)
  {
    p.x - q.x >= d || q.x - p.x >= d || p.y - q.y >= d || q.y - p.y >= d
  }

  ghost predicate Separated(ps: seq<Particle>, d: real)
  {
    forall i: nat, j: nat :: i < |ps| && j < |ps| && i != j ==> Apart(At(ps, i), At(ps, j), d)
  }

  /** Each particle once and none but those in the list. */
  ghost predicate Simple(t: Tree, n: nat)
  {
    forall x: nat :: Count(t, x) <= if x < n then 1 else 0
  }

  /** A square that holds two particles is at least as wide as they are apart. */
  lemma TwoNeedRoom(t: Tree, f: Frame, ps: seq<Particle>, d: real)
    requires Size(t) >= 2 && Simple(t, |ps|) && AllInside(t, f, ps) && Separated(ps, d)
    ensures f.size >= d
  {
    if Count(t, 0) == 0 {
      OtherInTree(t, 0);
    }
    var x: nat :| Count(t, x) > 0;
    OtherInTree(t, x);
    var y: nat :| y != x && Count(t, y) > 0;
    assert InSquare(At(ps, x), f) && InSquare(At(ps, y), f);
    assert Apart(At(ps, x), At(ps, y), d);
  }

  // ---- Divided nodes are large -----------------------------------------------------------------------

  /** Larger cells are large, too. */
  lemma LargerIsLarge(s: real, s': real, softening: real)
    requires softening > 0.0 && LargeAgainst(s, softening) && s <= s'
    ensures LargeAgainst(s', softening)
  {
    TimesPositive(softening, softening);
    InTermsOfDistance(s, softening);
    InTermsOfDistance(s', softening);
    var u, u' := s - EPS, s' - EPS;
    if u <= 0.0 {
      SquareWithin(u, EPS / 2.0);
      assert false;
    }
    NotSmaller(u', u, u');
    NotSmaller(u', u, u);
    TimesLaws(u', u, 0.0);
  }

  lemma InTermsOfDistance(s: real, softening: real)
    ensures LargeAgainst(s, softening) <==>
              2.0 * s >= EPS && 2.0 * Times(s - EPS, s - EPS) >= Times(softening, softening) + Times(EPS, EPS)
  {
    var u := s - EPS;
    assert Times(s, s) == Times(u, u) + 2.0 * EPS * u + EPS * EPS;
    assert Times(2.0 * s - EPS, 2.0 * s - EPS) == 4.0 * Times(u, u) + 4.0 * EPS * u + EPS * EPS;
  }

  ghost predicate DividedChild(t: Tree)
  {
    t.Inner? && (t.c0.Inner? || t.c1.Inner? || t.c2.Inner? || t.c3.Inner?)
  }

  lemma {:induction false} SeparatedIsLarge(c: Cell, f: Frame, ps: seq<Particle>, d: real, softening: real)
    requires softening > 0.0 && LargeAgainst(d / 2.0, softening) && Separated(ps, d)
    requires Sized(c, f) && Placed(Shape(c), f, ps) && AllInside(Shape(c), f, ps)
    requires Filled(Shape(c)) && Simple(Shape(c), |ps|) && (c.Split? ==> f.size >= d / 2.0)
    ensures AllLarge(c, softening)
  {
    if c.Split? {
      LargerIsLarge(d / 2.0, f.size, softening);
      if DividedChild(Shape(c)) {
        TwoNeedRoom(Shape(c), f, ps, d);
      }
      SeparatedChild(c, 0, f, ps, d);
      SeparatedChild(c, 1, f, ps, d);
      SeparatedChild(c, 2, f, ps, d);
      SeparatedChild(c, 3, f, ps, d);
      SeparatedIsLarge(c.c0, ChildFrame(f, 0), ps, d, softening);
      SeparatedIsLarge(c.c1, ChildFrame(f, 1), ps, d, softening);
      SeparatedIsLarge(c.c2, ChildFrame(f, 2), ps, d, softening);
      SeparatedIsLarge(c.c3, ChildFrame(f, 3), ps, d, softening);
    }
  }

  lemma {:induction false} SeparatedChild(c: Cell, q: nat, f: Frame, ps: seq<Particle>, d: real)
    requires c.Split? && q < 4 && Placed(Shape(c), f, ps) && AllInside(Shape(c), f, ps)
    requires Sized(c, f) && Filled(Shape(c)) && Simple(Shape(c), |ps|)
    requires DividedChild(Shape(c)) ==> f.size >= d
    ensures Sized(CellChild(c, q), ChildFrame(f, q))
    ensures Placed(Shape(CellChild(c, q)), ChildFrame(f, q), ps)
    ensures AllInside(Shape(CellChild(c, q)), ChildFrame(f, q), ps)
    ensures Filled(Shape(CellChild(c, q))) && Simple(Shape(CellChild(c, q)), |ps|)
    ensures CellChild(c, q).Split? ==> ChildFrame(f, q).size >= d / 2.0
  {
    SameShape(c, q);
    PlacedChild(Shape(c), f, ps, q);
    ChildInside(Shape(c), q, f, ps);
    forall x: nat ensures Count(Child(Shape(c), q), x) <= if x < |ps| then 1 else 0 {
      ChildCounts(Shape(c), x);
    }
  }

  /** Divided nodes are large where particles keep apart: no look at the tree is needed. */
  lemma SeparationKeepsNodesLarge(root: Cell, f: Frame, ps: seq<Particle>, d: real, softening: real)
    requires softening > 0.0 && LargeAgainst(d / 2.0, softening) && d / 2.0 <= f.size
    requires Separated(ps, d) && Contained(ps, f) && IsRoot(root, f, ps) && Sized(root, f)
    ensures AllLarge(root, softening)
  {
    BuildHolds(f, ps, |ps|);
    BuildFilled(f, ps, |ps|);
    forall x: nat | Count(Shape(root), x) > 0 ensures InSquare(At(ps, x), f) {
      assert x < |ps|;
    }
    SeparatedIsLarge(root, f, ps, d, softening);
  }

  /**
   * In the frame the engine chooses: particles that are spread over no more than 0.6 on either axis
   * and keep apart by more than about 1.42 times the softening do not pull themselves.
   */
  lemma NarrowAndSeparatedDoNotPullThemselves(root: Cell, ph: Physics, sqrt: real -> real, ps: seq<Particle>,
                                              d: real, idx: nat)
    requires ph.softening > 0.0 && TakesRoots(sqrt) && idx < |ps|
    requires IsRoot(root, FrameOf(ps), ps) && Sized(root, FrameOf(ps))
    requires NonNegative(ps) && Sum(|ps|, MassOf(ps)) > 0.0
    requires Span(ps, true) <= 0.6 && Span(ps, false) <= 0.6
    requires Separated(ps, d) && LargeAgainst(d / 2.0, ph.softening) && d / 2.0 <= 0.6
    ensures !InFarCell(root, Far(ph, sqrt, ps[idx]), idx)
  {
    var f := FrameOf(ps);
    ContainedExactlyIfNarrow(ps);
    SizeOfSpans(ps);
    SeparationKeepsNodesLarge(root, f, ps, d, ph.softening);
    RootHasAllMass(root, f, ps);
    InsidersDoNotPullThemselves(root, f, ph, sqrt, ps, idx);
  }
}
