/** The weighed quadtree and its forces. */
module BarnesHut {
  import opened Common
  import opened Sums
  import opened Integrator
  import opened Gravity
  import opened QuadTree
  import opened BruteForce

  const THETA := 0.5

  datatype Weight = Weight(mass: real, cx: real, cy: real)

  /** A node together with its mass and centre of mass; `size` is only looked at when it is divided. */
  datatype Cell =
    | Null
    | Alone(idx: nat, w: Weight)
    | Crowd(indices: seq<nat>, w: Weight)
    | Split(size: real, w: Weight, c0: Cell, c1: Cell, c2: Cell, c3: Cell)

  function Shape(c: Cell): Tree
  {
    match c
    case Null => Empty
    case Alone(i, _) => Leaf(i)
    case Crowd(s, _) => Bucket(s)
    case Split(_, _, c0, c1, c2, c3) => Inner(Shape(c0), Shape(c1), Shape(c2), Shape(c3))
  }

  // ---- Weights ------------------------------------------------------------------

  ghost function MassOf(ps: seq<Particle>): nat -> real
  {
    (i: nat) => At(ps, i).mass
  }

  ghost function MomentOf(ps: seq<Particle>, alongX: bool): nat -> real
  {
    (i: nat) => Times(if alongX then At(ps, i).x else At(ps, i).y, At(ps, i).mass)
  }

  ghost predicate NonNegative(ps: seq<Particle>)
  {
    forall i: nat :: i < |ps| ==> At(ps, i).mass >= 0.0
  }

  /** What each particle adds to mass and moments, and whether no mass is negative. */
  datatype Measure = Measure(mass: nat -> real, x: nat -> real, y: nat -> real, nonNegative: bool)

  ghost function MeasureOf(ps: seq<Particle>): Measure
  {
    Measure(MassOf(ps), MomentOf(ps, true), MomentOf(ps, false), NonNegative(ps))
  }

  /** The mass is that of the particles below, and so is mass times centre unless masses are negative. */
  ghost predicate Balances(w: Weight, t: Tree, g: Measure)
  {
    && w.mass == TreeSum(t, g.mass)
    && (g.nonNegative ==> Times(w.cx, w.mass) == TreeSum(t, g.x) && Times(w.cy, w.mass) == TreeSum(t, g.y))
  }

  /** The weight of a node that holds particle i alone. */
  ghost function OwnWeight(ps: seq<Particle>): nat -> Weight
  {
    (i: nat) => Weight(At(ps, i).mass, At(ps, i).x, At(ps, i).y)
  }

  /** Every node carries the mass and the centre of mass of the particles below it. */
  ghost predicate Weighed(c: Cell, ps: seq<Particle>)
  {
    WeighedBy(c, OwnWeight(ps), MeasureOf(ps))
  }

  ghost predicate WeighedBy(c: Cell, own: nat -> Weight, g: Measure)
  {
    match c
    case Null => true
    case Alone(i, w) => w == own(i)
    case Crowd(s, w) => Balances(w, Bucket(s), g)
    case Split(_, w, c0, c1, c2, c3) =>
      && Balances(w, Shape(c), g)
      && WeighedBy(c0, own, g) && WeighedBy(c1, own, g) && WeighedBy(c2, own, g) && WeighedBy(c3, own, g)
  }

  lemma {:induction false} WeighedBalances(c: Cell, ps: seq<Particle>)
    requires c != Null && Weighed(c, ps)
    ensures Balances(c.w, Shape(c), MeasureOf(ps))
  {
  }

  /** `if (totalMass > 0) { node.cx = sumX / totalMass; ... } node.mass = totalMass;` */
  function Centred(w: Weight, mass: real, sumX: real, sumY: real): Weight
  {
    if mass > 0.0 then Weight(mass, sumX / mass, sumY / mass) else Weight(mass, w.cx, w.cy)
  }

  /** What a child adds to the mass of its parent, and to its moment along one axis. */
  function PartMass(c: Cell): real
  {
    if c == Null then 0.0 else c.w.mass
  }

  function PartMoment(c: Cell, alongX: bool): real
  {
    if c == Null then 0.0 else Times(if alongX then c.w.cx else c.w.cy, c.w.mass)
  }

  /** The weight `computeCenterOfMass` gives a node with these children, which have theirs. */
  function CentredOver(w: Weight, c0: Cell, c1: Cell, c2: Cell, c3: Cell): Weight
  {
    Centred(w, PartMass(c0) + PartMass(c1) + PartMass(c2) + PartMass(c3),
            PartMoment(c0, true) + PartMoment(c1, true) + PartMoment(c2, true) + PartMoment(c3, true),
            PartMoment(c0, false) + PartMoment(c1, false) + PartMoment(c2, false) + PartMoment(c3, false))
  }

  lemma CentredInPairs(w: Weight, c0: Cell, c1: Cell, c2: Cell, c3: Cell)
    ensures CentredOver(w, c0, c1, c2, c3)
         == Centred(w, (PartMass(c0) + PartMass(c1)) + (PartMass(c2) + PartMass(c3)),
                    (PartMoment(c0, true) + PartMoment(c1, true)) + (PartMoment(c2, true) + PartMoment(c3, true)),
                    (PartMoment(c0, false) + PartMoment(c1, false)) + (PartMoment(c2, false) + PartMoment(c3, false)))
  {
  }

  ghost function CentredBucket(w: Weight, s: seq<nat>, g: Measure): Weight
  {
    Centred(w, ListSum(s, g.mass), ListSum(s, g.x), ListSum(s, g.y))
  }

  /** `computeCenterOfMass`: a node without mass keeps the centre it had. */
  ghost function Weigh(c: Cell, ps: seq<Particle>): Cell
  {
    WeighBy(c, OwnWeight(ps), MeasureOf(ps))
  }

  ghost function WeighBy(c: Cell, own: nat -> Weight, g: Measure): Cell
  {
    match c
    case Null => Null
    case Alone(i, _) => Alone(i, own(i))
    case Crowd(s, w) => Crowd(s, CentredBucket(w, s, g))
    case Split(size, w, c0, c1, c2, c3) =>
      var d0, d1, d2, d3 := WeighBy(c0, own, g), WeighBy(c1, own, g), WeighBy(c2, own, g), WeighBy(c3, own, g);
      Split(size, CentredOver(w, d0, d1, d2, d3), d0, d1, d2, d3)
  }

  lemma WeighSplit(c: Cell, ps: seq<Particle>, d0: Cell, d1: Cell, d2: Cell, d3: Cell)
    requires c.Split? && d0 == Weigh(c.c0, ps) && d1 == Weigh(c.c1, ps)
    requires d2 == Weigh(c.c2, ps) && d3 == Weigh(c.c3, ps)
    ensures Weigh(c, ps) == Split(c.size, CentredOver(c.w, d0, d1, d2, d3), d0, d1, d2, d3)
  {
  }

  /** No mass is negative, and what has no mass has no moment. */
  ghost predicate Massive(m: nat -> real, moment: nat -> real)
  {
    forall i: nat :: m(i) >= 0.0 && (m(i) == 0.0 ==> moment(i) == 0.0)
  }

  lemma NonNegativeIsMassive(ps: seq<Particle>, alongX: bool)
    requires NonNegative(ps)
    ensures Massive(MassOf(ps), MomentOf(ps, alongX))
  {
  }

  lemma {:induction false} ListWithoutMass(s: seq<nat>, m: nat -> real, moment: nat -> real)
    requires Massive(m, moment)
    ensures ListSum(s, m) >= 0.0 && (ListSum(s, m) == 0.0 ==> ListSum(s, moment) == 0.0)
  {
    if s != [] {
      ListWithoutMass(s[..|s| - 1], m, moment);
    }
  }

  lemma {:induction false} TreeWithoutMass(t: Tree, m: nat -> real, moment: nat -> real)
    requires Massive(m, moment)
    ensures TreeSum(t, m) >= 0.0 && (TreeSum(t, m) == 0.0 ==> TreeSum(t, moment) == 0.0)
  {
    match t
    case Empty =>
    case Leaf(i) =>
    case Bucket(s) => ListWithoutMass(s, m, moment);
    case Inner(c0, c1, c2, c3) =>
      TreeWithoutMass(c0, m, moment);
      TreeWithoutMass(c1, m, moment);
      TreeWithoutMass(c2, m, moment);
      TreeWithoutMass(c3, m, moment);
  }

  ghost predicate IsMassive(g: Measure)
  {
    g.nonNegative ==> Massive(g.mass, g.x) && Massive(g.mass, g.y)
  }

  lemma MeasureIsMassive(ps: seq<Particle>)
    ensures IsMassive(MeasureOf(ps))
  {
    if NonNegative(ps) {
      NonNegativeIsMassive(ps, true);
      NonNegativeIsMassive(ps, false);
    }
  }

  lemma CentredBalances(w: Weight, t: Tree, g: Measure, mass: real, sumX: real, sumY: real)
    requires IsMassive(g) && mass == TreeSum(t, g.mass)
    requires g.nonNegative ==> sumX == TreeSum(t, g.x) && sumY == TreeSum(t, g.y)
    ensures Balances(Centred(w, mass, sumX, sumY), t, g)
  {
    if g.nonNegative {
      TreeWithoutMass(t, g.mass, g.x);
      TreeWithoutMass(t, g.mass, g.y);
      QuotientTimes(sumX, mass);
      QuotientTimes(sumY, mass);
      TimesLaws(w.cx, 0.0, 0.0);
      TimesLaws(w.cy, 0.0, 0.0);
    }
  }

  lemma QuotientTimes(a: real, b: real)
    ensures b > 0.0 ==> Times(a / b, b) == a
  {
  }

  /** A child that is there has a weight that balances. */
  ghost predicate PartBalances(c: Cell, t: Tree, g: Measure)
  {
    if c == Null then t == Empty else Balances(c.w, t, g)
  }

  lemma {:induction false} WeighedParts(c: Cell, own: nat -> Weight, g: Measure)
    requires WeighedBy(c, own, g) && MatchingLeaves(own, g)
    ensures PartBalances(c, Shape(c), g)
  {
  }

  /** The weight of a particle on its own balances. */
  ghost predicate MatchingLeaves(own: nat -> Weight, g: Measure)
  {
    forall i: nat :: Balances(own(i), Leaf(i), g)
  }

  lemma LeavesMatch(ps: seq<Particle>)
    ensures MatchingLeaves(OwnWeight(ps), MeasureOf(ps))
  {
    forall i: nat ensures Balances(OwnWeight(ps)(i), Leaf(i), MeasureOf(ps)) {
    }
  }

  /** The parts of a weighed child are the sums over its particles. */
  lemma {:induction false} PartsBalance(c: Cell, t: Tree, g: Measure)
    requires PartBalances(c, t, g)
    ensures PartMass(c) == TreeSum(t, g.mass)
    ensures g.nonNegative ==> PartMoment(c, true) == TreeSum(t, g.x) && PartMoment(c, false) == TreeSum(t, g.y)
  {
  }

  lemma {:induction false} SplitBalances(w: Weight, d0: Cell, d1: Cell, d2: Cell, d3: Cell, t: Tree, g: Measure)
    requires IsMassive(g) && t.Inner? && PartBalances(d0, t.c0, g) && PartBalances(d1, t.c1, g)
    requires PartBalances(d2, t.c2, g) && PartBalances(d3, t.c3, g)
    ensures Balances(CentredOver(w, d0, d1, d2, d3), t, g)
  {
    PartsBalance(d0, t.c0, g);
    PartsBalance(d1, t.c1, g);
    PartsBalance(d2, t.c2, g);
    PartsBalance(d3, t.c3, g);
    SplitSums(t, g.mass);
    SplitSums(t, g.x);
    SplitSums(t, g.y);
    SumsBalance(w, d0, d1, d2, d3, t, g);
  }

  lemma {:induction false} SumsBalance(w: Weight, d0: Cell, d1: Cell, d2: Cell, d3: Cell, t: Tree, g: Measure)
    requires IsMassive(g) && TreeSum(t, g.mass) == PartMass(d0) + PartMass(d1) + PartMass(d2) + PartMass(d3)
    requires g.nonNegative ==>
               TreeSum(t, g.x) == PartMoment(d0, true) + PartMoment(d1, true)
                                  + PartMoment(d2, true) + PartMoment(d3, true)
    requires g.nonNegative ==>
               TreeSum(t, g.y) == PartMoment(d0, false) + PartMoment(d1, false)
                                  + PartMoment(d2, false) + PartMoment(d3, false)
    ensures Balances(CentredOver(w, d0, d1, d2, d3), t, g)
  {
    CentredBalances(w, t, g, PartMass(d0) + PartMass(d1) + PartMass(d2) + PartMass(d3),
      PartMoment(d0, true) + PartMoment(d1, true) + PartMoment(d2, true) + PartMoment(d3, true),
      PartMoment(d0, false) + PartMoment(d1, false) + PartMoment(d2, false) + PartMoment(d3, false));
  }

  /** Weighing leaves the shape alone and gives every node the mass and centre of its particles. */
  lemma WeighIsWeighed(c: Cell, ps: seq<Particle>)
    ensures Weighed(Weigh(c, ps), ps) && Shape(Weigh(c, ps)) == Shape(c)
  {
    MeasureIsMassive(ps);
    LeavesMatch(ps);
    WeighByIsWeighed(c, OwnWeight(ps), MeasureOf(ps));
  }

  lemma {:induction false} WeighByIsWeighed(c: Cell, own: nat -> Weight, g: Measure)
    requires IsMassive(g) && MatchingLeaves(own, g)
    ensures WeighedBy(WeighBy(c, own, g), own, g) && Shape(WeighBy(c, own, g)) == Shape(c)
  {
    match c
    case Null =>
    case Alone(i, w) =>
    case Crowd(s, w) => CentredBalances(w, Bucket(s), g, ListSum(s, g.mass), ListSum(s, g.x), ListSum(s, g.y));
    case Split(size, w, c0, c1, c2, c3) =>
      WeighByIsWeighed(c0, own, g);
      WeighByIsWeighed(c1, own, g);
      WeighByIsWeighed(c2, own, g);
      WeighByIsWeighed(c3, own, g);
      var d0, d1, d2, d3 := WeighBy(c0, own, g), WeighBy(c1, own, g), WeighBy(c2, own, g), WeighBy(c3, own, g);
      WeighedParts(d0, own, g);
      WeighedParts(d1, own, g);
      WeighedParts(d2, own, g);
      WeighedParts(d3, own, g);
      SplitBalances(w, d0, d1, d2, d3, Shape(c), g);
  }

  lemma {:induction false} SplitSums(t: Tree, g: nat -> real)
    requires t.Inner?
    ensures TreeSum(t, g) == TreeSum(t.c0, g) + TreeSum(t.c1, g) + TreeSum(t.c2, g) + TreeSum(t.c3, g)
  {
  }

  lemma ListSumStep(s: seq<nat>, k: nat, g: nat -> real)
    requires k < |s|
    ensures ListSum(s[..k + 1], g) == ListSum(s[..k], g) + g(s[k])
  {
    assert s[..k + 1] == s[..k] + [s[k]];
    ListSumAppend(s[..k], s[k], g);
  }

  // ---- What a particle feels ------------------------------------------------------

  /** One interaction: a node as a whole, or one particle of a bucket. */
  datatype Source = Whole(cell: Cell) | One(idx: nat)

  /** The opening test, given size, mass and centre of the node. */
  type Test = (real, Weight) -> bool

  /** The loop over `particleIndices`. */
  function Members(s: seq<nat>, idx: nat): seq<Source>
  {
    if s == [] then []
    else Members(s[..|s| - 1], idx) + if s[|s| - 1] == idx then [] else [One(s[|s| - 1])]
  }

  /** The interactions `computeForce` computes for particle idx, in order. */
  function Interactions(c: Cell, far: Test, idx: nat): seq<Source>
    decreases c, 0
  {
    match c
    case Null => []
    case Alone(j, _) => if j == idx then [] else [Whole(c)]
    case Crowd(s, _) => Members(s, idx)
    case Split(size, w, c0, c1, c2, c3) =>
      if far(size, w) then [Whole(c)]
      else Below(c0, far, idx) + Below(c1, far, idx) + Below(c2, far, idx) + Below(c3, far, idx)
  }

  function Below(c: Cell, far: Test, idx: nat): seq<Source>
    decreases c, 1
  {
    if Entered(c) then Interactions(c, far, idx) else []
  }

  /** A child `computeForce` descends into. */
  predicate Entered(c: Cell)
  {
    c != Null && c.w.mass > 0.0
  }

  ghost function Total(s: seq<Source>, g: Source -> real): real
  {
    if s == [] then 0.0 else Total(s[..|s| - 1], g) + g(s[|s| - 1])
  }

  lemma {:induction false} TotalConcat(s: seq<Source>, t: seq<Source>, g: Source -> real)
    ensures Total(s + t, g) == Total(s, g) + Total(t, g)
  {
    if t == [] {
      assert s + t == s;
    } else {
      assert (s + t)[..|s + t| - 1] == s + t[..|t| - 1];
      TotalConcat(s, t[..|t| - 1], g);
    }
  }

  lemma {:induction false} TotalOne(a: Source, g: Source -> real)
    ensures Total([a], g) == g(a)
  {
    assert [a][..0] == [];
  }

  /** Going through a bucket one particle further. */
  lemma MembersNext(s: seq<nat>, k: nat, idx: nat)
    requires k < |s|
    ensures Members(s[..k + 1], idx) == Members(s[..k], idx) + if s[k] == idx then [] else [One(s[k])]
  {
    assert s[..k + 1][..k] == s[..k];
  }

  /** Both sides of an opened node fall apart in the same way. */
  lemma {:induction false} TotalOfOpened(c: Cell, far: Test, idx: nat, g: Source -> real)
    requires c.Split? && !far(c.size, c.w)
    ensures Total(Interactions(c, far, idx), g)
         == Total(Below(c.c0, far, idx), g) + Total(Below(c.c1, far, idx), g)
            + Total(Below(c.c2, far, idx), g) + Total(Below(c.c3, far, idx), g)
  {
    var b0, b1, b2, b3 := Below(c.c0, far, idx), Below(c.c1, far, idx), Below(c.c2, far, idx), Below(c.c3, far, idx);
    TotalConcat(b0, b1, g);
    TotalConcat(b0 + b1, b2, g);
    TotalConcat(b0 + b1 + b2, b3, g);
  }

  /** The sum of a per-particle quantity over the particles a source stands for. */
  ghost function Covers(g: nat -> real): Source -> real
  {
    (a: Source) => CoveredBy(a, g)
  }

  ghost function CoveredBy(a: Source, g: nat -> real): real
  {
    match a case Whole(c) => TreeSum(Shape(c), g) case One(j) => g(j)
  }

  /** g for particle idx, and nothing for the others. */
  ghost predicate IsOwn(own: nat -> real, idx: nat, g: nat -> real)
  {
    own(idx) == g(idx) && forall i: nat :: i != idx ==> own(i) == 0.0
  }

  ghost function Own(idx: nat, g: nat -> real): (own: nat -> real)
    ensures IsOwn(own, idx, g)
  {
    (i: nat) => if i == idx then g(idx) else 0.0
  }

  lemma {:induction false} MembersCover(s: seq<nat>, idx: nat, g: nat -> real, own: nat -> real)
    requires IsOwn(own, idx, g)
    ensures Total(Members(s, idx), Covers(g)) == ListSum(s, g) - ListSum(s, own)
  {
    if s != [] {
      var front, last := Members(s[..|s| - 1], idx), s[|s| - 1];
      MembersCover(s[..|s| - 1], idx, g, own);
      if last == idx {
        assert Members(s, idx) == front;
      } else {
        TotalConcat(front, [One(last)], Covers(g));
        TotalOne(One(last), Covers(g));
      }
    }
  }

  /**
   * What the interactions leave out of the sum of g: idx itself where it is met on its own, and
   * all of every child that is not entered.
   */
  ghost function LeftOut(c: Cell, far: Test, g: nat -> real, own: nat -> real): real
    decreases c, 0
  {
    match c
    case Split(size, w, c0, c1, c2, c3) =>
      if far(size, w) then 0.0
      else
        LeftBelow(c0, far, g, own) + LeftBelow(c1, far, g, own) +
        LeftBelow(c2, far, g, own) + LeftBelow(c3, far, g, own)
    case _ => TreeSum(Shape(c), own)
  }

  ghost function LeftBelow(c: Cell, far: Test, g: nat -> real, own: nat -> real): real
    decreases c, 1
  {
    if Entered(c) then LeftOut(c, far, g, own) else TreeSum(Shape(c), g)
  }

  function CellChild(c: Cell, q: nat): Cell
    requires c.Split? && q < 4
  {
    if q == 0 then c.c0 else if q == 1 then c.c1 else if q == 2 then c.c2 else c.c3
  }

  /** The claim of EachOnce for one child. */
  ghost predicate BelowExact(c: Cell, far: Test, idx: nat, g: nat -> real, own: nat -> real)
  {
    Total(Below(c, far, idx), Covers(g)) == TreeSum(Shape(c), g) - LeftBelow(c, far, g, own)
  }

  /** For any tree and any masses: what the interactions cover and what they leave out is the whole tree. */
  lemma {:induction false} EachOnce(c: Cell, far: Test, idx: nat, g: nat -> real, own: nat -> real)
    requires IsOwn(own, idx, g)
    ensures Total(Interactions(c, far, idx), Covers(g)) == TreeSum(Shape(c), g) - LeftOut(c, far, g, own)
    decreases c, 1
  {
    match c
    case Null =>
    case Alone(j, w) => TotalOne(Whole(c), Covers(g));
    case Crowd(s, w) => MembersCover(s, idx, g, own);
    case Split(size, w, c0, c1, c2, c3) =>
      if far(size, w) {
        TotalOne(Whole(c), Covers(g));
      } else {
        EachOnceBelow(c, 0, far, idx, g, own);
        EachOnceBelow(c, 1, far, idx, g, own);
        EachOnceBelow(c, 2, far, idx, g, own);
        EachOnceBelow(c, 3, far, idx, g, own);
        FourExact(c, far, idx, g, own);
      }
  }

  lemma {:induction false} EachOnceBelow(c: Cell, q: nat, far: Test, idx: nat, g: nat -> real, own: nat -> real)
    requires c.Split? && q < 4 && IsOwn(own, idx, g)
    ensures BelowExact(CellChild(c, q), far, idx, g, own)
    decreases CellChild(c, q), 2
  {
    EachOnce(CellChild(c, q), far, idx, g, own);
  }

  lemma {:induction false} FourExact(c: Cell, far: Test, idx: nat, g: nat -> real, own: nat -> real)
    requires c.Split? && !far(c.size, c.w)
    requires BelowExact(c.c0, far, idx, g, own) && BelowExact(c.c1, far, idx, g, own)
    requires BelowExact(c.c2, far, idx, g, own) && BelowExact(c.c3, far, idx, g, own)
    ensures Total(Interactions(c, far, idx), Covers(g)) == TreeSum(Shape(c), g) - LeftOut(c, far, g, own)
  {
    TotalOfOpened(c, far, idx, Covers(g));
  }

  // ---- What is left out -----------------------------------------------------------

  /** How often idx is not counted: met on its own, or in a child that is not entered. */
  function Skipped(c: Cell, far: Test, idx: nat): nat
    decreases c, 0
  {
    match c
    case Split(size, w, c0, c1, c2, c3) =>
      if far(size, w) then 0
      else
        SkippedBelow(c0, far, idx) + SkippedBelow(c1, far, idx) +
        SkippedBelow(c2, far, idx) + SkippedBelow(c3, far, idx)
    case _ => Count(Shape(c), idx)
  }

  function SkippedBelow(c: Cell, far: Test, idx: nat): nat
    decreases c, 1
  {
    if Entered(c) then Skipped(c, far, idx) else Count(Shape(c), idx)
  }

  lemma {:induction false} SkippedAtMost(c: Cell, far: Test, idx: nat)
    ensures Skipped(c, far, idx) <= Count(Shape(c), idx)
  {
    if c.Split? && !far(c.size, c.w) {
      SkippedAtMost(c.c0, far, idx);
      SkippedAtMost(c.c1, far, idx);
      SkippedAtMost(c.c2, far, idx);
      SkippedAtMost(c.c3, far, idx);
    }
  }

  /** Children that are not entered hold no more of g than what belongs to idx. */
  ghost predicate LostIsOwn(c: Cell, far: Test, g: nat -> real, own: nat -> real)
    decreases c, 0
  {
    c.Split? && !far(c.size, c.w) ==>
      && LostBelowIsOwn(c.c0, far, g, own) && LostBelowIsOwn(c.c1, far, g, own)
      && LostBelowIsOwn(c.c2, far, g, own) && LostBelowIsOwn(c.c3, far, g, own)
  }

  ghost predicate LostBelowIsOwn(c: Cell, far: Test, g: nat -> real, own: nat -> real)
    decreases c, 1
  {
    if Entered(c) then LostIsOwn(c, far, g, own) else TreeSum(Shape(c), g) == TreeSum(Shape(c), own)
  }

  lemma {:induction false} OwnInList(s: seq<nat>, idx: nat, g: nat -> real, own: nat -> real)
    requires IsOwn(own, idx, g) && CountIn(s, idx) <= 1
    ensures ListSum(s, own) == if CountIn(s, idx) == 1 then g(idx) else 0.0
  {
    if s != [] {
      OwnInList(s[..|s| - 1], idx, g, own);
    }
  }

  lemma {:induction false} OwnInTree(t: Tree, idx: nat, g: nat -> real, own: nat -> real)
    requires IsOwn(own, idx, g) && Count(t, idx) <= 1
    ensures TreeSum(t, own) == if Count(t, idx) == 1 then g(idx) else 0.0
  {
    match t
    case Bucket(s) => OwnInList(s, idx, g, own);
    case Inner(c0, c1, c2, c3) =>
      OwnInTree(c0, idx, g, own);
      OwnInTree(c1, idx, g, own);
      OwnInTree(c2, idx, g, own);
      OwnInTree(c3, idx, g, own);
    case _ =>
  }

  lemma {:induction false} SplitCount(c: Cell, idx: nat)
    requires c.Split?
    ensures Count(Shape(c), idx)
         == Count(Shape(c.c0), idx) + Count(Shape(c.c1), idx) + Count(Shape(c.c2), idx) + Count(Shape(c.c3), idx)
  {
  }

  /** Then only idx is left out. */
  lemma {:induction false} OnlyOwnIsLeftOut(c: Cell, far: Test, idx: nat, g: nat -> real, own: nat -> real)
    requires IsOwn(own, idx, g) && LostIsOwn(c, far, g, own) && Count(Shape(c), idx) <= 1
    ensures LeftOut(c, far, g, own) == if Skipped(c, far, idx) > 0 then g(idx) else 0.0
    decreases c, 0
  {
    if !c.Split? {
      OwnInTree(Shape(c), idx, g, own);
    } else if !far(c.size, c.w) {
      SplitCount(c, idx);
      OnlyOwnBelow(c.c0, far, idx, g, own);
      OnlyOwnBelow(c.c1, far, idx, g, own);
      OnlyOwnBelow(c.c2, far, idx, g, own);
      OnlyOwnBelow(c.c3, far, idx, g, own);
    }
  }

  lemma {:induction false} OnlyOwnBelow(c: Cell, far: Test, idx: nat, g: nat -> real, own: nat -> real)
    requires IsOwn(own, idx, g) && LostBelowIsOwn(c, far, g, own) && Count(Shape(c), idx) <= 1
    ensures LeftBelow(c, far, g, own) == if SkippedBelow(c, far, idx) > 0 then g(idx) else 0.0
    ensures SkippedBelow(c, far, idx) <= Count(Shape(c), idx)
    decreases c, 1
  {
    SkippedAtMost(c, far, idx);
    if Entered(c) {
      OnlyOwnIsLeftOut(c, far, idx, g, own);
    } else {
      OwnInTree(Shape(c), idx, g, own);
    }
  }

  lemma {:induction false} ChildWeighed(c: Cell, q: nat, ps: seq<Particle>)
    requires c.Split? && q < 4 && Weighed(c, ps)
    ensures Weighed(CellChild(c, q), ps)
  {
  }

  /** g is nothing for particles without mass; beyond the list there are none with mass. */
  ghost predicate VanishesWithMass(ps: seq<Particle>, g: nat -> real)
  {
    forall i: nat :: At(ps, i).mass == 0.0 ==> g(i) == 0.0
  }

  /** A child that is not entered for lack of mass holds nothing, where masses are not negative. */
  lemma {:induction false} NothingLost(c: Cell, ps: seq<Particle>, g: nat -> real)
    requires NonNegative(ps) && VanishesWithMass(ps, g) && Weighed(c, ps) && !Entered(c)
    ensures TreeSum(Shape(c), g) == 0.0
  {
    if c != Null {
      WeighedBalances(c, ps);
      assert Massive(MassOf(ps), g);
      TreeWithoutMass(Shape(c), MassOf(ps), g);
    }
  }

  lemma {:induction false} OwnVanishes(ps: seq<Particle>, idx: nat, g: nat -> real, own: nat -> real)
    requires VanishesWithMass(ps, g) && IsOwn(own, idx, g)
    ensures VanishesWithMass(ps, own)
  {
  }

  lemma {:induction false} NonNegativeLosesNothing(c: Cell, ps: seq<Particle>, far: Test, g: nat -> real,
                                                   own: nat -> real)
    requires NonNegative(ps) && VanishesWithMass(ps, g) && VanishesWithMass(ps, own) && Weighed(c, ps)
    ensures LostIsOwn(c, far, g, own)
    decreases c, 0
  {
    if c.Split? {
      LosesNothingBelow(c, 0, ps, far, g, own);
      LosesNothingBelow(c, 1, ps, far, g, own);
      LosesNothingBelow(c, 2, ps, far, g, own);
      LosesNothingBelow(c, 3, ps, far, g, own);
    }
  }

  lemma {:induction false} LosesNothingBelow(c: Cell, q: nat, ps: seq<Particle>, far: Test, g: nat -> real,
                                             own: nat -> real)
    requires c.Split? && q < 4 && Weighed(c, ps)
    requires NonNegative(ps) && VanishesWithMass(ps, g) && VanishesWithMass(ps, own)
    ensures LostBelowIsOwn(CellChild(c, q), far, g, own)
    decreases CellChild(c, q), 1
  {
    var d := CellChild(c, q);
    ChildWeighed(c, q, ps);
    if Entered(d) {
      NonNegativeLosesNothing(d, ps, far, g, own);
    } else {
      NothingLost(d, ps, g);
      NothingLost(d, ps, own);
    }
  }

  // ---- The same, child by child ---------------------------------------------------

  /** The interactions with the first n children. */
  function BelowFirst(c: Cell, n: nat, far: Test, idx: nat): seq<Source>
    requires c.Split? && n <= 4
  {
    if n == 0 then [] else BelowFirst(c, n - 1, far, idx) + Below(CellChild(c, n - 1), far, idx)
  }

  lemma BelowAll(c: Cell, far: Test, idx: nat)
    requires c.Split? && !far(c.size, c.w)
    ensures BelowFirst(c, 4, far, idx) == Interactions(c, far, idx)
  {
    BelowNext(c, 0, far, idx);
    BelowNext(c, 1, far, idx);
    BelowNext(c, 2, far, idx);
    BelowNext(c, 3, far, idx);
    assert BelowFirst(c, 0, far, idx) + Below(c.c0, far, idx) == Below(c.c0, far, idx);
  }

  lemma BelowNext(c: Cell, n: nat, far: Test, idx: nat)
    requires c.Split? && n < 4
    ensures BelowFirst(c, n + 1, far, idx) == BelowFirst(c, n, far, idx) + Below(CellChild(c, n), far, idx)
  {
  }

  // ---- How many interactions ------------------------------------------------------

  /** No node of the tree passes the opening test. */
  predicate NeverFar(c: Cell, far: Test)
  {
    c.Split? ==>
      !far(c.size, c.w) && NeverFar(c.c0, far) && NeverFar(c.c1, far) && NeverFar(c.c2, far) && NeverFar(c.c3, far)
  }

  ghost function Ones(): nat -> real
  {
    (i: nat) => 1.0
  }

  /** How many particles the tree holds. */
  function Size(t: Tree): nat
  {
    match t
    case Empty => 0
    case Leaf(_) => 1
    case Bucket(s) => |s|
    case Inner(c0, c1, c2, c3) => Size(c0) + Size(c1) + Size(c2) + Size(c3)
  }

  lemma {:induction false} ListSize(s: seq<nat>, g: nat -> real)
    requires forall i: nat :: g(i) == 1.0
    ensures ListSum(s, g) == |s| as real
  {
    if s != [] {
      ListSize(s[..|s| - 1], g);
    }
  }

  lemma {:induction false} SizeIsSum(t: Tree, g: nat -> real)
    requires forall i: nat :: g(i) == 1.0
    ensures TreeSum(t, g) == Size(t) as real
  {
    if t.Bucket? {
      ListSize(t.indices, g);
    } else if t.Inner? {
      SizeIsSum(t.c0, g);
      SizeIsSum(t.c1, g);
      SizeIsSum(t.c2, g);
      SizeIsSum(t.c3, g);
      SplitSums(t, g);
      SplitSizes(t);
    }
  }

  lemma {:induction false} SplitSizes(t: Tree)
    requires t.Inner?
    ensures Size(t) as real == Size(t.c0) as real + Size(t.c1) as real + Size(t.c2) as real + Size(t.c3) as real
  {
    FourAsReals(Size(t.c0), Size(t.c1), Size(t.c2), Size(t.c3));
  }

  lemma FourAsReals(a: nat, b: nat, c: nat, d: nat)
    ensures (a + b + c + d) as real == a as real + b as real + c as real + d as real
  {
  }

  lemma {:induction false} PlacedHasSize(t: Tree, f: Frame, ps: seq<Particle>)
    requires Placed(t, f, ps) && t != Empty && t != FRESH
    ensures Size(t) >= 1
    decreases t
  {
    if t.Inner? {
      forall q: nat | q < 4 && Child(t, q) != Empty ensures Size(Child(t, q)) >= 1 {
        PlacedChild(t, f, ps, q);
        PlacedHasSize(Child(t, q), ChildFrame(f, q), ps);
      }
      assert Child(t, 0) == t.c0 && Child(t, 1) == t.c1 && Child(t, 2) == t.c2 && Child(t, 3) == t.c3;
    }
  }

  lemma {:induction false} CountAtMostSize(t: Tree, idx: nat)
    ensures Count(t, idx) <= Size(t)
  {
    match t
    case Bucket(s) => FewMembers(s, idx);
    case Inner(c0, c1, c2, c3) =>
      CountAtMostSize(c0, idx);
      CountAtMostSize(c1, idx);
      CountAtMostSize(c2, idx);
      CountAtMostSize(c3, idx);
    case _ =>
  }

  /** How many other particles sit in children that are not entered. */
  function Lost(c: Cell, far: Test, idx: nat): int
    decreases c, 0
  {
    match c
    case Split(size, w, c0, c1, c2, c3) =>
      if far(size, w) then 0
      else LostBelow(c0, far, idx) + LostBelow(c1, far, idx) + LostBelow(c2, far, idx) + LostBelow(c3, far, idx)
    case _ => 0
  }

  function LostBelow(c: Cell, far: Test, idx: nat): int
    decreases c, 1
  {
    if Entered(c) then Lost(c, far, idx) else Size(Shape(c)) - Count(Shape(c), idx)
  }

  /** At most one interaction for each particle neither skipped nor lost, and no fewer when nothing is far. */
  ghost predicate Few(c: Cell, far: Test, n: int, skipped: int, lost: int)
  {
    && lost >= 0 && n + skipped + lost <= Size(Shape(c))
    && (NeverFar(c, far) ==> n + skipped + lost == Size(Shape(c)))
  }

  lemma {:induction false} FewMembers(s: seq<nat>, idx: nat)
    ensures |Members(s, idx)| + CountIn(s, idx) == |s|
  {
    if s != [] {
      FewMembers(s[..|s| - 1], idx);
    }
  }

  lemma {:induction false} FewInteractions(c: Cell, f: Frame, ps: seq<Particle>, far: Test, idx: nat)
    requires Placed(Shape(c), f, ps) && Shape(c) != FRESH
    ensures Few(c, far, |Interactions(c, far, idx)|, Skipped(c, far, idx), Lost(c, far, idx))
    decreases c, 1
  {
    if c.Crowd? {
      FewMembers(c.indices, idx);
    } else if c.Split? && far(c.size, c.w) {
      PlacedHasSize(Shape(c), f, ps);
    } else if c.Split? {
      FewBelow(c, 0, f, ps, far, idx);
      FewBelow(c, 1, f, ps, far, idx);
      FewBelow(c, 2, f, ps, far, idx);
      FewBelow(c, 3, f, ps, far, idx);
      FewOpened(c, far, idx);
    }
  }

  ghost predicate FewIn(c: Cell, far: Test, idx: nat)
  {
    Few(c, far, |Below(c, far, idx)|, SkippedBelow(c, far, idx), LostBelow(c, far, idx))
  }

  lemma {:induction false} FewOpened(c: Cell, far: Test, idx: nat)
    requires c.Split? && !far(c.size, c.w)
    requires FewIn(c.c0, far, idx) && FewIn(c.c1, far, idx) && FewIn(c.c2, far, idx) && FewIn(c.c3, far, idx)
    ensures Few(c, far, |Interactions(c, far, idx)|, Skipped(c, far, idx), Lost(c, far, idx))
  {
  }

  lemma {:induction false} SameShape(c: Cell, q: nat)
    requires c.Split? && q < 4
    ensures Shape(c).Inner? && Child(Shape(c), q) == Shape(CellChild(c, q))
  {
  }

  lemma {:induction false} FewBelow(c: Cell, q: nat, f: Frame, ps: seq<Particle>, far: Test, idx: nat)
    requires c.Split? && q < 4 && Placed(Shape(c), f, ps)
    ensures FewIn(CellChild(c, q), far, idx)
    decreases CellChild(c, q), 2
  {
    var d := CellChild(c, q);
    SameShape(c, q);
    PlacedChild(Shape(c), f, ps, q);
    FewInteractions(d, ChildFrame(f, q), ps, far, idx);
    CountAtMostSize(Shape(d), idx);
  }

  // ---- What is felt ---------------------------------------------------------------

  function AtCentre(w: Weight): Particle
  {
    Particle(w.cx, w.cy, 0.0, 0.0, w.mass)
  }

  /** The acceleration one interaction adds: a node pulls like one particle at its centre of mass. */
  ghost function PullOf(ph: Physics, ps: seq<Particle>, p: Particle, alongX: bool): Source -> real
    requires ph.Valid()
  {
    (a: Source) =>
      match a
      case Whole(c) => if c == Null then 0.0 else Pull(ph, p, AtCentre(c.w), alongX)
      case One(j) => Pull(ph, p, At(ps, j), alongX)
  }

  /** What p feels from each particle on its own. */
  ghost function PullFrom(ph: Physics, ps: seq<Particle>, p: Particle, alongX: bool): nat -> real
    requires ph.Valid()
  {
    (j: nat) => Pull(ph, p, At(ps, j), alongX)
  }

  lemma {:induction false} MembersDirect(s: seq<nat>, idx: nat, g: Source -> real, h: Source -> real)
    requires forall j: nat :: g(One(j)) == h(One(j))
    ensures Total(Members(s, idx), g) == Total(Members(s, idx), h)
  {
    if s != [] {
      var front, last := Members(s[..|s| - 1], idx), One(s[|s| - 1]);
      MembersDirect(s[..|s| - 1], idx, g, h);
      if s[|s| - 1] != idx {
        TotalConcat(front, [last], g);
        TotalConcat(front, [last], h);
        TotalOne(last, g);
        TotalOne(last, h);
      } else {
        assert Members(s, idx) == front;
      }
    }
  }

  /** Where nothing is far every interaction is with a single particle. */
  lemma {:induction false} DirectPulls(c: Cell, ph: Physics, ps: seq<Particle>, far: Test, idx: nat, p: Particle,
                                       alongX: bool)
    requires ph.Valid() && Weighed(c, ps) && NeverFar(c, far)
    ensures Total(Interactions(c, far, idx), PullOf(ph, ps, p, alongX))
         == Total(Interactions(c, far, idx), Covers(PullFrom(ph, ps, p, alongX)))
    decreases c, 1
  {
    var g, h := PullOf(ph, ps, p, alongX), Covers(PullFrom(ph, ps, p, alongX));
    match c
    case Null =>
    case Alone(j, w) =>
      TotalOne(Whole(c), g);
      TotalOne(Whole(c), h);
      SamePull(ph, p, AtCentre(w), p, At(ps, j), alongX);
    case Crowd(s, _) => MembersDirect(s, idx, g, h);
    case Split(_, _, c0, c1, c2, c3) =>
      TotalOfOpened(c, far, idx, g);
      TotalOfOpened(c, far, idx, h);
      DirectBelow(c, 0, ph, ps, far, idx, p, alongX);
      DirectBelow(c, 1, ph, ps, far, idx, p, alongX);
      DirectBelow(c, 2, ph, ps, far, idx, p, alongX);
      DirectBelow(c, 3, ph, ps, far, idx, p, alongX);
  }

  lemma {:induction false} DirectBelow(c: Cell, q: nat, ph: Physics, ps: seq<Particle>, far: Test, idx: nat,
                                       p: Particle, alongX: bool)
    requires ph.Valid() && c.Split? && q < 4 && Weighed(c, ps) && NeverFar(c, far)
    ensures Total(Below(CellChild(c, q), far, idx), PullOf(ph, ps, p, alongX))
         == Total(Below(CellChild(c, q), far, idx), Covers(PullFrom(ph, ps, p, alongX)))
    decreases CellChild(c, q), 2
  {
    ChildWeighed(c, q, ps);
    DirectPulls(CellChild(c, q), ph, ps, far, idx, p, alongX);
  }

  // ---- The whole tree -------------------------------------------------------------

  /** What `computeForce` finds at the root: all particles inserted and weighed. */
  ghost predicate IsRoot(root: Cell, f: Frame, ps: seq<Particle>)
  {
    Shape(root) == Build(f, ps, |ps|) && Weighed(root, ps)
  }

  lemma RootIsPlaced(root: Cell, f: Frame, ps: seq<Particle>)
    requires IsRoot(root, f, ps) && ps != []
    ensures Placed(Shape(root), f, ps) && Shape(root) != FRESH && root != Null
  {
    BuildHolds(f, ps, |ps|);
    assert Count(Shape(root), 0) == 1;
    FreshIsPlaced(f, ps);
  }

  /** The mass, and unless masses are negative mass times centre, are the sums over the first n particles. */
  ghost predicate SumsUpTo(w: Weight, n: nat, g: Measure)
  {
    && w.mass == Sum(n, g.mass)
    && (g.nonNegative ==> Times(w.cx, w.mass) == Sum(n, g.x) && Times(w.cy, w.mass) == Sum(n, g.y))
  }

  /** The root carries the mass and the moments of all particles. */
  lemma RootHasAllMass(root: Cell, f: Frame, ps: seq<Particle>)
    requires IsRoot(root, f, ps) && ps != []
    ensures root != Null && SumsUpTo(root.w, |ps|, MeasureOf(ps))
  {
    RootIsPlaced(root, f, ps);
    LeavesMatch(ps);
    RootSums(root, f, ps, Shape(root), OwnWeight(ps), MeasureOf(ps));
  }

  lemma {:induction false} RootSums(root: Cell, f: Frame, ps: seq<Particle>, t: Tree, own: nat -> Weight, g: Measure)
    requires root != Null && t == Shape(root) == Build(f, ps, |ps|)
    requires WeighedBy(root, own, g) && MatchingLeaves(own, g)
    ensures SumsUpTo(root.w, |ps|, g)
  {
    WeighedByBalances(root, own, g);
    BuildBalances(root.w, f, ps, t, g);
  }

  lemma {:induction false} WeighedByBalances(c: Cell, own: nat -> Weight, g: Measure)
    requires c != Null && WeighedBy(c, own, g) && MatchingLeaves(own, g)
    ensures Balances(c.w, Shape(c), g)
  {
  }

  lemma BuildBalances(w: Weight, f: Frame, ps: seq<Particle>, t: Tree, g: Measure)
    requires t == Build(f, ps, |ps|) && Balances(w, t, g)
    ensures SumsUpTo(w, |ps|, g)
  {
    BuildSum(f, ps, |ps|, g.mass);
    BuildSum(f, ps, |ps|, g.x);
    BuildSum(f, ps, |ps|, g.y);
  }

  /** idx lies in a node that is taken as a whole. */
  predicate InFarCell(c: Cell, far: Test, idx: nat)
    decreases c, 0
  {
    match c
    case Split(size, w, c0, c1, c2, c3) =>
      if far(size, w) then Count(Shape(c), idx) > 0
      else
        InFarCellBelow(c0, far, idx) || InFarCellBelow(c1, far, idx) ||
        InFarCellBelow(c2, far, idx) || InFarCellBelow(c3, far, idx)
    case _ => false
  }

  predicate InFarCellBelow(c: Cell, far: Test, idx: nat)
    decreases c, 1
  {
    Entered(c) && InFarCell(c, far, idx)
  }

  lemma {:induction false} SkippedOrFar(c: Cell, far: Test, idx: nat)
    ensures Skipped(c, far, idx) <= Count(Shape(c), idx)
    ensures InFarCell(c, far, idx) <==> Skipped(c, far, idx) < Count(Shape(c), idx)
  {
    if c.Split? && !far(c.size, c.w) {
      SkippedOrFar(c.c0, far, idx);
      SkippedOrFar(c.c1, far, idx);
      SkippedOrFar(c.c2, far, idx);
      SkippedOrFar(c.c3, far, idx);
    }
  }

  lemma SkippedAtRoot(root: Cell, f: Frame, ps: seq<Particle>, far: Test, idx: nat)
    requires IsRoot(root, f, ps) && idx < |ps|
    ensures Count(Shape(root), idx) == 1
    ensures Skipped(root, far, idx) == if InFarCell(root, far, idx) then 0 else 1
  {
    BuildHolds(f, ps, |ps|);
    SkippedOrFar(root, far, idx);
  }

  /** The sum of g over the particles behind the interactions of idx counts each of the others once. */
  ghost predicate CountsOnce(root: Cell, ps: seq<Particle>, far: Test, idx: nat, g: nat -> real)
  {
    Total(Interactions(root, far, idx), Covers(g))
      == Sum(|ps|, g) - if InFarCell(root, far, idx) then 0.0 else g(idx)
  }

  /**
   * `computeForce` accounts for every other particle exactly once, on its own or inside exactly
   * one node, and for idx itself exactly if some node taken as a whole contains it. Where masses
   * are not negative this holds for whatever quantity g of the particles with mass.
   */
  lemma EveryParticleOnce(root: Cell, f: Frame, ps: seq<Particle>, far: Test, idx: nat, g: nat -> real)
    requires IsRoot(root, f, ps) && idx < |ps| && NonNegative(ps) && VanishesWithMass(ps, g)
    ensures CountsOnce(root, ps, far, idx, g)
  {
    var own := Own(idx, g);
    OwnVanishes(ps, idx, g, own);
    NonNegativeLosesNothing(root, ps, far, g, own);
    CountsOnceIfOwn(root, f, ps, far, idx, g, own);
  }

  lemma CountsOnceIfOwn(root: Cell, f: Frame, ps: seq<Particle>, far: Test, idx: nat, g: nat -> real, own: nat -> real)
    requires IsRoot(root, f, ps) && idx < |ps| && IsOwn(own, idx, g) && LostIsOwn(root, far, g, own)
    ensures CountsOnce(root, ps, far, idx, g)
  {
    EachOnce(root, far, idx, g, own);
    BuildSum(f, ps, |ps|, g);
    SkippedAtRoot(root, f, ps, far, idx);
    OnlyOwnIsLeftOut(root, far, idx, g, own);
  }

  // ---- Negative masses --------------------------------------------------------------

  lemma {:induction false} OnlyIdxInList(s: seq<nat>, idx: nat, g: nat -> real, own: nat -> real)
    requires IsOwn(own, idx, g) && CountIn(s, idx) == |s|
    ensures ListSum(s, g) == ListSum(s, own)
  {
    if s != [] {
      FewMembers(s[..|s| - 1], idx);
      OnlyIdxInList(s[..|s| - 1], idx, g, own);
    }
  }

  lemma {:induction false} OnlyIdxInTree(t: Tree, idx: nat, g: nat -> real, own: nat -> real)
    requires IsOwn(own, idx, g) && Count(t, idx) == Size(t)
    ensures TreeSum(t, g) == TreeSum(t, own)
  {
    match t
    case Bucket(s) => OnlyIdxInList(s, idx, g, own);
    case Inner(c0, c1, c2, c3) =>
      CountAtMostSize(c0, idx);
      CountAtMostSize(c1, idx);
      CountAtMostSize(c2, idx);
      CountAtMostSize(c3, idx);
      OnlyIdxInTree(c0, idx, g, own);
      OnlyIdxInTree(c1, idx, g, own);
      OnlyIdxInTree(c2, idx, g, own);
      OnlyIdxInTree(c3, idx, g, own);
    case _ =>
  }

  lemma {:induction false} LostNotNegative(c: Cell, far: Test, idx: nat)
    ensures Lost(c, far, idx) >= 0 && LostBelow(c, far, idx) >= 0
  {
    CountAtMostSize(Shape(c), idx);
    if c.Split? {
      LostNotNegative(c.c0, far, idx);
      LostNotNegative(c.c1, far, idx);
      LostNotNegative(c.c2, far, idx);
      LostNotNegative(c.c3, far, idx);
    }
  }

  lemma {:induction false} NoneLost(c: Cell, far: Test, idx: nat, g: nat -> real, own: nat -> real)
    requires IsOwn(own, idx, g) && Lost(c, far, idx) == 0
    ensures LostIsOwn(c, far, g, own)
    decreases c, 0
  {
    if c.Split? && !far(c.size, c.w) {
      LostNotNegative(c.c0, far, idx);
      LostNotNegative(c.c1, far, idx);
      LostNotNegative(c.c2, far, idx);
      LostNotNegative(c.c3, far, idx);
      NoneLostBelow(c.c0, far, idx, g, own);
      NoneLostBelow(c.c1, far, idx, g, own);
      NoneLostBelow(c.c2, far, idx, g, own);
      NoneLostBelow(c.c3, far, idx, g, own);
    }
  }

  lemma {:induction false} NoneLostBelow(c: Cell, far: Test, idx: nat, g: nat -> real, own: nat -> real)
    requires IsOwn(own, idx, g) && LostBelow(c, far, idx) == 0
    ensures LostBelowIsOwn(c, far, g, own)
    decreases c, 1
  {
    if Entered(c) {
      NoneLost(c, far, idx, g, own);
    } else {
      OnlyIdxInTree(Shape(c), idx, g, own);
    }
  }

  lemma {:induction false} OwnCountInList(s: seq<nat>, idx: nat, own: nat -> real)
    requires own(idx) == 1.0 && forall i: nat :: i != idx ==> own(i) == 0.0
    ensures ListSum(s, own) == CountIn(s, idx) as real
  {
    if s != [] {
      OwnCountInList(s[..|s| - 1], idx, own);
    }
  }

  lemma {:induction false} OwnCount(t: Tree, idx: nat, own: nat -> real)
    requires own(idx) == 1.0 && forall i: nat :: i != idx ==> own(i) == 0.0
    ensures TreeSum(t, own) == Count(t, idx) as real
  {
    if t.Bucket? {
      OwnCountInList(t.indices, idx, own);
    } else if t.Inner? {
      OwnCount(t.c0, idx, own);
      OwnCount(t.c1, idx, own);
      OwnCount(t.c2, idx, own);
      OwnCount(t.c3, idx, own);
      SplitSums(t, own);
      FourAsReals(Count(t.c0, idx), Count(t.c1, idx), Count(t.c2, idx), Count(t.c3, idx));
    }
  }

  /** Counting particles, what is left out are those skipped and those lost. */
  lemma {:induction false} LeftOutCount(c: Cell, far: Test, idx: nat, ones: nat -> real, own: nat -> real)
    requires (forall i: nat :: ones(i) == 1.0) && IsOwn(own, idx, ones)
    ensures Lost(c, far, idx) >= 0
    ensures LeftOut(c, far, ones, own) == Skipped(c, far, idx) as real + Lost(c, far, idx) as real
    decreases c, 0
  {
    if !c.Split? {
      OwnCount(Shape(c), idx, own);
    } else if !far(c.size, c.w) {
      LeftBelowCount(c.c0, far, idx, ones, own);
      LeftBelowCount(c.c1, far, idx, ones, own);
      LeftBelowCount(c.c2, far, idx, ones, own);
      LeftBelowCount(c.c3, far, idx, ones, own);
      FourAsReals(SkippedBelow(c.c0, far, idx), SkippedBelow(c.c1, far, idx),
                  SkippedBelow(c.c2, far, idx), SkippedBelow(c.c3, far, idx));
      FourAsReals(LostBelow(c.c0, far, idx), LostBelow(c.c1, far, idx),
                  LostBelow(c.c2, far, idx), LostBelow(c.c3, far, idx));
    }
  }

  lemma {:induction false} LeftBelowCount(c: Cell, far: Test, idx: nat, ones: nat -> real, own: nat -> real)
    requires (forall i: nat :: ones(i) == 1.0) && IsOwn(own, idx, ones)
    ensures LostBelow(c, far, idx) >= 0
    ensures LeftBelow(c, far, ones, own) == SkippedBelow(c, far, idx) as real + LostBelow(c, far, idx) as real
    decreases c, 1
  {
    if Entered(c) {
      LeftOutCount(c, far, idx, ones, own);
    } else {
      CountAtMostSize(Shape(c), idx);
      SizeIsSum(Shape(c), ones);
    }
  }

  /**
   * Whatever the masses: each other particle is accounted for exactly once, for every quantity g,
   * exactly if no other particle sits in a child the engine does not enter for lack of mass.
   */
  lemma OnceExactlyIfNoneLost(root: Cell, f: Frame, ps: seq<Particle>, far: Test, idx: nat)
    requires IsRoot(root, f, ps) && idx < |ps|
    ensures (forall g: nat -> real :: CountsOnce(root, ps, far, idx, g)) <==> Lost(root, far, idx) == 0
  {
    if Lost(root, far, idx) == 0 {
      forall g: nat -> real ensures CountsOnce(root, ps, far, idx, g) {
        var own := Own(idx, g);
        NoneLost(root, far, idx, g, own);
        CountsOnceIfOwn(root, f, ps, far, idx, g, own);
      }
    }
    var ones := Ones();
    var own := Own(idx, ones);
    EachOnce(root, far, idx, ones, own);
    BuildSum(f, ps, |ps|, ones);
    LeftOutCount(root, far, idx, ones, own);
    SkippedAtRoot(root, f, ps, far, idx);
    assert CountsOnce(root, ps, far, idx, ones) ==> Lost(root, far, idx) == 0;
  }

  lemma {:induction false} SumOfOnes(n: nat, g: nat -> real)
    requires forall i: nat :: g(i) == 1.0
    ensures Sum(n, g) == n as real
  {
    if n > 0 {
      SumOfOnes(n - 1, g);
    }
  }

  lemma BuildSize(t: Tree, f: Frame, ps: seq<Particle>, n: nat, ones: nat -> real)
    requires t == Build(f, ps, n) && forall i: nat :: ones(i) == 1.0
    ensures Size(t) == n
  {
    BuildSum(f, ps, n, ones);
    SumOfOnes(n, ones);
    SizeIsSum(t, ones);
  }

  /**
   * Whatever the masses, n particles never cost more than n interactions, and n - 1 when idx
   * itself is not counted; where nothing is far it is n - 1 less those lost for lack of mass.
   */
  lemma NoMoreThanParticles(root: Cell, f: Frame, ps: seq<Particle>, far: Test, idx: nat)
    requires IsRoot(root, f, ps) && idx < |ps|
    ensures |Interactions(root, far, idx)| <= if InFarCell(root, far, idx) then |ps| else |ps| - 1
    ensures NeverFar(root, far) ==> |Interactions(root, far, idx)| == |ps| - 1 - Lost(root, far, idx)
  {
    RootIsPlaced(root, f, ps);
    FewInteractions(root, f, ps, far, idx);
    BuildSize(Shape(root), f, ps, |ps|, Ones());
    SkippedAtRoot(root, f, ps, far, idx);
    if NeverFar(root, far) {
      NeverInFarCell(root, far, idx);
    }
  }

  lemma {:induction false} NeverInFarCell(c: Cell, far: Test, idx: nat)
    requires NeverFar(c, far)
    ensures !InFarCell(c, far, idx)
  {
    if c.Split? {
      NeverInFarCell(c.c0, far, idx);
      NeverInFarCell(c.c1, far, idx);
      NeverInFarCell(c.c2, far, idx);
      NeverInFarCell(c.c3, far, idx);
    }
  }

  lemma MasslessPullsNothing(ph: Physics, ps: seq<Particle>, p: Particle, alongX: bool)
    requires ph.Valid()
    ensures VanishesWithMass(ps, PullFrom(ph, ps, p, alongX))
  {
    forall i: nat | At(ps, i).mass == 0.0 ensures PullFrom(ph, ps, p, alongX)(i) == 0.0 {
      NoMassNoPull(ph, p, At(ps, i), alongX);
    }
  }

  lemma NoMassNoPull(ph: Physics, p: Particle, q: Particle, alongX: bool)
    requires ph.Valid() && q.mass == 0.0
    ensures Pull(ph, p, q, alongX) == 0.0
  {
  }

  /** The tree engine is exact where nothing is far: what is felt is what the all-pairs engine computes. */
  lemma ExactWhenNothingIsFar(root: Cell, f: Frame, ph: Physics, ps: seq<Particle>, far: Test, idx: nat, alongX: bool)
    requires ph.Valid() && NonNegative(ps) && IsRoot(root, f, ps) && idx < |ps| && NeverFar(root, far)
    ensures Total(Interactions(root, far, idx), PullOf(ph, ps, ps[idx], alongX))
         == Felt(ph, ps, Others(), idx, alongX)
  {
    var g := PullFrom(ph, ps, ps[idx], alongX);
    DirectPulls(root, ph, ps, far, idx, ps[idx], alongX);
    MasslessPullsNothing(ph, ps, ps[idx], alongX);
    EveryParticleOnce(root, f, ps, far, idx, g);
    NeverInFarCell(root, far, idx);
    var terms := Terms(ph, ps, Others(), idx, alongX);
    forall j: nat | j < |ps| && j != idx ensures g(j) == terms(j) {
    }
    SumChanges(|ps|, idx, g, terms);
  }

  // ---- The opening test -----------------------------------------------------------

  /** `Math.sqrt` on numbers that are not negative. */
  ghost predicate TakesRoots(sqrt: real -> real)
  {
    forall r: real :: r >= 0.0 ==> sqrt(r) >= 0.0 && Times(sqrt(r), sqrt(r)) == r
  }

  /** `node.size / (r + 1e-10) < THETA`. */
  predicate IsFar(ph: Physics, sqrt: real -> real, p: Particle, size: real, w: Weight)
    requires ph.softening > 0.0 && TakesRoots(sqrt)
  {
    size / (sqrt(RSq(ph, w.cx - p.x, w.cy - p.y)) + 0.0000000001) < THETA
  }

  ghost function Far(ph: Physics, sqrt: real -> real, p: Particle): Test
    requires ph.softening > 0.0 && TakesRoots(sqrt)
  {
    (size: real, w: Weight) => IsFar(ph, sqrt, p, size, w)
  }

  // ---- A particle can pull itself ---------------------------------------------------

  const LIGHT := Particle(0.0, 0.0, 0.0, 0.0, 1.0)
  const HEAVY := Particle(10.0, 10.0, 0.0, 0.0, 99.0)

  lemma TwoParticleTree(f: Frame)
    requires f == Frame(5.0, 5.0, 5.1)
    ensures Build(f, [LIGHT, HEAVY], 2) == Inner(Leaf(0), Empty, Empty, Leaf(1))
  {
    var ps := [LIGHT, HEAVY];
    assert At(ps, 0) == LIGHT && At(ps, 1) == HEAVY;
    assert Build(f, ps, 0) == FRESH;
    assert Build(f, ps, 1) == Inner(Leaf(0), Empty, Empty, Empty);
  }

  lemma SumOfTwo(g: nat -> real)
    ensures Sum(2, g) == g(0) + g(1)
  {
    assert Sum(0, g) == 0.0 && Sum(1, g) == Sum(0, g) + g(0);
  }

  lemma MassOfTwo(ps: seq<Particle>)
    requires ps == [LIGHT, HEAVY]
    ensures Sum(2, MassOf(ps)) == 100.0
  {
    SumOfTwo(MassOf(ps));
  }

  lemma MomentOfTwo(ps: seq<Particle>, alongX: bool)
    requires ps == [LIGHT, HEAVY]
    ensures Sum(2, MomentOf(ps, alongX)) == 990.0
  {
    SumOfTwo(MomentOf(ps, alongX));
  }

  lemma CentreOfTwo(root: Cell, f: Frame, ps: seq<Particle>)
    requires ps == [LIGHT, HEAVY] && IsRoot(root, f, ps)
    ensures root != Null && root.w == Weight(100.0, 9.9, 9.9)
  {
    RootHasAllMass(root, f, ps);
    MassOfTwo(ps);
    MomentOfTwo(ps, true);
    MomentOfTwo(ps, false);
    assert NonNegative(ps);
    Centre(root.w.cx);
    Centre(root.w.cy);
  }

  lemma Centre(c: real)
    requires Times(c, 100.0) == 990.0
    ensures c == 9.9
  {
  }

  lemma RootIsFar(ph: Physics, sqrt: real -> real)
    requires ph.softening > 0.0 && TakesRoots(sqrt)
    ensures IsFar(ph, sqrt, LIGHT, 5.1, Weight(100.0, 9.9, 9.9))
  {
    var rSq := RSq(ph, 9.9, 9.9);
    TimesPositive(ph.softening, ph.softening);
    assert Times(9.9, 9.9) == 98.01;
    assert sqrt(rSq) >= 0.0 && Times(sqrt(rSq), sqrt(rSq)) == rSq >= 196.0;
    if sqrt(rSq) < 14.0 {
      SmallerSquare(sqrt(rSq));
      assert false;
    }
    Ratio(sqrt(rSq) + 0.0000000001);
  }

  lemma Ratio(r: real)
    requires r >= 14.0
    ensures 5.1 / r < THETA
  {
  }

  /**
   * The root cell is about half the extent wide, so the opening test can accept a node that holds
   * the particle itself: here the light particle is pulled by all 100 units of mass, its own included.
   */
  lemma CanPullItself(root: Cell, f: Frame, ph: Physics, sqrt: real -> real)
    requires f == Frame(5.0, 5.0, 5.1) && IsRoot(root, f, [LIGHT, HEAVY])
    requires ph.softening > 0.0 && TakesRoots(sqrt) && root.Split? && root.size == f.size
    ensures Interactions(root, Far(ph, sqrt, LIGHT), 0) == [Whole(root)]
    ensures InFarCell(root, Far(ph, sqrt, LIGHT), 0) && root.w.mass == 100.0
  {
    CentreOfTwo(root, f, [LIGHT, HEAVY]);
    TwoParticleTree(f);
    RootIsFar(ph, sqrt);
    FarRoot(root, Far(ph, sqrt, LIGHT), Shape(root));
  }

  lemma FarRoot(root: Cell, far: Test, t: Tree)
    requires root.Split? && far(root.size, root.w)
    requires Shape(root) == t == Inner(Leaf(0), Empty, Empty, Leaf(1))
    ensures Interactions(root, far, 0) == [Whole(root)] && InFarCell(root, far, 0)
  {
    assert Count(t, 0) == 1;
  }

  lemma SmallerSquare(a: real)
    requires 0.0 <= a < 14.0
    ensures Times(a, a) < 196.0
  {
    assert a * a <= a * 14.0;
  }
}
