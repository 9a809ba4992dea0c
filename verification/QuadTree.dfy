/** The quadtree as a value: insertion and what it preserves. */
module QuadTree {
  import opened Common
  import opened Integrator
  import opened Sums

  const MIN_CELL_SIZE := 0.0000000001

  /**
   * A null child, a node with one particle, a node at the smallest size with a list of
   * particles, or a node with four children in quadrant order.
   */
  datatype Tree =
    | Empty
    | Leaf(idx: nat)
    | Bucket(indices: seq<nat>)
    | Inner(c0: Tree, c1: Tree, c2: Tree, c3: Tree)

  /** `createEmptyNode`: an object, but with nothing in it. */
  const FRESH := Inner(Empty, Empty, Empty, Empty)

  function Child(t: Tree, q: nat): Tree
    requires t.Inner? && q < 4
  {
    if q == 0 then t.c0 else if q == 1 then t.c1 else if q == 2 then t.c2 else t.c3
  }

  function WithChild(t: Tree, q: nat, c: Tree): Tree
    requires t.Inner? && q < 4
  {
    if q == 0 then t.(c0 := c) else if q == 1 then t.(c1 := c)
    else if q == 2 then t.(c2 := c) else t.(c3 := c)
  }

  lemma InnerWithChild(t: Tree, q: nat, c: Tree, r: Tree)
    requires t.Inner? && r.Inner? && q < 4 && Child(r, q) == c
    requires forall p: nat :: p < 4 && p != q ==> Child(r, p) == Child(t, p)
    ensures r == WithChild(t, q, c)
  {
    forall p: nat | p < 4 ensures Child(r, p) == Child(WithChild(t, q, c), p) {
    }
    SameChildren(r, WithChild(t, q, c));
  }

  /** Four children of which only child q is new. */
  lemma ReplacedChild(a0: Tree, a1: Tree, a2: Tree, a3: Tree, b0: Tree, b1: Tree, b2: Tree, b3: Tree, q: nat)
    requires q < 4 && (q == 0 || b0 == a0) && (q == 1 || b1 == a1) && (q == 2 || b2 == a2) && (q == 3 || b3 == a3)
    ensures Inner(b0, b1, b2, b3) == WithChild(Inner(a0, a1, a2, a3), q, Child(Inner(b0, b1, b2, b3), q))
  {
  }

  lemma SameChildren(t: Tree, r: Tree)
    requires t.Inner? && r.Inner? && forall p: nat :: p < 4 ==> Child(t, p) == Child(r, p)
    ensures t == r
  {
    assert Child(t, 0) == Child(r, 0) && Child(t, 1) == Child(r, 1);
    assert Child(t, 2) == Child(r, 2) && Child(t, 3) == Child(r, 3);
  }

  /** How often particle x sits in a leaf or bucket of the tree. */
  function Count(t: Tree, x: nat): nat
  {
    match t
    case Empty => 0
    case Leaf(i) => if i == x then 1 else 0
    case Bucket(s) => CountIn(s, x)
    case Inner(c0, c1, c2, c3) => Count(c0, x) + Count(c1, x) + Count(c2, x) + Count(c3, x)
  }

  // ---- Geometry -----------------------------------------------------------------

  /** `getQuadrant`: 0 and 1 above, 2 and 3 below, even numbers to the left of the centre. */
  function Quadrant(px: real, py: real, cx: real, cy: real): (q: nat)
    ensures q < 4
  {
    if px < cx then (if py < cy then 0 else 2) else (if py < cy then 1 else 3)
  }

  datatype Frame = Frame(x: real, y: real, size: real)

  function QuadrantOf(f: Frame, p: Particle): (q: nat)
    ensures q < 4
  {
    Quadrant(p.x, p.y, f.x, f.y)
  }

  /** The centre and size of child q. */
  function ChildFrame(f: Frame, q: nat): Frame
  {
    var half := f.size / 2.0;
    Frame(f.x + (if q == 0 || q == 2 then -half / 2.0 else half / 2.0),
          f.y + (if q < 2 then -half / 2.0 else half / 2.0), half)
  }

  predicate Smallest(f: Frame)
  {
    f.size / 2.0 < MIN_CELL_SIZE
  }

  /** How often a size can be halved before it is too small to divide further. */
  function Rank(f: Frame): int
  {
    (f.size / MIN_CELL_SIZE).Floor
  }

  lemma HalvingLowersRank(f: Frame, q: nat)
    requires !Smallest(f)
    ensures 0 <= Rank(ChildFrame(f, q)) < Rank(f)
  {
    var s := f.size / MIN_CELL_SIZE;
    assert s >= 2.0 && f.size / 2.0 / MIN_CELL_SIZE == s / 2.0;
  }

  // ---- Insertion ----------------------------------------------------------------

  /** particles[i]; indices in a tree are always in range. */
  function At(ps: seq<Particle>, i: nat): Particle
  {
    if i < |ps| then ps[i] else Particle(0.0, 0.0, 0.0, 0.0, 0.0)
  }

  /** What is in `particleIndices` once a particle kept alone has been moved there. */
  function Gathered(t: Tree): seq<nat>
  {
    match t
    case Leaf(j) => [j]
    case Bucket(s) => s
    case _ => []
  }

  /** `insertParticle` on a node whose frame is f. */
  function Insert(t: Tree, f: Frame, ps: seq<Particle>, i: nat): Tree
    decreases Rank(f), 2
  {
    if Smallest(f) then Bucket(Gathered(t) + [i])
    else
      match t
      case Leaf(_) => InsertBelow(PushedDown(t, f, ps), f, ps, i)
      case Inner(_, _, _, _) => InsertBelow(t, f, ps, i)
      case _ => t
  }

  /** A leaf becomes a divided node with its particle one level down. */
  function PushedDown(t: Tree, f: Frame, ps: seq<Particle>): (r: Tree)
    requires t.Leaf? && !Smallest(f)
    ensures r.Inner?
    decreases Rank(f), 1
  {
    var q := QuadrantOf(f, At(ps, t.idx));
    HalvingLowersRank(f, q);
    WithChild(FRESH, q, Insert(FRESH, ChildFrame(f, q), ps, t.idx))
  }

  /** The second half of `insertParticle`: into the child of the particle's quadrant. */
  function InsertBelow(t: Tree, f: Frame, ps: seq<Particle>, i: nat): (r: Tree)
    requires t.Inner? && !Smallest(f)
    ensures r.Inner?
    decreases Rank(f), 0
  {
    var q := QuadrantOf(f, At(ps, i));
    HalvingLowersRank(f, q);
    WithChild(t, q, if Child(t, q) == Empty then Leaf(i) else Insert(Child(t, q), ChildFrame(f, q), ps, i))
  }

  /** `root` after particles 0 to n-1 were inserted, for a root with frame f. */
  function Build(f: Frame, ps: seq<Particle>, n: nat): Tree
  {
    if n == 0 then FRESH else Insert(Build(f, ps, n - 1), f, ps, n - 1)
  }

  // ---- Shape --------------------------------------------------------------------

  /**
   * Buckets stand only at the smallest size and subdivided nodes never, and every particle
   * under a child lies in that child's quadrant of the node.
   */
  ghost predicate Placed(t: Tree, f: Frame, ps: seq<Particle>)
    decreases t, 0
  {
    match t
    case Empty => true
    case Leaf(_) => true
    case Bucket(s) => Smallest(f) && s != []
    case Inner(c0, c1, c2, c3) =>
      && (t == FRESH || !Smallest(f))
      && ChildPlaced(c0, 0, f, ps) && ChildPlaced(c1, 1, f, ps)
      && ChildPlaced(c2, 2, f, ps) && ChildPlaced(c3, 3, f, ps)
  }

  ghost predicate ChildPlaced(c: Tree, q: nat, f: Frame, ps: seq<Particle>)
    decreases c, 1
  {
    InQuadrant(c, q, f, ps) && Placed(c, ChildFrame(f, q), ps) && c != FRESH
  }

  ghost predicate InQuadrant(c: Tree, q: nat, f: Frame, ps: seq<Particle>)
  {
    forall x: nat :: Count(c, x) > 0 ==> QuadrantOf(f, At(ps, x)) == q
  }

  /** The result of an insertion: everything that was there and i once more, in their places. */
  ghost predicate Holds(r: Tree, t: Tree, f: Frame, ps: seq<Particle>, i: nat)
  {
    && (forall x: nat :: Count(r, x) == Count(t, x) + if x == i then 1 else 0)
    && Placed(r, f, ps) && r != Empty && r != FRESH
  }

  lemma FreshIsPlaced(f: Frame, ps: seq<Particle>)
    ensures Placed(FRESH, f, ps) && forall x: nat :: Count(FRESH, x) == 0
  {
  }

  lemma BucketHolds(t: Tree, f: Frame, ps: seq<Particle>, i: nat)
    requires t != Empty && Placed(t, f, ps) && Smallest(f)
    ensures Holds(Insert(t, f, ps, i), t, f, ps, i)
  {
    forall x: nat ensures Count(Bucket(Gathered(t) + [i]), x) == Count(t, x) + if x == i then 1 else 0 {
      CountInSnoc(Gathered(t), i, x);
      GatheredCount(t, f, ps, x);
    }
  }

  lemma GatheredCount(t: Tree, f: Frame, ps: seq<Particle>, x: nat)
    requires Placed(t, f, ps) && Smallest(f)
    ensures CountIn(Gathered(t), x) == Count(t, x)
  {
    match t {
      case Leaf(j) =>
        CountInSnoc([], j, x);
        assert [] + [j] == Gathered(t);
      case Inner(_, _, _, _) =>
        FreshIsPlaced(f, ps);
      case _ =>
    }
  }

  lemma {:induction false} PlacedChild(t: Tree, f: Frame, ps: seq<Particle>, q: nat)
    requires t.Inner? && q < 4 && Placed(t, f, ps)
    ensures ChildPlaced(Child(t, q), q, f, ps)
  {
  }

  /** Replacing child q by a placed tree with one more particle. */
  lemma {:induction false} ReplaceHolds(t: Tree, q: nat, c: Tree, f: Frame, ps: seq<Particle>, i: nat)
    requires t.Inner? && q < 4 && !Smallest(f) && Placed(t, f, ps) && QuadrantOf(f, At(ps, i)) == q
    requires Placed(c, ChildFrame(f, q), ps) && c != FRESH && c != Empty
    requires forall x: nat :: Count(c, x) == Count(Child(t, q), x) + if x == i then 1 else 0
    ensures Holds(WithChild(t, q, c), t, f, ps, i)
  {
    NewChildPlaced(t, q, c, f, ps, i);
    WithChildPlaced(t, q, c, f, ps);
    forall x: nat ensures Count(WithChild(t, q, c), x) == Count(t, x) + if x == i then 1 else 0 {
      WithChildCount(t, q, c, x);
    }
  }

  lemma NewChildPlaced(t: Tree, q: nat, c: Tree, f: Frame, ps: seq<Particle>, i: nat)
    requires t.Inner? && q < 4 && Placed(t, f, ps) && QuadrantOf(f, At(ps, i)) == q
    requires Placed(c, ChildFrame(f, q), ps) && c != FRESH
    requires forall x: nat :: Count(c, x) == Count(Child(t, q), x) + if x == i then 1 else 0
    ensures ChildPlaced(c, q, f, ps)
  {
    PlacedChild(t, f, ps, q);
    forall x: nat | Count(c, x) > 0 ensures QuadrantOf(f, At(ps, x)) == q {
    }
  }

  lemma WithChildPlaced(t: Tree, q: nat, c: Tree, f: Frame, ps: seq<Particle>)
    requires t.Inner? && q < 4 && !Smallest(f) && Placed(t, f, ps) && ChildPlaced(c, q, f, ps) && c != Empty
    ensures Placed(WithChild(t, q, c), f, ps) && WithChild(t, q, c) != FRESH
  {
  }

  lemma WithChildCount(t: Tree, q: nat, c: Tree, x: nat)
    requires t.Inner? && q < 4
    ensures Count(WithChild(t, q, c), x) == Count(t, x) - Count(Child(t, q), x) + Count(c, x)
  {
    if q == 0 {
      assert WithChild(t, q, c) == Inner(c, t.c1, t.c2, t.c3);
    } else if q == 1 {
      assert WithChild(t, q, c) == Inner(t.c0, c, t.c2, t.c3);
    } else if q == 2 {
      assert WithChild(t, q, c) == Inner(t.c0, t.c1, c, t.c3);
    } else {
      assert WithChild(t, q, c) == Inner(t.c0, t.c1, t.c2, c);
    }
  }

  /** Insertion keeps every particle and adds i, and all stay in their quadrants. */
  lemma {:induction false} InsertHolds(t: Tree, f: Frame, ps: seq<Particle>, i: nat)
    requires t != Empty && Placed(t, f, ps)
    ensures Holds(Insert(t, f, ps, i), t, f, ps, i)
    decreases Rank(f), 1
  {
    if Smallest(f) {
      BucketHolds(t, f, ps, i);
    } else if t.Leaf? {
      var q := QuadrantOf(f, At(ps, t.idx));
      HalvingLowersRank(f, q);
      FreshIsPlaced(ChildFrame(f, q), ps);
      FreshIsPlaced(f, ps);
      InsertHolds(FRESH, ChildFrame(f, q), ps, t.idx);
      var below := Insert(FRESH, ChildFrame(f, q), ps, t.idx);
      ReplaceHolds(FRESH, q, below, f, ps, t.idx);
      InsertBelowHolds(WithChild(FRESH, q, below), f, ps, i);
    } else {
      InsertBelowHolds(t, f, ps, i);
    }
  }

  lemma {:induction false} InsertBelowHolds(t: Tree, f: Frame, ps: seq<Particle>, i: nat)
    requires t.Inner? && !Smallest(f) && Placed(t, f, ps)
    ensures Holds(InsertBelow(t, f, ps, i), t, f, ps, i)
    decreases Rank(f), 0
  {
    var q := QuadrantOf(f, At(ps, i));
    HalvingLowersRank(f, q);
    PlacedChild(t, f, ps, q);
    var before := Child(t, q);
    var c := if before == Empty then Leaf(i) else Insert(before, ChildFrame(f, q), ps, i);
    if before != Empty {
      InsertHolds(before, ChildFrame(f, q), ps, i);
    }
    ReplaceHolds(t, q, c, f, ps, i);
  }

  /** After inserting 0..n-1 each index is in exactly one leaf or bucket, and all are in their quadrants. */
  lemma {:induction false} BuildHolds(f: Frame, ps: seq<Particle>, n: nat)
    ensures forall x: nat :: Count(Build(f, ps, n), x) == if x < n then 1 else 0
    ensures Placed(Build(f, ps, n), f, ps) && Build(f, ps, n) != Empty
  {
    if n > 0 {
      BuildHolds(f, ps, n - 1);
      InsertNext(Build(f, ps, n), Build(f, ps, n - 1), f, ps, n - 1);
    } else {
      FreshIsPlaced(f, ps);
    }
  }

  lemma InsertNext(r: Tree, t: Tree, f: Frame, ps: seq<Particle>, n: nat)
    requires r == Insert(t, f, ps, n) && t != Empty && Placed(t, f, ps)
    requires forall x: nat :: Count(t, x) == if x < n then 1 else 0
    ensures (forall x: nat :: Count(r, x) == if x < n + 1 then 1 else 0) && Placed(r, f, ps) && r != Empty
  {
    InsertHolds(t, f, ps, n);
  }

  lemma BuildIsPlaced(f: Frame, ps: seq<Particle>, n: nat)
    ensures Placed(Build(f, ps, n), f, ps) && Build(f, ps, n) != Empty
  {
    BuildHolds(f, ps, n);
  }

  // ---- Depth --------------------------------------------------------------------

  function Max(a: nat, b: nat): nat { if a >= b then a else b }

  function Depth(t: Tree): nat
  {
    match t
    case Inner(c0, c1, c2, c3) => 1 + Max(Max(Depth(c0), Depth(c1)), Max(Depth(c2), Depth(c3)))
    case _ => 0
  }

  /** How many times a node of this size can be divided. */
  function Divisions(f: Frame): nat
    decreases Rank(f)
  {
    if Smallest(f) then 0
    else
      HalvingLowersRank(f, 0);
      1 + Divisions(ChildFrame(f, 0))
  }

  lemma {:induction false} SameSizeSameDivisions(f: Frame, g: Frame)
    requires f.size == g.size
    ensures Divisions(f) == Divisions(g)
    decreases Rank(f)
  {
    if !Smallest(f) {
      HalvingLowersRank(f, 0);
      SameSizeSameDivisions(ChildFrame(f, 0), ChildFrame(g, 0));
    }
  }

  /** No tree is deeper than the halvings of its size down to the smallest cell. */
  lemma {:induction false} DepthIsBounded(t: Tree, f: Frame, ps: seq<Particle>)
    requires Placed(t, f, ps)
    ensures Depth(t) <= Divisions(f) || t == FRESH
    decreases t
  {
    match t
    case Inner(c0, c1, c2, c3) =>
      if t != FRESH {
        forall q: nat | q < 4 ensures Depth(Child(t, q)) <= Divisions(ChildFrame(f, 0)) {
          PlacedChild(t, f, ps, q);
          DepthIsBounded(Child(t, q), ChildFrame(f, q), ps);
          SameSizeSameDivisions(ChildFrame(f, q), ChildFrame(f, 0));
        }
        assert Depth(c0) == Depth(Child(t, 0)) && Depth(c1) == Depth(Child(t, 1));
        assert Depth(c2) == Depth(Child(t, 2)) && Depth(c3) == Depth(Child(t, 3));
      }
    case _ =>
  }

  // ---- Sums over a tree -----------------------------------------------------------

  ghost function ListSum(s: seq<nat>, g: nat -> real): real
  {
    if s == [] then 0.0 else ListSum(s[..|s| - 1], g) + g(s[|s| - 1])
  }

  /** The sum of g over all particles of the tree. */
  ghost function TreeSum(t: Tree, g: nat -> real): real
  {
    match t
    case Empty => 0.0
    case Leaf(i) => g(i)
    case Bucket(s) => ListSum(s, g)
    case Inner(c0, c1, c2, c3) => TreeSum(c0, g) + TreeSum(c1, g) + TreeSum(c2, g) + TreeSum(c3, g)
  }

  lemma ListSumAppend(s: seq<nat>, i: nat, g: nat -> real)
    ensures ListSum(s + [i], g) == ListSum(s, g) + g(i)
  {
    assert (s + [i])[..|s|] == s;
  }

  lemma FreshSum(g: nat -> real)
    ensures TreeSum(FRESH, g) == 0.0
  {
  }

  lemma {:induction false} InsertSum(t: Tree, f: Frame, ps: seq<Particle>, i: nat, g: nat -> real)
    requires t != Empty && Placed(t, f, ps)
    ensures TreeSum(Insert(t, f, ps, i), g) == TreeSum(t, g) + g(i)
    decreases Rank(f), 1
  {
    FreshSum(g);
    if Smallest(f) {
      ListSumAppend(Gathered(t), i, g);
      if t.Leaf? {
        ListSumAppend([], t.idx, g);
        assert [] + [t.idx] == Gathered(t);
      }
    } else if t.Leaf? {
      var q := QuadrantOf(f, At(ps, t.idx));
      HalvingLowersRank(f, q);
      FreshIsPlaced(ChildFrame(f, q), ps);
      InsertSum(FRESH, ChildFrame(f, q), ps, t.idx, g);
      InsertHolds(FRESH, ChildFrame(f, q), ps, t.idx);
      var below := Insert(FRESH, ChildFrame(f, q), ps, t.idx);
      FreshIsPlaced(f, ps);
      ReplaceHolds(FRESH, q, below, f, ps, t.idx);
      InsertBelowSum(WithChild(FRESH, q, below), f, ps, i, g);
    } else {
      InsertBelowSum(t, f, ps, i, g);
    }
  }

  lemma {:induction false} InsertBelowSum(t: Tree, f: Frame, ps: seq<Particle>, i: nat, g: nat -> real)
    requires t.Inner? && !Smallest(f) && Placed(t, f, ps)
    ensures TreeSum(InsertBelow(t, f, ps, i), g) == TreeSum(t, g) + g(i)
    decreases Rank(f), 0
  {
    var q := QuadrantOf(f, At(ps, i));
    HalvingLowersRank(f, q);
    PlacedChild(t, f, ps, q);
    if Child(t, q) != Empty {
      InsertSum(Child(t, q), ChildFrame(f, q), ps, i, g);
    }
  }

  lemma InsertRootSum(t: Tree, f: Frame, ps: seq<Particle>, i: nat, r: Tree, g: nat -> real)
    requires t != Empty && Placed(t, f, ps) && r == Insert(t, f, ps, i)
    ensures TreeSum(r, g) == TreeSum(t, g) + g(i)
  {
    InsertSum(t, f, ps, i, g);
  }

  lemma {:induction false} BuildSum(f: Frame, ps: seq<Particle>, n: nat, g: nat -> real)
    ensures TreeSum(Build(f, ps, n), g) == Sum(n, g)
  {
    if n == 0 {
      FreshSum(g);
      return;
    }
    var t, r := Build(f, ps, n - 1), Build(f, ps, n);
    BuildSum(f, ps, n - 1, g);
    BuildIsPlaced(f, ps, n - 1);
    InsertRootSum(t, f, ps, n - 1, r, g);
  }
}
