/**
 * The mutable quadtree of genes/particle-barneshut on the heap, with footprints, tied to the trees
 * and cells of the two value models.
 */
module QuadNodes {
  import opened Integrator
  import opened Sums
  import opened QuadTree
  import opened Gravity
  import opened BarnesHut
  import opened TreeLaw

  /**
   * From ax, ay and count the interactions s lead to ax', ay' and count': only the entries of
   * particle idx change, by the sum of the pulls.
   */
  ghost predicate Accumulated(s: seq<Source>, ph: Physics, ps: seq<Particle>, idx: nat,
                              ax: seq<real>, ay: seq<real>, count: nat, ax': seq<real>, ay': seq<real>, count': nat)
    requires ph.Valid() && |ax| == |ay| == |ax'| == |ay'| == |ps| && idx < |ps|
  {
    && ax' == ax[idx := ax[idx] + Total(s, PullOf(ph, ps, ps[idx], true))]
    && ay' == ay[idx := ay[idx] + Total(s, PullOf(ph, ps, ps[idx], false))]
    && count' == count + |s|
  }

  lemma AccumulatedConcat(s: seq<Source>, t: seq<Source>, ph: Physics, ps: seq<Particle>, idx: nat,
                          ax: seq<real>, ay: seq<real>, count: nat,
                          ax1: seq<real>, ay1: seq<real>, count1: nat, ax2: seq<real>, ay2: seq<real>, count2: nat)
    requires ph.Valid() && |ax| == |ay| == |ax1| == |ay1| == |ax2| == |ay2| == |ps| && idx < |ps|
    requires Accumulated(s, ph, ps, idx, ax, ay, count, ax1, ay1, count1)
    requires Accumulated(t, ph, ps, idx, ax1, ay1, count1, ax2, ay2, count2)
    ensures Accumulated(s + t, ph, ps, idx, ax, ay, count, ax2, ay2, count2)
  {
    TotalConcat(s, t, PullOf(ph, ps, ps[idx], true));
    TotalConcat(s, t, PullOf(ph, ps, ps[idx], false));
  }

  class QuadNode {
    var cx: real
    var cy: real
    var mass: real
    const x: real
    const y: real
    const size: real
    var children: seq<QuadNode?>
    var particleIdx: int
    /** Empty where the engine leaves the list undefined. */
    var particleIndices: seq<nat>

    ghost var Repr: set<QuadNode>
    ghost var tree: Tree

    ghost function Where(): Frame
    {
      Frame(x, y, size)
    }

    /** Child q, if there is one. */
    ghost function Kid(q: nat): set<QuadNode>
      requires q < |children|
      reads this`children
    {
      if children[q] == null then {} else {children[q]}
    }

    ghost function ChildTree(q: nat): Tree
      requires q < |children|
      reads this`children, Kid(q)`tree
    {
      if children[q] == null then Empty else children[q].tree
    }

    ghost predicate NoChildren()
      reads this`children
    {
      children == [null, null, null, null]
    }

    /** Child q is a valid node of its own, inside this one's footprint, with the frame of its quadrant. */
    ghost predicate ChildValid(q: nat)
      requires q < |children|
      reads this`children, this`particleIdx, this`particleIndices, this`Repr, this`tree,
            Repr`children, Repr`particleIdx, Repr`particleIndices, Repr`Repr, Repr`tree
      decreases Repr, 0
    {
      children[q] != null ==>
        && this in Repr && children[q] in Repr && children[q].Repr <= Repr && this !in children[q].Repr
        && children[q].Valid()
        && children[q].Where() == ChildFrame(Where(), q) && children[q].tree != Empty
    }

    ghost predicate Apart(p: nat, q: nat)
      requires p < |children| && q < |children|
      reads this`children, Kid(p)`Repr, Kid(q)`Repr
    {
      children[p] != null && children[q] != null ==> children[p].Repr !! children[q].Repr
    }

    ghost predicate Valid()
      reads this`children, this`particleIdx, this`particleIndices, this`Repr, this`tree,
            Repr`children, Repr`particleIdx, Repr`particleIndices, Repr`Repr, Repr`tree
      ensures Valid() ==> this in Repr
      decreases Repr, 1
    {
      && this in Repr && |children| == 4
      && ChildValid(0) && ChildValid(1) && ChildValid(2) && ChildValid(3)
      && Apart(0, 1) && Apart(0, 2) && Apart(0, 3) && Apart(1, 2) && Apart(1, 3) && Apart(2, 3)
      && (Smallest(Where()) ==> NoChildren())
      && (particleIdx >= 0 ==> NoChildren() && particleIndices == [] && tree == Leaf(particleIdx))
      && (particleIdx < 0 && particleIndices != [] ==>
            NoChildren() && Smallest(Where()) && tree == Bucket(particleIndices))
      && (particleIdx < 0 && particleIndices == [] ==>
            tree == Inner(ChildTree(0), ChildTree(1), ChildTree(2), ChildTree(3)))
    }

    /** `createEmptyNode`. */
    constructor (x: real, y: real, size: real)
      ensures Valid() && Repr == {this} && tree == FRESH && Where() == Frame(x, y, size)
      ensures particleIdx < 0 && particleIndices == []
    {
      this.x, this.y, this.size := x, y, size;
      cx, cy, mass := 0.0, 0.0, 0.0;
      children, particleIdx, particleIndices := [null, null, null, null], -1, [];
      Repr, tree := {this}, FRESH;
    }

    /** `insertParticle`. */
    method InsertParticle(ps: seq<Particle>, idx: nat)
      requires Valid()
      modifies Repr
      ensures Valid() && fresh(Repr - old(Repr))
      ensures tree == Insert(old(tree), Where(), ps, idx) && tree != Empty
      decreases Rank(Where()), 2, 0
    {
      var half := size / 2.0;
      if half < MIN_CELL_SIZE {
        AddToBucket(idx);
        return;
      }
      if particleIdx >= 0 {
        PushDown(ps);
      }
      InsertIntoChild(ps, idx);
    }

    /** The particle kept alone so far moves into a child of its own. */
    method PushDown(ps: seq<Particle>)
      requires Valid() && particleIdx >= 0 && !Smallest(Where())
      modifies this
      ensures Valid() && fresh(Repr - old(Repr)) && particleIdx < 0 && particleIndices == []
      ensures tree == PushedDown(old(tree), Where(), ps) && !Smallest(Where())
      decreases Rank(Where()), 1, 0
    {
      var existing := At(ps, particleIdx);
      var q := Quadrant(existing.x, existing.y, x, y);
      HalvingLowersRank(Where(), q);
      var child := NewChild(q);
      child.InsertParticle(ps, particleIdx);
      BecomeFresh();
      Attach(q, child);
    }

    /** `node.particleIdx = -1`. */
    method BecomeFresh()
      requires Valid() && particleIdx >= 0
      modifies this`particleIdx, this`tree
      ensures Valid() && particleIdx < 0 && particleIndices == [] && tree == FRESH && NoChildren()
    {
      particleIdx, tree := -1, FRESH;
    }

    /** The branch for a node of the smallest size. */
    method AddToBucket(idx: nat)
      requires Valid() && Smallest(Where())
      modifies this
      ensures Valid() && Repr == old(Repr) && tree == Bucket(Gathered(old(tree)) + [idx])
    {
      if particleIdx >= 0 {
        particleIndices := [particleIdx];
        particleIdx := -1;
      }
      particleIndices := particleIndices + [idx];
      tree := Bucket(particleIndices);
    }

    /** `node.children[q] = child`, for a child that shares nothing with the node. */
    method Attach(q: nat, child: QuadNode)
      requires Valid() && particleIdx < 0 && particleIndices == [] && !Smallest(Where())
      requires q < 4 && children[q] == null && child.Valid() && child.Repr !! Repr
      requires child.Where() == ChildFrame(Where(), q) && child.tree != Empty
      modifies this
      ensures Valid() && Repr == old(Repr) + child.Repr
      ensures particleIdx < 0 && particleIndices == [] && tree == WithChild(old(tree), q, child.tree)
    {
      ghost var was := tree;
      children := children[q := child];
      forall p: nat | p < 4 && p != q ensures ChildValid(p) {
        assert old(ChildValid(p));
      }
      forall p: nat, r: nat | p < 4 && r < 4 && p != r ensures Apart(p, r) {
        assert old(Apart(p, r)) && old(ChildValid(p)) && old(ChildValid(r));
      }
      Absorb(q);
      InnerWithChild(was, q, child.tree, tree);
    }

    /** Takes child q, which may have grown, into the footprint and the tree. */
    ghost method Absorb(q: nat)
      requires q < 4 == |children| && children[q] != null && this in Repr
      requires particleIdx < 0 && particleIndices == [] && !Smallest(Where())
      requires children[q].Valid() && this !in children[q].Repr
      requires children[q].Where() == ChildFrame(Where(), q) && children[q].tree != Empty
      requires forall p: nat :: p < 4 && p != q ==> ChildValid(p)
      requires forall p: nat, r: nat :: p < 4 && r < 4 && p != r ==> Apart(p, r)
      modifies this`Repr, this`tree
      ensures Valid() && Repr == old(Repr) + children[q].Repr
      ensures tree == Inner(ChildTree(0), ChildTree(1), ChildTree(2), ChildTree(3))
    {
      Repr := Repr + children[q].Repr;
      tree := Inner(ChildTree(0), ChildTree(1), ChildTree(2), ChildTree(3));
      forall p: nat | p < 4 ensures ChildValid(p) {
        assert p != q ==> old(ChildValid(p));
      }
      assert forall p: nat :: p < 4 && children[p] != null ==> children[p].Repr == old(children[p].Repr) by {
        forall p: nat | p < 4 && children[p] != null ensures children[p] != this {
          assert p != q ==> old(ChildValid(p));
        }
      }
      forall p: nat, r: nat | p < 4 && r < 4 && p != r ensures Apart(p, r) {
        assert old(Apart(p, r));
      }
    }

    /** The empty node for quadrant q. */
    method NewChild(q: nat) returns (child: QuadNode)
      requires q < 4
      ensures fresh(child) && child.Valid() && child.Repr == {child} && child.tree == FRESH
      ensures child.Where() == ChildFrame(Where(), q)
      ensures child.particleIdx < 0 && child.particleIndices == []
    {
      var half := size / 2.0;
      child := new QuadNode(x + (if q == 0 || q == 2 then -half / 2.0 else half / 2.0),
                            y + (if q < 2 then -half / 2.0 else half / 2.0), half);
    }

    /** The node for a particle that is alone in quadrant q. */
    method NewLeaf(q: nat, idx: nat, p: Particle) returns (child: QuadNode)
      requires q < 4
      ensures fresh(child) && child.Valid() && child.Repr == {child} && child.tree == Leaf(idx)
      ensures child.Where() == ChildFrame(Where(), q)
    {
      child := NewChild(q);
      child.particleIdx, child.cx, child.cy, child.mass := idx, p.x, p.y, p.mass;
      child.tree := Leaf(idx);
    }

    /** The second half of `insertParticle`. */
    method InsertIntoChild(ps: seq<Particle>, idx: nat)
      requires Valid() && particleIdx < 0 && particleIndices == [] && !Smallest(Where())
      modifies Repr
      ensures Valid() && fresh(Repr - old(Repr))
      ensures tree == InsertBelow(old(tree), Where(), ps, idx)
      decreases Rank(Where()), 0, 2
    {
      var p := At(ps, idx);
      var q := Quadrant(p.x, p.y, x, y);
      HalvingLowersRank(Where(), q);
      if children[q] == null {
        var child := NewLeaf(q, idx, p);
        Attach(q, child);
      } else {
        GrowChild(ps, idx, q);
      }
    }

    /** `insertParticle(child, particles, idx)`: the other children are untouched. */
    method GrowChild(ps: seq<Particle>, idx: nat, q: nat)
      requires Valid() && particleIdx < 0 && particleIndices == [] && !Smallest(Where())
      requires q < 4 && children[q] != null && q == QuadrantOf(Where(), At(ps, idx))
      modifies Repr
      ensures Valid() && fresh(Repr - old(Repr))
      ensures tree == InsertBelow(old(tree), Where(), ps, idx)
      decreases Rank(Where()), 0, 1
    {
      HalvingLowersRank(Where(), q);
      ghost var a0, a1, a2, a3 := ChildTree(0), ChildTree(1), ChildTree(2), ChildTree(3);
      InsertInto(ps, idx, q);
      ReplacedChild(a0, a1, a2, a3, ChildTree(0), ChildTree(1), ChildTree(2), ChildTree(3), q);
      Absorb(q);
    }

    /** The call itself; this node's footprint and tree have yet to follow. */
    method InsertInto(ps: seq<Particle>, idx: nat, q: nat)
      requires Valid() && particleIdx < 0 && particleIndices == [] && !Smallest(Where())
      requires q < 4 && children[q] != null && Rank(ChildFrame(Where(), q)) < Rank(Where())
      modifies Repr - {this}
      ensures children[q].Valid() && children[q].Where() == ChildFrame(Where(), q) && children[q].tree != Empty
      ensures children[q].tree == Insert(old(children[q].tree), ChildFrame(Where(), q), ps, idx)
      ensures this !in children[q].Repr && fresh(children[q].Repr - old(children[q].Repr))
      ensures children[q] in Repr && old(children[q].Repr) <= Repr
      ensures forall p: nat :: p < 4 && p != q ==> ChildValid(p) && ChildTree(p) == old(ChildTree(p))
      ensures forall p: nat, r: nat :: p < 4 && r < 4 && p != r ==> Apart(p, r)
      decreases Rank(Where()), 0, 0
    {
      assert ChildValid(q);
      children[q].InsertParticle(ps, idx);
      forall p: nat | p < 4 && p != q && children[p] != null
        ensures children[p].Valid() && children[p].Repr == old(children[p].Repr)
        ensures children[p].tree == old(children[p].tree)
      {
        assert old(ChildValid(p)) && old(Apart(p, q));
        assert children[p] in old(children[p].Repr);
        assert forall o :: o in old(children[p].Repr) ==> o !in old(children[q].Repr);
      }
      forall p: nat | p < 4 && p != q ensures ChildValid(p) {
        assert old(ChildValid(p));
      }
      forall p: nat, r: nat | p < 4 && r < 4 && p != r ensures Apart(p, r) {
        assert old(Apart(p, r)) && old(ChildValid(p)) && old(ChildValid(r));
      }
    }

    // ---- Weights ------------------------------------------------------------------

    /** The node with everything below it, weights included. */
    ghost function View(): (c: Cell)
      requires Valid()
      reads this, Repr
      ensures c != Null && Shape(c) == tree && (c.Split? ==> c.size == size)
      decreases Repr, 1
    {
      var w := Weight(mass, cx, cy);
      if particleIdx >= 0 then Alone(particleIdx, w)
      else if particleIndices != [] then Crowd(particleIndices, w)
      else Split(size, w, ChildView(0), ChildView(1), ChildView(2), ChildView(3))
    }

    ghost function ChildView(q: nat): (c: Cell)
      requires Valid() && q < 4
      reads this, Repr
      ensures Shape(c) == ChildTree(q)
      decreases Repr, 0
    {
      assert ChildValid(q);
      if children[q] == null then Null else children[q].View()
    }

    /** The cells below have the sizes of their frames. */
    lemma ViewIsSized()
      requires Valid()
      ensures Sized(View(), Where())
      decreases Repr
    {
      if particleIdx < 0 && particleIndices == [] {
        forall q: nat | q < 4 ensures Sized(ChildView(q), ChildFrame(Where(), q)) {
          assert ChildValid(q);
          if children[q] != null {
            children[q].ViewIsSized();
          }
        }
      }
    }

    ghost predicate Divided()
      requires Valid()
      reads this, Repr
    {
      particleIdx < 0 && particleIndices == []
    }

    /** `computeCenterOfMass`. */
    method ComputeCenterOfMass(ps: seq<Particle>)
      requires Valid()
      modifies Repr`cx, Repr`cy, Repr`mass
      ensures Valid() && View() == Weigh(old(View()), ps)
      decreases Repr, 4
    {
      if particleIdx >= 0 {
        var p := At(ps, particleIdx);
        cx, cy, mass := p.x, p.y, p.mass;
      } else if |particleIndices| > 0 {
        var totalMass, sumX, sumY := SumBucket(particleIndices, ps);
        SetCentre(totalMass, sumX, sumY);
      } else {
        WeighChildren(ps);
      }
    }

    /** `if (totalMass > 0) { node.cx = sumX / totalMass; ... } node.mass = totalMass;` */
    method SetCentre(totalMass: real, sumX: real, sumY: real)
      modifies this`cx, this`cy, this`mass
      ensures Weight(mass, cx, cy) == Centred(old(Weight(mass, cx, cy)), totalMass, sumX, sumY)
    {
      if totalMass > 0.0 {
        cx := sumX / totalMass;
        cy := sumY / totalMass;
      }
      mass := totalMass;
    }

    static method SumBucket(s: seq<nat>, ps: seq<Particle>) returns (totalMass: real, sumX: real, sumY: real)
      ensures totalMass == ListSum(s, MassOf(ps))
      ensures sumX == ListSum(s, MomentOf(ps, true)) && sumY == ListSum(s, MomentOf(ps, false))
    {
      totalMass, sumX, sumY := 0.0, 0.0, 0.0;
      for k := 0 to |s|
        invariant totalMass == ListSum(s[..k], MassOf(ps))
        invariant sumX == ListSum(s[..k], MomentOf(ps, true)) && sumY == ListSum(s[..k], MomentOf(ps, false))
      {
        var p := At(ps, s[k]);
        totalMass, sumX, sumY := totalMass + p.mass, sumX + Times(p.x, p.mass), sumY + Times(p.y, p.mass);
        ListSumStep(s, k, MassOf(ps));
        ListSumStep(s, k, MomentOf(ps, true));
        ListSumStep(s, k, MomentOf(ps, false));
      }
      assert s[..|s|] == s;
    }

    lemma KidsApart(q: nat)
      requires Valid() && q < 4 && children[q] != null
      ensures forall p: nat :: p < 4 && p != q && children[p] != null ==>
                children[p].Repr !! children[q].Repr && this !in children[p].Repr && children[p] in children[p].Repr
    {
      forall p: nat | p < 4 && p != q && children[p] != null
        ensures children[p].Repr !! children[q].Repr && this !in children[p].Repr && children[p] in children[p].Repr
      {
        assert ChildValid(p) && Apart(p, q) && Apart(q, p);
      }
    }

    /** A child that nothing was changed in looks as before. */
    twostate lemma SameChildView(p: nat)
      requires p < 4 && old(Valid()) && Valid() && unchanged(this`children)
      requires children[p] != null ==> unchanged(children[p]) && unchanged(children[p].Repr)
      ensures ChildView(p) == old(ChildView(p))
    {
      assert ChildValid(p) && old(ChildValid(p));
    }

    /** `computeCenterOfMass(c, particles)` for child q. */
    method WeighChild(q: nat, ps: seq<Particle>)
      requires Valid() && Divided() && q < 4 && children[q] != null
      modifies (Repr - {this})`cx, (Repr - {this})`cy, (Repr - {this})`mass
      ensures Valid() && ChildView(q) == Weigh(old(ChildView(q)), ps)
      ensures forall p: nat :: p < 4 && p != q ==> ChildView(p) == old(ChildView(p))
      decreases Repr, 0
    {
      assert ChildValid(q);
      KidsApart(q);
      children[q].ComputeCenterOfMass(ps);
      forall p: nat | p < 4 && p != q ensures ChildView(p) == old(ChildView(p)) {
        SameChildView(p);
      }
    }

    /** One turn of the loop over the children: what child q adds to the three sums. */
    method WeighNext(q: nat, ps: seq<Particle>) returns (m: real, x: real, y: real)
      requires Valid() && Divided() && q < 4
      modifies (Repr - {this})`cx, (Repr - {this})`cy, (Repr - {this})`mass
      ensures Valid() && ChildView(q) == Weigh(old(ChildView(q)), ps)
      ensures forall p: nat :: p < 4 && p != q ==> ChildView(p) == old(ChildView(p))
      ensures m == PartMass(ChildView(q)) && x == PartMoment(ChildView(q), true) && y == PartMoment(ChildView(q), false)
      decreases Repr, 1
    {
      var c := children[q];
      if c == null {
        return 0.0, 0.0, 0.0;
      }
      WeighChild(q, ps);
      m, x, y := c.mass, Times(c.cx, c.mass), Times(c.cy, c.mass);
      SameWeight(q);
    }

    lemma SameWeight(q: nat)
      requires Valid() && q < 4 && children[q] != null
      ensures ChildView(q) != Null && ChildView(q).w == Weight(children[q].mass, children[q].cx, children[q].cy)
    {
      assert ChildValid(q);
    }

    lemma ViewOfDivided()
      requires Valid() && Divided()
      ensures View() == Split(size, Weight(mass, cx, cy), ChildView(0), ChildView(1), ChildView(2), ChildView(3))
    {
    }

    method WeighChildren(ps: seq<Particle>)
      requires Valid() && Divided()
      modifies Repr`cx, Repr`cy, Repr`mass
      ensures Valid() && View() == Weigh(old(View()), ps)
      decreases Repr, 3
    {
      ViewOfDivided();
      ghost var before := View();
      var m, x, y := WeighTwo(0, ps);
      var m', x', y' := WeighTwo(2, ps);
      CentredInPairs(before.w, ChildView(0), ChildView(1), ChildView(2), ChildView(3));
      SetOwn(m + m', x + x', y + y', before, ps);
    }

    /** Two turns of the loop over the children. */
    method WeighTwo(q: nat, ps: seq<Particle>) returns (m: real, x: real, y: real)
      requires Valid() && Divided() && q < 3
      modifies (Repr - {this})`cx, (Repr - {this})`cy, (Repr - {this})`mass
      ensures Valid()
      ensures ChildView(q) == Weigh(old(ChildView(q)), ps) && ChildView(q + 1) == Weigh(old(ChildView(q + 1)), ps)
      ensures forall p: nat :: p < 4 && p != q && p != q + 1 ==> ChildView(p) == old(ChildView(p))
      ensures m == PartMass(ChildView(q)) + PartMass(ChildView(q + 1))
      ensures x == PartMoment(ChildView(q), true) + PartMoment(ChildView(q + 1), true)
      ensures y == PartMoment(ChildView(q), false) + PartMoment(ChildView(q + 1), false)
      decreases Repr, 2
    {
      m, x, y := WeighNext(q, ps);
      var m', x', y' := WeighNext(q + 1, ps);
      m, x, y := m + m', x + x', y + y';
    }

    /** The node's own weight, once its children have theirs. */
    method SetOwn(totalMass: real, sumX: real, sumY: real, ghost before: Cell, ps: seq<Particle>)
      requires Valid() && Divided() && before.Split? && before.size == size && before.w == Weight(mass, cx, cy)
      requires ChildView(0) == Weigh(before.c0, ps) && ChildView(1) == Weigh(before.c1, ps)
      requires ChildView(2) == Weigh(before.c2, ps) && ChildView(3) == Weigh(before.c3, ps)
      requires Centred(before.w, totalMass, sumX, sumY)
            == CentredOver(before.w, ChildView(0), ChildView(1), ChildView(2), ChildView(3))
      modifies this`cx, this`cy, this`mass
      ensures Valid() && View() == Weigh(before, ps)
    {
      ghost var c0, c1, c2, c3 := ChildView(0), ChildView(1), ChildView(2), ChildView(3);
      SetOwnCentre(totalMass, sumX, sumY);
      ViewOfDivided();
      WeighSplit(before, ps, c0, c1, c2, c3);
    }

    /** The same, with what a divided node keeps. */
    method SetOwnCentre(totalMass: real, sumX: real, sumY: real)
      requires Valid() && Divided()
      modifies this`cx, this`cy, this`mass
      ensures Valid() && Divided() && forall p: nat :: p < 4 ==> ChildView(p) == old(ChildView(p))
      ensures Weight(mass, cx, cy) == Centred(old(Weight(mass, cx, cy)), totalMass, sumX, sumY)
    {
      forall p: nat | p < 4 ensures ChildValid(p) {
      }
      SetCentre(totalMass, sumX, sumY);
    }

    // ---- Forces -------------------------------------------------------------------

    /**
     * `computeForce`: adds to ax[idx] and ay[idx] what particle idx feels from this node, and
     * counts the interactions.
     */
    method ComputeForce(ph: Physics, sqrt: real -> real, ps: seq<Particle>, idx: nat,
                        ax: array<real>, ay: array<real>, count: nat) returns (count': nat)
      requires Valid() && ph.Valid() && TakesRoots(sqrt)
      requires ax != ay && ax.Length == ay.Length == |ps| && idx < |ps|
      modifies ax, ay
      ensures Accumulated(Interactions(View(), Far(ph, sqrt, ps[idx]), idx), ph, ps, idx,
                          old(ax[..]), old(ay[..]), count, ax[..], ay[..], count')
      decreases Repr, 4
    {
      if particleIdx >= 0 {
        count' := FromLeaf(ph, sqrt, ps, idx, ax, ay, count);
      } else if |particleIndices| > 0 {
        ViewOfBucket();
        count' := FromBucket(ph, ps, particleIndices, idx, ax, ay, count);
      } else {
        count' := FromDivided(ph, sqrt, ps, idx, ax, ay, count);
      }
    }

    lemma ViewOfLeaf()
      requires Valid() && particleIdx >= 0
      ensures View() == Alone(particleIdx, Weight(mass, cx, cy))
    {
    }

    lemma ViewOfBucket()
      requires Valid() && particleIdx < 0 && particleIndices != []
      ensures View() == Crowd(particleIndices, Weight(mass, cx, cy))
    {
    }

    method FromLeaf(ph: Physics, ghost sqrt: real -> real, ps: seq<Particle>, idx: nat,
                    ax: array<real>, ay: array<real>, count: nat) returns (count': nat)
      requires Valid() && particleIdx >= 0 && ph.Valid() && TakesRoots(sqrt)
      requires ax != ay && ax.Length == ay.Length == |ps| && idx < |ps|
      modifies ax, ay
      ensures Accumulated(Interactions(View(), Far(ph, sqrt, ps[idx]), idx), ph, ps, idx,
                          old(ax[..]), old(ay[..]), count, ax[..], ay[..], count')
    {
      ViewOfLeaf();
      count' := count;
      if particleIdx != idx {
        count' := AddNode(ph, ps, idx, ax, ay, count, View());
      }
    }

    lemma FarTest(ph: Physics, sqrt: real -> real, p: Particle, r: real)
      requires Valid() && Divided() && ph.Valid() && TakesRoots(sqrt) && r == sqrt(RSq(ph, cx - p.x, cy - p.y))
      ensures r + 0.0000000001 > 0.0
      ensures Far(ph, sqrt, p)(size, Weight(mass, cx, cy)) <==> size / (r + 0.0000000001) < THETA
    {
    }

    lemma WholeIfFar(far: Test, idx: nat)
      requires Valid() && Divided() && far(size, Weight(mass, cx, cy))
      ensures Interactions(View(), far, idx) == [Whole(View())]
    {
      ViewOfDivided();
    }

    /** What the loop over the children gets from child q. */
    lemma BelowChild(q: nat, far: Test, idx: nat)
      requires Valid() && Divided() && q < 4
      ensures Below(CellChild(View(), q), far, idx)
           == if children[q] == null || children[q].mass <= 0.0 then []
              else assert ChildValid(q); Interactions(children[q].View(), far, idx)
    {
      ViewOfDivided();
      assert ChildValid(q) && CellChild(View(), q) == ChildView(q);
      if children[q] != null {
        SameWeight(q);
      }
    }

    /** A node that is taken as a whole if the opening test allows it. */
    method FromDivided(ph: Physics, sqrt: real -> real, ps: seq<Particle>, idx: nat,
                       ax: array<real>, ay: array<real>, count: nat) returns (count': nat)
      requires Valid() && Divided() && ph.Valid() && TakesRoots(sqrt)
      requires ax != ay && ax.Length == ay.Length == |ps| && idx < |ps|
      modifies ax, ay
      ensures Accumulated(Interactions(View(), Far(ph, sqrt, ps[idx]), idx), ph, ps, idx,
                          old(ax[..]), old(ay[..]), count, ax[..], ay[..], count')
      decreases Repr, 3
    {
      ViewOfDivided();
      var p := ps[idx];
      var r := sqrt(RSq(ph, cx - p.x, cy - p.y));
      FarTest(ph, sqrt, p, r);
      if size / (r + 0.0000000001) < THETA {
        WholeIfFar(Far(ph, sqrt, p), idx);
        count' := AddNode(ph, ps, idx, ax, ay, count, View());
      } else {
        count' := FromChildren(ph, sqrt, ps, idx, ax, ay, count);
      }
    }

    /** The node as a whole. */
    method AddNode(ph: Physics, ps: seq<Particle>, idx: nat, ax: array<real>, ay: array<real>, count: nat,
                   ghost c: Cell)
      returns (count': nat)
      requires ph.Valid() && ax != ay && ax.Length == ay.Length == |ps| && idx < |ps|
      requires c != Null && c.w == Weight(mass, cx, cy)
      modifies ax, ay
      ensures Accumulated([Whole(c)], ph, ps, idx, old(ax[..]), old(ay[..]), count, ax[..], ay[..], count')
    {
      count' := AddSource(ph, ps, idx, Particle(cx, cy, 0.0, 0.0, mass), ax, ay, count, Whole(c));
    }

    /** `ax[idx] += factor * dx; ay[idx] += factor * dy; interactions.count += 1;` */
    static method AddSource(ph: Physics, ps: seq<Particle>, idx: nat, from: Particle,
                            ax: array<real>, ay: array<real>, count: nat, ghost source: Source) returns (count': nat)
      requires ph.Valid() && ax != ay && ax.Length == ay.Length == |ps| && idx < |ps|
      requires forall alongX :: PullOf(ph, ps, ps[idx], alongX)(source) == Pull(ph, ps[idx], from, alongX)
      modifies ax, ay
      ensures Accumulated([source], ph, ps, idx, old(ax[..]), old(ay[..]), count, ax[..], ay[..], count')
    {
      var a := AddMassPull(ph, ps[idx], from, Vec(ax[idx], ay[idx]));
      ax[idx], ay[idx] := a.x, a.y;
      count' := count + 1;
      TotalOne(source, PullOf(ph, ps, ps[idx], true));
      TotalOne(source, PullOf(ph, ps, ps[idx], false));
    }

    /** The loop over `particleIndices`. */
    static method FromBucket(ph: Physics, ps: seq<Particle>, s: seq<nat>, idx: nat,
                             ax: array<real>, ay: array<real>, count: nat) returns (count': nat)
      requires ph.Valid() && ax != ay && ax.Length == ay.Length == |ps| && idx < |ps|
      modifies ax, ay
      ensures Accumulated(Members(s, idx), ph, ps, idx, old(ax[..]), old(ay[..]), count, ax[..], ay[..], count')
    {
      count' := count;
      for k := 0 to |s|
        invariant Accumulated(Members(s[..k], idx), ph, ps, idx, old(ax[..]), old(ay[..]), count,
                              ax[..], ay[..], count')
      {
        MembersNext(s, k, idx);
        if s[k] != idx {
          ghost var ax0, ay0, count0 := ax[..], ay[..], count';
          count' := AddSource(ph, ps, idx, At(ps, s[k]), ax, ay, count', One(s[k]));
          AccumulatedConcat(Members(s[..k], idx), [One(s[k])], ph, ps, idx, old(ax[..]), old(ay[..]), count,
            ax0, ay0, count0, ax[..], ay[..], count');
        } else {
          assert Members(s[..k + 1], idx) == Members(s[..k], idx);
        }
      }
      assert s[..|s|] == s;
    }

    /** The loop over the children that are there and have mass. */
    method FromChildren(ph: Physics, sqrt: real -> real, ps: seq<Particle>, idx: nat,
                        ax: array<real>, ay: array<real>, count: nat) returns (count': nat)
      requires Valid() && Divided() && ph.Valid() && TakesRoots(sqrt)
      requires ax != ay && ax.Length == ay.Length == |ps| && idx < |ps|
      requires !Far(ph, sqrt, ps[idx])(size, View().w)
      modifies ax, ay
      ensures Accumulated(Interactions(View(), Far(ph, sqrt, ps[idx]), idx), ph, ps, idx,
                          old(ax[..]), old(ay[..]), count, ax[..], ay[..], count')
      decreases Repr, 2
    {
      ghost var far, c := Far(ph, sqrt, ps[idx]), View();
      count' := count;
      for q := 0 to 4
        invariant Accumulated(BelowFirst(c, q, far, idx), ph, ps, idx, old(ax[..]), old(ay[..]), count,
                              ax[..], ay[..], count')
      {
        count' := NextChild(q, ph, sqrt, ps, idx, ax, ay, count', c, old(ax[..]), old(ay[..]), count);
      }
      BelowAll(c, far, idx);
    }

    /** One turn of that loop, on top of the turns before. */
    method NextChild(q: nat, ph: Physics, sqrt: real -> real, ps: seq<Particle>, idx: nat, ax: array<real>,
                     ay: array<real>, count: nat, ghost c: Cell, ghost ax0: seq<real>, ghost ay0: seq<real>,
                     ghost count0: nat) returns (count': nat)
      requires Valid() && Divided() && q < 4 && c == View() && ph.Valid() && TakesRoots(sqrt)
      requires ax != ay && ax.Length == ay.Length == |ps| == |ax0| == |ay0| && idx < |ps|
      requires Accumulated(BelowFirst(c, q, Far(ph, sqrt, ps[idx]), idx), ph, ps, idx, ax0, ay0, count0,
                           ax[..], ay[..], count)
      modifies ax, ay
      ensures Accumulated(BelowFirst(c, q + 1, Far(ph, sqrt, ps[idx]), idx), ph, ps, idx, ax0, ay0, count0,
                          ax[..], ay[..], count')
      decreases Repr, 1
    {
      ghost var far := Far(ph, sqrt, ps[idx]);
      count' := FromChild(q, ph, sqrt, ps, idx, ax, ay, count);
      BelowNext(c, q, far, idx);
      AccumulatedConcat(BelowFirst(c, q, far, idx), Below(CellChild(c, q), far, idx), ph, ps, idx,
        ax0, ay0, count0, old(ax[..]), old(ay[..]), count, ax[..], ay[..], count');
    }

    /** What one child adds. */
    method FromChild(q: nat, ph: Physics, sqrt: real -> real, ps: seq<Particle>, idx: nat,
                     ax: array<real>, ay: array<real>, count: nat) returns (count': nat)
      requires Valid() && Divided() && q < 4 && ph.Valid() && TakesRoots(sqrt)
      requires ax != ay && ax.Length == ay.Length == |ps| && idx < |ps|
      modifies ax, ay
      ensures Accumulated(Below(CellChild(View(), q), Far(ph, sqrt, ps[idx]), idx), ph, ps, idx,
                          old(ax[..]), old(ay[..]), count, ax[..], ay[..], count')
      decreases Repr, 0
    {
      assert ChildValid(q);
      BelowChild(q, Far(ph, sqrt, ps[idx]), idx);
      var c := children[q];
      count' := count;
      if c != null && c.mass > 0.0 {
        count' := c.ComputeForce(ph, sqrt, ps, idx, ax, ay, count);
      }
    }
  }
}
