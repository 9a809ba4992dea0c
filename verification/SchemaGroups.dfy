/** Grouping genes by compatible schemas (scripts/genome-schema-groups.ts). */
module SchemaGroups {
  import opened Common
  import opened Numbers
  import opened Schemas

  /** `schemaIncompatibility(asQuery(a), b) === null`. */
  predicate Compatible(a: Sides, b: Sides)
    requires ProperSides(a) && ProperSides(b)
  {
    SchemaIncompatibility(a, b).None?
  }

  // ---- Compatibility is an equivalence --------------------------------------------------

  /** The two canonical texts of a gene, if it has them. */
  function Signature(a: Sides): (Option<Text>, Option<Text>)
    requires ProperSides(a) && a.input.Some? && a.output.Some?
  {
    (CanonicalSchema(a.input.value), CanonicalSchema(a.output.value))
  }

  /** Two genes are compatible exactly if each is with itself and their canonical texts agree. */
  lemma CompatibleBySignature(a: Sides, b: Sides)
    requires ProperSides(a) && ProperSides(b)
    ensures Compatible(a, b) <==> Compatible(a, a) && Compatible(b, b) && Signature(a) == Signature(b)
  {
  }

  /** On genes compatible with themselves, compatibility is an equivalence relation. */
  lemma CompatibleIsEquivalence(a: Sides, b: Sides, c: Sides)
    requires ProperSides(a) && ProperSides(b) && ProperSides(c)
    ensures Compatible(a, b) ==> Compatible(a, a) && Compatible(b, a)
    ensures Compatible(a, b) && Compatible(b, c) ==> Compatible(a, c)
  {
    CompatibleBySignature(a, b);
    CompatibleBySignature(b, a);
    CompatibleBySignature(b, c);
    CompatibleBySignature(a, c);
  }

  // ---- Greedy grouping by any relation ----------------------------------------------------

  /** A relation between entries, by their indices. */
  type Relation = (nat, nat) -> bool

  /** A group lists the indices of its entries, in order of arrival. */
  type Group = seq<nat>

  /** Reflexive, symmetric and transitive on the first n entries. */
  ghost predicate Equivalence(rel: Relation, n: nat)
  {
    forall x: nat, y: nat, z: nat :: x < n && y < n && z < n ==> Behaves(rel, x, y, z)
  }

  ghost predicate Behaves(rel: Relation, x: nat, y: nat, z: nat)
  {
    rel(x, x) && (rel(x, y) ==> rel(y, x)) && (rel(x, y) && rel(y, z) ==> rel(x, z))
  }

  predicate HasFirsts(gs: seq<Group>, n: nat)
  {
    forall i :: 0 <= i < |gs| ==> gs[i] != [] && gs[i][0] < n
  }

  /** `groups.find`: the first group whose first member is related to e; the number of groups if none is. */
  function FindGroup(rel: Relation, gs: seq<Group>, e: nat): (k: nat)
    requires forall i :: 0 <= i < |gs| ==> gs[i] != []
    ensures k <= |gs|
    ensures k < |gs| ==> rel(gs[k][0], e)
    ensures forall i :: 0 <= i < k ==> !rel(gs[i][0], e)
  {
    if gs == [] || rel(gs[0][0], e) then 0 else 1 + FindGroup(rel, gs[1..], e)
  }

  /** The groups after the first n entries. */
  function Greedy(rel: Relation, n: nat): (gs: seq<Group>)
    ensures HasFirsts(gs, n)
  {
    if n == 0 then []
    else
      var gs := Greedy(rel, n - 1);
      var k := FindGroup(rel, gs, n - 1);
      Place(gs, k, n - 1)
  }

  /** Entry e joins group k, or starts a group of its own. */
  function Place(gs: seq<Group>, k: nat, e: nat): seq<Group>
  {
    if k < |gs| then gs[k := gs[k] + [e]] else gs + [[e]]
  }

  /** All members of a group are below n and related to its first. */
  ghost predicate OneClass(rel: Relation, g: Group, n: nat)
  {
    g != [] && forall k :: 0 <= k < |g| ==> g[k] < n && rel(g[0], g[k])
  }

  /** How often entry x occurs in all groups together. */
  function CountAll(gs: seq<Group>, x: nat): nat
  {
    if gs == [] then 0 else CountAll(gs[..|gs| - 1], x) + CountIn(gs[|gs| - 1], x)
  }

  /** Classes with unrelated first members that hold each of the first n entries exactly once. */
  ghost predicate Grouped(rel: Relation, gs: seq<Group>, n: nat)
  {
    && (forall i :: 0 <= i < |gs| ==> OneClass(rel, gs[i], n))
    && (forall i, j :: 0 <= i < j < |gs| ==> !rel(gs[i][0], gs[j][0]))
    && (forall x: nat :: CountAll(gs, x) == if x < n then 1 else 0)
  }

  lemma {:induction false} CountAllUpdate(gs: seq<Group>, k: nat, y: nat, x: nat)
    requires k < |gs|
    ensures CountAll(gs[k := gs[k] + [y]], x) == CountAll(gs, x) + if x == y then 1 else 0
  {
    var hs := gs[k := gs[k] + [y]];
    var n := |gs| - 1;
    if k == n {
      assert hs[..n] == gs[..n];
      CountInSnoc(gs[k], y, x);
    } else {
      assert hs[..n] == gs[..n][k := gs[..n][k] + [y]];
      CountAllUpdate(gs[..n], k, y, x);
    }
  }

  lemma CountAllSnoc(gs: seq<Group>, y: nat, x: nat)
    ensures CountAll(gs + [[y]], x) == CountAll(gs, x) + if x == y then 1 else 0
  {
    assert (gs + [[y]])[..|gs|] == gs;
    CountInSnoc([], y, x);
    assert [] + [y] == [y];
  }

  lemma JoinGroup(rel: Relation, gs: seq<Group>, n: nat, k: nat)
    requires Grouped(rel, gs, n) && k < |gs| && rel(gs[k][0], n)
    ensures Grouped(rel, gs[k := gs[k] + [n]], n + 1)
  {
    var hs := gs[k := gs[k] + [n]];
    forall x: nat ensures CountAll(hs, x) == if x < n + 1 then 1 else 0 {
      CountAllUpdate(gs, k, n, x);
    }
    forall i | 0 <= i < |hs| ensures OneClass(rel, hs[i], n + 1) && hs[i][0] == gs[i][0] {
      assert OneClass(rel, gs[i], n);
    }
  }

  lemma NewGroup(rel: Relation, gs: seq<Group>, n: nat)
    requires Grouped(rel, gs, n) && rel(n, n) && forall i :: 0 <= i < |gs| ==> !rel(gs[i][0], n)
    ensures Grouped(rel, gs + [[n]], n + 1)
  {
    var hs := gs + [[n]];
    forall x: nat ensures CountAll(hs, x) == if x < n + 1 then 1 else 0 {
      CountAllSnoc(gs, n, x);
    }
    forall i | 0 <= i < |hs| ensures OneClass(rel, hs[i], n + 1) {
      assert i < |gs| ==> hs[i] == gs[i] && OneClass(rel, gs[i], n);
    }
  }

  /** The greedy loop puts every entry into exactly one class. */
  lemma {:induction false} GreedyGroups(rel: Relation, n: nat)
    requires Equivalence(rel, n)
    ensures Grouped(rel, Greedy(rel, n), n)
  {
    if n > 0 {
      var gs := Greedy(rel, n - 1);
      SmallerEquivalence(rel, n - 1);
      GreedyGroups(rel, n - 1);
      assert Behaves(rel, n - 1, n - 1, n - 1);
      var k := FindGroup(rel, gs, n - 1);
      if k < |gs| {
        JoinGroup(rel, gs, n - 1, k);
      } else {
        NewGroup(rel, gs, n - 1);
      }
    }
  }

  // ---- The groups are the classes -----------------------------------------------------------

  lemma {:induction false} FoundIn(g: Group, x: nat)
    ensures CountIn(g, x) > 0 <==> x in g
  {
    if g != [] {
      FoundIn(g[..|g| - 1], x);
      assert g == g[..|g| - 1] + [g[|g| - 1]];
    }
  }

  lemma {:induction false} OwnGroup(gs: seq<Group>, x: nat) returns (i: nat)
    requires CountAll(gs, x) > 0
    ensures i < |gs| && x in gs[i]
  {
    var n := |gs| - 1;
    if CountIn(gs[n], x) > 0 {
      FoundIn(gs[n], x);
      i := n;
    } else {
      i := OwnGroup(gs[..n], x);
    }
  }

  /** `groups.some((g) => g.includes(a) && g.includes(b))`. */
  predicate Together(gs: seq<Group>, x: nat, y: nat)
  {
    exists i :: 0 <= i < |gs| && x in gs[i] && y in gs[i]
  }

  lemma InClass(rel: Relation, g: Group, n: nat, x: nat)
    requires OneClass(rel, g, n) && x in g
    ensures x < n && g[0] < n && rel(g[0], x)
  {
    var k :| 0 <= k < |g| && g[k] == x;
    assert g[0] < n;
  }

  /** Two entries share a group exactly if they are related. */
  lemma TogetherExactlyIfRelated(rel: Relation, gs: seq<Group>, n: nat, x: nat, y: nat)
    requires Equivalence(rel, n) && Grouped(rel, gs, n) && x < n && y < n
    ensures Together(gs, x, y) <==> rel(x, y)
    ensures rel(x, y) == rel(y, x)
  {
    assert Behaves(rel, x, y, x) && Behaves(rel, y, x, y);
    if Together(gs, x, y) {
      var i :| 0 <= i < |gs| && x in gs[i] && y in gs[i];
      InClass(rel, gs[i], n, x);
      InClass(rel, gs[i], n, y);
      assert Behaves(rel, gs[i][0], x, x) && Behaves(rel, x, gs[i][0], y);
    }
    if rel(x, y) {
      var i := OwnGroup(gs, x);
      var j := OwnGroup(gs, y);
      InClass(rel, gs[i], n, x);
      InClass(rel, gs[j], n, y);
      RelatedFirsts(rel, n, gs[i][0], x, y, gs[j][0]);
      assert i == j;
    }
  }

  lemma RelatedFirsts(rel: Relation, n: nat, p: nat, x: nat, y: nat, q: nat)
    requires Equivalence(rel, n) && p < n && x < n && y < n && q < n && rel(p, x) && rel(x, y) && rel(q, y)
    ensures rel(p, q) && rel(q, p) && rel(p, y)
  {
    assert Behaves(rel, p, x, y) && Behaves(rel, q, y, q);
    assert Behaves(rel, p, y, q) && Behaves(rel, p, q, p);
  }

  // ---- Counting pairs -----------------------------------------------------------------------

  function One(b: bool): nat
  {
    if b then 1 else 0
  }

  /** How many of the first i entries are related to entry j. */
  function Earlier(rel: Relation, i: nat, j: nat): nat
  {
    if i == 0 then 0 else Earlier(rel, i - 1, j) + One(rel(i - 1, j))
  }

  /** The related pairs among the first n entries, by their later entry. */
  function PairsByLast(rel: Relation, n: nat): nat
  {
    if n == 0 then 0 else PairsByLast(rel, n - 1) + Earlier(rel, n - 1, n - 1)
  }

  /** How many entries after i and below j are related to entry i. */
  function Later(rel: Relation, i: nat, j: nat): nat
  {
    if j <= i + 1 then 0 else Later(rel, i, j - 1) + One(rel(i, j - 1))
  }

  /** The related pairs with an earlier entry below m and a later one below n. */
  function PairsByFirst(rel: Relation, m: nat, n: nat): nat
  {
    if m == 0 then 0 else PairsByFirst(rel, m - 1, n) + Later(rel, m - 1, n)
  }

  lemma {:induction false} OneMoreColumn(rel: Relation, m: nat, n: nat)
    requires m <= n
    ensures PairsByFirst(rel, m, n + 1) == PairsByFirst(rel, m, n) + Earlier(rel, m, n)
  {
    if m > 0 {
      OneMoreColumn(rel, m - 1, n);
    }
  }

  /** Counting by the earlier entry, as the loops do, or by the later one gives the same number. */
  lemma {:induction false} SamePairs(rel: Relation, n: nat)
    ensures PairsByFirst(rel, n, n) == PairsByLast(rel, n)
  {
    if n > 0 {
      SamePairs(rel, n - 1);
      OneMoreColumn(rel, n - 1, n - 1);
    }
  }

  /** 0 + 1 + ... + (s - 1), the pairs among s entries. */
  function Triangle(s: nat): nat
  {
    if s == 0 then 0 else Triangle(s - 1) + (s - 1)
  }

  lemma {:induction false} TriangleFormula(s: nat)
    ensures Triangle(s) == s * (s - 1) / 2
  {
    if s > 0 {
      TriangleFormula(s - 1);
      assert s * (s - 1) == (s - 1) * (s - 2) + 2 * (s - 1);
    }
  }

  function Triangles(gs: seq<Group>): nat
  {
    if gs == [] then 0 else Triangles(gs[..|gs| - 1]) + Triangle(|gs[|gs| - 1]|)
  }

  lemma {:induction false} TrianglesUpdate(gs: seq<Group>, k: nat, y: nat)
    requires k < |gs|
    ensures Triangles(gs[k := gs[k] + [y]]) == Triangles(gs) + |gs[k]|
  {
    var hs := gs[k := gs[k] + [y]];
    var n := |gs| - 1;
    assert Triangles(hs) == Triangles(hs[..n]) + Triangle(|hs[n]|);
    if k == n {
      assert hs[..n] == gs[..n] && |hs[n]| == |gs[k]| + 1;
      assert Triangle(|gs[k]| + 1) == Triangle(|gs[k]|) + |gs[k]|;
    } else {
      assert hs[..n] == gs[..n][k := gs[..n][k] + [y]] && hs[n] == gs[n];
      TrianglesUpdate(gs[..n], k, y);
    }
  }

  lemma TrianglesSnoc(gs: seq<Group>, y: nat)
    ensures Triangles(gs + [[y]]) == Triangles(gs)
  {
    assert (gs + [[y]])[..|gs|] == gs;
    assert Triangle(1) == Triangle(0) + 0;
  }

  /** The members of g below n, with repetition. */
  function Below(g: Group, n: nat): nat
  {
    if n == 0 then 0 else Below(g, n - 1) + CountIn(g, n - 1)
  }

  lemma {:induction false} BelowSnoc(g: Group, y: nat, n: nat)
    ensures Below(g + [y], n) == Below(g, n) + One(y < n)
  {
    if n > 0 {
      BelowSnoc(g, y, n - 1);
      CountInSnoc(g, y, n - 1);
    }
  }

  lemma {:induction false} BelowNothing(n: nat)
    ensures Below([], n) == 0
  {
    if n > 0 {
      BelowNothing(n - 1);
    }
  }

  lemma {:induction false} AllBelow(g: Group, n: nat)
    requires forall k :: 0 <= k < |g| ==> g[k] < n
    ensures Below(g, n) == |g|
  {
    if g == [] {
      BelowNothing(n);
    } else {
      var front, last := g[..|g| - 1], g[|g| - 1];
      AllBelow(front, n);
      BelowSnoc(front, last, n);
      assert g == front + [last];
    }
  }

  lemma {:induction false} CountAllAtLeast(gs: seq<Group>, k: nat, x: nat)
    requires k < |gs|
    ensures CountIn(gs[k], x) <= CountAll(gs, x)
  {
    if k < |gs| - 1 {
      CountAllAtLeast(gs[..|gs| - 1], k, x);
    }
  }

  /** An earlier entry is related to entry n exactly if it is in the group n joins. */
  lemma RelatedToNew(rel: Relation, gs: seq<Group>, n: nat, k: nat, x: nat)
    requires Equivalence(rel, n + 1) && Grouped(rel, gs, n) && x < n
    requires k <= |gs| && (k < |gs| ==> rel(gs[k][0], n)) && forall i :: 0 <= i < k ==> !rel(gs[i][0], n)
    ensures One(rel(x, n)) == if k < |gs| then CountIn(gs[k], x) else 0
  {
    var i := OwnGroup(gs, x);
    InClass(rel, gs[i], n, x);
    assert Behaves(rel, gs[i][0], x, n);
    if k < |gs| {
      CountAllAtLeast(gs, k, x);
      FoundIn(gs[k], x);
      assert OneClass(rel, gs[k], n) && gs[k][0] < n;
      if rel(x, n) {
        RelatedFirsts(rel, n + 1, gs[i][0], x, n, gs[k][0]);
        assert i == k;
      }
      if x in gs[k] {
        InClass(rel, gs[k], n, x);
        assert Behaves(rel, gs[k][0], x, n) && Behaves(rel, x, gs[k][0], n);
      }
    }
  }

  lemma {:induction false} EarlierIsGroup(rel: Relation, gs: seq<Group>, n: nat, k: nat, i: nat)
    requires Equivalence(rel, n + 1) && Grouped(rel, gs, n) && i <= n
    requires k <= |gs| && (k < |gs| ==> rel(gs[k][0], n)) && forall i :: 0 <= i < k ==> !rel(gs[i][0], n)
    ensures Earlier(rel, i, n) == if k < |gs| then Below(gs[k], i) else 0
  {
    if i > 0 {
      EarlierIsGroup(rel, gs, n, k, i - 1);
      RelatedToNew(rel, gs, n, k, i - 1);
    }
  }

  lemma SmallerEquivalence(rel: Relation, n: nat)
    requires Equivalence(rel, n + 1)
    ensures Equivalence(rel, n)
  {
  }

  /** Entry n brings as many new pairs as the group it joins has members. */
  lemma PairsNext(rel: Relation, gs: seq<Group>, n: nat, k: nat, hs: seq<Group>)
    requires Equivalence(rel, n + 1) && Grouped(rel, gs, n) && Triangles(gs) == PairsByLast(rel, n)
    requires k <= |gs| && (k < |gs| ==> rel(gs[k][0], n)) && forall i :: 0 <= i < k ==> !rel(gs[i][0], n)
    requires hs == Place(gs, k, n)
    ensures Triangles(hs) == PairsByLast(rel, n + 1)
  {
    EarlierIsGroup(rel, gs, n, k, n);
    if k < |gs| {
      assert OneClass(rel, gs[k], n);
      AllBelow(gs[k], n);
      TrianglesUpdate(gs, k, n);
    } else {
      TrianglesSnoc(gs, n);
    }
  }

  /** As many related pairs among the first n entries as within their groups. */
  ghost predicate PairsMatch(rel: Relation, n: nat)
  {
    Triangles(Greedy(rel, n)) == PairsByLast(rel, n)
  }

  /** The related pairs are those within groups: |g| (|g| - 1) / 2 for each group g. */
  lemma {:induction false} PairsAreWithinGroups(rel: Relation, n: nat)
    requires Equivalence(rel, n)
    ensures PairsMatch(rel, n)
  {
    if n == 0 {
      NoPairs(rel);
    } else {
      var m: nat := n - 1;
      SmallerEquivalence(rel, m);
      PairsAreWithinGroups(rel, m);
      GreedyPairsNext(rel, m, n);
    }
  }

  lemma NoPairs(rel: Relation)
    ensures PairsMatch(rel, 0)
  {
  }

  lemma GreedyPairsNext(rel: Relation, n: nat, m: nat)
    requires m == n + 1 && Equivalence(rel, m) && PairsMatch(rel, n)
    ensures PairsMatch(rel, m)
  {
    var gs := Greedy(rel, n);
    var k := FindGroup(rel, gs, n);
    SmallerEquivalence(rel, n);
    GreedyGroups(rel, n);
    GreedyIs(rel, m, gs, k);
    PairsNext(rel, gs, n, k, Place(gs, k, n));
  }

  lemma GreedyIs(rel: Relation, n: nat, gs: seq<Group>, k: nat)
    requires n > 0 && gs == Greedy(rel, n - 1) && k == FindGroup(rel, gs, n - 1)
    ensures Greedy(rel, n) == Place(gs, k, n - 1)
  {
  }

  // ---- The script -----------------------------------------------------------------------------

  /** Entries i and j are compatible. */
  function CompatibleEntries(entries: seq<Sides>): Relation
    requires forall i :: 0 <= i < |entries| ==> ProperSides(entries[i])
  {
    (i: nat, j: nat) => i < |entries| && j < |entries| && Compatible(entries[i], entries[j])
  }

  /** The entries are all compatible with themselves. */
  ghost predicate AllComparable(entries: seq<Sides>)
  {
    forall i :: 0 <= i < |entries| ==> ProperSides(entries[i]) && Compatible(entries[i], entries[i])
  }

  lemma ComparableIsEquivalence(entries: seq<Sides>)
    requires AllComparable(entries)
    ensures Equivalence(CompatibleEntries(entries), |entries|)
  {
    var rel, n := CompatibleEntries(entries), |entries|;
    forall x: nat, y: nat, z: nat | x < n && y < n && z < n ensures Behaves(rel, x, y, z) {
      CompatibleIsEquivalence(entries[x], entries[y], entries[z]);
    }
  }

  /** `for (const e of comparable) { ... }`. */
  method GroupEntries(rel: Relation, n: nat) returns (gs: seq<Group>)
    ensures gs == Greedy(rel, n)
  {
    gs := [];
    for e := 0 to n
      invariant gs == Greedy(rel, e)
    {
      var k := 0;
      while k < |gs| && !rel(gs[k][0], e)
        invariant k <= |gs| && forall i :: 0 <= i < k ==> !rel(gs[i][0], e)
      {
        k := k + 1;
      }
      assert k == FindGroup(rel, gs, e);
      if k < |gs| {
        gs := gs[k := gs[k] + [e]];
      } else {
        gs := gs + [[e]];
      }
    }
  }

  /** One turn of the pairwise check: whether the two are compatible, or None where the script throws. */
  method CheckPair(rel: Relation, gs: seq<Group>, n: nat, i: nat, j: nat) returns (compatible: Option<bool>)
    requires Equivalence(rel, n) && Grouped(rel, gs, n) && i < n && j < n
    ensures compatible == Some(rel(i, j))
  {
    TogetherExactlyIfRelated(rel, gs, n, i, j);
    var ab, ba := rel(i, j), rel(j, i);
    if ab != ba {
      return None;
    }
    var sameGroup := Together(gs, i, j);
    if ab != sameGroup {
      return None;
    }
    return Some(ab);
  }

  /** The pairwise check: the number of compatible pairs, or None where the script throws. */
  method CheckPairs(rel: Relation, gs: seq<Group>, n: nat) returns (compatiblePairs: Option<nat>)
    requires Equivalence(rel, n) && Grouped(rel, gs, n)
    ensures compatiblePairs == Some(PairsByFirst(rel, n, n))
  {
    var pairs := 0;
    for i := 0 to n
      invariant pairs == PairsByFirst(rel, i, n)
    {
      var later := CheckRow(rel, gs, n, i);
      if later.None? {
        return None;
      }
      pairs := pairs + later.value;
    }
    compatiblePairs := Some(pairs);
  }

  /** The inner loop: entry i against all later ones. */
  method CheckRow(rel: Relation, gs: seq<Group>, n: nat, i: nat) returns (pairs: Option<nat>)
    requires Equivalence(rel, n) && Grouped(rel, gs, n) && i < n
    ensures pairs == Some(Later(rel, i, n))
  {
    var count := 0;
    for j := i + 1 to n
      invariant count == Later(rel, i, j)
    {
      var ab := CheckPair(rel, gs, n, i, j);
      if ab.None? {
        return None;
      }
      if ab.value {
        count := count + 1;
      }
    }
    pairs := Some(count);
  }

  /** `entries.filter(...)`: without those that are not even compatible with themselves. */
  function ComparableOnly(entries: seq<Sides>): (c: seq<Sides>)
    requires forall i :: 0 <= i < |entries| ==> ProperSides(entries[i])
    ensures AllComparable(c)
    ensures forall e :: e in c <==> e in entries && Compatible(e, e)
  {
    if entries == [] then []
    else
      var n := |entries| - 1;
      var front := ComparableOnly(entries[..n]);
      assert entries == entries[..n] + [entries[n]];
      if Compatible(entries[n], entries[n]) then front + [entries[n]] else front
  }

  /**
   * The script: both `throw` statements are unreachable, the groups are the classes of the
   * comparable entries, and the pairs counted are those within groups.
   */
  method GroupAndCheck(entries: seq<Sides>) returns (c: seq<Sides>, gs: seq<Group>, compatiblePairs: Option<nat>)
    requires forall i :: 0 <= i < |entries| ==> ProperSides(entries[i])
    ensures c == ComparableOnly(entries)
    ensures Grouped(CompatibleEntries(c), gs, |c|)
    ensures forall x: nat, y: nat :: x < |c| && y < |c| ==> (Together(gs, x, y) <==> Compatible(c[x], c[y]))
    ensures compatiblePairs == Some(Triangles(gs))
  {
    c := ComparableOnly(entries);
    var rel, n := CompatibleEntries(c), |c|;
    ComparableIsEquivalence(c);
    gs := GroupEntries(rel, n);
    GreedyGroups(rel, n);
    compatiblePairs := CheckPairs(rel, gs, n);
    SamePairs(rel, n);
    PairsAreWithinGroups(rel, n);
    forall x: nat, y: nat | x < n && y < n ensures Together(gs, x, y) <==> Compatible(c[x], c[y]) {
      TogetherExactlyIfRelated(rel, gs, n, x, y);
    }
  }
}
