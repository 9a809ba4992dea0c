/** The grid engine (genes/particle-spatial): only near particles attract. */
module SpatialGrid {
  import opened Sums
  import opened Integrator
  import opened Gravity
  import opened Extent

  // ---- Cells --------------------------------------------------------------------

  /** A cell of the grid; the engine spells it as the text "cx,cy". */
  datatype GridCell = GridCell(cx: int, cy: int)

  function CellOf(p: Particle, cellSize: real): GridCell
    requires cellSize > 0.0
  {
    GridCell((p.x / cellSize).Floor, (p.y / cellSize).Floor)
  }

  predicate Adjacent(a: GridCell, b: GridCell)
  {
    -1 <= a.cx - b.cx <= 1 && -1 <= a.cy - b.cy <= 1
  }

  /** i meets j: different particles in the same or neighbouring cells. */
  ghost function Nearby(ps: seq<Particle>, cellSize: real): (nat, nat) -> bool
    requires cellSize > 0.0
  {
    (i: nat, j: nat) => IsNear(ps, cellSize, i, j)
  }

  predicate IsNear(ps: seq<Particle>, cellSize: real, i: nat, j: nat)
    requires cellSize > 0.0
  {
    i < |ps| && j < |ps| && i != j && Adjacent(CellOf(ps[i], cellSize), CellOf(ps[j], cellSize))
  }

  lemma FloorsClose(a: real, b: real, c: real)
    requires c > 0.0 && -c <= a - b <= c
    ensures -1 <= (a / c).Floor - (b / c).Floor <= 1
  {
    Quotient(a, b, c);
  }

  lemma Quotient(a: real, b: real, c: real)
    requires c > 0.0 && -c <= a - b <= c
    ensures -1.0 <= a / c - b / c <= 1.0
  {
    QuotientDifference(a, b, c);
    UnitQuotients(c);
    DivideMonotone(a - b, c, c);
    DivideMonotone(-c, a - b, c);
  }

  lemma QuotientDifference(a: real, b: real, c: real)
    requires c > 0.0
    ensures a / c - b / c == (a - b) / c
  {
  }

  lemma UnitQuotients(c: real)
    requires c > 0.0
    ensures c / c == 1.0 && (-c) / c == -1.0
  {
  }

  lemma DivideMonotone(a: real, b: real, c: real)
    requires c > 0.0 && a <= b
    ensures a / c <= b / c
  {
  }

  /** Every pair within the cell size on both axes meets, and meeting is mutual. */
  lemma ClosePairsMeet(ps: seq<Particle>, cellSize: real, i: nat, j: nat)
    requires cellSize > 0.0 && i < |ps| && j < |ps| && i != j
    ensures -cellSize <= ps[i].x - ps[j].x <= cellSize && -cellSize <= ps[i].y - ps[j].y <= cellSize
            ==> Nearby(ps, cellSize)(i, j)
    ensures Nearby(ps, cellSize)(i, j) <==> Nearby(ps, cellSize)(j, i)
  {
    if -cellSize <= ps[i].x - ps[j].x <= cellSize && -cellSize <= ps[i].y - ps[j].y <= cellSize {
      FloorsClose(ps[i].x, ps[j].x, cellSize);
      FloorsClose(ps[i].y, ps[j].y, cellSize);
    }
  }

  // ---- The cell size ------------------------------------------------------------

  function Larger(a: real, b: real): real { if a >= b then a else b }

  /** `cellSize`, from the extent of the particles; `sqrt` is a parameter. */
  function CellSize(ph: Physics, sqrt: real -> real, ps: seq<Particle>): (c: real)
    requires ph.softening > 0.0
    ensures c > 0.0
  {
    var n := |ps|;
    if n == 0 then 2.0 * ph.softening
    else SizeFor(ph, sqrt, Highest(ps, n, true) - Lowest(ps, n, true), Highest(ps, n, false) - Lowest(ps, n, false), n)
  }

  function SizeFor(ph: Physics, sqrt: real -> real, width: real, height: real, n: nat): (c: real)
    requires ph.softening > 0.0 && n > 0
    ensures c > 0.0
  {
    var w := Larger(width, ph.softening * 4.0);
    var h := Larger(height, ph.softening * 4.0);
    Larger(ph.softening * 2.0, sqrt(AreaEach(w, h, n)) * 2.0)
  }

  /** The area of a w by h rectangle for each of n particles. */
  function AreaEach(w: real, h: real, n: nat): real
    requires n > 0
  {
    w * h / n as real
  }

  lemma SameCellSize(ph: Physics, sqrt: real -> real, ps: seq<Particle>, qs: seq<Particle>)
    requires ph.softening > 0.0 && SamePlaces(ps, qs)
    ensures CellSize(ph, sqrt, ps) == CellSize(ph, sqrt, qs)
  {
    if ps != [] {
      SameExtent(ps, qs, |ps|, true);
      SameExtent(ps, qs, |ps|, false);
    }
  }

  // ---- The law ------------------------------------------------------------------

  ghost function SpatialLaw(ph: Physics, sqrt: real -> real): Law
    requires ph.Valid()
  {
    (ps: seq<Particle>) => FeltAll(ph, ps, Nearby(ps, CellSize(ph, sqrt, ps)))
  }

  lemma SpatialIsPlaceLaw(ph: Physics, sqrt: real -> real)
    requires ph.Valid()
    ensures PlaceLaw(SpatialLaw(ph, sqrt))
  {
    var law := SpatialLaw(ph, sqrt);
    forall ps, qs {:trigger SamePlaces(ps, qs)} | SamePlaces(ps, qs) ensures law(ps) == law(qs) {
      SameCellSize(ph, sqrt, ps, qs);
      var c := CellSize(ph, sqrt, ps);
      forall i | 0 <= i < |ps| ensures law(ps)[i] == law(qs)[i] {
        SameNeighbours(ph, ps, qs, c, i, true);
        SameNeighbours(ph, ps, qs, c, i, false);
      }
    }
  }

  lemma SameNeighbours(ph: Physics, ps: seq<Particle>, qs: seq<Particle>, c: real, i: nat, alongX: bool)
    requires ph.Valid() && SamePlaces(ps, qs) && c > 0.0 && i < |ps|
    ensures Felt(ph, ps, Nearby(ps, c), i, alongX) == Felt(ph, qs, Nearby(qs, c), i, alongX)
  {
    SameFelt(ph, ps, qs, Nearby(ps, c), i, alongX);
    var f, g := Terms(ph, qs, Nearby(ps, c), i, alongX), Terms(ph, qs, Nearby(qs, c), i, alongX);
    forall j: nat | j < |qs| ensures f(j) == g(j) {
      assert Nearby(ps, c)(i, j) == Nearby(qs, c)(i, j);
    }
    SumEqual(|qs|, f, g);
  }

  lemma SpatialIsBalanced(ph: Physics, sqrt: real -> real)
    requires ph.Valid()
    ensures PlaceLaw(SpatialLaw(ph, sqrt))
    ensures Balanced(SpatialLaw(ph, sqrt))
  {
    SpatialIsPlaceLaw(ph, sqrt);
    forall ps, alongX ensures Force(ps, SpatialLaw(ph, sqrt)(ps), alongX) == 0.0 {
      var c := CellSize(ph, sqrt, ps);
      forall i: nat, j: nat ensures Nearby(ps, c)(i, j) <==> Nearby(ps, c)(j, i) {
        if i < |ps| && j < |ps| && i != j {
          ClosePairsMeet(ps, c, i, j);
        }
      }
      MutualForcesCancel(ph, ps, Nearby(ps, c), alongX);
    }
  }

  /** The grid engine conserves momentum too, although it leaves out distant pairs. */
  lemma SpatialKeepsMomentum(ph: Physics, sqrt: real -> real, ps: seq<Particle>, dt: real, n: nat, alongX: bool)
    requires ph.Valid()
    ensures PlaceLaw(SpatialLaw(ph, sqrt))
    ensures Momentum(Steps(SpatialLaw(ph, sqrt), ps, dt, n), alongX) == Momentum(ps, alongX)
  {
    SpatialIsPlaceLaw(ph, sqrt);
    SpatialIsBalanced(ph, sqrt);
    StepsKeepMomentum(SpatialLaw(ph, sqrt), ps, dt, n, alongX);
  }

  /** ... and runs backwards when all velocities are turned round. */
  lemma SpatialIsReversible(ph: Physics, sqrt: real -> real, ps: seq<Particle>, dt: real, n: nat)
    requires ph.Valid()
    ensures PlaceLaw(SpatialLaw(ph, sqrt))
    ensures Steps(SpatialLaw(ph, sqrt), Reversed(Steps(SpatialLaw(ph, sqrt), ps, dt, n)), dt, n) == Reversed(ps)
  {
    SpatialIsPlaceLaw(ph, sqrt);
    StepsAreReversible(SpatialLaw(ph, sqrt), ps, dt, n);
  }

  // ---- The grid -----------------------------------------------------------------

  /** The particles below n in cell c, in order. */
  function InCell(ps: seq<Particle>, cellSize: real, c: GridCell, n: nat): (s: seq<nat>)
    requires cellSize > 0.0 && n <= |ps|
    ensures forall j: nat :: j in s <==> j < n && CellOf(ps[j], cellSize) == c
    ensures forall i, j :: 0 <= i < j < |s| ==> s[i] < s[j]
  {
    if n == 0 then []
    else
      var rest := InCell(ps, cellSize, c, n - 1);
      assert forall i :: 0 <= i < |rest| ==> rest[i] in rest;
      if CellOf(ps[n - 1], cellSize) == c then rest + [n - 1] else rest
  }

  /** Each cell that holds one of the first n particles lists them, and no other cell is in the grid. */
  ghost predicate Lists(grid: map<GridCell, seq<nat>>, ps: seq<Particle>, cellSize: real, n: nat)
    requires cellSize > 0.0 && n <= |ps|
  {
    forall c :: (if c in grid then grid[c] else []) == InCell(ps, cellSize, c, n)
  }

  method BuildGrid(ps: seq<Particle>, cellSize: real) returns (grid: map<GridCell, seq<nat>>)
    requires cellSize > 0.0
    ensures Lists(grid, ps, cellSize, |ps|)
  {
    grid := map[];
    for i := 0 to |ps|
      invariant Lists(grid, ps, cellSize, i)
    {
      var key := CellOf(ps[i], cellSize);
      var cell := if key in grid then grid[key] else [];
      grid := grid[key := cell + [i]];
    }
  }

  // ---- The force loops ----------------------------------------------------------

  /** i has met j: j's cell comes before the offset (dx, dy) from i's, or is at it and j is in `done`. */
  predicate IsReached(ps: seq<Particle>, cellSize: real, dx: int, dy: int, done: seq<nat>, i: nat, j: nat)
    requires cellSize > 0.0
  {
    IsNear(ps, cellSize, i, j) &&
    var rx := CellOf(ps[j], cellSize).cx - CellOf(ps[i], cellSize).cx;
    var ry := CellOf(ps[j], cellSize).cy - CellOf(ps[i], cellSize).cy;
    rx < dx || (rx == dx && ry < dy) || (rx == dx && ry == dy && j in done)
  }

  ghost function Reached(ps: seq<Particle>, cellSize: real, dx: int, dy: int, done: seq<nat>): (nat, nat) -> bool
    requires cellSize > 0.0
  {
    (i: nat, j: nat) => IsReached(ps, cellSize, dx, dy, done, i, j)
  }

  /** The accelerations summed so far, and how many interactions that took. */
  datatype Tally = Tally(a: Vec, count: nat)

  /** How many of the first n particles i meets. */
  ghost function CountMet(meets: (nat, nat) -> bool, i: nat, n: nat): nat
  {
    if n == 0 then 0 else CountMet(meets, i, n - 1) + if meets(i, n - 1) then 1 else 0
  }

  /** The sums hold what particle i feels from the particles it has met, and their number. */
  ghost predicate FeltFrom(ph: Physics, ps: seq<Particle>, meets: (nat, nat) -> bool, i: nat, t: Tally)
    requires ph.Valid()
  {
    && t.a.x == Felt(ph, ps, meets, i, true) && t.a.y == Felt(ph, ps, meets, i, false)
    && t.count == CountMet(meets, i, |ps|)
  }

  lemma {:induction false} SameCount(meets: (nat, nat) -> bool, meets': (nat, nat) -> bool, i: nat, n: nat)
    requires forall j: nat :: j < n ==> meets(i, j) == meets'(i, j)
    ensures CountMet(meets, i, n) == CountMet(meets', i, n)
  {
    if n > 0 {
      SameCount(meets, meets', i, n - 1);
    }
  }

  lemma {:induction false} OneMoreCounted(meets: (nat, nat) -> bool, meets': (nat, nat) -> bool, i: nat, j: nat, n: nat)
    requires j < n && !meets(i, j) && meets'(i, j)
    requires forall k: nat :: k < n && k != j ==> meets(i, k) == meets'(i, k)
    ensures CountMet(meets', i, n) == CountMet(meets, i, n) + 1
  {
    if j == n - 1 {
      SameCount(meets, meets', i, n - 1);
    } else {
      OneMoreCounted(meets, meets', i, j, n - 1);
    }
  }

  lemma {:induction false} NobodyCounted(meets: (nat, nat) -> bool, i: nat, n: nat)
    requires forall j: nat :: j < n ==> !meets(i, j)
    ensures CountMet(meets, i, n) == 0
  {
    if n > 0 {
      NobodyCounted(meets, i, n - 1);
    }
  }

  lemma SameMeetings(ph: Physics, ps: seq<Particle>, meets: (nat, nat) -> bool, meets': (nat, nat) -> bool,
                     i: nat, t: Tally)
    requires ph.Valid() && i < |ps| && FeltFrom(ph, ps, meets, i, t)
    requires forall j: nat :: j < |ps| ==> meets(i, j) == meets'(i, j)
    ensures FeltFrom(ph, ps, meets', i, t)
  {
    SameCount(meets, meets', i, |ps|);
    forall alongX ensures Felt(ph, ps, meets, i, alongX) == Felt(ph, ps, meets', i, alongX) {
      var f, g := Terms(ph, ps, meets, i, alongX), Terms(ph, ps, meets', i, alongX);
      forall j: nat | j < |ps| ensures f(j) == g(j) {
      }
      SumEqual(|ps|, f, g);
    }
  }

  lemma OneMoreMeeting(ph: Physics, ps: seq<Particle>, meets: (nat, nat) -> bool, meets': (nat, nat) -> bool,
                       i: nat, j: nat, alongX: bool)
    requires ph.Valid() && i < |ps| && j < |ps| && !meets(i, j) && meets'(i, j)
    requires forall k: nat :: k < |ps| && k != j ==> meets(i, k) == meets'(i, k)
    ensures Felt(ph, ps, meets', i, alongX) == Felt(ph, ps, meets, i, alongX) + Pull(ph, ps[i], ps[j], alongX)
  {
    var f, g := Terms(ph, ps, meets, i, alongX), Terms(ph, ps, meets', i, alongX);
    forall k: nat | k < |ps| && k != j ensures f(k) == g(k) {
    }
    SumChanges(|ps|, j, f, g);
  }

  lemma OnlyThisOne(ps: seq<Particle>, cellSize: real, i: nat, dx: int, dy: int, done: seq<nat>, j: nat)
    requires cellSize > 0.0 && i < |ps| && j < |ps| && j !in done && -1 <= dx <= 1 && -1 <= dy <= 1
    requires CellOf(ps[j], cellSize) == GridCell(CellOf(ps[i], cellSize).cx + dx, CellOf(ps[i], cellSize).cy + dy)
    ensures var before, after := Reached(ps, cellSize, dx, dy, done), Reached(ps, cellSize, dx, dy, done + [j]);
            && !before(i, j) && (after(i, j) <==> i != j)
            && forall k: nat :: k < |ps| && k != j ==> before(i, k) == after(i, k)
  {
    forall k: nat | k < |ps| && k != j
      ensures IsReached(ps, cellSize, dx, dy, done, i, k) == IsReached(ps, cellSize, dx, dy, done + [j], i, k)
    {
    }
    assert IsNear(ps, cellSize, i, j) <==> i != j;
  }

  /** One entry of a cell's list: skipped if it is i itself, otherwise its pull is added. */
  method Meet(ph: Physics, ps: seq<Particle>, cellSize: real, i: nat, dx: int, dy: int, ghost done: seq<nat>,
              j: nat, t: Tally)
    returns (u: Tally)
    requires ph.Valid() && cellSize > 0.0 && i < |ps| && j < |ps| && j !in done
    requires -1 <= dx <= 1 && -1 <= dy <= 1
    requires CellOf(ps[j], cellSize) == GridCell(CellOf(ps[i], cellSize).cx + dx, CellOf(ps[i], cellSize).cy + dy)
    requires FeltFrom(ph, ps, Reached(ps, cellSize, dx, dy, done), i, t)
    ensures FeltFrom(ph, ps, Reached(ps, cellSize, dx, dy, done + [j]), i, u)
  {
    ghost var before, after := Reached(ps, cellSize, dx, dy, done), Reached(ps, cellSize, dx, dy, done + [j]);
    OnlyThisOne(ps, cellSize, i, dx, dy, done, j);
    if j == i {
      SameMeetings(ph, ps, before, after, i, t);
      return t;
    }
    OneMoreMeeting(ph, ps, before, after, i, j, true);
    OneMoreMeeting(ph, ps, before, after, i, j, false);
    OneMoreCounted(before, after, i, j, |ps|);
    var b := AddPull(ph, ps[i], ps[j], t.a);
    u := Tally(b, t.count + 1);
  }

  /** The inner loop over one neighbouring cell. */
  method MeetCell(ph: Physics, ps: seq<Particle>, grid: map<GridCell, seq<nat>>, cellSize: real,
                  i: nat, dx: int, dy: int, start: Tally)
    returns (t: Tally)
    requires ph.Valid() && cellSize > 0.0 && i < |ps| && -1 <= dx <= 1 && -1 <= dy <= 1
    requires Lists(grid, ps, cellSize, |ps|)
    requires FeltFrom(ph, ps, Reached(ps, cellSize, dx, dy, []), i, start)
    ensures FeltFrom(ph, ps, Reached(ps, cellSize, dx, dy + 1, []), i, t)
  {
    t := start;
    var key := GridCell(CellOf(ps[i], cellSize).cx + dx, CellOf(ps[i], cellSize).cy + dy);
    ghost var all := InCell(ps, cellSize, key, |ps|);
    assert (if key in grid then grid[key] else []) == all;
    if key in grid {
      var cell := grid[key];
      for k := 0 to |cell|
        invariant FeltFrom(ph, ps, Reached(ps, cellSize, dx, dy, cell[..k]), i, t)
      {
        assert cell[k] in all;
        assert cell[..k + 1] == cell[..k] + [cell[k]];
        t := Meet(ph, ps, cellSize, i, dx, dy, cell[..k], cell[k], t);
      }
      assert cell[..|cell|] == all;
    }
    CellDone(ph, ps, cellSize, i, dx, dy, all, t);
  }

  lemma CellDone(ph: Physics, ps: seq<Particle>, cellSize: real, i: nat, dx: int, dy: int, all: seq<nat>, t: Tally)
    requires ph.Valid() && cellSize > 0.0 && i < |ps|
    requires all
         == InCell(ps, cellSize, GridCell(CellOf(ps[i], cellSize).cx + dx, CellOf(ps[i], cellSize).cy + dy), |ps|)
    requires FeltFrom(ph, ps, Reached(ps, cellSize, dx, dy, all), i, t)
    ensures FeltFrom(ph, ps, Reached(ps, cellSize, dx, dy + 1, []), i, t)
  {
    var before, after := Reached(ps, cellSize, dx, dy, all), Reached(ps, cellSize, dx, dy + 1, []);
    forall j: nat | j < |ps| ensures before(i, j) == after(i, j) {
    }
    SameMeetings(ph, ps, before, after, i, t);
  }

  /** The loops over the 3 by 3 cells round particle i. */
  method MeetNeighbours(ph: Physics, ps: seq<Particle>, grid: map<GridCell, seq<nat>>, cellSize: real, i: nat)
    returns (t: Tally)
    requires ph.Valid() && cellSize > 0.0 && i < |ps| && Lists(grid, ps, cellSize, |ps|)
    ensures FeltFrom(ph, ps, Nearby(ps, cellSize), i, t)
  {
    t := Tally(Vec(0.0, 0.0), 0);
    NobodyMet(ph, ps, cellSize, i);
    for dx := -1 to 2
      invariant FeltFrom(ph, ps, Reached(ps, cellSize, dx, -1, []), i, t)
    {
      for dy := -1 to 2
        invariant FeltFrom(ph, ps, Reached(ps, cellSize, dx, dy, []), i, t)
      {
        t := MeetCell(ph, ps, grid, cellSize, i, dx, dy, t);
      }
      ghost var before, after := Reached(ps, cellSize, dx, 2, []), Reached(ps, cellSize, dx + 1, -1, []);
      forall j: nat | j < |ps| ensures before(i, j) == after(i, j) {
        assert IsReached(ps, cellSize, dx, 2, [], i, j) == IsReached(ps, cellSize, dx + 1, -1, [], i, j);
      }
      SameMeetings(ph, ps, before, after, i, t);
    }
    ghost var before, after := Reached(ps, cellSize, 2, -1, []), Nearby(ps, cellSize);
    forall j: nat | j < |ps| ensures before(i, j) == after(i, j) {
    }
    SameMeetings(ph, ps, before, after, i, t);
  }

  lemma NobodyMet(ph: Physics, ps: seq<Particle>, cellSize: real, i: nat)
    requires ph.Valid() && cellSize > 0.0 && i < |ps|
    ensures FeltFrom(ph, ps, Reached(ps, cellSize, -1, -1, []), i, Tally(Vec(0.0, 0.0), 0))
  {
    NobodyCounted(Reached(ps, cellSize, -1, -1, []), i, |ps|);
    forall alongX ensures Felt(ph, ps, Reached(ps, cellSize, -1, -1, []), i, alongX) == 0.0 {
      var f := Terms(ph, ps, Reached(ps, cellSize, -1, -1, []), i, alongX);
      forall j: nat | j < |ps| ensures f(j) == 0.0 {
        assert !IsReached(ps, cellSize, -1, -1, [], i, j);
      }
      SumZero(|ps|, f);
    }
  }

  /** How many ordered pairs among the first k particles and all others meet. */
  ghost function Interactions(meets: (nat, nat) -> bool, k: nat, n: nat): nat
  {
    if k == 0 then 0 else Interactions(meets, k - 1, n) + CountMet(meets, k - 1, n)
  }

  /** `computeForcesSpatial`, on accelerations that start at zero. */
  method ComputeForcesSpatial(ph: Physics, ps: array<Particle>, grid: map<GridCell, seq<nat>>, cellSize: real,
                              ax: array<real>, ay: array<real>)
    returns (interactions: nat)
    requires ph.Valid() && cellSize > 0.0 && ax != ay && ax.Length == ay.Length == ps.Length
    requires Lists(grid, ps[..], cellSize, ps.Length)
    modifies ax, ay
    ensures Vectors(ax[..], ay[..]) == FeltAll(ph, ps[..], Nearby(ps[..], cellSize))
    ensures interactions == Interactions(Nearby(ps[..], cellSize), ps.Length, ps.Length)
  {
    ghost var meets := Nearby(ps[..], cellSize);
    interactions := 0;
    for i := 0 to ps.Length
      invariant forall k: nat :: k < i ==>
        ax[k] == Felt(ph, ps[..], meets, k, true) && ay[k] == Felt(ph, ps[..], meets, k, false)
      invariant interactions == Interactions(meets, i, ps.Length)
    {
      var t := MeetNeighbours(ph, ps[..], grid, cellSize, i);
      ax[i], ay[i] := t.a.x, t.a.y;
      interactions := interactions + t.count;
    }
  }

  // ---- The step loop ------------------------------------------------------------

  /** How many ordered pairs meet, in the grid for these places. */
  ghost function Met(ph: Physics, sqrt: real -> real, ps: seq<Particle>): nat
    requires ph.softening > 0.0
  {
    Interactions(Nearby(ps, CellSize(ph, sqrt, ps)), |ps|, |ps|)
  }

  lemma {:induction false} SameInteractions(meets: (nat, nat) -> bool, meets': (nat, nat) -> bool, k: nat, n: nat)
    requires k <= n && forall i: nat, j: nat :: i < n && j < n ==> meets(i, j) == meets'(i, j)
    ensures Interactions(meets, k, n) == Interactions(meets', k, n)
  {
    if k > 0 {
      SameInteractions(meets, meets', k - 1, n);
      SameCount(meets, meets', k - 1, n);
    }
  }

  lemma SameMet(ph: Physics, sqrt: real -> real, ps: seq<Particle>, qs: seq<Particle>)
    requires ph.softening > 0.0 && SamePlaces(ps, qs)
    ensures Met(ph, sqrt, ps) == Met(ph, sqrt, qs)
  {
    SameCellSize(ph, sqrt, ps, qs);
    var c := CellSize(ph, sqrt, ps);
    var meets, meets' := Nearby(ps, c), Nearby(qs, c);
    forall i: nat, j: nat | i < |ps| && j < |ps| ensures meets(i, j) == meets'(i, j) {
    }
    SameInteractions(meets, meets', |ps|, |ps|);
  }

  ghost function Meetings(ph: Physics, sqrt: real -> real): seq<Particle> -> nat
    requires ph.softening > 0.0
  {
    (ps: seq<Particle>) => Met(ph, sqrt, ps)
  }

  /** What n steps count: each step those that meet before it and those that meet after it. */
  ghost function MetInSteps(met: seq<Particle> -> nat, law: Law, ps: seq<Particle>, dt: real, n: nat): nat
    requires PlaceLaw(law)
  {
    if n == 0 then 0
    else MetInSteps(met, law, ps, dt, n - 1) + met(Steps(law, ps, dt, n - 1)) + met(Steps(law, ps, dt, n))
  }

  lemma NextStep(met: seq<Particle> -> nat, law: Law, ps: seq<Particle>, dt: real, n: nat)
    requires PlaceLaw(law)
    ensures Steps(law, ps, dt, n + 1) == Step(law, Steps(law, ps, dt, n), dt)
    ensures MetInSteps(met, law, ps, dt, n + 1)
         == MetInSteps(met, law, ps, dt, n) + met(Steps(law, ps, dt, n)) + met(Steps(law, ps, dt, n + 1))
  {
  }

  /** The step loop of `express`. */
  method Run(ph: Physics, sqrt: real -> real, ps: array<Particle>, dt: real, steps: nat) returns (interactions: nat)
    requires ph.Valid()
    modifies ps
    ensures PlaceLaw(SpatialLaw(ph, sqrt))
    ensures ps[..] == Steps(SpatialLaw(ph, sqrt), old(ps[..]), dt, steps)
    ensures interactions == MetInSteps(Meetings(ph, sqrt), SpatialLaw(ph, sqrt), old(ps[..]), dt, steps)
  {
    SpatialIsPlaceLaw(ph, sqrt);
    ghost var start := ps[..];
    var ax, ay := new real[ps.Length], new real[ps.Length];
    interactions := 0;
    for step := 0 to steps
      invariant ps[..] == Steps(SpatialLaw(ph, sqrt), start, dt, step)
      invariant interactions == MetInSteps(Meetings(ph, sqrt), SpatialLaw(ph, sqrt), start, dt, step)
    {
      interactions := OneTurn(ph, sqrt, ps, ax, ay, dt, interactions, start, step);
    }
  }

  /** One turn of the loop and what it adds to the total. */
  method OneTurn(ph: Physics, sqrt: real -> real, ps: array<Particle>, ax: array<real>, ay: array<real>, dt: real,
                 before: nat, ghost start: seq<Particle>, ghost step: nat)
    returns (after: nat)
    requires ph.Valid() && PlaceLaw(SpatialLaw(ph, sqrt)) && ax != ay && ax.Length == ay.Length == ps.Length
    requires ps[..] == Steps(SpatialLaw(ph, sqrt), start, dt, step)
    requires before == MetInSteps(Meetings(ph, sqrt), SpatialLaw(ph, sqrt), start, dt, step)
    modifies ps, ax, ay
    ensures ps[..] == Steps(SpatialLaw(ph, sqrt), start, dt, step + 1)
    ensures after == MetInSteps(Meetings(ph, sqrt), SpatialLaw(ph, sqrt), start, dt, step + 1)
  {
    NextStep(Meetings(ph, sqrt), SpatialLaw(ph, sqrt), start, dt, step);
    var more := StepInPlace(ph, sqrt, ps, ax, ay, dt);
    after := before + more;
  }

  /** One turn of the step loop. */
  method StepInPlace(ph: Physics, sqrt: real -> real, ps: array<Particle>, ax: array<real>, ay: array<real>, dt: real)
    returns (interactions: nat)
    requires ph.Valid() && PlaceLaw(SpatialLaw(ph, sqrt)) && ax != ay && ax.Length == ay.Length == ps.Length
    modifies ps, ax, ay
    ensures ps[..] == Step(SpatialLaw(ph, sqrt), old(ps[..]), dt)
    ensures interactions == Met(ph, sqrt, old(ps[..])) + Met(ph, sqrt, ps[..])
  {
    var first := HalfStep(ph, sqrt, ps, ax, ay, dt);
    DriftInPlace(ps, dt);
    ghost var moved := ps[..];
    var second := HalfStep(ph, sqrt, ps, ax, ay, dt);
    SameMet(ph, sqrt, moved, ps[..]);
    interactions := first + second;
  }

  /** Build the grid for the current places, compute the forces, kick. */
  method HalfStep(ph: Physics, sqrt: real -> real, ps: array<Particle>, ax: array<real>, ay: array<real>, dt: real)
    returns (interactions: nat)
    requires ph.Valid() && ax != ay && ax.Length == ay.Length == ps.Length
    modifies ps, ax, ay
    ensures ps[..] == Kick(old(ps[..]), SpatialLaw(ph, sqrt)(old(ps[..])), dt)
    ensures interactions == Met(ph, sqrt, old(ps[..]))
  {
    var cellSize := CellSize(ph, sqrt, ps[..]);
    var grid := BuildGrid(ps[..], cellSize);
    interactions := ComputeForcesSpatial(ph, ps, grid, cellSize, ax, ay);
    KickInPlace(ps, ax, ay, dt);
  }
}
