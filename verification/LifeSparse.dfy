/** The sparse engine (genes/evolve-life-sparse): live cells scatter counts. */
module LifeSparse {
  import opened Common
  import opened Life

  // ---- Cell keys ----------------------------------------------------------------

  const STRIDE: nat := 65536

  function Key(c: Cell): int
  {
    c.y * STRIDE + c.x
  }

  /** `keyToXY`. */
  function KeyCell(key: nat): Cell
  {
    Cell(key % STRIDE, key / STRIDE)
  }

  lemma KeyCellInverts(c: Cell, key: nat)
    ensures 0 <= c.x < STRIDE && 0 <= c.y ==> Key(c) >= 0 && KeyCell(Key(c)) == c
    ensures Key(KeyCell(key)) == key && Key(c) == 65536 * c.y + c.x
  {
  }

  /** Every key names a cell of the board. */
  ghost predicate OnBoard(keys: set<int>, w: nat, h: nat)
  {
    forall k: int :: k in keys ==> k >= 0 && KeyCell(k) in AllCells(w, h)
  }

  lemma OnBoardKey(keys: set<int>, w: nat, h: nat, key: int)
    requires OnBoard(keys, w, h) && key in keys
    ensures key >= 0 && KeyCell(key) in AllCells(w, h)
  {
  }

  ghost function CellsOf(keys: set<int>, w: nat, h: nat): set<Cell>
  {
    set c | c in AllCells(w, h) && Key(c) in keys
  }

  // ---- What a cell receives -----------------------------------------------------

  /** The part of a cell's count that comes from row dy of its sources' offsets, left of `upto`. */
  function HitRow(w: nat, h: nat, src: set<Cell>, c: Cell, dy: int, upto: int): int
    requires -1 <= upto <= 2
    decreases upto + 1
  {
    if upto == -1 then 0
    else HitRow(w, h, src, c, dy, upto - 1) + Term(w, h, src, c, -dy, 1 - upto)
  }

  /** How often the cells of src, at offsets above row `upto`, reach c. */
  function HitSum(w: nat, h: nat, src: set<Cell>, c: Cell, upto: int): int
    requires -1 <= upto <= 2
    decreases upto + 1
  {
    if upto == -1 then 0
    else HitSum(w, h, src, c, upto - 1) + HitRow(w, h, src, c, upto - 1, 2)
  }

  lemma HitRowOfThree(w: nat, h: nat, src: set<Cell>, c: Cell, dy: int)
    ensures HitRow(w, h, src, c, dy, 2)
         == Term(w, h, src, c, -dy, 1) + Term(w, h, src, c, -dy, 0) + Term(w, h, src, c, -dy, -1)
  {
    assert HitRow(w, h, src, c, dy, 0) == Term(w, h, src, c, -dy, 1);
    assert HitRow(w, h, src, c, dy, 1) == HitRow(w, h, src, c, dy, 0) + Term(w, h, src, c, -dy, 0);
  }

  lemma HitThreeRows(w: nat, h: nat, src: set<Cell>, c: Cell)
    ensures HitSum(w, h, src, c, 2)
         == HitRow(w, h, src, c, -1, 2) + HitRow(w, h, src, c, 0, 2) + HitRow(w, h, src, c, 1, 2)
  {
    assert HitSum(w, h, src, c, 0) == HitRow(w, h, src, c, -1, 2);
    assert HitSum(w, h, src, c, 1) == HitSum(w, h, src, c, 0) + HitRow(w, h, src, c, 0, 2);
  }

  /** Summing over the cells that reach c is summing over c's neighbours. */
  lemma HitsAreNeighbors(w: nat, h: nat, src: set<Cell>, c: Cell)
    ensures HitSum(w, h, src, c, 2) == Neighbors(w, h, src, c)
  {
    forall dy | -1 <= dy <= 1 ensures HitRow(w, h, src, c, dy, 2) == RowSum(w, h, src, c, -dy, 2) {
      HitRowOfThree(w, h, src, c, dy);
      RowOfThree(w, h, src, c, -dy);
    }
    HitThreeRows(w, h, src, c);
    ThreeRows(w, h, src, c);
  }

  lemma TermAdds(w: nat, h: nat, a: set<Cell>, x: Cell, c: Cell, dy: int, dx: int)
    requires x !in a
    ensures Term(w, h, a + {x}, c, dy, dx) == Term(w, h, a, c, dy, dx) + Term(w, h, {x}, c, dy, dx)
  {
  }

  lemma NeighborsAdd(w: nat, h: nat, a: set<Cell>, x: Cell, c: Cell)
    requires x !in a
    ensures Neighbors(w, h, a + {x}, c) == Neighbors(w, h, a, c) + Neighbors(w, h, {x}, c)
  {
    forall dy | -1 <= dy <= 1
      ensures RowSum(w, h, a + {x}, c, dy, 2) == RowSum(w, h, a, c, dy, 2) + RowSum(w, h, {x}, c, dy, 2)
    {
      forall dx | -1 <= dx <= 1
        ensures Term(w, h, a + {x}, c, dy, dx) == Term(w, h, a, c, dy, dx) + Term(w, h, {x}, c, dy, dx)
      {
        TermAdds(w, h, a, x, c, dy, dx);
      }
      RowOfThree(w, h, a + {x}, c, dy);
      RowOfThree(w, h, a, c, dy);
      RowOfThree(w, h, {x}, c, dy);
    }
    ThreeRows(w, h, a + {x}, c);
    ThreeRows(w, h, a, c);
    ThreeRows(w, h, {x}, c);
  }

  /** The step from c back by an offset lands on x exactly when x's step by it lands on c. */
  lemma ShiftBack(w: nat, h: nat, c: Cell, x: Cell, dx: int, dy: int)
    requires c in AllCells(w, h) && x in AllCells(w, h) && -1 <= dx <= 1 && -1 <= dy <= 1
    ensures Shift(w, h, x, dx, dy) in AllCells(w, h)
    ensures Shift(w, h, c, -dx, -dy) == x <==> Shift(w, h, x, dx, dy) == c
  {
  }

  // ---- The count map ------------------------------------------------------------

  function Get(counts: map<int, int>, key: int): int
  {
    if key in counts then counts[key] else 0
  }

  /** `counts` holds keys of the board only, each with a count of at least 1. */
  ghost predicate CountsOnBoard(counts: map<int, int>, w: nat, h: nat)
  {
    OnBoard(counts.Keys, w, h) && forall k :: k in counts ==> counts[k] >= 1
  }

  /** Every cell's entry is what it had in `before` plus what it received from x so far. */
  ghost predicate Received(counts: map<int, int>, before: map<int, int>, w: nat, h: nat, x: Cell, dy: int, dx: int)
    requires -1 <= dx <= 2 && -1 <= dy <= 2
  {
    forall c :: c in AllCells(w, h) ==>
      Get(counts, Key(c)) == Get(before, Key(c)) + HitSum(w, h, {x}, c, dy) + HitRow(w, h, {x}, c, dy, dx)
  }

  /** One increment: only the cell at offset (dx, dy) from x gains. */
  lemma OneReceives(counts: map<int, int>, before: map<int, int>, w: nat, h: nat, x: Cell, dy: int, dx: int)
    requires w <= STRIDE && x in AllCells(w, h) && -1 <= dx <= 1 && -1 <= dy <= 1 && (dx != 0 || dy != 0)
    requires Received(counts, before, w, h, x, dy, dx)
    ensures var nk := Key(Shift(w, h, x, dx, dy));
            Received(counts[nk := Get(counts, nk) + 1], before, w, h, x, dy, dx + 1)
  {
    var to := Shift(w, h, x, dx, dy);
    var nk := Key(to);
    var after := counts[nk := Get(counts, nk) + 1];
    forall c | c in AllCells(w, h)
      ensures Get(after, Key(c)) == Get(before, Key(c)) + HitSum(w, h, {x}, c, dy) + HitRow(w, h, {x}, c, dy, dx + 1)
    {
      KeysDiffer(w, h, x, c, dy, dx);
      assert HitRow(w, h, {x}, c, dy, dx + 1) == HitRow(w, h, {x}, c, dy, dx) + Term(w, h, {x}, c, -dy, -dx);
    }
  }

  lemma KeysDiffer(w: nat, h: nat, x: Cell, c: Cell, dy: int, dx: int)
    requires w <= STRIDE && x in AllCells(w, h) && c in AllCells(w, h)
    requires -1 <= dx <= 1 && -1 <= dy <= 1 && (dx != 0 || dy != 0)
    ensures Term(w, h, {x}, c, -dy, -dx) == if Key(c) == Key(Shift(w, h, x, dx, dy)) then 1 else 0
  {
    ShiftBack(w, h, c, x, dx, dy);
    KeyCellInverts(c, 0);
    KeyCellInverts(Shift(w, h, x, dx, dy), 0);
  }

  lemma StaysOnBoard(counts: map<int, int>, w: nat, h: nat, x: Cell, dy: int, dx: int)
    requires w <= STRIDE && x in AllCells(w, h) && -1 <= dx <= 1 && -1 <= dy <= 1
    requires CountsOnBoard(counts, w, h)
    ensures var nk := Key(Shift(w, h, x, dx, dy));
            CountsOnBoard(counts[nk := Get(counts, nk) + 1], w, h)
  {
    ShiftBack(w, h, x, x, dx, dy);
    KeyCellInverts(Shift(w, h, x, dx, dy), 0);
  }

  /** The inner loops of `sparseStep`: the live cell (x, y) adds 1 to each of its eight neighbours. */
  method Scatter(before: map<int, int>, w: nat, h: nat, x: int, y: int) returns (counts: map<int, int>)
    requires w <= STRIDE && Cell(x, y) in AllCells(w, h) && CountsOnBoard(before, w, h)
    ensures CountsOnBoard(counts, w, h)
    ensures Received(counts, before, w, h, Cell(x, y), 2, -1)
  {
    counts := before;
    for dy := -1 to 2
      invariant CountsOnBoard(counts, w, h) && Received(counts, before, w, h, Cell(x, y), dy, -1)
    {
      counts := ScatterRow(counts, before, w, h, x, y, dy);
    }
  }

  method ScatterRow(start: map<int, int>, ghost before: map<int, int>, w: nat, h: nat, x: int, y: int, dy: int)
    returns (counts: map<int, int>)
    requires w <= STRIDE && Cell(x, y) in AllCells(w, h) && -1 <= dy <= 1
    requires CountsOnBoard(start, w, h) && Received(start, before, w, h, Cell(x, y), dy, -1)
    ensures CountsOnBoard(counts, w, h) && Received(counts, before, w, h, Cell(x, y), dy, 2)
  {
    counts := start;
    for dx := -1 to 2
      invariant CountsOnBoard(counts, w, h) && Received(counts, before, w, h, Cell(x, y), dy, dx)
    {
      if dy == 0 && dx == 0 {
        continue;
      }
      counts := ScatterOne(counts, before, w, h, x, y, dy, dx);
    }
  }

  method ShiftRound(w: nat, h: nat, x: int, y: int, dx: int, dy: int) returns (to: Cell)
    requires Cell(x, y) in AllCells(w, h) && -1 <= dx <= 1 && -1 <= dy <= 1
    ensures to == Shift(w, h, Cell(x, y), dx, dy)
  {
    var nx := WrapRound(x + dx, w);
    var ny := WrapRound(y + dy, h);
    to := Cell(nx, ny);
  }

  method ScatterOne(start: map<int, int>, ghost before: map<int, int>, w: nat, h: nat, x: int, y: int, dy: int, dx: int)
    returns (counts: map<int, int>)
    requires w <= STRIDE && Cell(x, y) in AllCells(w, h) && -1 <= dx <= 1 && -1 <= dy <= 1 && (dx != 0 || dy != 0)
    requires CountsOnBoard(start, w, h) && Received(start, before, w, h, Cell(x, y), dy, dx)
    ensures CountsOnBoard(counts, w, h) && Received(counts, before, w, h, Cell(x, y), dy, dx + 1)
  {
    HitAt(start, before, w, h, Cell(x, y), dy, dx);
    var to := ShiftRound(w, h, x, y, dx, dy);
    counts := Increment(start, Key(to));
  }

  method Pick<T>(s: set<T>) returns (k: T)
    requires s != {}
    ensures k in s
  {
    k :| k in s;
  }

  function Increment(counts: map<int, int>, key: int): map<int, int>
  {
    counts[key := Get(counts, key) + 1]
  }

  lemma HitAt(counts: map<int, int>, before: map<int, int>, w: nat, h: nat, x: Cell, dy: int, dx: int)
    requires w <= STRIDE && x in AllCells(w, h) && -1 <= dx <= 1 && -1 <= dy <= 1 && (dx != 0 || dy != 0)
    requires CountsOnBoard(counts, w, h) && Received(counts, before, w, h, x, dy, dx)
    ensures var after := Increment(counts, Key(Shift(w, h, x, dx, dy)));
            CountsOnBoard(after, w, h) && Received(after, before, w, h, x, dy, dx + 1)
  {
    OneReceives(counts, before, w, h, x, dy, dx);
    StaysOnBoard(counts, w, h, x, dy, dx);
  }

  // ---- The step -----------------------------------------------------------------

  /** Only cells that some live cell reaches are looked at. */
  function SparseNext(w: nat, h: nat, rule: Rule, alive: set<Cell>): set<Cell>
  {
    set c | c in Next(w, h, rule, alive) && Neighbors(w, h, alive, c) > 0
  }

  /** The counts after the live cells `done`. */
  ghost predicate Counted(counts: map<int, int>, w: nat, h: nat, done: set<Cell>)
  {
    forall c :: c in AllCells(w, h) ==> Get(counts, Key(c)) == Neighbors(w, h, done, c)
  }

  lemma CountedAdds(before: map<int, int>, counts: map<int, int>, w: nat, h: nat, done: set<Cell>, x: Cell)
    requires x !in done && Counted(before, w, h, done) && Received(counts, before, w, h, x, 2, -1)
    ensures Counted(counts, w, h, done + {x})
  {
    forall c | c in AllCells(w, h) ensures Get(counts, Key(c)) == Neighbors(w, h, done + {x}, c) {
      NeighborsAdd(w, h, done, x, c);
      HitsAreNeighbors(w, h, {x}, c);
    }
  }

  lemma NothingCounted(w: nat, h: nat)
    ensures Counted(map[], w, h, {})
  {
    forall c | c in AllCells(w, h) ensures Neighbors(w, h, {}, c) == 0 {
      RowOfThree(w, h, {}, c, -1);
      RowOfThree(w, h, {}, c, 0);
      RowOfThree(w, h, {}, c, 1);
      ThreeRows(w, h, {}, c);
    }
  }

  /** The first loop of `sparseStep`; the live cells are taken in any order. */
  method CountHits(alive: set<int>, w: nat, h: nat) returns (counts: map<int, int>)
    requires w <= STRIDE && OnBoard(alive, w, h)
    ensures CountsOnBoard(counts, w, h) && Counted(counts, w, h, CellsOf(alive, w, h))
  {
    counts := map[];
    var todo, done: set<int> := alive, {};
    NothingCounted(w, h);
    assert CellsOf(done, w, h) == {};
    while todo != {}
      invariant todo + done == alive && todo !! done
      invariant CountsOnBoard(counts, w, h) && Counted(counts, w, h, CellsOf(done, w, h))
      decreases todo
    {
      var key := Pick(todo);
      OnBoardKey(alive, w, h, key);
      ghost var before, x := counts, KeyCell(key);
      KeyCellInverts(x, key);
      counts := Scatter(counts, w, h, key % STRIDE, key / STRIDE);
      CountedAdds(before, counts, w, h, CellsOf(done, w, h), x);
      AddKey(done, w, h, key);
      todo, done := todo - {key}, done + {key};
    }
    assert done == alive;
  }

  lemma AddKey(keys: set<int>, w: nat, h: nat, key: nat)
    requires w <= STRIDE && KeyCell(key) in AllCells(w, h)
    ensures CellsOf(keys + {key}, w, h) == CellsOf(keys, w, h) + {KeyCell(key)}
  {
    forall c | c in AllCells(w, h) ensures Key(c) == key <==> c == KeyCell(key) {
      KeyCellInverts(c, key);
    }
  }

  /** Which keys of the count map go on living. */
  ghost predicate Selected(next: set<int>, alive: set<int>, counts: map<int, int>, rule: Rule, seen: set<int>)
    requires seen <= counts.Keys
  {
    && next <= seen
    && forall k :: k in seen ==> (k in next <==> counts[k] in (if k in alive then rule.survive else rule.birth))
  }

  /** The second loop of `sparseStep`; the entries are taken in any order. */
  method Select(alive: set<int>, counts: map<int, int>, rule: Rule) returns (next: set<int>)
    ensures Selected(next, alive, counts, rule, counts.Keys)
  {
    next := {};
    var todo := counts.Keys;
    while todo != {}
      invariant todo <= counts.Keys
      invariant Selected(next, alive, counts, rule, counts.Keys - todo)
      decreases todo
    {
      var key := Pick(todo);
      var count := counts[key];
      if key in alive {
        if count in rule.survive {
          next := next + {key};
        }
      } else {
        if count in rule.birth {
          next := next + {key};
        }
      }
      todo := todo - {key};
    }
    assert counts.Keys - todo == counts.Keys;
  }

  method SparseStep(alive: set<int>, w: nat, h: nat, rule: Rule) returns (next: set<int>)
    requires w <= STRIDE && OnBoard(alive, w, h)
    ensures OnBoard(next, w, h)
    ensures CellsOf(next, w, h) == SparseNext(w, h, rule, CellsOf(alive, w, h))
    ensures 0 !in rule.birth && 0 !in rule.survive ==> CellsOf(next, w, h) == Next(w, h, rule, CellsOf(alive, w, h))
  {
    var counts := CountHits(alive, w, h);
    next := Select(alive, counts, rule);
    SelectedCells(alive, counts, next, w, h, rule);
    if 0 !in rule.birth && 0 !in rule.survive {
      ScatterRefinesGather(w, h, rule, CellsOf(alive, w, h));
    }
  }

  lemma SelectedCells(alive: set<int>, counts: map<int, int>, next: set<int>, w: nat, h: nat, rule: Rule)
    requires w <= STRIDE && CountsOnBoard(counts, w, h) && Counted(counts, w, h, CellsOf(alive, w, h))
    requires Selected(next, alive, counts, rule, counts.Keys)
    ensures OnBoard(next, w, h)
    ensures CellsOf(next, w, h) == SparseNext(w, h, rule, CellsOf(alive, w, h))
  {
    var cells := CellsOf(alive, w, h);
    forall c | c in AllCells(w, h)
      ensures c in CellsOf(next, w, h) <==> c in SparseNext(w, h, rule, cells)
    {
      assert Get(counts, Key(c)) == Neighbors(w, h, cells, c);
      assert Key(c) in counts <==> Neighbors(w, h, cells, c) > 0;
    }
  }

  // ---- Refinement ---------------------------------------------------------------

  function SparseStepOf(w: nat, h: nat, rule: Rule): Board -> Board
  {
    (b: Board) => SparseNext(w, h, rule, b)
  }

  lemma NeighborsNotNegative(w: nat, h: nat, alive: set<Cell>, c: Cell)
    ensures Neighbors(w, h, alive, c) >= 0
  {
    RowOfThree(w, h, alive, c, -1);
    RowOfThree(w, h, alive, c, 0);
    RowOfThree(w, h, alive, c, 1);
    ThreeRows(w, h, alive, c);
  }

  /** With 0 in neither set of the rule the scatter step is the dense step on every board. */
  lemma ScatterRefinesGather(w: nat, h: nat, rule: Rule, alive: set<Cell>)
    requires 0 !in rule.birth && 0 !in rule.survive
    ensures SparseNext(w, h, rule, alive) == Next(w, h, rule, alive)
  {
    forall c {
      NeighborsNotNegative(w, h, alive, c);
    }
  }

  lemma {:induction false} SameSteps(f: Board -> Board, g: Board -> Board, start: Board, n: nat)
    requires forall b :: f(b) == g(b)
    ensures Evolve(f, start, n) == Evolve(g, start, n)
  {
    if n > 0 {
      SameSteps(f, g, start, n - 1);
    }
  }

  /** ... and so is every later generation. */
  lemma ScatterRefinesGathers(w: nat, h: nat, rule: Rule, alive: set<Cell>, n: nat)
    requires 0 !in rule.birth && 0 !in rule.survive
    ensures Evolve(SparseStepOf(w, h, rule), alive, n) == Evolve(StepOf(w, h, rule), alive, n)
  {
    forall b ensures SparseStepOf(w, h, rule)(b) == StepOf(w, h, rule)(b) {
      ScatterRefinesGather(w, h, rule, b);
    }
    SameSteps(SparseStepOf(w, h, rule), StepOf(w, h, rule), alive, n);
  }

  lemma LonelyCell(w: nat, h: nat, alive: set<Cell>, c: Cell)
    requires w >= 2 && h >= 2 && alive <= {c} && c in AllCells(w, h)
    ensures Neighbors(w, h, alive, c) == 0
  {
    RowOfThree(w, h, alive, c, -1);
    RowOfThree(w, h, alive, c, 0);
    RowOfThree(w, h, alive, c, 1);
    ThreeRows(w, h, alive, c);
  }

  /** The two engines agree on all boards exactly when 0 is in neither set of the rule. */
  lemma AgreeExactlyWithoutZero(w: nat, h: nat, rule: Rule)
    requires w >= 2 && h >= 2
    ensures (forall alive :: alive <= AllCells(w, h) ==> SparseNext(w, h, rule, alive) == Next(w, h, rule, alive))
       <==> 0 !in rule.birth && 0 !in rule.survive
  {
    var c := Cell(0, 0);
    assert c in AllCells(w, h);
    if 0 in rule.birth {
      LonelyCell(w, h, {}, c);
      assert c in Next(w, h, rule, {}) && c !in SparseNext(w, h, rule, {});
      assert {} <= AllCells(w, h);
    } else if 0 in rule.survive {
      LonelyCell(w, h, {c}, c);
      assert c in Next(w, h, rule, {c}) && c !in SparseNext(w, h, rule, {c});
      assert {c} <= AllCells(w, h);
    } else {
      forall alive | alive <= AllCells(w, h) ensures SparseNext(w, h, rule, alive) == Next(w, h, rule, alive) {
        ScatterRefinesGather(w, h, rule, alive);
      }
    }
  }

  // ---- Output -------------------------------------------------------------------

  method ToGrid(alive: set<int>, w: nat, h: nat) returns (grid: seq<seq<int>>)
    requires w <= STRIDE
    ensures grid == Grid(w, h, CellsOf(alive, w, h))
  {
    grid := [];
    for y := 0 to h
      invariant |grid| == y
      invariant forall j :: 0 <= j < y ==> grid[j] == Grid(w, h, CellsOf(alive, w, h))[j]
    {
      var row := seq(w, _ => 0);
      for x := 0 to w
        invariant |row| == w
        invariant forall i :: 0 <= i < w ==> row[i] == if i < x then One(Cell(i, y) in CellsOf(alive, w, h)) else 0
      {
        if Key(Cell(x, y)) in alive {
          row := row[x := 1];
        }
        assert Cell(x, y) in AllCells(w, h);
      }
      assert row == Grid(w, h, CellsOf(alive, w, h))[y];
      grid := grid + [row];
    }
  }

  // ---- Population and hash --------------------------------------------------------

  lemma PickOne<T>(s: set<T>) returns (k: T)
    requires s != {}
    ensures k in s
  {
    k :| k in s;
  }

  /** There are as many live cells as keys. */
  lemma {:induction false} AsManyCells(keys: set<int>, w: nat, h: nat)
    requires w <= STRIDE && OnBoard(keys, w, h)
    ensures |CellsOf(keys, w, h)| == |keys|
    decreases |keys|
  {
    if keys == {} {
      assert CellsOf(keys, w, h) == {};
    } else {
      var key := PickOne(keys);
      OnBoardKey(keys, w, h, key);
      var rest := keys - {key};
      AsManyCells(rest, w, h);
      AddKey(rest, w, h, key);
      KeyCellInverts(KeyCell(key), key);
      assert rest + {key} == keys && KeyCell(key) !in CellsOf(rest, w, h);
    }
  }

  function KeysOf(board: Board): set<int>
  {
    set c | c in board :: Key(c)
  }

  lemma KeysOfCells(keys: set<int>, w: nat, h: nat)
    requires OnBoard(keys, w, h)
    ensures KeysOf(CellsOf(keys, w, h)) == keys
  {
    forall k | k in keys ensures k in KeysOf(CellsOf(keys, w, h)) {
      OnBoardKey(keys, w, h, k);
      KeyCellInverts(KeyCell(k), k);
    }
  }

  /** An order in which a loop over the set can take its keys. */
  ghost predicate Orders(order: seq<int>, keys: set<int>)
  {
    && (forall k :: k in order <==> k in keys)
    && forall i, j :: 0 <= i < j < |order| ==> order[i] != order[j]
  }

  /** `((h << 5) - h + key) | 0` for each key in turn. */
  function HashKeys(order: seq<int>): int
  {
    if order == [] then 0 else Mix(HashKeys(order[..|order| - 1]), order[|order| - 1])
  }

  /** A hash of the board's keys, whichever order they were taken in. */
  ghost predicate IsHash(hash: int, keys: set<int>)
  {
    exists order :: Orders(order, keys) && hash == HashKeys(order)
  }

  /** `sparseHash`. */
  method SparseHash(alive: set<int>) returns (hash: int)
    ensures IsHash(hash, alive)
  {
    hash := 0;
    var todo := alive;
    ghost var order: seq<int> := [];
    while todo != {}
      invariant todo <= alive && Orders(order, alive - todo) && hash == HashKeys(order)
      decreases todo
    {
      var key := Pick(todo);
      hash := Mix(hash, key);
      NextKey(order, alive - todo, key);
      assert alive - (todo - {key}) == alive - todo + {key};
      todo, order := todo - {key}, order + [key];
    }
    assert alive - todo == alive;
  }

  lemma NextKey(order: seq<int>, keys: set<int>, key: int)
    requires Orders(order, keys) && key !in keys
    ensures Orders(order + [key], keys + {key}) && HashKeys(order + [key]) == Mix(HashKeys(order), key)
  {
    assert (order + [key])[..|order|] == order;
  }

  lemma OneKeyHashes(key: int)
    ensures HashKeys([key]) == Mix(0, key)
  {
    NextKey([], {}, key);
    assert [] + [key] == [key];
  }

  lemma TwoKeysHash(j: int, k: int, keys: set<int>)
    requires j != k && keys == {j} + {k}
    ensures IsHash(Mix(Mix(0, j), k), keys)
  {
    OneKeyHashes(j);
    assert Orders([j], {j});
    NextKey([j], {j}, k);
    assert Orders([j] + [k], keys);
  }

  lemma SmallMix(h: int, v: int)
    requires 0 <= h < 1024 && 0 <= v < 1024
    ensures Mix(h, v) == 31 * h + v
  {
    FitsInt32(h * 32);
    FitsInt32(h * 32 - h + v);
  }

  lemma FitsInt32(n: int)
    requires 0 <= n < 0x1_0000
    ensures ToInt32(n) == n
  {
  }

  lemma TwoMixes(j: int, k: int)
    requires 0 <= j < 1024 && 0 <= k < 1024
    ensures Mix(Mix(0, j), k) == 31 * j + k
  {
    SmallMix(0, j);
    SmallMix(j, k);
  }

  /** The same keys hash differently in different orders. */
  lemma HashDependsOnOrder(j: int, k: int, keys: set<int>)
    requires 0 <= j < k < 1024 && keys == {j} + {k}
    ensures IsHash(31 * j + k, keys) && IsHash(31 * k + j, keys) && 31 * j + k != 31 * k + j
  {
    TwoKeysHash(j, k, keys);
    TwoKeysHash(k, j, keys);
    TwoMixes(j, k);
    TwoMixes(k, j);
  }

  // ---- The generation loop ----------------------------------------------------------

  /** Each hash is one of the keys of its board. */
  ghost predicate KeysHashed(run: Trace)
  {
    |run.hashes| == |run.boards| && forall i :: 0 <= i < |run.boards| ==> IsHash(run.hashes[i], KeysOf(run.boards[i]))
  }

  lemma KeysHashedMore(run: Trace, after: Board, now: int)
    requires KeysHashed(run) && IsHash(now, KeysOf(after))
    ensures KeysHashed(run.Add(after, now))
  {
  }

  /** The next generation, and what it means for the loop. */
  method SparseTurn(alive: set<int>, w: nat, h: nat, rule: Rule, ghost start: Board, ghost run: Trace, ghost peak: int,
                    ghost prev: int, ghost prevPrev: Option<int>)
    returns (next: set<int>, hash: int, ghost after: Board)
    requires w <= STRIDE && OnBoard(alive, w, h) && run.boards != [] && KeysHashed(run)
    requires CellsOf(alive, w, h) == run.boards[|run.boards| - 1]
    requires Running(SparseStepOf(w, h, rule), Some(0), start, run, peak, prev, prevPrev)
    ensures OnBoard(next, w, h) && CellsOf(next, w, h) == after && |after| == |next|
    ensures KeysHashed(run.Add(after, hash))
    ensures Follows(SparseStepOf(w, h, rule), Some(0), start, run.Add(after, hash), peak, prev, prevPrev, after, hash)
  {
    next := SparseStep(alive, w, h, rule);
    hash := SparseHash(next);
    after := CellsOf(next, w, h);
    AsManyCells(next, w, h);
    KeysOfCells(next, w, h);
    KeysHashedMore(run, after, hash);
    OneMore(SparseStepOf(w, h, rule), Some(0), start, run, peak, prev, prevPrev, after, hash);
  }

  /**
   * The loop of `express`: it stops early at an empty set or when the hash of one or two generations
   * before comes back. The hash depends on the order of the keys, so a board that comes back in
   * another order may go unnoticed.
   */
  method SparseGenerations(start: set<int>, w: nat, h: nat, rule: Rule, maxGen: nat)
    returns (alive: set<int>, gen: nat, peak: int, extinction: bool, stabilizedAt: int, ghost run: Trace)
    requires w <= STRIDE && OnBoard(start, w, h)
    ensures gen <= maxGen && |run.boards| == gen + 1 && OnBoard(alive, w, h)
    ensures CellsOf(alive, w, h) == run.boards[gen] && KeysHashed(run)
    ensures Reports(SparseStepOf(w, h, rule), Some(0), CellsOf(start, w, h), run, peak, extinction, stabilizedAt)
    ensures gen < maxGen ==> extinction || stabilizedAt == gen
  {
    ghost var step, first := SparseStepOf(w, h, rule), CellsOf(start, w, h);
    alive, peak, stabilizedAt, extinction, gen := start, |start|, -1, false, 0;
    var prevHash := SparseHash(alive);
    var prevPrevHash := 0;
    run := Trace([first], [prevHash]);
    AsManyCells(start, w, h);
    KeysOfCells(start, w, h);
    StartsRunning(step, Some(0), first, prevHash);
    while gen < maxGen
      invariant gen <= maxGen && !extinction && stabilizedAt == -1 && |run.boards| == gen + 1
      invariant OnBoard(alive, w, h) && CellsOf(alive, w, h) == run.boards[gen] && KeysHashed(run)
      invariant Running(step, Some(0), first, run, peak, prevHash, Some(prevPrevHash))
    {
      var next, currentHash, after := SparseTurn(alive, w, h, rule, first, run, peak, prevHash, Some(prevPrevHash));
      alive, gen, run := next, gen + 1, run.Add(after, currentHash);
      if |alive| > peak {
        peak := |alive|;
      }
      if |alive| == 0 {
        extinction := true;
        break;
      }
      if currentHash == prevHash || currentHash == prevPrevHash {
        stabilizedAt := gen;
        break;
      }
      prevPrevHash, prevHash := prevHash, currentHash;
    }
    if !extinction && stabilizedAt == -1 {
      RunningReports(step, Some(0), first, run, peak, prevHash, Some(prevPrevHash));
    }
  }

  // ---- From input to output -----------------------------------------------------------

  /** One row of the input: `if (input.grid[y][x]) alive.add(cellKey(x, y))`. */
  method LoadRow(start: set<int>, w: nat, h: nat, input: seq<seq<int>>, y: nat) returns (alive: set<int>)
    requires w <= STRIDE && y < h && y < |input| && OnBoard(start, w, h)
    requires CellsOf(start, w, h) == Before(InputCells(w, h, input), y, 0)
    ensures OnBoard(alive, w, h) && CellsOf(alive, w, h) == Before(InputCells(w, h, input), y + 1, 0)
  {
    ghost var cells := InputCells(w, h, input);
    alive := start;
    var n := if |input[y]| < w then |input[y]| else w;
    for x := 0 to n
      invariant OnBoard(alive, w, h) && CellsOf(alive, w, h) == Before(cells, y, x)
    {
      InputBefore(w, h, input, y, x);
      BeforeAdds(cells, y, x);
      if input[y][x] != 0 {
        alive := AddCell(alive, w, h, x, y);
      }
    }
    InputRowEnds(w, h, input, y);
  }

  method AddCell(start: set<int>, w: nat, h: nat, x: nat, y: nat) returns (alive: set<int>)
    requires w <= STRIDE && x < w && y < h && OnBoard(start, w, h)
    ensures OnBoard(alive, w, h) && CellsOf(alive, w, h) == CellsOf(start, w, h) + {Cell(x, y)}
  {
    var key := Key(Cell(x, y));
    KeyCellInverts(Cell(x, y), 0);
    assert Cell(x, y) in AllCells(w, h);
    AddKey(start, w, h, key);
    alive := start + {key};
  }

  /** The input loops of `express`. */
  method Load(w: nat, h: nat, input: seq<seq<int>>) returns (alive: set<int>)
    requires w <= STRIDE
    ensures OnBoard(alive, w, h) && CellsOf(alive, w, h) == InputCells(w, h, input)
  {
    ghost var cells := InputCells(w, h, input);
    alive := {};
    assert CellsOf(alive, w, h) == Before(cells, 0, 0);
    var n := if |input| < h then |input| else h;
    for y := 0 to n
      invariant OnBoard(alive, w, h) && CellsOf(alive, w, h) == Before(cells, y, 0)
    {
      alive := LoadRow(alive, w, h, input, y);
    }
    assert Before(cells, n, 0) == cells;
  }

  /**
   * `express` on an input grid: what it returns is the sparse iterate of its last generation, and
   * with 0 in neither set of the rule the dense one.
   */
  method Express(input: seq<seq<int>>, w: nat, h: nat, rule: Rule, maxGen: nat)
    returns (rows: seq<seq<int>>, gen: nat, finalAlive: int)
    requires w <= STRIDE
    ensures gen <= maxGen
    ensures var last := Evolve(SparseStepOf(w, h, rule), InputCells(w, h, input), gen);
            rows == Grid(w, h, last) && finalAlive == |last|
    ensures 0 !in rule.birth && 0 !in rule.survive ==>
              var last := Evolve(StepOf(w, h, rule), InputCells(w, h, input), gen);
              rows == Grid(w, h, last) && finalAlive == |last|
  {
    var start := Load(w, h, input);
    var alive, g, _, _, _, run := SparseGenerations(start, w, h, rule, maxGen);
    gen := g;
    HistoryIsEvolution(SparseStepOf(w, h, rule), InputCells(w, h, input), run.boards, gen);
    AsManyCells(alive, w, h);
    rows := ToGrid(alive, w, h);
    finalAlive := |alive|;
    if 0 !in rule.birth && 0 !in rule.survive {
      ScatterRefinesGathers(w, h, rule, InputCells(w, h, input), gen);
    }
  }
}
