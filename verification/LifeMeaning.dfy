/** What Life steps and hashes mean. */
module LifeMeaning {
  import opened Radix
  import opened Bits
  import opened Life
  import opened LifeSparse
  import opened LifeBitwise

  // ---- Neighbours ----------------------------------------------------------------------

  /** The offsets to the eight neighbours. */
  ghost function Offsets(): set<(int, int)>
  {
    {(-1, -1), (0, -1), (1, -1), (-1, 0), (1, 0), (-1, 1), (0, 1), (1, 1)}
  }

  /** Those of the offsets at which l holds. */
  ghost function Chosen(offsets: set<(int, int)>, l: (int, int) -> bool): set<(int, int)>
  {
    set o | o in offsets && l(o.0, o.1)
  }

  lemma ChosenAdds(offsets: set<(int, int)>, l: (int, int) -> bool, dx: int, dy: int)
    requires (dx, dy) !in offsets
    ensures |Chosen(offsets + {(dx, dy)}, l)| == |Chosen(offsets, l)| + One(l(dx, dy))
  {
    var o := (dx, dy);
    if l(dx, dy) {
      assert Chosen(offsets + {o}, l) == Chosen(offsets, l) + {o};
    } else {
      assert Chosen(offsets + {o}, l) == Chosen(offsets, l);
    }
  }

  lemma ChosenThree(offsets: set<(int, int)>, l: (int, int) -> bool, a: (int, int), b: (int, int), c: (int, int))
    requires a !in offsets && b !in offsets && c !in offsets && a != b && b != c && a != c
    ensures |Chosen(offsets + {a} + {b} + {c}, l)|
         == |Chosen(offsets, l)| + One(l(a.0, a.1)) + One(l(b.0, b.1)) + One(l(c.0, c.1))
  {
    ChosenAdds(offsets, l, a.0, a.1);
    ChosenAdds(offsets + {a}, l, b.0, b.1);
    ChosenAdds(offsets + {a} + {b}, l, c.0, c.1);
  }

  lemma ChosenAbove(l: (int, int) -> bool)
    ensures |Chosen({(-1, -1), (0, -1), (1, -1)}, l)| == One(l(-1, -1)) + One(l(0, -1)) + One(l(1, -1))
  {
    ChosenThree({}, l, (-1, -1), (0, -1), (1, -1));
    assert Chosen({}, l) == {};
    assert {} + {(-1, -1)} + {(0, -1)} + {(1, -1)} == {(-1, -1), (0, -1), (1, -1)};
  }

  lemma ChosenBeside(offsets: set<(int, int)>, l: (int, int) -> bool)
    requires offsets == {(-1, -1), (0, -1), (1, -1)}
    ensures |Chosen(offsets + {(-1, 0)} + {(1, 0)}, l)| == |Chosen(offsets, l)| + One(l(-1, 0)) + One(l(1, 0))
  {
    ChosenAdds(offsets, l, -1, 0);
    ChosenAdds(offsets + {(-1, 0)}, l, 1, 0);
  }

  lemma ChosenUnder(offsets: set<(int, int)>, l: (int, int) -> bool)
    requires offsets == {(-1, -1), (0, -1), (1, -1)} + {(-1, 0)} + {(1, 0)}
    ensures |Chosen(Offsets(), l)| == |Chosen(offsets, l)| + One(l(-1, 1)) + One(l(0, 1)) + One(l(1, 1))
  {
    ChosenThree(offsets, l, (-1, 1), (0, 1), (1, 1));
    assert offsets + {(-1, 1)} + {(0, 1)} + {(1, 1)} == Offsets();
  }

  lemma ChosenSize(l: (int, int) -> bool)
    ensures |Chosen(Offsets(), l)|
         == One(l(-1, -1)) + One(l(0, -1)) + One(l(1, -1)) + One(l(-1, 0)) + One(l(1, 0))
            + One(l(-1, 1)) + One(l(0, 1)) + One(l(1, 1))
  {
    var above := {(-1, -1), (0, -1), (1, -1)};
    ChosenAbove(l);
    ChosenBeside(above, l);
    ChosenUnder(above + {(-1, 0)} + {(1, 0)}, l);
  }

  /** On a board that wraps round at its edges, is there life at this offset from c? */
  ghost function LifeAt(w: nat, h: nat, alive: Board, c: Cell): (int, int) -> bool
    requires w > 0 && h > 0
  {
    (dx: int, dy: int) => Cell((c.x + dx + w) % w, (c.y + dy + h) % h) in alive
  }

  lemma WrapIsRemainder(v: int, n: nat)
    requires n > 0 && -1 <= v <= n
    ensures Wrap(v, n) == (v + n) % n
  {
    DivideBack(if v < 0 then 0 else if v < n then 1 else 2, n, Wrap(v, n));
  }

  lemma TermIsLife(w: nat, h: nat, alive: Board, c: Cell, dx: int, dy: int)
    requires c in AllCells(w, h) && -1 <= dx <= 1 && -1 <= dy <= 1 && !(dx == 0 && dy == 0)
    ensures Term(w, h, alive, c, dy, dx) == One(LifeAt(w, h, alive, c)(dx, dy))
  {
    WrapIsRemainder(c.x + dx, w);
    WrapIsRemainder(c.y + dy, h);
  }

  /** The engines' count is the number of the eight offsets at which there is life. */
  lemma NeighborsAre(w: nat, h: nat, alive: Board, c: Cell)
    requires c in AllCells(w, h)
    ensures Neighbors(w, h, alive, c) == |Chosen(Offsets(), LifeAt(w, h, alive, c))|
  {
    var l := LifeAt(w, h, alive, c);
    ThreeRows(w, h, alive, c);
    RowOfThree(w, h, alive, c, -1);
    RowOfThree(w, h, alive, c, 0);
    RowOfThree(w, h, alive, c, 1);
    TermIsLife(w, h, alive, c, -1, -1);
    TermIsLife(w, h, alive, c, 0, -1);
    TermIsLife(w, h, alive, c, 1, -1);
    TermIsLife(w, h, alive, c, -1, 0);
    TermIsLife(w, h, alive, c, 1, 0);
    TermIsLife(w, h, alive, c, -1, 1);
    TermIsLife(w, h, alive, c, 0, 1);
    TermIsLife(w, h, alive, c, 1, 1);
    ChosenSize(l);
  }

  // ---- One generation ---------------------------------------------------------------------

  /** A living cell stays if its number of neighbours is in S, an empty one comes to life if it is in B. */
  lemma NextExactlyIf(w: nat, h: nat, rule: Rule, alive: Board, c: Cell)
    requires w > 0 && h > 0
    ensures c in Next(w, h, rule, alive) <==>
            && 0 <= c.x < w && 0 <= c.y < h
            && (c in alive ==> |Chosen(Offsets(), LifeAt(w, h, alive, c))| in rule.survive)
            && (c !in alive ==> |Chosen(Offsets(), LifeAt(w, h, alive, c))| in rule.birth)
  {
    if c in AllCells(w, h) {
      NeighborsAre(w, h, alive, c);
    }
  }

  /** The sparse step does the same, but only where there is a neighbour. */
  lemma SparseNextExactlyIf(w: nat, h: nat, rule: Rule, alive: Board, c: Cell)
    requires w > 0 && h > 0
    ensures c in SparseNext(w, h, rule, alive) <==>
            && 0 <= c.x < w && 0 <= c.y < h && |Chosen(Offsets(), LifeAt(w, h, alive, c))| > 0
            && (c in alive ==> |Chosen(Offsets(), LifeAt(w, h, alive, c))| in rule.survive)
            && (c !in alive ==> |Chosen(Offsets(), LifeAt(w, h, alive, c))| in rule.birth)
  {
    if c in AllCells(w, h) {
      NeighborsAre(w, h, alive, c);
    }
  }

  lemma NothingIsBorn(w: nat, h: nat, rule: Rule, alive: Board)
    requires w > 0 && h > 0 && rule.birth == {}
    ensures Next(w, h, rule, alive) <= alive
  {
    forall c | c in Next(w, h, rule, alive) ensures c in alive {
      NextExactlyIf(w, h, rule, alive, c);
    }
  }

  lemma {:induction false} Shrinks(step: Board -> Board, start: Board, n: nat)
    requires forall b :: step(b) <= b
    ensures Evolve(step, start, n) <= start
  {
    if n > 0 {
      Shrinks(step, start, n - 1);
    }
  }

  /** With nothing in B no cell ever comes to life. */
  lemma OnlyDeath(w: nat, h: nat, rule: Rule, alive: Board, n: nat)
    requires w > 0 && h > 0 && rule.birth == {}
    ensures Evolve(StepOf(w, h, rule), alive, n) <= alive
  {
    forall b ensures StepOf(w, h, rule)(b) <= b {
      NothingIsBorn(w, h, rule, b);
    }
    Shrinks(StepOf(w, h, rule), alive, n);
  }

  // ---- Hashes ---------------------------------------------------------------------------------

  /** The numbers as the digits of one number to base 31, the first one foremost. */
  ghost function Horner(s: seq<int>): int
  {
    if s == [] then 0 else 31 * Horner(s[..|s| - 1]) + s[|s| - 1]
  }

  /** A 32-bit signed number that differs from n by a multiple of 2^32. */
  ghost predicate Reduced(r: int, n: int)
  {
    -0x8000_0000 <= r < 0x8000_0000 && exists q: int :: r == n + 0x1_0000_0000 * q
  }

  lemma ReduceStep(n: int)
    ensures Reduced(ToInt32(n), n)
  {
    var m := n + 0x8000_0000;
    assert m == m / 0x1_0000_0000 * 0x1_0000_0000 + m % 0x1_0000_0000;
    var q := -(m / 0x1_0000_0000);
    assert ToInt32(n) == n + 0x1_0000_0000 * q;
  }

  /** One turn of the rolling hash: 31 times the hash and the next number, modulo 2^32. */
  lemma MixIs(h: int, v: int, n: int)
    requires Reduced(h, n)
    ensures Reduced(Mix(h, v), 31 * n + v)
  {
    var a := ToInt32(h * 32);
    ReduceStep(h * 32);
    ReduceStep(a - h + v);
    var p: int :| h == n + 0x1_0000_0000 * p;
    var q: int :| a == h * 32 + 0x1_0000_0000 * q;
    var r: int :| Mix(h, v) == a - h + v + 0x1_0000_0000 * r;
    assert Mix(h, v) == 31 * n + v + 0x1_0000_0000 * (31 * p + q + r);
  }

  /** The hash of keys in an order. */
  lemma {:induction false} KeysHashIs(order: seq<int>)
    ensures Reduced(HashKeys(order), Horner(order))
  {
    if order == [] {
      assert HashKeys(order) == Horner(order) + 0x1_0000_0000 * 0;
    } else {
      KeysHashIs(order[..|order| - 1]);
      MixIs(HashKeys(order[..|order| - 1]), order[|order| - 1], Horner(order[..|order| - 1]));
    }
  }

  /** The words as signed numbers. */
  ghost function Signed(words: seq<bv32>): (s: seq<int>)
    ensures |s| == |words|
  {
    seq(|words|, k requires 0 <= k < |words| =>
      if words[k] as int < 0x8000_0000 then words[k] as int else words[k] as int - 0x1_0000_0000)
  }

  lemma SignedIs(v: int)
    requires 0 <= v < 0x1_0000_0000
    ensures ToInt32(v) == if v < 0x8000_0000 then v else v - 0x1_0000_0000
  {
  }

  /** The hash of a packed board: over its words, read as signed numbers. */
  lemma {:induction false} WordsHashIs(words: seq<bv32>)
    ensures Reduced(HashWords(words), Horner(Signed(words)))
  {
    if words == [] {
      assert HashWords(words) == Horner(Signed(words)) + 0x1_0000_0000 * 0;
    } else {
      var front := words[..|words| - 1];
      WordsHashIs(front);
      SignedIs(words[|words| - 1] as int);
      assert Signed(words)[..|words| - 1] == Signed(front);
      MixIs(HashWords(front), ToInt32(words[|words| - 1] as int), Horner(Signed(front)));
    }
  }

  /** The first x cells of row y as 0s and 1s. */
  ghost function RowOf(alive: Board, y: int, x: nat): seq<int>
  {
    seq(x, i requires i >= 0 => One(Cell(i, y) in alive))
  }

  /** The first y rows, one after the other. */
  ghost function RowsOf(w: nat, alive: Board, y: nat): seq<int>
  {
    if y == 0 then [] else RowsOf(w, alive, y - 1) + RowOf(alive, y - 1, w)
  }

  lemma {:induction false} RowHashIs(alive: Board, y: int, x: nat, start: int, before: seq<int>)
    requires Reduced(start, Horner(before))
    ensures Reduced(HashRow(alive, y, x, start), Horner(before + RowOf(alive, y, x)))
  {
    if x == 0 {
      assert before + RowOf(alive, y, 0) == before;
    } else {
      var front, last := before + RowOf(alive, y, x - 1), One(Cell(x - 1, y) in alive);
      RowHashIs(alive, y, x - 1, start, before);
      assert before + RowOf(alive, y, x) == front + [last];
      assert (front + [last])[..|front|] == front;
      MixIs(HashRow(alive, y, x - 1, start), last, Horner(front));
    }
  }

  /** The dense hash: over the 0s and 1s of the grid, row by row. */
  lemma {:induction false} GridHashIs(w: nat, alive: Board, y: nat)
    ensures Reduced(HashRows(w, alive, y), Horner(RowsOf(w, alive, y)))
  {
    if y == 0 {
      assert HashRows(w, alive, 0) == Horner(RowsOf(w, alive, 0)) + 0x1_0000_0000 * 0;
    } else {
      GridHashIs(w, alive, y - 1);
      RowHashIs(alive, y - 1, w, HashRows(w, alive, y - 1), RowsOf(w, alive, y - 1));
    }
  }

  // ---- Where the packed engine keeps a cell ---------------------------------------------------------

  /** Cell (x, y) is bit x mod 32 of word x div 32 of row y, rows taking ceil(w / 32) words; all other bits are 0. */
  lemma BitOfCell(grid: array<bv32>, w: nat, h: nat, alive: Board, x: nat, y: nat)
    requires Packs(grid, w, h, WordsPerRow(w), alive) && x < 32 * ((w + 31) / 32) && y < h
    ensures y * ((w + 31) / 32) + x / 32 < grid.Length
    ensures Bit(grid[y * ((w + 31) / 32) + x / 32], x % 32) == 1 <==> x < w && Cell(x, y) in alive
  {
    var wpr := (w + 31) / 32;
    WordOfCell(x + 1, h, wpr, x, y);
    assert CellAt(wpr, y * wpr + x / 32, x % 32) == Cell(x, y);
    assert BitInt(grid[y * wpr + x / 32], x % 32) == One(Cell(x, y) in alive);
    assert Cell(x, y) in alive ==> Cell(x, y) in AllCells(w, h);
  }

  // ---- Grids -------------------------------------------------------------------------------------------

  /** The rows that show a board, given as input, are that board. */
  lemma GridReadsBack(w: nat, h: nat, alive: Board)
    requires alive <= AllCells(w, h)
    ensures InputCells(w, h, Grid(w, h, alive)) == alive
  {
    var g := Grid(w, h, alive);
    forall c | c in AllCells(w, h) ensures c in InputCells(w, h, g) <==> c in alive {
      assert |g[c.y]| == w && g[c.y][c.x] == One(c in alive);
    }
  }
}
