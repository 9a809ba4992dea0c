/** The bit-packed engine (genes/evolve-life-bitwise): 32 cells of a row to a word. */
module LifeBitwise {
  import opened Common
  import opened Radix
  import opened Bits
  import opened Life

  // ---- Where a cell is kept -----------------------------------------------------

  /** `wordsPerRow`. */
  function WordsPerRow(w: nat): (wpr: nat)
    ensures w <= 32 * wpr < w + 32
  {
    (w + 31) / 32
  }

  /** The cell that bit b of word k stands for; bits past the width are padding. */
  function CellAt(wpr: nat, k: nat, b: nat): Cell
    requires wpr > 0
  {
    Cell(k % wpr * 32 + b, k / wpr)
  }

  /** The word of cell (x, y). */
  function WordIndex(wpr: nat, x: nat, y: nat): nat
  {
    y * wpr + x / 32
  }

  lemma RowFits(y: nat, h: nat, wpr: nat, j: nat)
    requires y < h && j < wpr
    ensures y * wpr + j < h * wpr
  {
    assert h * wpr == y * wpr + (h - y) * wpr;
    MulMonotone(1, h - y, wpr);
  }

  lemma WordOfCell(w: nat, h: nat, wpr: nat, x: nat, y: nat)
    requires x < w <= 32 * wpr && y < h
    ensures WordIndex(wpr, x, y) < h * wpr
    ensures CellAt(wpr, WordIndex(wpr, x, y), x % 32) == Cell(x, y)
  {
    RowFits(y, h, wpr, x / 32);
    DivideBack(y, wpr, x / 32);
  }

  lemma WholeWord(k: nat, wpr: nat)
    requires wpr > 0
    ensures k == k / wpr * wpr + k % wpr
  {
  }

  lemma OneBitPerCell(wpr: nat, k: nat, b: nat, l: nat, c: nat)
    requires wpr > 0 && b < 32 && c < 32
    ensures CellAt(wpr, k, b) == CellAt(wpr, l, c) <==> k == l && b == c
  {
    WholeWord(k, wpr);
    WholeWord(l, wpr);
  }

  // ---- Packed boards ------------------------------------------------------------

  /** Every bit, padding included, is set exactly when its cell is alive. */
  ghost predicate Packs(grid: array<bv32>, w: nat, h: nat, wpr: nat, alive: Board)
    reads grid
  {
    && wpr > 0 && w <= 32 * wpr && grid.Length == h * wpr
    && alive <= AllCells(w, h)
    && forall k, b :: 0 <= k < grid.Length && 0 <= b < 32 ==>
         BitInt(grid[k], b) == One(CellAt(wpr, k, b) in alive)
  }

  /** Padding bits stay zero. */
  lemma PaddingIsZero(grid: array<bv32>, w: nat, h: nat, wpr: nat, alive: Board, k: nat, b: nat)
    requires Packs(grid, w, h, wpr, alive) && k < grid.Length && b < 32
    requires k % wpr * 32 + b >= w
    ensures Bit(grid[k], b) == 0
  {
    assert CellAt(wpr, k, b) !in AllCells(w, h);
    BitIsZeroOrOne(grid[k], b as bv5);
  }

  method GetBit(grid: array<bv32>, w: nat, h: nat, wpr: nat, x: nat, y: nat, ghost alive: Board) returns (r: int)
    requires Packs(grid, w, h, wpr, alive) && x < w && y < h
    ensures r == One(Cell(x, y) in alive)
  {
    WordOfCell(w, h, wpr, x, y);
    var wordIdx, bitIdx := WordIndex(wpr, x, y), x % 32;
    BitIsZeroOrOne(grid[wordIdx], bitIdx as bv5);
    r := Bit(grid[wordIdx], bitIdx) as int;
    assert r == BitInt(grid[wordIdx], bitIdx);
  }

  method SetBitOf(grid: array<bv32>, w: nat, h: nat, wpr: nat, x: nat, y: nat, ghost alive: Board)
    requires Packs(grid, w, h, wpr, alive) && x < w && y < h
    modifies grid
    ensures Packs(grid, w, h, wpr, alive + {Cell(x, y)})
  {
    WordOfCell(w, h, wpr, x, y);
    var wordIdx, bitIdx := WordIndex(wpr, x, y), x % 32;
    ghost var before := grid[wordIdx];
    forall k, b | 0 <= k < grid.Length && 0 <= b < 32
      ensures CellAt(wpr, k, b) == Cell(x, y) <==> k == wordIdx && b == bitIdx
    {
      OneBitPerCell(wpr, k, b, wordIdx, bitIdx);
    }
    forall b | 0 <= b < 32
      ensures BitInt(before | Mask(bitIdx), b) == if b == bitIdx then 1 else BitInt(before, b)
    {
      SetBit(before, bitIdx, b);
    }
    grid[wordIdx] := grid[wordIdx] | Mask(bitIdx);
  }

  // ---- The step -----------------------------------------------------------------

  /** `birthLut` and `surviveLut`: entry n is 1 when n is one of the rule's digits. */
  predicate IsLut(lut: seq<int>, digits: set<int>)
  {
    |lut| == 9 && forall n :: 0 <= n < 9 ==> lut[n] == One(n in digits)
  }

  /** What `parseRule` finds after B or S. */
  predicate RuleDigits(digits: seq<int>)
  {
    forall i :: 0 <= i < |digits| ==> 0 <= digits[i] <= 8
  }

  method BuildLut(digits: seq<int>) returns (lut: seq<int>)
    requires RuleDigits(digits)
    ensures IsLut(lut, set d | d in digits)
  {
    lut := seq(9, _ => 0);
    for i := 0 to |digits|
      invariant IsLut(lut, set d | d in digits[..i])
    {
      lut := lut[digits[i] := 1];
      assert forall d :: d in digits[..i + 1] <==> d in digits[..i] || d == digits[i];
    }
    assert digits[..|digits|] == digits;
  }

  /** The eight bits `step` adds up are the neighbours of the dense definition. */
  lemma EightNeighbors(w: nat, h: nat, alive: Board, c: Cell)
    ensures Neighbors(w, h, alive, c)
         == One(Shift(w, h, c, -1, -1) in alive) + One(Shift(w, h, c, 0, -1) in alive)
            + One(Shift(w, h, c, 1, -1) in alive) + One(Shift(w, h, c, -1, 0) in alive)
            + One(Shift(w, h, c, 1, 0) in alive) + One(Shift(w, h, c, -1, 1) in alive)
            + One(Shift(w, h, c, 0, 1) in alive) + One(Shift(w, h, c, 1, 1) in alive)
  {
    RowOfThree(w, h, alive, c, -1);
    RowOfThree(w, h, alive, c, 0);
    RowOfThree(w, h, alive, c, 1);
    ThreeRows(w, h, alive, c);
  }

  method CountNeighborBits(current: array<bv32>, w: nat, h: nat, wpr: nat, x: nat, y: nat, yn: nat, ys: nat,
                           ghost alive: Board)
    returns (neighbors: int)
    requires Packs(current, w, h, wpr, alive) && x < w && y < h
    requires yn == Wrap(y - 1, h) && ys == Wrap(y + 1, h)
    ensures neighbors == Neighbors(w, h, alive, Cell(x, y))
  {
    var xw := WrapRound(x - 1, w);
    var xe := WrapRound(x + 1, w);
    var nw := GetBit(current, w, h, wpr, xw, yn, alive);
    var n := GetBit(current, w, h, wpr, x, yn, alive);
    var ne := GetBit(current, w, h, wpr, xe, yn, alive);
    var west := GetBit(current, w, h, wpr, xw, y, alive);
    var east := GetBit(current, w, h, wpr, xe, y, alive);
    var sw := GetBit(current, w, h, wpr, xw, ys, alive);
    var s := GetBit(current, w, h, wpr, x, ys, alive);
    var se := GetBit(current, w, h, wpr, xe, ys, alive);
    neighbors := nw + n + ne + west + east + sw + s + se;
    EightNeighbors(w, h, alive, Cell(x, y));
  }

  lemma NeighborsAtMostEight(w: nat, h: nat, alive: Board, c: Cell)
    ensures 0 <= Neighbors(w, h, alive, c) <= 8
  {
    EightNeighbors(w, h, alive, c);
  }

  /** The table lookup for one cell. */
  method LivesNext(current: array<bv32>, w: nat, h: nat, wpr: nat, x: nat, y: nat, yn: nat, ys: nat,
                   birthLut: seq<int>, surviveLut: seq<int>, rule: Rule, ghost alive: Board)
    returns (lives: bool)
    requires Packs(current, w, h, wpr, alive) && x < w && y < h
    requires yn == Wrap(y - 1, h) && ys == Wrap(y + 1, h)
    requires IsLut(birthLut, rule.birth) && IsLut(surviveLut, rule.survive)
    ensures lives <==> Cell(x, y) in Next(w, h, rule, alive)
  {
    var neighbors := CountNeighborBits(current, w, h, wpr, x, y, yn, ys, alive);
    var isAlive := GetBit(current, w, h, wpr, x, y, alive);
    NeighborsAtMostEight(w, h, alive, Cell(x, y));
    assert Cell(x, y) in AllCells(w, h);
    lives := (if isAlive != 0 then surviveLut[neighbors] else birthLut[neighbors]) != 0;
  }

  method Clear(grid: array<bv32>, w: nat, h: nat, wpr: nat)
    requires wpr > 0 && w <= 32 * wpr && grid.Length == h * wpr
    modifies grid
    ensures Packs(grid, w, h, wpr, {})
  {
    for k := 0 to grid.Length
      invariant forall i :: 0 <= i < k ==> grid[i] == 0
    {
      grid[k] := 0;
    }
    forall k, b | 0 <= k < grid.Length && 0 <= b < 32 ensures BitInt(grid[k], b) == 0 {
      ZeroHasNoBits(b);
    }
  }

  /** One row of `step`; `after` is the board the cells are looked up in. */
  method StepRow(current: array<bv32>, next: array<bv32>, w: nat, h: nat, wpr: nat, y: nat,
                 birthLut: seq<int>, surviveLut: seq<int>, rule: Rule, ghost alive: Board)
    requires current != next && y < h && Packs(current, w, h, wpr, alive)
    requires Packs(next, w, h, wpr, Before(Next(w, h, rule, alive), y, 0))
    requires IsLut(birthLut, rule.birth) && IsLut(surviveLut, rule.survive)
    modifies next
    ensures Packs(next, w, h, wpr, Before(Next(w, h, rule, alive), y, w))
  {
    var yn := WrapRound(y - 1, h);
    var ys := WrapRound(y + 1, h);
    for x := 0 to w
      invariant Packs(current, w, h, wpr, alive)
      invariant Packs(next, w, h, wpr, Before(Next(w, h, rule, alive), y, x))
    {
      var lives := LivesNext(current, w, h, wpr, x, y, yn, ys, birthLut, surviveLut, rule, alive);
      PutBit(next, w, h, wpr, x, y, lives, Next(w, h, rule, alive));
    }
  }

  method PutBit(next: array<bv32>, w: nat, h: nat, wpr: nat, x: nat, y: nat, lives: bool, ghost board: Board)
    requires x < w && y < h && (lives <==> Cell(x, y) in board)
    requires Packs(next, w, h, wpr, Before(board, y, x))
    modifies next
    ensures Packs(next, w, h, wpr, Before(board, y, x + 1))
  {
    BeforeAdds(board, y, x);
    if lives {
      SetBitOf(next, w, h, wpr, x, y, Before(board, y, x));
    } else {
      assert Before(board, y, x + 1) == Before(board, y, x);
    }
  }

  method StepBits(current: array<bv32>, next: array<bv32>, w: nat, h: nat, wpr: nat,
                  birthLut: seq<int>, surviveLut: seq<int>, rule: Rule, ghost alive: Board)
    requires current != next && Packs(current, w, h, wpr, alive) && next.Length == h * wpr
    requires IsLut(birthLut, rule.birth) && IsLut(surviveLut, rule.survive)
    modifies next
    ensures Packs(next, w, h, wpr, Next(w, h, rule, alive))
  {
    Clear(next, w, h, wpr);
    assert Next(w, h, rule, alive) <= AllCells(w, h);
    BeforeNextRow(w, h, Next(w, h, rule, alive), 0);
    for y := 0 to h
      invariant Packs(current, w, h, wpr, alive)
      invariant Packs(next, w, h, wpr, Before(Next(w, h, rule, alive), y, 0))
    {
      StepRow(current, next, w, h, wpr, y, birthLut, surviveLut, rule, alive);
      BeforeNextRow(w, h, Next(w, h, rule, alive), y);
    }
  }

  // ---- Population ---------------------------------------------------------------

  /** The living cells of the first words, and of the first bits of word k. */
  ghost function Packed(wpr: nat, alive: Board, k: int, b: int): Board
    requires wpr > 0
  {
    set c | c in alive && (Word(wpr, c) < k || (Word(wpr, c) == k && c.x % 32 < b))
  }

  ghost function Word(wpr: nat, c: Cell): int
  {
    c.y * wpr + c.x / 32
  }

  lemma WordOfBit(wpr: nat, k: nat, b: nat, c: Cell)
    requires wpr > 0 && b < 32 && 0 <= c.x < 32 * wpr && 0 <= c.y
    ensures Word(wpr, c) == k && c.x % 32 == b <==> c == CellAt(wpr, k, b)
  {
    WholeWord(k, wpr);
    DivideBack(c.y, wpr, c.x / 32);
  }

  lemma PackedGrows(w: nat, h: nat, wpr: nat, alive: Board, k: nat, b: nat)
    requires wpr > 0 && b < 32 && w <= 32 * wpr && alive <= AllCells(w, h)
    ensures |Packed(wpr, alive, k, b + 1)| == |Packed(wpr, alive, k, b)| + One(CellAt(wpr, k, b) in alive)
  {
    var c := CellAt(wpr, k, b);
    forall d | d in alive ensures Word(wpr, d) == k && d.x % 32 == b <==> d == c {
      WordOfBit(wpr, k, b, d);
    }
    if c in alive {
      assert Packed(wpr, alive, k, b + 1) == Packed(wpr, alive, k, b) + {c};
    } else {
      assert Packed(wpr, alive, k, b + 1) == Packed(wpr, alive, k, b);
    }
  }

  lemma {:induction false} WordPopulation(w: nat, h: nat, wpr: nat, alive: Board, k: nat, v: bv32, n: nat)
    requires wpr > 0 && w <= 32 * wpr && alive <= AllCells(w, h) && n <= 32
    requires forall b :: 0 <= b < 32 ==> BitInt(v, b) == One(CellAt(wpr, k, b) in alive)
    ensures |Packed(wpr, alive, k, n)| == |Packed(wpr, alive, k, 0)| + CountBits(v, n)
  {
    if n > 0 {
      WordPopulation(w, h, wpr, alive, k, v, n - 1);
      PackedGrows(w, h, wpr, alive, k, n - 1);
    }
  }

  lemma AllPacked(w: nat, h: nat, wpr: nat, alive: Board)
    requires wpr > 0 && w <= 32 * wpr && alive <= AllCells(w, h)
    ensures Packed(wpr, alive, 0, 0) == {} && Packed(wpr, alive, h * wpr, 0) == alive
    ensures forall k :: Packed(wpr, alive, k, 32) == Packed(wpr, alive, k + 1, 0)
  {
    forall c | c in alive ensures 0 <= Word(wpr, c) < h * wpr {
      RowFits(c.y, h, wpr, c.x / 32);
    }
  }

  /** `countAlive`: the parallel bit counts of all words add up to the population. */
  method CountAliveBits(grid: array<bv32>, w: nat, h: nat, wpr: nat, ghost alive: Board) returns (count: int)
    requires Packs(grid, w, h, wpr, alive)
    ensures count == |alive|
  {
    count := 0;
    AllPacked(w, h, wpr, alive);
    for k := 0 to grid.Length
      invariant count == |Packed(wpr, alive, k, 0)|
    {
      PopcountCounts(grid[k]);
      WordPopulation(w, h, wpr, alive, k, grid[k], 32);
      count := count + Popcount(grid[k]);
    }
  }

  // ---- The generation loop ------------------------------------------------------

  /** The hash of the first k words: `((h << 5) - h + grid[i]) | 0`, words read as signed. */
  function HashWords(words: seq<bv32>): int
  {
    if words == [] then 0 else Mix(HashWords(words[..|words| - 1]), ToInt32(words[|words| - 1] as int))
  }

  method ComputeWordHash(grid: array<bv32>) returns (hash: int)
    ensures hash == HashWords(grid[..])
  {
    hash := 0;
    for k := 0 to grid.Length
      invariant hash == HashWords(grid[..k])
    {
      hash := Mix(hash, ToInt32(grid[k] as int));
      assert grid[..k + 1][..k] == grid[..k];
    }
    assert grid[..grid.Length] == grid[..];
  }

  /** Which bits of word k are set. */
  function BitsAt(wpr: nat, alive: Board, k: nat): nat -> bool
    requires wpr > 0
  {
    (b: nat) => CellAt(wpr, k, b) in alive
  }

  function WordsOf(h: nat, wpr: nat, alive: Board): seq<bv32>
    requires wpr > 0
  {
    seq(h * wpr, k requires k >= 0 => FromBits(BitsAt(wpr, alive, k), 32))
  }

  /** A board is packed in one way only. */
  lemma PackedOneWay(grid: array<bv32>, w: nat, h: nat, wpr: nat, alive: Board)
    requires Packs(grid, w, h, wpr, alive)
    ensures grid[..] == WordsOf(h, wpr, alive)
  {
    forall k | 0 <= k < grid.Length ensures grid[k] == FromBits(BitsAt(wpr, alive, k), 32) {
      assert forall b: nat :: b < 32 ==> BitInt(grid[k], b) == One(BitsAt(wpr, alive, k)(b));
      OnlyWord(BitsAt(wpr, alive, k), grid[k]);
    }
  }

  /** The hash of a board, over the words it is packed in. */
  function PackedHash(h: nat, wpr: nat): Board -> int
    requires wpr > 0
  {
    (alive: Board) => HashWords(WordsOf(h, wpr, alive))
  }

  method GenerationBits(current: array<bv32>, next: array<bv32>, w: nat, h: nat, wpr: nat,
                        birthLut: seq<int>, surviveLut: seq<int>, rule: Rule, ghost alive: Board)
    returns (count: int, hash: int, ghost after: Board)
    requires current != next && Packs(current, w, h, wpr, alive) && next.Length == h * wpr
    requires IsLut(birthLut, rule.birth) && IsLut(surviveLut, rule.survive)
    modifies next
    ensures after == StepOf(w, h, rule)(alive) && Packs(next, w, h, wpr, after)
    ensures count == |after| && hash == PackedHash(h, wpr)(after)
  {
    after := Next(w, h, rule, alive);
    StepBits(current, next, w, h, wpr, birthLut, surviveLut, rule, alive);
    count := CountAliveBits(next, w, h, wpr, after);
    hash := ComputeWordHash(next);
    PackedOneWay(next, w, h, wpr, after);
  }

  /** The next generation, and what it means for the loop. */
  method TurnBits(current: array<bv32>, next: array<bv32>, w: nat, h: nat, wpr: nat, birthLut: seq<int>,
                  surviveLut: seq<int>, rule: Rule, ghost start: Board, ghost run: Trace, ghost peak: int,
                  ghost prev: int, ghost prevPrev: Option<int>)
    returns (count: int, hash: int, ghost after: Board)
    requires current != next && next.Length == h * wpr && run.boards != []
    requires IsLut(birthLut, rule.birth) && IsLut(surviveLut, rule.survive)
    requires Packs(current, w, h, wpr, run.boards[|run.boards| - 1]) && Hashed(PackedHash(h, wpr), run)
    requires Running(StepOf(w, h, rule), Some(0), start, run, peak, prev, prevPrev)
    modifies next
    ensures Packs(next, w, h, wpr, after) && count == |after| && Hashed(PackedHash(h, wpr), run.Add(after, hash))
    ensures Follows(StepOf(w, h, rule), Some(0), start, run.Add(after, hash), peak, prev, prevPrev, after, hash)
  {
    count, hash, after :=
      GenerationBits(current, next, w, h, wpr, birthLut, surviveLut, rule, run.boards[|run.boards| - 1]);
    HashedMore(PackedHash(h, wpr), run, after);
    OneMore(StepOf(w, h, rule), Some(0), start, run, peak, prev, prevPrev, after, hash);
  }

  /**
   * The double-buffered loop of `express`: the packed grid it ends with unpacks to the generation
   * of the dense rule whose number it returns. It stops early at an empty board or when the hash
   * of one or two generations before comes back; before the start that is 0.
   */
  method GenerationsBits(gridA: array<bv32>, gridB: array<bv32>, w: nat, h: nat, wpr: nat,
                         birthLut: seq<int>, surviveLut: seq<int>, rule: Rule, maxGen: nat, ghost alive: Board)
    returns (final: array<bv32>, gen: nat, peak: int, extinction: bool, stabilizedAt: int, ghost run: Trace)
    requires gridA != gridB && Packs(gridA, w, h, wpr, alive) && gridB.Length == h * wpr
    requires IsLut(birthLut, rule.birth) && IsLut(surviveLut, rule.survive)
    modifies gridA, gridB
    ensures final == gridA || final == gridB
    ensures gen <= maxGen && |run.boards| == gen + 1 && Packs(final, w, h, wpr, run.boards[gen])
    ensures Reports(StepOf(w, h, rule), Some(0), alive, run, peak, extinction, stabilizedAt)
    ensures Hashed(PackedHash(h, wpr), run)
    ensures gen < maxGen ==> extinction || stabilizedAt == gen
  {
    ghost var step, hash := StepOf(w, h, rule), PackedHash(h, wpr);
    var other := gridB;
    final := gridA;
    peak := CountAliveBits(final, w, h, wpr, alive);
    stabilizedAt, extinction, gen := -1, false, 0;
    var prevHash := ComputeWordHash(final);
    var prevPrevHash := 0;
    PackedOneWay(final, w, h, wpr, alive);
    run := Trace([alive], [prevHash]);
    StartsRunning(step, Some(0), alive, prevHash);
    while gen < maxGen
      invariant (final == gridA && other == gridB) || (final == gridB && other == gridA)
      invariant other.Length == h * wpr
      invariant gen <= maxGen && !extinction && stabilizedAt == -1 && |run.boards| == gen + 1
      invariant Packs(final, w, h, wpr, run.boards[gen]) && Hashed(hash, run)
      invariant Running(step, Some(0), alive, run, peak, prevHash, Some(prevPrevHash))
    {
      var count, currentHash, after := TurnBits(final, other, w, h, wpr, birthLut, surviveLut, rule, alive, run,
                                                peak, prevHash, Some(prevPrevHash));
      final, other, gen, run := other, final, gen + 1, run.Add(after, currentHash);
      if count > peak {
        peak := count;
      }
      if count == 0 {
        extinction := true;
        break;
      }
      if currentHash == prevHash || currentHash == prevPrevHash {
        stabilizedAt := gen;
        break;
      }
      prevPrevHash, prevHash := prevHash, currentHash;
    }
    if !extinction && stabilizedAt == -1 {
      RunningReports(step, Some(0), alive, run, peak, prevHash, Some(prevPrevHash));
    }
  }

  /** `bitGridToArray`. */
  method Unpack(grid: array<bv32>, w: nat, h: nat, wpr: nat, ghost alive: Board) returns (rows: seq<seq<int>>)
    requires Packs(grid, w, h, wpr, alive)
    ensures rows == Grid(w, h, alive)
  {
    rows := [];
    for y := 0 to h
      invariant |rows| == y
      invariant forall j :: 0 <= j < y ==> rows[j] == Grid(w, h, alive)[j]
    {
      var row: seq<int> := [];
      for x := 0 to w
        invariant |row| == x
        invariant forall i :: 0 <= i < x ==> row[i] == One(Cell(i, y) in alive)
      {
        var bit := GetBit(grid, w, h, wpr, x, y, alive);
        row := row + [bit];
      }
      assert row == Grid(w, h, alive)[y];
      rows := rows + [row];
    }
  }

  // ---- From input to output -----------------------------------------------------------

  /** One row of the input: `if (input.grid[y][x]) setBit(gridA, wpr, x, y)`. */
  method LoadRow(grid: array<bv32>, w: nat, h: nat, wpr: nat, input: seq<seq<int>>, y: nat)
    requires y < h && y < |input| && Packs(grid, w, h, wpr, Before(InputCells(w, h, input), y, 0))
    modifies grid
    ensures Packs(grid, w, h, wpr, Before(InputCells(w, h, input), y + 1, 0))
  {
    ghost var cells := InputCells(w, h, input);
    var n := if |input[y]| < w then |input[y]| else w;
    for x := 0 to n
      invariant Packs(grid, w, h, wpr, Before(cells, y, x))
    {
      InputBefore(w, h, input, y, x);
      BeforeAdds(cells, y, x);
      if input[y][x] != 0 {
        SetBitOf(grid, w, h, wpr, x, y, Before(cells, y, x));
      } else {
        assert Before(cells, y, x + 1) == Before(cells, y, x);
      }
    }
    InputRowEnds(w, h, input, y);
  }

  /** The input loops of `express`, on a fresh grid. */
  method Load(w: nat, h: nat, wpr: nat, input: seq<seq<int>>) returns (grid: array<bv32>)
    requires wpr > 0 && w <= 32 * wpr
    ensures fresh(grid) && Packs(grid, w, h, wpr, InputCells(w, h, input))
  {
    ghost var cells := InputCells(w, h, input);
    grid := new bv32[h * wpr];
    Clear(grid, w, h, wpr);
    assert Before(cells, 0, 0) == {};
    var n := if |input| < h then |input| else h;
    for y := 0 to n
      invariant Packs(grid, w, h, wpr, Before(cells, y, 0))
    {
      LoadRow(grid, w, h, wpr, input, y);
    }
    assert Before(cells, n, 0) == cells;
  }

  /** `express` on an input grid: what it returns is the dense iterate of its last generation. */
  method Express(input: seq<seq<int>>, w: nat, h: nat, birth: seq<int>, survive: seq<int>, maxGen: nat)
    returns (rows: seq<seq<int>>, gen: nat, finalAlive: int)
    requires w > 0 && RuleDigits(birth) && RuleDigits(survive)
    ensures gen <= maxGen
    ensures var rule := Rule(set d | d in birth, set d | d in survive);
            var last := Evolve(StepOf(w, h, rule), InputCells(w, h, input), gen);
            rows == Grid(w, h, last) && finalAlive == |last|
  {
    var rule := Rule(set d | d in birth, set d | d in survive);
    var birthLut := BuildLut(birth);
    var surviveLut := BuildLut(survive);
    var wpr := WordsPerRow(w);
    var gridA := Load(w, h, wpr, input);
    var gridB := new bv32[h * wpr];
    var final, g, _, _, _, run :=
      GenerationsBits(gridA, gridB, w, h, wpr, birthLut, surviveLut, rule, maxGen, InputCells(w, h, input));
    gen := g;
    HistoryIsEvolution(StepOf(w, h, rule), InputCells(w, h, input), run.boards, gen);
    rows := Unpack(final, w, h, wpr, run.boards[gen]);
    finalAlive := CountAliveBits(final, w, h, wpr, run.boards[gen]);
  }
}
