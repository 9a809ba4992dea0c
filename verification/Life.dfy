/** The dense Life engine (genes/evolve-life), the reference for the others. */
module Life {
  import opened Common

  datatype Cell = Cell(x: int, y: int)

  datatype Rule = Rule(birth: set<int>, survive: set<int>)

  function One(b: bool): int { if b then 1 else 0 }

  function AllCells(w: nat, h: nat): set<Cell>
  {
    set x, y | 0 <= x < w && 0 <= y < h :: Cell(x, y)
  }

  /** One step over an edge comes back in on the other side. */
  function Wrap(v: int, n: nat): int
  {
    if v < 0 then v + n else if v >= n then v - n else v
  }

  /** The wrap as the engines write it: a remainder. */
  method WrapRound(v: int, n: nat) returns (r: nat)
    requires n > 0 && -1 <= v <= n
    ensures r == Wrap(v, n) && r < n
  {
    if v == n {
      assert (n + n) % n == 0;
    } else if v >= 0 {
      assert (v + n) % n == v;
    }
    r := (v + n) % n;
  }

  /** The neighbour of c at offset (dx, dy), wrapping round at the edges. */
  function Shift(w: nat, h: nat, c: Cell, dx: int, dy: int): Cell
  {
    Cell(Wrap(c.x + dx, w), Wrap(c.y + dy, h))
  }

  // ---- Neighbour counts ---------------------------------------------------------

  /** The contribution of one offset; the cell itself does not count. */
  function Term(w: nat, h: nat, alive: set<Cell>, c: Cell, dy: int, dx: int): int
  {
    if dy == 0 && dx == 0 then 0 else One(Shift(w, h, c, dx, dy) in alive)
  }

  /** Sum over the offsets of row dy left of column `upto`. */
  function RowSum(w: nat, h: nat, alive: set<Cell>, c: Cell, dy: int, upto: int): int
    requires -1 <= upto <= 2
    decreases upto + 1
  {
    if upto == -1 then 0
    else RowSum(w, h, alive, c, dy, upto - 1) + Term(w, h, alive, c, dy, upto - 1)
  }

  /** Sum over the rows of offsets above row `upto`. */
  function Sum(w: nat, h: nat, alive: set<Cell>, c: Cell, upto: int): int
    requires -1 <= upto <= 2
    decreases upto + 1
  {
    if upto == -1 then 0
    else Sum(w, h, alive, c, upto - 1) + RowSum(w, h, alive, c, upto - 1, 2)
  }

  function Neighbors(w: nat, h: nat, alive: set<Cell>, c: Cell): int
  {
    Sum(w, h, alive, c, 2)
  }

  lemma RowOfThree(w: nat, h: nat, alive: set<Cell>, c: Cell, dy: int)
    ensures RowSum(w, h, alive, c, dy, 2)
         == Term(w, h, alive, c, dy, -1) + Term(w, h, alive, c, dy, 0) + Term(w, h, alive, c, dy, 1)
  {
    assert RowSum(w, h, alive, c, dy, 0) == Term(w, h, alive, c, dy, -1);
    assert RowSum(w, h, alive, c, dy, 1) == RowSum(w, h, alive, c, dy, 0) + Term(w, h, alive, c, dy, 0);
  }

  lemma ThreeRows(w: nat, h: nat, alive: set<Cell>, c: Cell)
    ensures Neighbors(w, h, alive, c)
         == RowSum(w, h, alive, c, -1, 2) + RowSum(w, h, alive, c, 0, 2) + RowSum(w, h, alive, c, 1, 2)
  {
    assert Sum(w, h, alive, c, 0) == RowSum(w, h, alive, c, -1, 2);
    assert Sum(w, h, alive, c, 1) == Sum(w, h, alive, c, 0) + RowSum(w, h, alive, c, 0, 2);
  }

  // ---- Generations --------------------------------------------------------------

  predicate Lives(w: nat, h: nat, rule: Rule, alive: set<Cell>, c: Cell)
  {
    Neighbors(w, h, alive, c) in (if c in alive then rule.survive else rule.birth)
  }

  function Next(w: nat, h: nat, rule: Rule, alive: set<Cell>): set<Cell>
  {
    set c | c in AllCells(w, h) && Lives(w, h, rule, alive, c)
  }

  type Board = set<Cell>

  function StepOf(w: nat, h: nat, rule: Rule): Board -> Board
  {
    (b: Board) => Next(w, h, rule, b)
  }

  /** Generation n of a step function. */
  function Evolve(step: Board -> Board, start: Board, n: nat): Board
  {
    if n == 0 then start else step(Evolve(step, start, n - 1))
  }

  // ---- Population ---------------------------------------------------------------

  /** Cells before (x, y) in row order. */
  ghost function Before(alive: set<Cell>, y: int, x: int): set<Cell>
  {
    set c | c in alive && (c.y < y || (c.y == y && c.x < x))
  }

  lemma BeforeGrows(alive: set<Cell>, y: int, x: int)
    ensures |Before(alive, y, x + 1)| == |Before(alive, y, x)| + One(Cell(x, y) in alive)
  {
    var c := Cell(x, y);
    if c in alive {
      assert Before(alive, y, x + 1) == Before(alive, y, x) + {c};
    } else {
      assert Before(alive, y, x + 1) == Before(alive, y, x);
    }
  }

  lemma BeforeNextRow(w: nat, h: nat, alive: set<Cell>, y: int)
    requires alive <= AllCells(w, h)
    ensures Before(alive, y + 1, 0) == Before(alive, y, w)
    ensures Before(alive, 0, 0) == {} && Before(alive, h, 0) == alive
  {
  }

  lemma BeforeAdds(alive: set<Cell>, y: int, x: int)
    ensures Before(alive, y, x + 1)
         == Before(alive, y, x) + (if Cell(x, y) in alive then {Cell(x, y)} else {})
  {
  }

  // ---- Input and output ---------------------------------------------------------

  /** The cells the input grid sets; what lies outside the board is ignored. */
  function InputCells(w: nat, h: nat, input: seq<seq<int>>): Board
  {
    set c | c in AllCells(w, h) && c.y < |input| && c.x < |input[c.y]| && input[c.y][c.x] != 0
  }

  lemma InputBefore(w: nat, h: nat, input: seq<seq<int>>, y: nat, x: nat)
    requires y < h && y < |input| && x < w && x < |input[y]|
    ensures Cell(x, y) in InputCells(w, h, input) <==> input[y][x] != 0
  {
    assert Cell(x, y) in AllCells(w, h);
  }

  /** The rest of a row beyond the input is empty. */
  lemma InputRowEnds(w: nat, h: nat, input: seq<seq<int>>, y: nat)
    requires y < h && y < |input|
    ensures var n := if |input[y]| < w then |input[y]| else w;
            Before(InputCells(w, h, input), y, n) == Before(InputCells(w, h, input), y + 1, 0)
  {
  }

  /** The rows of 0s and 1s that show a board. */
  function Grid(w: nat, h: nat, alive: set<Cell>): (g: seq<seq<int>>)
    ensures |g| == h
  {
    seq(h, y requires 0 <= y < h => seq(w, x requires 0 <= x < w => One(Cell(x, y) in alive)))
  }

  // ---- The dense engine ---------------------------------------------------------

  /** The grid of 0s and 1s, row by row, of a set of cells. */
  ghost predicate Represents(grid: array2<int>, w: nat, h: nat, alive: set<Cell>)
    reads grid
  {
    && grid.Length0 == h && grid.Length1 == w
    && alive <= AllCells(w, h)
    && forall x, y :: 0 <= x < w && 0 <= y < h ==> grid[y, x] == One(Cell(x, y) in alive)
  }

  method CountAlive(grid: array2<int>, w: nat, h: nat, ghost alive: set<Cell>) returns (count: int)
    requires Represents(grid, w, h, alive)
    ensures count == |alive|
  {
    count := 0;
    BeforeNextRow(w, h, alive, 0);
    for y := 0 to h
      invariant count == |Before(alive, y, 0)|
    {
      for x := 0 to w
        invariant count == |Before(alive, y, x)|
      {
        BeforeGrows(alive, y, x);
        count := count + grid[y, x];
      }
      BeforeNextRow(w, h, alive, y);
    }
  }

  /** The two inner loops of `step`. */
  method CountNeighbors(current: array2<int>, w: nat, h: nat, x: int, y: int, ghost alive: set<Cell>)
    returns (neighbors: int)
    requires 0 <= x < w && 0 <= y < h && Represents(current, w, h, alive)
    ensures neighbors == Neighbors(w, h, alive, Cell(x, y))
  {
    ghost var c := Cell(x, y);
    neighbors := 0;
    for dy := -1 to 2
      invariant neighbors == Sum(w, h, alive, c, dy)
    {
      for dx := -1 to 2
        invariant neighbors == Sum(w, h, alive, c, dy) + RowSum(w, h, alive, c, dy, dx)
      {
        if dy == 0 && dx == 0 {
          continue;
        }
        var ny := WrapRound(y + dy, h);
        var nx := WrapRound(x + dx, w);
        neighbors := neighbors + current[ny, nx];
      }
    }
  }

  /** The two branches of `step` for one cell. */
  method NextCell(current: array2<int>, w: nat, h: nat, rule: Rule, x: int, y: int, ghost alive: set<Cell>)
    returns (v: int)
    requires 0 <= x < w && 0 <= y < h && Represents(current, w, h, alive)
    ensures v == One(Cell(x, y) in Next(w, h, rule, alive))
  {
    var neighbors := CountNeighbors(current, w, h, x, y, alive);
    assert Cell(x, y) in AllCells(w, h);
    if current[y, x] == 1 {
      v := if neighbors in rule.survive then 1 else 0;
    } else {
      v := if neighbors in rule.birth then 1 else 0;
    }
  }

  /** The first y rows, and the first x cells of row y, show `alive`. */
  ghost predicate Filled(grid: array2<int>, w: nat, h: nat, alive: set<Cell>, y: int, x: int)
    requires grid.Length0 == h && grid.Length1 == w
    reads grid
  {
    forall i, j :: 0 <= i < w && 0 <= j < h && (j < y || (j == y && i < x)) ==> grid[j, i] == One(Cell(i, j) in alive)
  }

  method Put(grid: array2<int>, w: nat, h: nat, x: int, y: int, v: int, ghost alive: set<Cell>)
    requires 0 <= x < w && 0 <= y < h && grid.Length0 == h && grid.Length1 == w
    requires Filled(grid, w, h, alive, y, x) && v == One(Cell(x, y) in alive)
    modifies grid
    ensures Filled(grid, w, h, alive, y, x + 1)
  {
    grid[y, x] := v;
  }

  method Step(current: array2<int>, next: array2<int>, w: nat, h: nat, rule: Rule, ghost alive: set<Cell>)
    requires current != next
    requires Represents(current, w, h, alive)
    requires next.Length0 == h && next.Length1 == w
    modifies next
    ensures Represents(next, w, h, Next(w, h, rule, alive))
  {
    for y := 0 to h
      invariant Represents(current, w, h, alive)
      invariant Filled(next, w, h, Next(w, h, rule, alive), y, 0)
    {
      for x := 0 to w
        invariant Represents(current, w, h, alive)
        invariant Filled(next, w, h, Next(w, h, rule, alive), y, x)
      {
        var v := NextCell(current, w, h, rule, x, y, alive);
        Put(next, w, h, x, y, v, Next(w, h, rule, alive));
      }
    }
  }

  // ---- The grid hash ------------------------------------------------------------

  /** `n | 0`: n reduced to a signed 32-bit integer. */
  function ToInt32(n: int): (r: int)
    ensures -0x8000_0000 <= r < 0x8000_0000
  {
    (n + 0x8000_0000) % 0x1_0000_0000 - 0x8000_0000
  }

  /** `((h << 5) - h + v) | 0`. */
  function Mix(h: int, v: int): int
  {
    ToInt32(ToInt32(h * 32) - h + v)
  }

  /** The rolling hash `start` carried over the first x cells of row y. */
  function HashRow(alive: set<Cell>, y: int, x: nat, start: int): int
  {
    if x == 0 then start else Mix(HashRow(alive, y, x - 1, start), One(Cell(x - 1, y) in alive))
  }

  /** The hash of the first y rows of a board of width w. */
  function HashRows(w: nat, alive: set<Cell>, y: nat): int
  {
    if y == 0 then 0 else HashRow(alive, y - 1, w, HashRows(w, alive, y - 1))
  }

  method ComputeHash(grid: array2<int>, w: nat, h: nat, ghost alive: set<Cell>) returns (hash: int)
    requires Represents(grid, w, h, alive)
    ensures hash == HashRows(w, alive, h)
  {
    hash := 0;
    for y := 0 to h
      invariant hash == HashRows(w, alive, y)
    {
      for x := 0 to w
        invariant hash == HashRow(alive, y, x, HashRows(w, alive, y))
      {
        hash := Mix(hash, grid[y, x]);
      }
    }
  }

  // ---- The generation loop ------------------------------------------------------

  /** Board i is what `step` makes of the one before. */
  ghost predicate Succeeds(step: Board -> Board, boards: seq<Board>, i: int)
    requires 0 < i < |boards|
  {
    boards[i] == step(boards[i - 1])
  }

  /** `boards` holds generations 0, 1, 2, ... of `step`. */
  ghost predicate History(step: Board -> Board, start: Board, boards: seq<Board>)
  {
    && boards != [] && boards[0] == start
    && forall i :: 0 < i < |boards| ==> Succeeds(step, boards, i)
  }

  lemma HistoryGrows(step: Board -> Board, start: Board, boards: seq<Board>)
    requires History(step, start, boards)
    ensures History(step, start, boards + [step(boards[|boards| - 1])])
  {
    var more := boards + [step(boards[|boards| - 1])];
    forall i | 0 < i < |more| ensures Succeeds(step, more, i) {
      if i < |boards| {
        assert Succeeds(step, boards, i);
      }
    }
  }

  /** The largest population so far. */
  ghost predicate IsPeak(peak: int, boards: seq<Board>)
  {
    && (exists i :: 0 <= i < |boards| && |boards[i]| == peak)
    && (forall i :: 0 <= i < |boards| ==> |boards[i]| <= peak)
  }

  /**
   * Hash i was seen one or two generations before; `early` is what the loop holds before the start:
   * nothing in the dense engine, 0 in the others.
   */
  ghost predicate ComesBack(early: Option<int>, hashes: seq<int>, i: nat)
    requires 0 < i < |hashes|
  {
    hashes[i] == hashes[i - 1] || Some(hashes[i]) == if i == 1 then early else Some(hashes[i - 2])
  }

  /** No hash but perhaps the last one came back. */
  ghost predicate NoneCameBack(early: Option<int>, hashes: seq<int>)
  {
    forall i :: 0 < i < |hashes| - 1 ==> !ComesBack(early, hashes, i)
  }

  lemma NoneCameBackMore(early: Option<int>, hashes: seq<int>, now: int)
    requires NoneCameBack(early, hashes) && (|hashes| > 1 ==> !ComesBack(early, hashes, |hashes| - 1))
    ensures NoneCameBack(early, hashes + [now])
  {
    var more := hashes + [now];
    forall i | 0 < i < |more| - 1 ensures !ComesBack(early, more, i) {
      assert ComesBack(early, more, i) == ComesBack(early, hashes, i);
    }
  }

  /** What the loop knows of the generations so far; only the last may be empty. */
  ghost predicate Recorded(step: Board -> Board, start: Board, boards: seq<Board>, peak: int)
  {
    && History(step, start, boards)
    && IsPeak(peak, boards)
    && forall i :: 0 < i < |boards| - 1 ==> boards[i] != {}
  }

  lemma RecordOneMore(step: Board -> Board, start: Board, boards: seq<Board>, peak: int)
    requires Recorded(step, start, boards, peak) && (|boards| > 1 ==> boards[|boards| - 1] != {})
    ensures var after := step(boards[|boards| - 1]);
            Recorded(step, start, boards + [after], if |after| > peak then |after| else peak)
  {
    var after := step(boards[|boards| - 1]);
    HistoryGrows(step, start, boards);
    PeakGrows(peak, boards, after);
  }

  /** The generations of a run and the hashes the loop computed of them. */
  datatype Trace = Trace(boards: seq<Board>, hashes: seq<int>)
  {
    function Add(after: Board, now: int): Trace
    {
      Trace(boards + [after], hashes + [now])
    }
  }

  /** What the loop remembers while it goes on. */
  ghost predicate Running(step: Board -> Board, early: Option<int>, start: Board, run: Trace,
                          peak: int, prev: int, prevPrev: Option<int>)
  {
    && Recorded(step, start, run.boards, peak)
    && |run.hashes| == |run.boards| && NoneCameBack(early, run.hashes)
    && var n := |run.boards| - 1;
    && prev == run.hashes[n] && prevPrev == (if n == 0 then early else Some(run.hashes[n - 1]))
    && (n > 0 ==> run.boards[n] != {} && !ComesBack(early, run.hashes, n))
  }

  /** What it reports when it ends. */
  ghost predicate Reports(step: Board -> Board, early: Option<int>, start: Board, run: Trace,
                          peak: int, extinction: bool, stabilizedAt: int)
  {
    && Recorded(step, start, run.boards, peak)
    && |run.hashes| == |run.boards| && NoneCameBack(early, run.hashes)
    && var n := |run.boards| - 1;
    && (extinction <==> n > 0 && run.boards[n] == {})
    && stabilizedAt == if !extinction && n > 0 && ComesBack(early, run.hashes, n) then n else -1
  }

  lemma StartsRunning(step: Board -> Board, early: Option<int>, start: Board, hash: int)
    ensures Running(step, early, start, Trace([start], [hash]), |start|, hash, early)
  {
    assert [start][0] == start;
  }

  /** The loop ends at an empty board or when the hash comes back, and goes on otherwise. */
  ghost predicate Follows(step: Board -> Board, early: Option<int>, start: Board, run: Trace,
                          peak: int, prev: int, prevPrev: Option<int>, after: Board, now: int)
  {
    var top := if |after| > peak then |after| else peak;
    if after == {} then Reports(step, early, start, run, top, true, -1)
    else if now == prev || Some(now) == prevPrev then Reports(step, early, start, run, top, false, |run.boards| - 1)
    else Running(step, early, start, run, top, now, Some(prev))
  }

  /** When generations run out the loop has seen neither. */
  lemma RunningReports(step: Board -> Board, early: Option<int>, start: Board, run: Trace,
                       peak: int, prev: int, prevPrev: Option<int>)
    requires Running(step, early, start, run, peak, prev, prevPrev)
    ensures Reports(step, early, start, run, peak, false, -1)
  {
  }

  lemma OneMore(step: Board -> Board, early: Option<int>, start: Board, run: Trace,
                peak: int, prev: int, prevPrev: Option<int>, after: Board, now: int)
    requires Running(step, early, start, run, peak, prev, prevPrev) && after == step(run.boards[|run.boards| - 1])
    ensures Follows(step, early, start, run.Add(after, now), peak, prev, prevPrev, after, now)
  {
    RecordOneMore(step, start, run.boards, peak);
    NoneCameBackMore(early, run.hashes, now);
    assert ComesBack(early, run.hashes + [now], |run.hashes|) <==> now == prev || Some(now) == prevPrev;
  }

  /** The hashes are those of the boards. */
  ghost predicate Hashed(hash: Board -> int, run: Trace)
  {
    |run.hashes| == |run.boards| && forall i :: 0 <= i < |run.boards| ==> run.hashes[i] == hash(run.boards[i])
  }

  lemma HashedMore(hash: Board -> int, run: Trace, after: Board)
    requires Hashed(hash, run)
    ensures Hashed(hash, run.Add(after, hash(after)))
  {
  }

  lemma PeakGrows(peak: int, boards: seq<Board>, after: Board)
    requires IsPeak(peak, boards)
    ensures IsPeak(if |after| > peak then |after| else peak, boards + [after])
  {
    var more := boards + [after];
    assert more[|boards|] == after;
    var i :| 0 <= i < |boards| && |boards[i]| == peak;
    assert |more[i]| == peak;
  }

  lemma {:induction false} HistoryIsEvolution(step: Board -> Board, start: Board, boards: seq<Board>, i: nat)
    requires History(step, start, boards) && i < |boards|
    ensures boards[i] == Evolve(step, start, i)
  {
    if i > 0 {
      assert Succeeds(step, boards, i);
      HistoryIsEvolution(step, start, boards, i - 1);
    }
  }

  function HashOf(w: nat, h: nat): Board -> int
  {
    (b: Board) => HashRows(w, b, h)
  }

  /** One generation of the loop: step from one buffer into the other, count, hash. */
  method Generation(current: array2<int>, next: array2<int>, w: nat, h: nat, rule: Rule, ghost alive: Board)
    returns (count: int, hash: int, ghost after: Board)
    requires current != next && Represents(current, w, h, alive)
    requires next.Length0 == h && next.Length1 == w
    modifies next
    ensures after == StepOf(w, h, rule)(alive) && Represents(next, w, h, after)
    ensures count == |after| && hash == HashOf(w, h)(after)
  {
    after := Next(w, h, rule, alive);
    Step(current, next, w, h, rule, alive);
    count := CountAlive(next, w, h, after);
    hash := ComputeHash(next, w, h, after);
  }

  /** The next generation, and what it means for the loop. */
  method OneTurn(current: array2<int>, next: array2<int>, w: nat, h: nat, rule: Rule, ghost start: Board,
                 ghost run: Trace, ghost peak: int, ghost prev: int, ghost prevPrev: Option<int>)
    returns (count: int, hash: int, ghost after: Board)
    requires current != next && run.boards != [] && Represents(current, w, h, run.boards[|run.boards| - 1])
    requires next.Length0 == h && next.Length1 == w && Hashed(HashOf(w, h), run)
    requires Running(StepOf(w, h, rule), None, start, run, peak, prev, prevPrev)
    modifies next
    ensures Represents(next, w, h, after) && count == |after| && Hashed(HashOf(w, h), run.Add(after, hash))
    ensures Follows(StepOf(w, h, rule), None, start, run.Add(after, hash), peak, prev, prevPrev, after, hash)
  {
    count, hash, after := Generation(current, next, w, h, rule, run.boards[|run.boards| - 1]);
    HashedMore(HashOf(w, h), run, after);
    OneMore(StepOf(w, h, rule), None, start, run, peak, prev, prevPrev, after, hash);
  }

  /**
   * The double-buffered loop of `express`: the grids swap roles each generation, and
   * `final` is the one that holds the last. It stops early at an empty board or when the
   * hash of one or two generations before comes back.
   */
  method Generations(gridA: array2<int>, gridB: array2<int>, w: nat, h: nat, rule: Rule, maxGen: nat,
                     ghost alive: Board)
    returns (final: array2<int>, gen: nat, peak: int, extinction: bool, stabilizedAt: int, ghost run: Trace)
    requires gridA != gridB && Represents(gridA, w, h, alive)
    requires gridB.Length0 == h && gridB.Length1 == w
    modifies gridA, gridB
    ensures final == gridA || final == gridB
    ensures gen <= maxGen && |run.boards| == gen + 1 && Represents(final, w, h, run.boards[gen])
    ensures Reports(StepOf(w, h, rule), None, alive, run, peak, extinction, stabilizedAt)
    ensures Hashed(HashOf(w, h), run)
    ensures gen < maxGen ==> extinction || stabilizedAt == gen
  {
    ghost var step := StepOf(w, h, rule);
    var other := gridB;
    final := gridA;
    peak := CountAlive(final, w, h, alive);
    stabilizedAt, extinction, gen := -1, false, 0;
    var prevHash := ComputeHash(final, w, h, alive);
    var prevPrevHash: Option<int> := None;
    run := Trace([alive], [prevHash]);
    StartsRunning(step, None, alive, prevHash);
    while gen < maxGen
      invariant (final == gridA && other == gridB) || (final == gridB && other == gridA)
      invariant other.Length0 == h && other.Length1 == w
      invariant gen <= maxGen && !extinction && stabilizedAt == -1 && |run.boards| == gen + 1
      invariant Represents(final, w, h, run.boards[gen]) && Hashed(HashOf(w, h), run)
      invariant Running(step, None, alive, run, peak, prevHash, prevPrevHash)
    {
      var count, currentHash, after := OneTurn(final, other, w, h, rule, alive, run, peak, prevHash, prevPrevHash);
      final, other, gen, run := other, final, gen + 1, run.Add(after, currentHash);
      if count > peak {
        peak := count;
      }
      if count == 0 {
        extinction := true;
        break;
      }
      if currentHash == prevHash || Some(currentHash) == prevPrevHash {
        stabilizedAt := gen;
        break;
      }
      prevPrevHash, prevHash := Some(prevHash), currentHash;
    }
    if !extinction && stabilizedAt == -1 {
      RunningReports(step, None, alive, run, peak, prevHash, prevPrevHash);
    }
  }
}
