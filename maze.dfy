/** The coordinate system and maze representation of algo/algo.c: a square
    maze of side `n` stored in flat arrays, cell (x, y) at index
    `(n - 1 - y) * n + x` (row 0 of the arrays is the top row, y grows
    northwards), per-cell wall records in the absolute frame, and the goal
    region in the centre. */
module Maze {
  import opened MachineInts

  /** `MAZE_LENGTH`, `UINT_MAX` (the "no cost yet" sentinel, defined as
      65535 in algo.h) and `STACK_SIZE`. */
  const MazeLength: int := 5
  const Sentinel: int := 65535
  const StackSize: int := 1000

  /** Maze sides the model admits: large enough to have a centre, small
      enough that every step count stays below the sentinel. */
  type Length = n: int | 1 <= n <= 255 witness 5

  /** Absolute headings, with the codes `NORTH`=0, `SOUTH`=1, `EAST`=2,
      `WEST`=3 of algo.h. */
  datatype Dir = North | South | East | West

  function Code(d: Dir): (c: int)
    ensures 0 <= c < 4
  {
    match d
    case North => 0
    case South => 1
    case East => 2
    case West => 3
  }

  /** Unit vector of a heading: north is +y, east is +x. */
  function DX(d: Dir): int
  {
    match d
    case East => 1
    case West => -1
    case _ => 0
  }

  function DY(d: Dir): int
  {
    match d
    case North => 1
    case South => -1
    case _ => 0
  }

  function Opposite(d: Dir): (r: Dir)
    ensures DX(r) == -DX(d) && DY(r) == -DY(d)
    ensures r != d
  {
    match d
    case North => South
    case South => North
    case East => West
    case West => East
  }

  /** `MazeCell`: one wall flag per side, absolute frame. */
  datatype MazeCell = MazeCell(northWall: bool, southWall: bool, eastWall: bool, westWall: bool)

  /** The cell with no wall recorded, the initial content of
      `mazeDiscovered`. */
  const NoWalls: MazeCell := MazeCell(false, false, false, false)

  function WallOn(c: MazeCell, d: Dir): bool
  {
    match d
    case North => c.northWall
    case South => c.southWall
    case East => c.eastWall
    case West => c.westWall
  }

  datatype Pos = Pos(x: int, y: int)

  function Step(p: Pos, d: Dir): Pos
  {
    Pos(p.x + DX(d), p.y + DY(d))
  }

  /** The cell reached from p by following dirs one cell at a time. */
  function Walk(p: Pos, dirs: seq<Dir>): Pos
    decreases |dirs|
  {
    if dirs == [] then p
    else Step(Walk(p, dirs[..|dirs| - 1]), dirs[|dirs| - 1])
  }

  /** `isInRange`, stated on signed coordinates (see UnsignedRangeCheck
      for the unsigned arithmetic of the source). */
  predicate IsInRange(n: int, x: int, y: int)
  {
    0 <= x < n && 0 <= y < n
  }

  /** `mirrorY`: the array row of a y coordinate. */
  function MirrorY(n: int, y: int): int
  {
    (n - 1) - y
  }

  /** Multiplication by a non-negative factor is monotone. */
  lemma MulMono(a: int, b: int, c: int)
    requires a <= b && 0 <= c
    ensures a * c <= b * c
  {
    assert b * c - a * c == (b - a) * c;
  }

  /** A maze has at most 255 * 255 cells, fewer than the sentinel. */
  lemma CellCountBound(n: Length)
    ensures n * n <= 65025 < Sentinel
  {
    MulMono(n, 255, n);
    MulMono(n, 255, 255);
  }

  /** Division facts behind the flat index. */
  lemma DivModOfRow(n: Length, row: int, col: int)
    requires 0 <= row < n && 0 <= col < n
    ensures 0 <= row * n + col < n * n
    ensures (row * n + col) / n == row && (row * n + col) % n == col
  {
    MulMono(0, row, n);
    MulMono(row, n - 1, n);
    assert (n - 1) * n == n * n - n;
    var i := row * n + col;
    var q, r := i / n, i % n;
    assert i == q * n + r && 0 <= r < n;
    var k := row - q;
    assert k * n == row * n - q * n;
    assert k * n == r - col;
    if k >= 1 {
      MulMono(1, k, n);
      assert false;
    } else if k <= -1 {
      MulMono(k, -1, n);
      assert false;
    }
  }

  /** The quotient of an index by n is a row number. */
  lemma RowOfIndex(n: Length, i: int)
    requires 0 <= i < n * n
    ensures 0 <= i / n < n
    ensures i == (i / n) * n + i % n
  {
    if i / n >= n {
      MulMono(n, i / n, n);
    }
  }

  /** First index of array row r, that is r * n, written as repeated
      addition so that the product stays out of every proof that does not
      ask for it (RowStartIsProduct). */
  function RowStart(n: Length, r: nat): int
    decreases r
  {
    if r == 0 then 0 else RowStart(n, r - 1) + n
  }

  lemma {:induction false} RowStartIsProduct(n: Length, r: nat)
    ensures RowStart(n, r) == r * n
    decreases r
  {
    if r > 0 {
      RowStartIsProduct(n, r - 1);
      assert (r - 1) * n + n == r * n;
    }
  }

  /** `mazeIdx`: the flat index `mirrorY(y) * n + x` of an in-range cell. */
  function MazeIdx(n: Length, x: int, y: int): (i: int)
    requires IsInRange(n, x, y)
    ensures 0 <= i < n * n
  {
    RowStartIsProduct(n, MirrorY(n, y));
    DivModOfRow(n, MirrorY(n, y), x);
    RowStart(n, MirrorY(n, y)) + x
  }

  /** The quotient of an index by n is the mirrored row, the remainder is
      x. */
  lemma MazeIdxParts(n: Length, x: int, y: int)
    requires IsInRange(n, x, y)
    ensures MazeIdx(n, x, y) == MirrorY(n, y) * n + x
    ensures MazeIdx(n, x, y) / n == n - 1 - y && MazeIdx(n, x, y) % n == x
  {
    RowStartIsProduct(n, MirrorY(n, y));
    DivModOfRow(n, MirrorY(n, y), x);
  }

  /** The inverse of MazeIdx. */
  function CellAt(n: Length, i: int): (p: Pos)
    requires 0 <= i < n * n
    ensures IsInRange(n, p.x, p.y)
    ensures MazeIdx(n, p.x, p.y) == i
  {
    RowOfIndex(n, i);
    MazeIdxParts(n, i % n, n - 1 - i / n);
    Pos(i % n, n - 1 - i / n)
  }

  /** Distinct in-range cells have distinct indices. */
  lemma MazeIdxInjective(n: Length, x1: int, y1: int, x2: int, y2: int)
    requires IsInRange(n, x1, y1) && IsInRange(n, x2, y2)
    requires MazeIdx(n, x1, y1) == MazeIdx(n, x2, y2)
    ensures x1 == x2 && y1 == y2
  {
    MazeIdxParts(n, x1, y1);
    MazeIdxParts(n, x2, y2);
  }

  /** Distinct in-range cells occupy distinct array slots. */
  lemma DistinctCellsDistinctIdx(n: Length, x1: int, y1: int, x2: int, y2: int)
    requires IsInRange(n, x1, y1) && IsInRange(n, x2, y2)
    requires x1 != x2 || y1 != y2
    ensures MazeIdx(n, x1, y1) != MazeIdx(n, x2, y2)
  {
    if MazeIdx(n, x1, y1) == MazeIdx(n, x2, y2) {
      MazeIdxInjective(n, x1, y1, x2, y2);
    }
  }

  /** CellAt undoes MazeIdx. */
  lemma CellAtMazeIdx(n: Length, x: int, y: int)
    requires IsInRange(n, x, y)
    ensures CellAt(n, MazeIdx(n, x, y)) == Pos(x, y)
  {
    var p := CellAt(n, MazeIdx(n, x, y));
    MazeIdxInjective(n, p.x, p.y, x, y);
  }

  /** `isGoal`: the centre cell when n is odd, the 2x2 centre block when n
      is even. */
  predicate IsGoal(n: int, x: int, y: int)
  {
    if n % 2 == 1 then x == n / 2 && y == n / 2
    else (x == n / 2 - 1 || x == n / 2) && (y == n / 2 - 1 || y == n / 2)
  }

  /** The goal region as a set of cells. */
  function GoalCells(n: Length): set<Pos>
  {
    set x, y | 0 <= x < n && 0 <= y < n && IsGoal(n, x, y) :: Pos(x, y)
  }

  /** The goal region is exactly one cell for odd n and exactly the four
      centre cells for even n. */
  lemma GoalRegion(n: Length)
    ensures n % 2 == 1 ==> GoalCells(n) == {Pos(n / 2, n / 2)}
    ensures n % 2 == 0 ==>
      (GoalCells(n) == {Pos(n / 2 - 1, n / 2 - 1), Pos(n / 2 - 1, n / 2), Pos(n / 2, n / 2 - 1), Pos(n / 2, n / 2)})
    ensures |GoalCells(n)| == if n % 2 == 1 then 1 else 4
  {
    var h := n / 2;
    if n % 2 == 1 {
      assert Pos(h, h) in GoalCells(n);
      assert GoalCells(n) == {Pos(h, h)};
    } else {
      var block := {Pos(h - 1, h - 1), Pos(h - 1, h), Pos(h, h - 1), Pos(h, h)};
      assert Pos(h - 1, h - 1) in GoalCells(n);
      assert Pos(h - 1, h) in GoalCells(n);
      assert Pos(h, h - 1) in GoalCells(n);
      assert Pos(h, h) in GoalCells(n);
      assert GoalCells(n) == block;
      assert |block| == 4;
    }
  }

  /** On the 5x5 maze the goal is the single cell (2, 2). */
  lemma GoalOfFiveByFive(x: int, y: int)
    ensures IsGoal(MazeLength, x, y) <==> x == 2 && y == 2
  {
  }

  /** The source adds or subtracts 1 to an `unsigned int` coordinate before
      `isInRange`; at 0 the subtraction wraps to 2^32 - 1, which the range
      check rejects.  The signed check used by the model gives the same
      answer for every neighbour of an in-range cell. */
  lemma UnsignedRangeCheck(n: Length, x: int, y: int, d: Dir)
    requires IsInRange(n, x, y)
    ensures IsInRange(n, ToU32(x + DX(d)), ToU32(y + DY(d))) <==> IsInRange(n, x + DX(d), y + DY(d))
  {
    if x + DX(d) == -1 {
      assert ToU32(x + DX(d)) == TwoTo32 - 1;
    }
    if y + DY(d) == -1 {
      assert ToU32(y + DY(d)) == TwoTo32 - 1;
    }
  }
}
