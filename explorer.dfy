/** The maze explorer of algo/algo.c: the globals (`mazeDiscovered`,
    `mazeFlood`, `mazeVisited`, `moveStack`, `stackTop`, `curDir`, `x`,
    `y`) and `traverseCell`, one step of a depth-first exploration that
    senses and floods each new cell, moves to the cheapest unvisited open
    neighbour, and otherwise backs up along the move stack.

    Motor commands are recorded as abstract motions in `log`; the three
    wall checks of the sensing layer are passed in as one Frame of
    presences per call. */
module Explorer {
  import opened Maze
  import opened FloodField
  import opened Flood
  import WallDetection

  datatype Option<T> = None | Some(value: T)

  /** A side relative to the robot's heading. */
  datatype Side = Front | Back | Left | Right

  /** The motion primitives the explorer issues:
      `mci_MoveForward1MazeSquarePid`, `mci_TurnLeft90DegreesPID`,
      `mci_TurnRight90DegreesPID`. */
  datatype Motion = Forward | TurnLeft90 | TurnRight90

  /** Why `exit(1)` was called. */
  datatype Fault = PopEmpty | PushFull

  /** Result of traverseCell: whether the goal is reached, or the program
      stopped. */
  datatype Outcome = Ok(atGoal: bool) | Exit(fault: Fault)

  function RightOf(h: Dir): Dir
  {
    match h
    case North => East
    case East => South
    case South => West
    case West => North
  }

  function LeftOf(h: Dir): Dir
  {
    match h
    case North => West
    case West => South
    case South => East
    case East => North
  }

  /** The switch tables of checkNorthWall .. checkWestWall and of moveNorth
      .. moveWest: which side of a robot heading h faces the absolute
      direction d. */
  function SideOf(h: Dir, d: Dir): (s: Side)
    ensures s == Front <==> d == h
    ensures s == Back <==> d == Opposite(h)
    ensures s == Left <==> d == LeftOf(h)
    ensures s == Right <==> d == RightOf(h)
  {
    match d
    case North => (match h case North => Front case South => Back case East => Left case West => Right)
    case South => (match h case North => Back case South => Front case East => Right case West => Left)
    case East => (match h case North => Right case South => Left case East => Front case West => Back)
    case West => (match h case North => Left case South => Right case East => Back case West => Front)
  }

  /** moveForward, moveBack (two right turns), moveLeft, moveRight. */
  function Maneuver(s: Side): (ms: seq<Motion>)
    ensures ms != [] && ms[|ms| - 1] == Forward
    ensures forall i :: 0 <= i < |ms| - 1 ==> ms[i] != Forward
  {
    match s
    case Front => [Forward]
    case Back => [TurnRight90, TurnRight90, Forward]
    case Left => [TurnLeft90, Forward]
    case Right => [TurnRight90, Forward]
  }

  function Turned(h: Dir, m: Motion): Dir
  {
    match m
    case Forward => h
    case TurnLeft90 => LeftOf(h)
    case TurnRight90 => RightOf(h)
  }

  /** Heading after a sequence of motions. */
  function HeadingAfter(h: Dir, ms: seq<Motion>): Dir
    decreases |ms|
  {
    if ms == [] then h else HeadingAfter(Turned(h, ms[0]), ms[1..])
  }

  /** The manoeuvre chosen by moveNorth .. moveWest turns the robot to face
      the requested direction before its single forward move. */
  lemma ManeuverFacesTarget(h: Dir, d: Dir)
    ensures HeadingAfter(h, Maneuver(SideOf(h, d))[..|Maneuver(SideOf(h, d))| - 1]) == d
    ensures HeadingAfter(h, Maneuver(SideOf(h, d))) == d
  {
    var ms := Maneuver(SideOf(h, d));
    match SideOf(h, d)
    case Front =>
      assert ms[..|ms| - 1] == [];
    case Back =>
      assert ms[..|ms| - 1] == [TurnRight90, TurnRight90];
      assert [TurnRight90, TurnRight90][1..] == [TurnRight90];
      assert ms[1..] == [TurnRight90, Forward] && ms[1..][1..] == [Forward];
      assert HeadingAfter(h, ms) == HeadingAfter(RightOf(h), [TurnRight90, Forward]);
      assert HeadingAfter(RightOf(h), [TurnRight90, Forward]) == HeadingAfter(RightOf(RightOf(h)), [Forward]);
      assert HeadingAfter(RightOf(RightOf(h)), [Forward]) == RightOf(RightOf(h));
    case Left =>
      assert ms[..|ms| - 1] == [TurnLeft90] && ms[1..] == [Forward];
      assert HeadingAfter(h, ms) == HeadingAfter(LeftOf(h), [Forward]) == LeftOf(h);
    case Right =>
      assert ms[..|ms| - 1] == [TurnRight90] && ms[1..] == [Forward];
      assert HeadingAfter(h, ms) == HeadingAfter(RightOf(h), [Forward]) == RightOf(h);
  }

  /** checkFrontWall, checkBackWall, checkLeftWall, checkRightWall: a side
      counts as walled unless its sensor positively reports no wall; the
      back is walled only at the start cell. */
  function SideWall(s: Side, x: int, y: int, sensed: WallDetection.Frame): (w: bool)
    ensures s == Back ==> (w <==> x == 0 && y == 0)
    ensures s == Front ==> (w <==> sensed.front != WallDetection.NotFound)
    ensures s == Left ==> (w <==> sensed.left != WallDetection.NotFound)
    ensures s == Right ==> (w <==> sensed.right != WallDetection.NotFound)
  {
    match s
    case Front => sensed.front != WallDetection.NotFound
    case Back => x == 0 && y == 0
    case Left => sensed.left != WallDetection.NotFound
    case Right => sensed.right != WallDetection.NotFound
  }

  /** `detectWalls`: the sensed walls turned into the absolute frame.  Each
      sensor lands on exactly the side it faces. */
  function DetectWalls(h: Dir, x: int, y: int, sensed: WallDetection.Frame): (cell: MazeCell)
    ensures WallOn(cell, h) <==> sensed.front != WallDetection.NotFound
    ensures WallOn(cell, Opposite(h)) <==> x == 0 && y == 0
    ensures WallOn(cell, LeftOf(h)) <==> sensed.left != WallDetection.NotFound
    ensures WallOn(cell, RightOf(h)) <==> sensed.right != WallDetection.NotFound
  {
    MazeCell(SideWall(SideOf(h, North), x, y, sensed), SideWall(SideOf(h, South), x, y, sensed),
             SideWall(SideOf(h, East), x, y, sensed), SideWall(SideOf(h, West), x, y, sensed))
  }

  /** The neighbour towards d is in the maze, not behind a recorded wall,
      and not yet explored. */
  predicate Eligible(n: Length, cell: MazeCell, visited: seq<bool>, x: int, y: int, d: Dir)
  {
    |visited| == n * n && IsInRange(n, x + DX(d), y + DY(d)) && !WallOn(cell, d)
    && !visited[MazeIdx(n, x + DX(d), y + DY(d))]
  }

  function NeighbourCost(n: Length, flood: seq<int>, x: int, y: int, d: Dir): int
    requires |flood| == n * n && IsInRange(n, x + DX(d), y + DY(d))
  {
    flood[MazeIdx(n, x + DX(d), y + DY(d))]
  }

  /** The candidate kept by the neighbour scan of traverseCell:
      `foundUnvisitedCell`, `nextDir` and `cost`. */
  datatype Choice = Choice(found: bool, dir: Dir, cost: int)

  /** Position of a direction in the scan order north, east, south, west. */
  function ScanRank(d: Dir): (k: int)
    ensures 0 <= k < 4
  {
    match d
    case North => 0
    case East => 1
    case South => 2
    case West => 3
  }

  /** The candidate after the scan has looked at the directions of rank
      below k, starting from cost `UINT_MAX`: a candidate exists exactly
      when one of them is eligible with a finite cost; it is eligible, no
      direction scanned is cheaper, and every eligible direction scanned
      before it is strictly dearer; without one the cost is still
      `UINT_MAX`. */
  ghost predicate BestSoFar(n: Length, cell: MazeCell, flood: seq<int>, visited: seq<bool>, x: int, y: int,
                            k: int, ch: Choice)
    requires |flood| == n * n
  {
    && (ch.found <==> exists d :: ScanRank(d) < k && Eligible(n, cell, visited, x, y, d)
                                  && NeighbourCost(n, flood, x, y, d) < Sentinel)
    && (!ch.found ==> ch.cost == Sentinel)
    && (ch.found ==> ScanRank(ch.dir) < k && Eligible(n, cell, visited, x, y, ch.dir)
                     && ch.cost == NeighbourCost(n, flood, x, y, ch.dir))
    && (ch.found ==> forall d :: ScanRank(d) < k && Eligible(n, cell, visited, x, y, d) ==>
                                   ch.cost <= NeighbourCost(n, flood, x, y, d))
    && (ch.found ==> forall d :: ScanRank(d) < ScanRank(ch.dir) && Eligible(n, cell, visited, x, y, d) ==>
                                   ch.cost < NeighbourCost(n, flood, x, y, d))
  }

  /** The outcome of the whole scan of traverseCell: a neighbour is chosen
      exactly when some eligible neighbour has a finite cost; the chosen one
      is eligible, has a finite cost, no eligible neighbour is cheaper, and
      every eligible neighbour earlier in the scan is strictly dearer. */
  ghost predicate BestNeighbour(n: Length, cell: MazeCell, flood: seq<int>, visited: seq<bool>, x: int, y: int,
                                ch: Choice)
    requires |flood| == n * n
  {
    && (ch.found <==> exists d :: Eligible(n, cell, visited, x, y, d) && NeighbourCost(n, flood, x, y, d) < Sentinel)
    && (ch.found ==> Eligible(n, cell, visited, x, y, ch.dir) && ch.cost == NeighbourCost(n, flood, x, y, ch.dir))
    && (ch.found ==> ch.cost < Sentinel)
    && (ch.found ==> forall d :: Eligible(n, cell, visited, x, y, d) ==> ch.cost <= NeighbourCost(n, flood, x, y, d))
    && (ch.found ==> forall d :: Eligible(n, cell, visited, x, y, d) && ScanRank(d) < ScanRank(ch.dir) ==>
                                   ch.cost < NeighbourCost(n, flood, x, y, d))
  }

  /** Having scanned all four directions is the whole scan. */
  lemma BestSoFarComplete(n: Length, cell: MazeCell, flood: seq<int>, visited: seq<bool>, x: int, y: int, ch: Choice)
    requires |flood| == n * n
    requires BestSoFar(n, cell, flood, visited, x, y, 4, ch)
    ensures BestNeighbour(n, cell, flood, visited, x, y, ch)
  {
    if ch.found {
      assert ch.cost < Sentinel by {
        var d :| ScanRank(d) < 4 && Eligible(n, cell, visited, x, y, d) && NeighbourCost(n, flood, x, y, d) < Sentinel;
      }
    }
  }

  /** The scan's outcome is determined by the maze: two outcomes agree on
      whether a neighbour is chosen and, if one is, on its direction and
      cost. */
  lemma BestNeighbourUnique(n: Length, cell: MazeCell, flood: seq<int>, visited: seq<bool>, x: int, y: int,
                            c1: Choice, c2: Choice)
    requires |flood| == n * n
    requires BestNeighbour(n, cell, flood, visited, x, y, c1) && BestNeighbour(n, cell, flood, visited, x, y, c2)
    ensures c1.found == c2.found
    ensures c1.found ==> c1.dir == c2.dir && c1.cost == c2.cost
  {
    if c1.found {
      assert c1.cost <= c2.cost && c2.cost <= c1.cost;
    }
  }

  /** One block of the scan: looking at direction d, an eligible neighbour
      strictly cheaper than the candidate replaces it, and the candidate is
      then the best of the directions up to d. */
  lemma ScanStep(n: Length, cell: MazeCell, flood: seq<int>, visited: seq<bool>, x: int, y: int,
                 k: int, d: Dir, ch: Choice, take: bool, next: Choice)
    requires |flood| == n * n && k == ScanRank(d)
    requires BestSoFar(n, cell, flood, visited, x, y, k, ch)
    requires take <==> Eligible(n, cell, visited, x, y, d) && NeighbourCost(n, flood, x, y, d) < ch.cost
    requires next == if take then Choice(true, d, NeighbourCost(n, flood, x, y, d)) else ch
    ensures BestSoFar(n, cell, flood, visited, x, y, k + 1, next)
  {
    forall e | ScanRank(e) < k + 1
      ensures ScanRank(e) < k || e == d
    {
    }
  }

  /** One block of the neighbour scan of traverseCell, reading the flood
      and visited arrays (which the scan does not change): the neighbour
      towards d replaces the candidate when it is in range, not walled off
      in `cell`, not yet explored and strictly cheaper. */
  method ScanBlock(n: Length, cell: MazeCell, flood: seq<int>, visited: seq<bool>, x: int, y: int,
                   k: int, d: Dir, ch: Choice) returns (next: Choice)
    requires |flood| == n * n && |visited| == n * n && k == ScanRank(d)
    requires BestSoFar(n, cell, flood, visited, x, y, k, ch)
    ensures BestSoFar(n, cell, flood, visited, x, y, k + 1, next)
  {
    next := ch;
    var nx, ny := x + DX(d), y + DY(d);
    var take := IsInRange(n, nx, ny) && !WallOn(cell, d) && !visited[MazeIdx(n, nx, ny)]
                && flood[MazeIdx(n, nx, ny)] < ch.cost;
    if take {
      next := Choice(true, d, flood[MazeIdx(n, nx, ny)]);
    }
    ScanStep(n, cell, flood, visited, x, y, k, d, ch, take, next);
  }

  // ----- exploring a maze without inner walls -----

  /** A visited array in which exactly the cells of `cells` are marked. */
  function Marked(n: Length, cells: seq<Pos>): (v: seq<bool>)
    ensures |v| == n * n
  {
    seq(n * n, i requires 0 <= i < n * n => CellAt(n, i) in cells)
  }

  lemma MarkedAt(n: Length, cells: seq<Pos>, x: int, y: int)
    requires IsInRange(n, x, y)
    ensures Marked(n, cells)[MazeIdx(n, x, y)] <==> Pos(x, y) in cells
  {
    CellAtMazeIdx(n, x, y);
  }

  /** Off the goal of an odd maze with no inner walls recorded, the
      neighbour one step closer to the centre is eligible for the scan as
      long as it is unvisited, and costs one less. */
  lemma CloserNeighbour(n: Length, walls: seq<MazeCell>, flood: seq<int>, visited: seq<bool>, x: int, y: int)
    returns (e: Dir)
    requires n % 2 == 1 && NoInnerWalls(n, walls) && Consistent(n, walls, flood)
    requires IsInRange(n, x, y) && !IsGoal(n, x, y) && |visited| == n * n
    requires forall i :: 0 <= i < n * n && visited[i] ==> flood[i] >= flood[MazeIdx(n, x, y)]
    ensures Eligible(n, walls[MazeIdx(n, x, y)], visited, x, y, e)
    ensures NeighbourCost(n, flood, x, y, e) + 1 == flood[MazeIdx(n, x, y)] < Sentinel
  {
    NoInnerWallsManhattan(n, walls, flood, x, y);
    e := ManhattanCloser(n, x, y);
    NoInnerWallsManhattan(n, walls, flood, x + DX(e), y + DY(e));
    assert Open(n, walls, x, y, e);
  }

  /** No neighbour is cheaper than one less than the cell itself: a
      neighbour costing at most that is one step closer to the centre. */
  lemma NoCheaperNeighbour(n: Length, walls: seq<MazeCell>, flood: seq<int>, x: int, y: int, d: Dir)
    requires n % 2 == 1 && NoInnerWalls(n, walls) && Consistent(n, walls, flood)
    requires IsInRange(n, x, y) && IsInRange(n, x + DX(d), y + DY(d))
    requires NeighbourCost(n, flood, x, y, d) < flood[MazeIdx(n, x, y)]
    ensures NeighbourCost(n, flood, x, y, d) + 1 == flood[MazeIdx(n, x, y)]
    ensures Manhattan(n, x + DX(d), y + DY(d)) + 1 == Manhattan(n, x, y)
  {
    NoInnerWallsManhattan(n, walls, flood, x, y);
    NoInnerWallsManhattan(n, walls, flood, x + DX(d), y + DY(d));
    ManhattanStep(n, x, y, d);
  }

  /** Off the goal of an odd maze with no inner walls recorded, and with
      every visited cell costing at least as much as the robot's own, the
      scan always chooses a neighbour, and one exactly one step closer to
      the goal. */
  lemma OpenMazeDescends(n: Length, walls: seq<MazeCell>, flood: seq<int>, visited: seq<bool>,
                         x: int, y: int, ch: Choice)
    requires n % 2 == 1 && NoInnerWalls(n, walls) && Consistent(n, walls, flood)
    requires IsInRange(n, x, y) && !IsGoal(n, x, y) && |visited| == n * n
    requires forall i :: 0 <= i < n * n && visited[i] ==> flood[i] >= flood[MazeIdx(n, x, y)]
    requires BestNeighbour(n, walls[MazeIdx(n, x, y)], flood, visited, x, y, ch)
    ensures ch.found && ch.cost + 1 == flood[MazeIdx(n, x, y)]
    ensures IsInRange(n, x + DX(ch.dir), y + DY(ch.dir))
            && Manhattan(n, x + DX(ch.dir), y + DY(ch.dir)) + 1 == Manhattan(n, x, y)
  {
    var e := CloserNeighbour(n, walls, flood, visited, x, y);
    assert ch.found && ch.cost <= NeighbourCost(n, flood, x, y, e);
    NoCheaperNeighbour(n, walls, flood, x, y, ch.dir);
  }

  /** Step j of an exploration of a maze whose recorded walls all lie on
      its boundary: the robot stands on the last cell of `walked`, off the
      goal; the flood is consistent with the recorded walls; the scan, with
      the cells walked so far marked visited, chose ch; and a chosen
      direction took the robot one cell on, to `next`. */
  ghost predicate OpenMazeStep(n: Length, walls: seq<MazeCell>, flood: seq<int>, walked: seq<Pos>,
                               ch: Choice, next: Pos)
    requires walked != []
  {
    var p := walked[|walked| - 1];
    && IsInRange(n, p.x, p.y) && !IsGoal(n, p.x, p.y)
    && NoInnerWalls(n, walls) && Consistent(n, walls, flood)
    && BestNeighbour(n, walls[MazeIdx(n, p.x, p.y)], flood, Marked(n, walked), p.x, p.y, ch)
    && (ch.found ==> next == Step(p, ch.dir))
  }

  /** Along a walk that comes one cell closer to the centre with each
      move, no cell walked costs less than the last one. */
  lemma WalkedNoCheaper(n: Length, walls: seq<MazeCell>, flood: seq<int>, walked: seq<Pos>)
    requires n % 2 == 1 && NoInnerWalls(n, walls) && Consistent(n, walls, flood) && walked != []
    requires forall m :: 0 <= m < |walked| ==>
      IsInRange(n, walked[m].x, walked[m].y) && Manhattan(n, walked[m].x, walked[m].y) == n - 1 - m
    ensures var p := walked[|walked| - 1];
      forall i :: 0 <= i < n * n && Marked(n, walked)[i] ==> flood[i] >= flood[MazeIdx(n, p.x, p.y)]
  {
    var p := walked[|walked| - 1];
    NoInnerWallsManhattan(n, walls, flood, p.x, p.y);
    forall i | 0 <= i < n * n && Marked(n, walked)[i]
      ensures flood[i] >= flood[MazeIdx(n, p.x, p.y)]
    {
      var c := CellAt(n, i);
      var m :| 0 <= m < |walked| && walked[m] == c;
      NoInnerWallsManhattan(n, walls, flood, c.x, c.y);
    }
  }

  /** One such step, after a walk that came one cell closer to the centre
      with each move from n - 1: the scan chooses a neighbour, and the walk
      goes on one cell closer still. */
  lemma OpenMazeStepDescends(n: Length, walls: seq<MazeCell>, flood: seq<int>, walked: seq<Pos>, ch: Choice, next: Pos)
    requires n % 2 == 1 && walked != [] && OpenMazeStep(n, walls, flood, walked, ch, next)
    requires forall m :: 0 <= m < |walked| ==>
      IsInRange(n, walked[m].x, walked[m].y) && Manhattan(n, walked[m].x, walked[m].y) == n - 1 - m
    ensures ch.found && IsInRange(n, next.x, next.y) && Manhattan(n, next.x, next.y) == n - 1 - |walked|
  {
    var p := walked[|walked| - 1];
    WalkedNoCheaper(n, walls, flood, walked);
    OpenMazeDescends(n, walls, flood, Marked(n, walked), p.x, p.y, ch);
  }

  /** The first k steps of such an exploration all choose a neighbour,
      and the robot's Manhattan distance to the centre drops by one per
      step, from n - 1 at the start corner. */
  lemma {:induction false} OpenMazeRunPrefix(n: Length, walls: seq<seq<MazeCell>>, floods: seq<seq<int>>,
                                              path: seq<Pos>, chs: seq<Choice>, k: nat)
    requires n % 2 == 1 && k <= |chs|
    requires |path| == |chs| + 1 && |walls| == |chs| && |floods| == |chs| && path[0] == Pos(0, 0)
    requires forall j :: 0 <= j < |chs| ==> OpenMazeStep(n, walls[j], floods[j], path[..j + 1], chs[j], path[j + 1])
    ensures forall j :: 0 <= j < k ==> chs[j].found
    ensures forall j :: 0 <= j <= k ==> IsInRange(n, path[j].x, path[j].y) && Manhattan(n, path[j].x, path[j].y) == n - 1 - j
    decreases k
  {
    if k > 0 {
      OpenMazeRunPrefix(n, walls, floods, path, chs, k - 1);
      var j := k - 1;
      assert OpenMazeStep(n, walls[j], floods[j], path[..j + 1], chs[j], path[j + 1]);
      OpenMazeStepDescends(n, walls[j], floods[j], path[..j + 1], chs[j], path[j + 1]);
    }
  }

  /** Exploring an odd maze with no inner walls never backs up: every step
      moves one cell closer to the centre, so the robot stops on the goal
      after exactly n - 1 moves, the flood cost of the start corner, with
      all n - 1 directions on the move stack. */
  lemma OpenMazeRun(n: Length, walls: seq<seq<MazeCell>>, floods: seq<seq<int>>, path: seq<Pos>, chs: seq<Choice>)
    requires n % 2 == 1
    requires |path| == |chs| + 1 && |walls| == |chs| && |floods| == |chs| && path[0] == Pos(0, 0)
    requires forall j :: 0 <= j < |chs| ==> OpenMazeStep(n, walls[j], floods[j], path[..j + 1], chs[j], path[j + 1])
    ensures forall j :: 0 <= j < |chs| ==> chs[j].found
    ensures |chs| <= n - 1
    ensures |chs| == n - 1 ==> IsGoal(n, path[|chs|].x, path[|chs|].y)
    ensures |chs| > 0 ==> |floods[0]| == n * n && floods[0][MazeIdx(n, 0, 0)] == n - 1
  {
    OpenMazeRunPrefix(n, walls, floods, path, chs, |chs|);
    if |chs| > 0 {
      var j := |chs| - 1;
      assert OpenMazeStep(n, walls[j], floods[j], path[..j + 1], chs[j], path[j + 1]);
      assert path[..j + 1][j] == path[j];
      assert OpenMazeStep(n, walls[0], floods[0], path[..1], chs[0], path[1]);
      NoInnerWallsManhattan(n, walls[0], floods[0], 0, 0);
    }
  }

  /** Costs of the distinct cells of a sequence. */
  lemma {:induction false} CardDistinct(s: seq<int>)
    requires forall i, j :: 0 <= i < j < |s| ==> s[i] != s[j]
    ensures |set i | 0 <= i < |s| :: s[i]| == |s|
    decreases |s|
  {
    if |s| > 0 {
      var k := |s| - 1;
      CardDistinct(s[..k]);
      assert (set i | 0 <= i < |s| :: s[i]) == (set i | 0 <= i < k :: s[..k][i]) + {s[k]};
    }
  }

  /** Pairwise distinct cells of the maze number at most n * n. */
  lemma DistinctCellsBound(n: Length, cells: seq<Pos>)
    requires forall k :: 0 <= k < |cells| ==> IsInRange(n, cells[k].x, cells[k].y)
    requires forall j, k :: 0 <= j < k < |cells| ==> cells[j] != cells[k]
    ensures |cells| <= n * n
  {
    var idx := seq(|cells|, k requires 0 <= k < |cells| => MazeIdx(n, cells[k].x, cells[k].y));
    forall j, k | 0 <= j < k < |idx|
      ensures idx[j] != idx[k]
    {
      DistinctCellsDistinctIdx(n, cells[j].x, cells[j].y, cells[k].x, cells[k].y);
    }
    CardDistinct(idx);
    var values := set i | 0 <= i < |idx| :: idx[i];
    if n * n > 0 {
      CardSubset(values, UpTo(n * n - 1));
    }
  }

  /** A stack of directions spells a walk of distinct in-range cells from
      (0, 0) to (x, y): path[k] is the cell reached after the first k
      moves. */
  ghost predicate WalkOk(n: Length, path: seq<Pos>, stack: seq<Dir>, x: int, y: int)
  {
    |path| == |stack| + 1 && path[0] == Pos(0, 0) && path[|stack|] == Pos(x, y)
    && (forall k :: 0 <= k < |stack| ==> path[k + 1] == Step(path[k], stack[k]))
    && (forall k :: 0 <= k < |path| ==> IsInRange(n, path[k].x, path[k].y))
    && (forall j, k :: 0 <= j < k < |path| ==> path[j] != path[k])
  }

  /** The first upTo cells of a path are marked visited. */
  ghost predicate ExploredOn(n: Length, path: seq<Pos>, visited: seq<bool>, upTo: int)
    requires |visited| == n * n
  {
    upTo <= |path|
    && forall k :: 0 <= k < upTo ==> IsInRange(n, path[k].x, path[k].y) && visited[MazeIdx(n, path[k].x, path[k].y)]
  }

  /** Advancing to an unvisited in-range neighbour extends the walk, and
      the walk can never outgrow the maze. */
  lemma ExtendWalk(n: Length, path: seq<Pos>, stack: seq<Dir>, x: int, y: int, visited: seq<bool>, d: Dir)
    requires |visited| == n * n
    requires WalkOk(n, path, stack, x, y) && ExploredOn(n, path, visited, |path|)
    requires IsInRange(n, x + DX(d), y + DY(d)) && !visited[MazeIdx(n, x + DX(d), y + DY(d))]
    ensures WalkOk(n, path + [Pos(x + DX(d), y + DY(d))], stack + [d], x + DX(d), y + DY(d))
    ensures ExploredOn(n, path + [Pos(x + DX(d), y + DY(d))], visited, |path|)
    ensures |path| + 1 <= n * n
  {
    var nb := Pos(x + DX(d), y + DY(d));
    var path' := path + [nb];
    forall k | 0 <= k < |path|
      ensures path[k] != nb
    {
      assert visited[MazeIdx(n, path[k].x, path[k].y)];
    }
    DistinctCellsBound(n, path');
  }

  /** Backing up along the last move of the walk shortens it by one cell. */
  lemma RetreatWalk(n: Length, path: seq<Pos>, stack: seq<Dir>, x: int, y: int, visited: seq<bool>)
    requires |visited| == n * n
    requires WalkOk(n, path, stack, x, y) && ExploredOn(n, path, visited, |path|) && stack != []
    ensures var k := |stack| - 1; var back := Opposite(stack[k]);
      && WalkOk(n, path[..k + 1], stack[..k], x + DX(back), y + DY(back))
      && ExploredOn(n, path[..k + 1], visited, k)
  {
    var k := |stack| - 1;
    assert path[k + 1] == Step(path[k], stack[k]);
  }

  /** The robot's motion state: position, heading, move stack (bottom
      first) and the motions issued so far. */
  datatype Pose = Pose(x: int, y: int, heading: Dir, stack: seq<Dir>, log: seq<Motion>)

  /** The three maze arrays as values. */
  datatype Survey = Survey(discovered: seq<MazeCell>, flood: seq<int>, visited: seq<bool>)

  predicate Sized(n: Length, m: Survey)
  {
    |m.discovered| == n * n && |m.flood| == n * n && |m.visited| == n * n
  }

  /** The first half of traverseCell off the goal: on a first visit the
      sensed walls are recorded and the flood is redone, a revisit keeps
      both; either way the cell ends up visited and the flood consistent. */
  ghost predicate Recorded(n: Length, before: Survey, p: Pose, sensed: WallDetection.Frame, after: Survey)
    requires Sized(n, before) && IsInRange(n, p.x, p.y)
  {
    var c := MazeIdx(n, p.x, p.y);
    && after.visited == before.visited[c := true]
    && after.discovered == before.discovered[c := if before.visited[c] then before.discovered[c]
                                                  else DetectWalls(p.heading, p.x, p.y, sensed)]
    && (before.visited[c] ==> after.flood == before.flood)
    && Consistent(n, after.discovered, after.flood)
  }

  /** The second half of traverseCell: with a chosen direction the robot
      turns, moves one cell and pushes the direction (the push may hit the
      stack limit); with none it pops the last direction and moves back
      against it, or stops on an empty stack. */
  predicate MovedOn(ch: Choice, before: Pose, r: Outcome, after: Pose)
  {
    if ch.found then
      && after.x == before.x + DX(ch.dir) && after.y == before.y + DY(ch.dir) && after.heading == ch.dir
      && after.log == before.log + Maneuver(SideOf(before.heading, ch.dir))
      && (r == Exit(PushFull) || (r.Ok? && after.stack == before.stack + [ch.dir]))
    else if before.stack == [] then
      r == Exit(PopEmpty)
    else
      var back := Opposite(before.stack[|before.stack| - 1]);
      && r.Ok? && after.stack == before.stack[..|before.stack| - 1]
      && after.x == before.x + DX(back) && after.y == before.y + DY(back) && after.heading == back
      && after.log == before.log + Maneuver(SideOf(before.heading, back))
  }

  /** The globals of algo.c. */
  class Explorer {
    const n: Length
    const discovered: array<MazeCell>
    const flood: array<int>
    const visited: array<bool>
    const moveStack: array<Dir>
    var stackTop: int
    var curDir: Dir
    var x: int
    var y: int
    /** Motions issued so far. */
    var log: seq<Motion>
    /** The cells the move stack leads through, from the start cell to the
        current one. */
    ghost var path: seq<Pos>

    /** The move stack, bottom first. */
    function Stack(): seq<Dir>
      reads this, moveStack
      requires 0 <= stackTop <= moveStack.Length
    {
      moveStack[..stackTop]
    }

    function Now(): Pose
      reads this, moveStack
      requires 0 <= stackTop <= moveStack.Length
    {
      Pose(x, y, curDir, Stack(), log)
    }

    function Known(): Survey
      reads discovered, flood, visited
    {
      Survey(discovered[..], flood[..], visited[..])
    }

    ghost predicate Shape()
      reads this
    {
      discovered.Length == n * n && flood.Length == n * n && visited.Length == n * n
      && moveStack.Length == StackSize && 0 <= stackTop <= StackSize
    }

    /** The stack spells a walk of distinct in-range cells from (0, 0) to
        the robot. */
    ghost predicate PathOk()
      reads this, moveStack
      requires Shape()
    {
      WalkOk(n, path, Stack(), x, y)
    }

    /** The first `upTo` cells of the walk have been visited. */
    ghost predicate Explored(upTo: int)
      reads this, visited
      requires Shape()
    {
      ExploredOn(n, path, visited[..], upTo)
    }

    /** Unvisited cells have no recorded wall; once any cell has been
        visited the cost array is the consistent flood of the recorded
        walls. */
    ghost predicate Knowledge()
      reads discovered, flood, visited
      requires discovered.Length == n * n && flood.Length == n * n && visited.Length == n * n
    {
      (forall i :: 0 <= i < n * n && !visited[i] ==> discovered[i] == NoWalls)
      && ((exists i :: 0 <= i < n * n && visited[i]) ==> Consistent(n, discovered[..], flood[..]))
    }

    /** The walk invariant: the stack spells a walk every cell of which
        but the robot's own has been visited. */
    ghost predicate OnWalk()
      reads this, visited, moveStack
    {
      Shape() && PathOk() && Explored(stackTop)
    }

    /** The exploration invariant: the walk invariant, and what has been
        learnt about the maze is consistent. */
    ghost predicate Valid()
      reads this, discovered, flood, visited, moveStack
    {
      OnWalk() && Knowledge()
    }

    /** Power-up state: nothing discovered or visited, `mazeFlood` holding
        its initialiser (only the first entry set), empty stack, robot at
        (0, 0) facing north. */
    constructor (n: Length)
      ensures this.n == n && Valid()
      ensures discovered[..] == seq(n * n, _ => NoWalls)
      ensures visited[..] == seq(n * n, _ => false)
      ensures flood[..] == seq(n * n, i => if i == 0 then Sentinel else 0)
      ensures Stack() == [] && curDir == North && x == 0 && y == 0 && log == []
      ensures fresh(discovered) && fresh(flood) && fresh(visited) && fresh(moveStack)
    {
      this.n := n;
      discovered := new MazeCell[n * n](_ => NoWalls);
      flood := new int[n * n](i => if i == 0 then Sentinel else 0);
      visited := new bool[n * n](_ => false);
      moveStack := new Dir[StackSize](_ => North);
      stackTop := 0;
      curDir := North;
      x, y := 0, 0;
      log := [];
      path := [Pos(0, 0)];
      new;
      assert discovered[..] == seq(n * n, _ => NoWalls);
      assert visited[..] == seq(n * n, _ => false);
      assert flood[..] == seq(n * n, i => if i == 0 then Sentinel else 0);
    }

    /** `push`: fails, as `exit(1)` does, on a full stack. */
    method Push(data: Dir) returns (ok: bool)
      requires moveStack.Length == StackSize && 0 <= stackTop <= StackSize
      modifies this`stackTop, moveStack
      ensures ok <==> old(stackTop) < StackSize
      ensures ok ==> stackTop == old(stackTop) + 1 && Stack() == old(Stack()) + [data]
      ensures !ok ==> stackTop == old(stackTop) && moveStack[..] == old(moveStack[..])
    {
      if stackTop == StackSize {
        return false;
      }
      moveStack[stackTop] := data;
      stackTop := stackTop + 1;
      return true;
    }

    /** `pop`: fails, as `exit(1)` does, on an empty stack. */
    method Pop() returns (r: Option<Dir>)
      requires 0 <= stackTop <= moveStack.Length
      modifies this`stackTop
      ensures old(stackTop) == 0 ==> r == None && stackTop == 0
      ensures old(stackTop) > 0 ==> stackTop == old(stackTop) - 1
      ensures old(stackTop) > 0 ==> r == Some(old(Stack())[old(stackTop) - 1]) && Stack() == old(Stack())[..stackTop]
    {
      if stackTop == 0 {
        return None;
      }
      stackTop := stackTop - 1;
      return Some(moveStack[stackTop]);
    }

    /** moveForward, moveBack, moveLeft, moveRight: issue the motions of a
        manoeuvre (the delays between them are not modelled). */
    method Perform(s: Side)
      modifies this`log
      ensures log == old(log) + Maneuver(s)
    {
      match s
      case Front => log := log + [Forward];
      case Back => log := log + [TurnRight90, TurnRight90, Forward];
      case Left => log := log + [TurnLeft90, Forward];
      case Right => log := log + [TurnRight90, Forward];
    }

    /** moveNorth, moveSouth, moveEast, moveWest: manoeuvre according to the
        current heading, then update the position and the heading. */
    method Move(d: Dir)
      modifies this`log, this`x, this`y, this`curDir
      ensures log == old(log) + Maneuver(SideOf(old(curDir), d))
      ensures x == old(x) + DX(d) && y == old(y) + DY(d) && curDir == d
    {
      Perform(SideOf(curDir, d));
      x := x + DX(d);
      y := y + DY(d);
      curDir := d;
    }

    /** The first-visit block of traverseCell: record the sensed walls, mark
        the cell visited and reflood.  Afterwards the robot's own cell is
        visited too and the flood is consistent. */
    method Visit(sensed: WallDetection.Frame) returns (thisCell: MazeCell)
      requires Valid()
      modifies discovered, flood, visited
      ensures Valid() && Explored(stackTop + 1)
      ensures Recorded(n, old(Known()), Now(), sensed, Known())
      ensures thisCell == discovered[MazeIdx(n, x, y)]
    {
      var c := MazeIdx(n, x, y);
      if !visited[c] {
        thisCell := DetectWalls(curDir, x, y, sensed);
        discovered[c] := thisCell;
        visited[c] := true;
        FloodFill(n, discovered[..], flood);
      } else {
        thisCell := discovered[c];
      }
      assert visited[c];
    }

    /** The push of the advance branch, after the move: the walk has
        been extended by the robot's new cell and waits for d on the
        stack. */
    method PushWalk(d: Dir) returns (ok: bool)
      requires Shape() && WalkOk(n, path, Stack() + [d], x, y) && ExploredOn(n, path, visited[..], stackTop + 1)
      requires |path| <= n * n
      modifies this`stackTop, moveStack
      ensures Shape() && (ok ==> OnWalk())
      ensures n * n <= StackSize ==> ok
      ensures ok ==> Stack() == old(Stack()) + [d]
    {
      ok := Push(d);
    }

    /** The advance branch of traverseCell: move to an unvisited in-range
        neighbour and push the direction.  The push can only fail when the
        maze has more cells than the stack has slots. */
    method Advance(d: Dir) returns (ok: bool)
      requires OnWalk() && Explored(stackTop + 1)
      requires IsInRange(n, x + DX(d), y + DY(d)) && !visited[MazeIdx(n, x + DX(d), y + DY(d))]
      modifies this`log, this`x, this`y, this`curDir, this`stackTop, this`path, moveStack
      ensures Shape() && (ok ==> OnWalk())
      ensures n * n <= StackSize ==> ok
      ensures x == old(x) + DX(d) && y == old(y) + DY(d) && curDir == d
      ensures log == old(log) + Maneuver(SideOf(old(curDir), d))
      ensures ok ==> Stack() == old(Stack()) + [d]
    {
      ghost var stack, v := Stack(), visited[..];
      ExtendWalk(n, path, stack, x, y, v, d);
      ghost var nb := Pos(x + DX(d), y + DY(d));
      Move(d);
      path := path + [nb];
      assert Stack() == stack && visited[..] == v;
      ok := PushWalk(d);
    }

    /** The back-up branch of traverseCell: pop the last direction and move
        against it, back to the previous cell of the walk. */
    method Retreat() returns (ok: bool)
      requires OnWalk() && Explored(stackTop + 1)
      modifies this`log, this`x, this`y, this`curDir, this`stackTop, this`path
      ensures OnWalk()
      ensures ok <==> old(stackTop) > 0
      ensures !ok ==> x == old(x) && y == old(y) && curDir == old(curDir) && log == old(log)
      ensures ok ==>
        var back := Opposite(old(Stack())[old(stackTop) - 1]);
        Stack() == old(Stack())[..old(stackTop) - 1]
        && x == old(x) + DX(back) && y == old(y) + DY(back) && curDir == back
        && log == old(log) + Maneuver(SideOf(old(curDir), back))
    {
      if stackTop > 0 {
        RetreatWalk(n, path, Stack(), x, y, visited[..]);
      }
      var popped := Pop();
      if popped.None? {
        return false;
      }
      Move(Opposite(popped.value));
      path := path[..stackTop + 1];
      return true;
    }

    /** The second half of traverseCell, after the visit: scan the
        neighbours of the robot's cell, then advance in the chosen
        direction, or back up when nothing was chosen. */
    method MoveOn(thisCell: MazeCell) returns (r: Outcome)
      requires OnWalk() && Explored(stackTop + 1)
      requires thisCell == discovered[MazeIdx(n, x, y)]
      modifies this`log, this`x, this`y, this`curDir, this`stackTop, this`path, moveStack
      ensures Shape() && (r != Exit(PushFull) ==> OnWalk())
      ensures n * n <= StackSize ==> r != Exit(PushFull)
      ensures r.Ok? ==> r.atGoal == IsGoal(n, x, y)
      ensures exists ch :: BestNeighbour(n, discovered[MazeIdx(n, old(x), old(y))], flood[..], visited[..], old(x), old(y), ch)
                           && MovedOn(ch, old(Now()), r, Now())
    {
      ghost var before, f, v := Now(), flood[..], visited[..];
      var ch := ScanNeighbours(thisCell);
      if ch.found {
        var ok := Advance(ch.dir);
        r := if ok then Ok(IsGoal(n, x, y)) else Exit(PushFull);
      } else {
        var ok := Retreat();
        r := if ok then Ok(IsGoal(n, x, y)) else Exit(PopEmpty);
      }
      assert MovedOn(ch, before, r, Now());
      assert flood[..] == f && visited[..] == v;
    }

    /** The neighbour scan of traverseCell: starting from cost `UINT_MAX`
        with nothing found, the blocks for north, east, south and west in
        turn. */
    method ScanNeighbours(thisCell: MazeCell) returns (ch: Choice)
      requires Shape()
      ensures BestNeighbour(n, thisCell, flood[..], visited[..], x, y, ch)
    {
      ch := Choice(false, North, Sentinel);
      var f, v := flood[..], visited[..];
      ch := ScanBlock(n, thisCell, f, v, x, y, 0, North, ch);
      ch := ScanBlock(n, thisCell, f, v, x, y, 1, East, ch);
      ch := ScanBlock(n, thisCell, f, v, x, y, 2, South, ch);
      ch := ScanBlock(n, thisCell, f, v, x, y, 3, West, ch);
      BestSoFarComplete(n, thisCell, flood[..], visited[..], x, y, ch);
    }

    /** traverseCell off the goal: a first visit records the sensed walls
        and refloods; then the robot moves to the best neighbour of the
        scan and pushes the direction, or, if there is none, pops the last
        direction and moves back against it. */
    method Explore(sensed: WallDetection.Frame) returns (r: Outcome)
      requires Valid()
      modifies this, discovered, flood, visited, moveStack
      ensures Shape() && (r != Exit(PushFull) ==> Valid())
      ensures n * n <= StackSize ==> r != Exit(PushFull)
      ensures r.Ok? ==> r.atGoal == IsGoal(n, x, y)
      ensures Recorded(n, old(Known()), old(Now()), sensed, Known())
      ensures exists ch :: BestNeighbour(n, discovered[MazeIdx(n, old(x), old(y))], flood[..], visited[..], old(x), old(y), ch)
                           && MovedOn(ch, old(Now()), r, Now())
    {
      var thisCell := Visit(sensed);
      r := MoveOn(thisCell);
    }

    /** `traverseCell`: one exploration step.  At the goal nothing happens;
        elsewhere the robot explores as Explore says.  The result tells
        whether the robot now stands on the goal. */
    method TraverseCell(sensed: WallDetection.Frame) returns (r: Outcome)
      requires Valid()
      modifies this, discovered, flood, visited, moveStack
      ensures Shape() && (r != Exit(PushFull) ==> Valid())
      ensures n * n <= StackSize ==> r != Exit(PushFull)
      ensures r.Ok? ==> r.atGoal == IsGoal(n, x, y)
      ensures old(IsGoal(n, x, y)) ==> r == Ok(true) && Now() == old(Now()) && Known() == old(Known())
      ensures !old(IsGoal(n, x, y)) ==>
        && Recorded(n, old(Known()), old(Now()), sensed, Known())
        && exists ch :: BestNeighbour(n, discovered[MazeIdx(n, old(x), old(y))], flood[..], visited[..], old(x), old(y), ch)
                        && MovedOn(ch, old(Now()), r, Now())
    {
      if IsGoal(n, x, y) {
        return Ok(true);
      }
      r := Explore(sensed);
    }
  }
}
