/** What a finished flood of algo.c means.  A cost array is consistent
    with a wall map when the goal cells cost 0, every other finite cost is
    one more than a neighbour it can be reached from, no passage lets a
    cost drop by more than one, and unreachable cells keep the sentinel.
    Such an array is unique, it is the length of the shortest walk from the
    goal, and adding walls never lowers it. */
module FloodField {
  import opened Maze

  /** The passage test of floodFillRecurse: from (x, y) towards d, both
      cells inside the maze and no wall on that side of (x, y). */
  predicate Open(n: Length, walls: seq<MazeCell>, x: int, y: int, d: Dir)
  {
    |walls| == n * n && IsInRange(n, x, y) && IsInRange(n, x + DX(d), y + DY(d))
    && !WallOn(walls[MazeIdx(n, x, y)], d)
  }

  /** Every cost lies between 0 and the sentinel. */
  predicate InBounds(n: Length, f: seq<int>)
  {
    |f| == n * n && forall i :: 0 <= i < n * n ==> 0 <= f[i] <= Sentinel
  }

  ghost predicate GoalsZero(n: Length, f: seq<int>)
  {
    |f| == n * n &&
    forall x, y {:trigger IsGoal(n, x, y)} :: IsInRange(n, x, y) && IsGoal(n, x, y) ==> f[MazeIdx(n, x, y)] == 0
  }

  /** The passage from (x, y) towards d lets the cost drop by more than
      one: the flood is not finished there. */
  predicate Bad(n: Length, walls: seq<MazeCell>, f: seq<int>, x: int, y: int, d: Dir)
  {
    |f| == n * n && Open(n, walls, x, y, d)
    && f[MazeIdx(n, x + DX(d), y + DY(d))] > f[MazeIdx(n, x, y)] + 1
  }

  ghost predicate Closed(n: Length, walls: seq<MazeCell>, f: seq<int>)
  {
    forall x, y, d :: !Bad(n, walls, f, x, y, d)
  }

  /** The neighbour of (x, y) towards e has a passage into (x, y) and a
      cost below v. */
  predicate FeedsFrom(n: Length, walls: seq<MazeCell>, f: seq<int>, x: int, y: int, e: Dir, v: int)
  {
    |f| == n * n && Open(n, walls, x + DX(e), y + DY(e), Opposite(e))
    && f[MazeIdx(n, x + DX(e), y + DY(e))] < v
  }

  /** A finite cost at (x, y), outside the goal, is justified by a
      cheaper neighbour with a passage into the cell. */
  ghost predicate SupportedAt(n: Length, walls: seq<MazeCell>, f: seq<int>, x: int, y: int)
  {
    |f| == n * n &&
    (IsInRange(n, x, y) && !IsGoal(n, x, y) && f[MazeIdx(n, x, y)] < Sentinel ==>
      exists e :: FeedsFrom(n, walls, f, x, y, e, f[MazeIdx(n, x, y)]))
  }

  ghost predicate Supported(n: Length, walls: seq<MazeCell>, f: seq<int>)
  {
    |f| == n * n && forall x, y :: SupportedAt(n, walls, f, x, y)
  }

  /** The result floodFill is meant to leave in `mazeFlood`. */
  ghost predicate Consistent(n: Length, walls: seq<MazeCell>, f: seq<int>)
  {
    |walls| == n * n && InBounds(n, f) && GoalsZero(n, f) && Closed(n, walls, f) && Supported(n, walls, f)
  }

  /** The neighbour towards e has a passage into (x, y) and costs exactly
      one less. */
  predicate OneLessFrom(n: Length, walls: seq<MazeCell>, f: seq<int>, x: int, y: int, e: Dir)
  {
    |f| == n * n && IsInRange(n, x, y) && Open(n, walls, x + DX(e), y + DY(e), Opposite(e))
    && f[MazeIdx(n, x + DX(e), y + DY(e))] + 1 == f[MazeIdx(n, x, y)]
  }

  lemma OppositeInvolutive(d: Dir)
    ensures Opposite(Opposite(d)) == d
  {
  }

  /** In a consistent field every finite cost outside the goal is exactly
      one more than some neighbour with a passage into the cell. */
  lemma StepDown(n: Length, walls: seq<MazeCell>, f: seq<int>, x: int, y: int) returns (e: Dir)
    requires Consistent(n, walls, f) && IsInRange(n, x, y)
    requires !IsGoal(n, x, y) && f[MazeIdx(n, x, y)] < Sentinel
    ensures OneLessFrom(n, walls, f, x, y, e)
  {
    assert SupportedAt(n, walls, f, x, y);
    e :| FeedsFrom(n, walls, f, x, y, e, f[MazeIdx(n, x, y)]);
    OppositeInvolutive(e);
    assert !Bad(n, walls, f, x + DX(e), y + DY(e), Opposite(e));
    assert OneLessFrom(n, walls, f, x, y, e);
  }

  /** Every wall of `fewer` is also a wall of `more`. */
  predicate WallsIncluded(n: Length, fewer: seq<MazeCell>, more: seq<MazeCell>)
  {
    |fewer| == n * n && |more| == n * n &&
    forall i, d :: 0 <= i < n * n && WallOn(fewer[i], d) ==> WallOn(more[i], d)
  }

  /** The lower-bound principle behind uniqueness and monotonicity: a
      closed field with zero goals lies below every supported field of a
      maze with at least the same walls. */
  lemma {:induction false} ClosedBelowSupported(n: Length, w: seq<MazeCell>, f: seq<int>,
                                                w2: seq<MazeCell>, g: seq<int>, x: int, y: int)
    requires WallsIncluded(n, w, w2)
    requires InBounds(n, f) && GoalsZero(n, f) && Closed(n, w, f)
    requires InBounds(n, g) && Supported(n, w2, g)
    requires IsInRange(n, x, y)
    ensures f[MazeIdx(n, x, y)] <= g[MazeIdx(n, x, y)]
    decreases g[MazeIdx(n, x, y)]
  {
    var c := MazeIdx(n, x, y);
    if g[c] < Sentinel && !IsGoal(n, x, y) {
      assert SupportedAt(n, w2, g, x, y);
      var e :| FeedsFrom(n, w2, g, x, y, e, g[c]);
      var ux, uy := x + DX(e), y + DY(e);
      ClosedBelowSupported(n, w, f, w2, g, ux, uy);
      OppositeInvolutive(e);
      assert Open(n, w, ux, uy, Opposite(e));
      assert !Bad(n, w, f, ux, uy, Opposite(e));
    }
  }

  /** A wall map has at most one consistent cost field. */
  lemma ConsistentUnique(n: Length, w: seq<MazeCell>, f: seq<int>, g: seq<int>)
    requires Consistent(n, w, f) && Consistent(n, w, g)
    ensures f == g
  {
    forall i | 0 <= i < n * n
      ensures f[i] == g[i]
    {
      var p := CellAt(n, i);
      ClosedBelowSupported(n, w, f, w, g, p.x, p.y);
      ClosedBelowSupported(n, w, g, w, f, p.x, p.y);
    }
  }

  /** Discovering more walls never lowers a cost. */
  lemma MoreWallsNeverLower(n: Length, w: seq<MazeCell>, f: seq<int>, w2: seq<MazeCell>, g: seq<int>)
    requires Consistent(n, w, f) && Consistent(n, w2, g) && WallsIncluded(n, w, w2)
    ensures forall i :: 0 <= i < n * n ==> f[i] <= g[i]
  {
    forall i | 0 <= i < n * n
      ensures f[i] <= g[i]
    {
      var p := CellAt(n, i);
      ClosedBelowSupported(n, w, f, w2, g, p.x, p.y);
    }
  }

  // ----- walks and reachability -----

  /** A walk from p whose every step goes through an open passage. */
  predicate OpenWalk(n: Length, walls: seq<MazeCell>, p: Pos, dirs: seq<Dir>)
    decreases |dirs|
  {
    IsInRange(n, p.x, p.y) &&
    (dirs == [] ||
     (OpenWalk(n, walls, p, dirs[..|dirs| - 1]) &&
      Open(n, walls, Walk(p, dirs[..|dirs| - 1]).x, Walk(p, dirs[..|dirs| - 1]).y, dirs[|dirs| - 1])))
  }

  /** An open walk stays inside the maze. */
  lemma {:induction false} OpenWalkInRange(n: Length, walls: seq<MazeCell>, p: Pos, dirs: seq<Dir>)
    requires OpenWalk(n, walls, p, dirs)
    ensures IsInRange(n, Walk(p, dirs).x, Walk(p, dirs).y)
    decreases |dirs|
  {
    if dirs != [] {
      OpenWalkInRange(n, walls, p, dirs[..|dirs| - 1]);
    }
  }

  /** The cell (x, y) can be walked to from a goal cell. */
  ghost predicate Reachable(n: Length, walls: seq<MazeCell>, x: int, y: int)
  {
    exists g: Pos, dirs: seq<Dir> ::
      IsGoal(n, g.x, g.y) && OpenWalk(n, walls, g, dirs) && Walk(g, dirs) == Pos(x, y)
  }

  /** Costs along an open walk grow by at most one per step. */
  lemma {:induction false} WalkCostBound(n: Length, walls: seq<MazeCell>, f: seq<int>, p: Pos, dirs: seq<Dir>)
    requires Consistent(n, walls, f) && OpenWalk(n, walls, p, dirs)
    ensures IsInRange(n, Walk(p, dirs).x, Walk(p, dirs).y)
    ensures f[MazeIdx(n, Walk(p, dirs).x, Walk(p, dirs).y)] <= f[MazeIdx(n, p.x, p.y)] + |dirs|
    decreases |dirs|
  {
    OpenWalkInRange(n, walls, p, dirs);
    if dirs != [] {
      var pre := dirs[..|dirs| - 1];
      var u := Walk(p, pre);
      WalkCostBound(n, walls, f, p, pre);
      assert !Bad(n, walls, f, u.x, u.y, dirs[|dirs| - 1]);
    }
  }

  /** No walk from the goal is shorter than the cost of its end cell. */
  lemma NoShorterWalk(n: Length, walls: seq<MazeCell>, f: seq<int>, g: Pos, dirs: seq<Dir>)
    requires Consistent(n, walls, f) && OpenWalk(n, walls, g, dirs) && IsGoal(n, g.x, g.y)
    ensures IsInRange(n, Walk(g, dirs).x, Walk(g, dirs).y)
    ensures f[MazeIdx(n, Walk(g, dirs).x, Walk(g, dirs).y)] <= |dirs|
  {
    WalkCostBound(n, walls, f, g, dirs);
  }

  /** A finite cost is realised by a walk from the goal of exactly that
      length. */
  lemma {:induction false} WalkOfCost(n: Length, walls: seq<MazeCell>, f: seq<int>, x: int, y: int)
    returns (g: Pos, dirs: seq<Dir>)
    requires Consistent(n, walls, f) && IsInRange(n, x, y) && f[MazeIdx(n, x, y)] < Sentinel
    ensures IsGoal(n, g.x, g.y) && OpenWalk(n, walls, g, dirs) && Walk(g, dirs) == Pos(x, y)
    ensures |dirs| == f[MazeIdx(n, x, y)]
    decreases f[MazeIdx(n, x, y)]
  {
    if IsGoal(n, x, y) {
      g, dirs := Pos(x, y), [];
    } else {
      var e := StepDown(n, walls, f, x, y);
      var ux, uy := x + DX(e), y + DY(e);
      assert f[MazeIdx(n, ux, uy)] + 1 == f[MazeIdx(n, x, y)];
      var pre;
      g, pre := WalkOfCost(n, walls, f, ux, uy);
      OppositeInvolutive(e);
      OpenWalkSnoc(n, walls, g, pre, Opposite(e));
      dirs := pre + [Opposite(e)];
    }
  }

  /** An open walk extended through an open passage is an open walk. */
  lemma OpenWalkSnoc(n: Length, walls: seq<MazeCell>, p: Pos, dirs: seq<Dir>, d: Dir)
    requires OpenWalk(n, walls, p, dirs) && Open(n, walls, Walk(p, dirs).x, Walk(p, dirs).y, d)
    ensures OpenWalk(n, walls, p, dirs + [d]) && Walk(p, dirs + [d]) == Step(Walk(p, dirs), d)
  {
    assert (dirs + [d])[..|dirs|] == dirs;
  }

  /** The set {0, ..., k}. */
  function UpTo(k: nat): (s: set<int>)
    ensures forall j :: j in s <==> 0 <= j <= k
    ensures |s| == k + 1
    decreases k
  {
    if k == 0 then {0} else UpTo(k - 1) + {k}
  }

  /** The first m entries of a sequence take at most m values. */
  lemma {:induction false} CardValues(f: seq<int>, m: nat)
    requires m <= |f|
    ensures |set i | 0 <= i < m :: f[i]| <= m
  {
    if m > 0 {
      CardValues(f, m - 1);
      assert (set i | 0 <= i < m :: f[i]) == (set i | 0 <= i < m - 1 :: f[i]) + {f[m - 1]};
    }
  }

  lemma CardSubset(a: set<int>, b: set<int>)
    requires a <= b
    ensures |a| <= |b|
  {
    assert b == a + (b - a);
    assert a * (b - a) == {};
  }

  /** Every value from 0 up to a finite cost occurs somewhere in the
      field. */
  lemma {:induction false} CostsBelowOccur(n: Length, walls: seq<MazeCell>, f: seq<int>, x: int, y: int, k: int)
    requires Consistent(n, walls, f) && IsInRange(n, x, y)
    requires 0 <= k <= f[MazeIdx(n, x, y)] < Sentinel
    ensures exists i :: 0 <= i < n * n && f[i] == k
    decreases f[MazeIdx(n, x, y)]
  {
    if f[MazeIdx(n, x, y)] != k {
      var e := StepDown(n, walls, f, x, y);
      CostsBelowOccur(n, walls, f, x + DX(e), y + DY(e), k);
    }
  }

  /** A finite cost is below the number of cells. */
  lemma FiniteCostBound(n: Length, walls: seq<MazeCell>, f: seq<int>, x: int, y: int)
    requires Consistent(n, walls, f) && IsInRange(n, x, y) && f[MazeIdx(n, x, y)] < Sentinel
    ensures f[MazeIdx(n, x, y)] <= n * n - 1
  {
    var k := f[MazeIdx(n, x, y)];
    var upTo := UpTo(k);
    var values := set i | 0 <= i < n * n :: f[i];
    forall j | j in upTo
      ensures j in values
    {
      CostsBelowOccur(n, walls, f, x, y, j);
    }
    CardValues(f, n * n);
    CardSubset(upTo, values);
  }

  /** Every cell of an open walk from a finite cell is finite. */
  lemma {:induction false} WalkStaysFinite(n: Length, walls: seq<MazeCell>, f: seq<int>, p: Pos, dirs: seq<Dir>)
    requires Consistent(n, walls, f) && OpenWalk(n, walls, p, dirs)
    requires f[MazeIdx(n, p.x, p.y)] < Sentinel
    ensures IsInRange(n, Walk(p, dirs).x, Walk(p, dirs).y)
    ensures f[MazeIdx(n, Walk(p, dirs).x, Walk(p, dirs).y)] < Sentinel
    decreases |dirs|
  {
    OpenWalkInRange(n, walls, p, dirs);
    if dirs != [] {
      var pre := dirs[..|dirs| - 1];
      var u := Walk(p, pre);
      WalkStaysFinite(n, walls, f, p, pre);
      FiniteCostBound(n, walls, f, u.x, u.y);
      CellCountBound(n);
      assert !Bad(n, walls, f, u.x, u.y, dirs[|dirs| - 1]);
    }
  }

  /** The sentinel marks exactly the cells no walk from the goal reaches. */
  lemma ReachableIffFinite(n: Length, walls: seq<MazeCell>, f: seq<int>, x: int, y: int)
    requires Consistent(n, walls, f) && IsInRange(n, x, y)
    ensures Reachable(n, walls, x, y) <==> f[MazeIdx(n, x, y)] < Sentinel
  {
    if f[MazeIdx(n, x, y)] < Sentinel {
      var g, dirs := WalkOfCost(n, walls, f, x, y);
    }
    if Reachable(n, walls, x, y) {
      var g: Pos, dirs: seq<Dir> :| IsGoal(n, g.x, g.y) && OpenWalk(n, walls, g, dirs) && Walk(g, dirs) == Pos(x, y);
      assert f[MazeIdx(n, g.x, g.y)] == 0;
      WalkStaysFinite(n, walls, f, g, dirs);
    }
  }

  // ----- the open maze -----

  /** A maze in which no wall has been recorded. */
  function AllOpen(n: Length): (w: seq<MazeCell>)
    ensures |w| == n * n
  {
    seq(n * n, _ => NoWalls)
  }

  function Abs(v: int): int
  {
    if v < 0 then -v else v
  }

  /** Manhattan distance to the centre cell. */
  function Manhattan(n: Length, x: int, y: int): int
  {
    Abs(x - n / 2) + Abs(y - n / 2)
  }

  /** The Manhattan distances of the first k cells of the flat array. */
  function ManhattanPrefix(n: Length, k: nat): (m: seq<int>)
    requires k <= n * n
    ensures |m| == k
    decreases k
  {
    if k == 0 then [] else ManhattanPrefix(n, k - 1) + [Manhattan(n, CellAt(n, k - 1).x, CellAt(n, k - 1).y)]
  }

  lemma {:induction false} ManhattanPrefixAt(n: Length, k: nat, i: int)
    requires 0 <= i < k <= n * n
    ensures ManhattanPrefix(n, k)[i] == Manhattan(n, CellAt(n, i).x, CellAt(n, i).y)
    decreases k
  {
    if i < k - 1 {
      ManhattanPrefixAt(n, k - 1, i);
    }
  }

  /** The Manhattan field over the flat array. */
  function ManhattanField(n: Length): (m: seq<int>)
    ensures |m| == n * n
  {
    ManhattanPrefix(n, n * n)
  }

  lemma ManhattanFieldAt(n: Length, x: int, y: int)
    requires IsInRange(n, x, y)
    ensures ManhattanField(n)[MazeIdx(n, x, y)] == Manhattan(n, x, y)
  {
    ManhattanPrefixAt(n, n * n, MazeIdx(n, x, y));
    CellAtMazeIdx(n, x, y);
  }

  lemma ManhattanInBounds(n: Length)
    ensures InBounds(n, ManhattanField(n))
  {
    var m := ManhattanField(n);
    forall i | 0 <= i < n * n
      ensures 0 <= m[i] <= Sentinel
    {
      var p := CellAt(n, i);
      ManhattanFieldAt(n, p.x, p.y);
    }
  }

  lemma ManhattanGoalsZero(n: Length)
    requires n % 2 == 1
    ensures GoalsZero(n, ManhattanField(n))
  {
    forall x, y | IsInRange(n, x, y) && IsGoal(n, x, y)
      ensures ManhattanField(n)[MazeIdx(n, x, y)] == 0
    {
      ManhattanFieldAt(n, x, y);
    }
  }

  /** One step changes the Manhattan distance by exactly one. */
  lemma ManhattanStep(n: Length, x: int, y: int, d: Dir)
    ensures Manhattan(n, x + DX(d), y + DY(d)) == Manhattan(n, x, y) + 1
         || Manhattan(n, x + DX(d), y + DY(d)) == Manhattan(n, x, y) - 1
  {
  }

  /** Off the centre, some step brings a cell one closer to it without
      leaving the maze. */
  lemma ManhattanCloser(n: Length, x: int, y: int) returns (e: Dir)
    requires IsInRange(n, x, y) && (x != n / 2 || y != n / 2)
    ensures IsInRange(n, x + DX(e), y + DY(e))
    ensures Manhattan(n, x + DX(e), y + DY(e)) == Manhattan(n, x, y) - 1
  {
    var h := n / 2;
    e := if x > h then West else if x < h then East else if y > h then South else North;
  }

  /** In the open maze every passage between in-range cells is open. */
  lemma AllOpenPassage(n: Length, x: int, y: int, d: Dir)
    requires IsInRange(n, x, y) && IsInRange(n, x + DX(d), y + DY(d))
    ensures Open(n, AllOpen(n), x, y, d)
  {
    assert AllOpen(n)[MazeIdx(n, x, y)] == NoWalls;
  }

  /** No passage of the open maze lets the Manhattan distance drop by more
      than one. */
  lemma ManhattanNotBad(n: Length, x: int, y: int, d: Dir)
    ensures !Bad(n, AllOpen(n), ManhattanField(n), x, y, d)
  {
    if IsInRange(n, x, y) && IsInRange(n, x + DX(d), y + DY(d)) {
      ManhattanFieldAt(n, x, y);
      ManhattanFieldAt(n, x + DX(d), y + DY(d));
      ManhattanStep(n, x, y, d);
    }
  }

  lemma ManhattanClosed(n: Length)
    ensures Closed(n, AllOpen(n), ManhattanField(n))
  {
    forall x, y, d
      ensures !Bad(n, AllOpen(n), ManhattanField(n), x, y, d)
    {
      ManhattanNotBad(n, x, y, d);
    }
  }

  /** A cell off the centre of an odd maze has a neighbour one step
      closer to it. */
  lemma ManhattanSupportedAt(n: Length, x: int, y: int)
    requires n % 2 == 1
    ensures SupportedAt(n, AllOpen(n), ManhattanField(n), x, y)
  {
    if IsInRange(n, x, y) && !IsGoal(n, x, y) {
      var e := ManhattanCloser(n, x, y);
      OppositeInvolutive(e);
      AllOpenPassage(n, x + DX(e), y + DY(e), Opposite(e));
      ManhattanFieldAt(n, x, y);
      ManhattanFieldAt(n, x + DX(e), y + DY(e));
      assert FeedsFrom(n, AllOpen(n), ManhattanField(n), x, y, e, ManhattanField(n)[MazeIdx(n, x, y)]);
    }
  }

  lemma ManhattanSupported(n: Length)
    requires n % 2 == 1
    ensures Supported(n, AllOpen(n), ManhattanField(n))
  {
    forall x, y
      ensures SupportedAt(n, AllOpen(n), ManhattanField(n), x, y)
    {
      ManhattanSupportedAt(n, x, y);
    }
  }

  /** With an odd side and no walls, the Manhattan field is consistent. */
  lemma ManhattanConsistent(n: Length)
    requires n % 2 == 1
    ensures Consistent(n, AllOpen(n), ManhattanField(n))
  {
    ManhattanInBounds(n);
    ManhattanGoalsZero(n);
    ManhattanClosed(n);
    ManhattanSupported(n);
  }

  /** With an odd side and no walls, the flood cost of every cell is its
      Manhattan distance to the centre. */
  lemma OpenMazeIsManhattan(n: Length, f: seq<int>, x: int, y: int)
    requires n % 2 == 1 && Consistent(n, AllOpen(n), f) && IsInRange(n, x, y)
    ensures f[MazeIdx(n, x, y)] == Manhattan(n, x, y)
  {
    ManhattanConsistent(n);
    ConsistentUnique(n, AllOpen(n), f, ManhattanField(n));
    ManhattanFieldAt(n, x, y);
  }

  /** Every passage between two in-range cells is open: the only walls
      recorded are on the outer boundary. */
  ghost predicate NoInnerWalls(n: Length, walls: seq<MazeCell>)
  {
    |walls| == n * n
    && forall x, y, d {:trigger Open(n, walls, x, y, d)} ::
         IsInRange(n, x, y) && IsInRange(n, x + DX(d), y + DY(d)) ==> Open(n, walls, x, y, d)
  }

  /** A consistent flood of a wall map without inner walls is also a
      consistent flood of the open maze: the two maps have the same
      passages. */
  lemma NoInnerWallsConsistent(n: Length, walls: seq<MazeCell>, f: seq<int>)
    requires NoInnerWalls(n, walls) && Consistent(n, walls, f)
    ensures Consistent(n, AllOpen(n), f)
  {
    forall x, y, d | IsInRange(n, x, y) && IsInRange(n, x + DX(d), y + DY(d))
      ensures Open(n, AllOpen(n), x, y, d)
    {
      AllOpenPassage(n, x, y, d);
    }
    forall x, y, d
      ensures !Bad(n, AllOpen(n), f, x, y, d)
    {
      assert !Bad(n, walls, f, x, y, d);
    }
    forall x, y
      ensures SupportedAt(n, AllOpen(n), f, x, y)
    {
      assert SupportedAt(n, walls, f, x, y);
      if IsInRange(n, x, y) && !IsGoal(n, x, y) && f[MazeIdx(n, x, y)] < Sentinel {
        var e :| FeedsFrom(n, walls, f, x, y, e, f[MazeIdx(n, x, y)]);
        assert FeedsFrom(n, AllOpen(n), f, x, y, e, f[MazeIdx(n, x, y)]);
      }
    }
  }

  /** With an odd side and no inner walls recorded, the flood cost of
      every cell is its Manhattan distance to the centre. */
  lemma NoInnerWallsManhattan(n: Length, walls: seq<MazeCell>, f: seq<int>, x: int, y: int)
    requires n % 2 == 1 && NoInnerWalls(n, walls) && Consistent(n, walls, f) && IsInRange(n, x, y)
    ensures f[MazeIdx(n, x, y)] == Manhattan(n, x, y)
  {
    NoInnerWallsConsistent(n, walls, f);
    OpenMazeIsManhattan(n, f, x, y);
  }

  /** On the open 5x5 maze the start corner costs 4 and the goal 0. */
  lemma OpenFiveByFive(f: seq<int>)
    requires Consistent(MazeLength, AllOpen(MazeLength), f)
    ensures f[MazeIdx(MazeLength, 0, 0)] == 4
    ensures f[MazeIdx(MazeLength, 4, 4)] == 4
    ensures f[MazeIdx(MazeLength, 2, 3)] == 1
  {
    OpenMazeIsManhattan(MazeLength, f, 0, 0);
    OpenMazeIsManhattan(MazeLength, f, 4, 4);
    OpenMazeIsManhattan(MazeLength, f, 2, 3);
  }
}
