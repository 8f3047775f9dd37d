/** `floodFill` and `floodFillRecurse` of algo/algo.c: reset every cost to
    the sentinel, then spread costs outwards from the goal cells by
    depth-first recursion, north, south, east, west, entering a neighbour
    only when the passage is open and the neighbour's cost would drop.
    The result is the consistent field of FloodField. */
module Flood {
  import opened Maze
  import opened FloodField

  /** Sum of all costs: every recursive call starts from a smaller sum,
      which is why the recursion terminates. */
  function SumOf(s: seq<int>): (r: int)
    ensures (forall i :: 0 <= i < |s| ==> s[i] >= 0) ==> r >= 0
    decreases |s|
  {
    if s == [] then 0 else SumOf(s[..|s| - 1]) + s[|s| - 1]
  }

  /** Entry by entry no larger than `before`. */
  predicate Lowered(before: seq<int>, after: seq<int>)
  {
    |before| == |after| && forall i :: 0 <= i < |after| ==> after[i] <= before[i]
  }

  /** Lowering entries lowers the sum, strictly when one entry drops. */
  lemma {:induction false} SumMono(a: seq<int>, b: seq<int>, j: int)
    requires Lowered(b, a)
    ensures SumOf(a) <= SumOf(b)
    ensures 0 <= j < |a| && a[j] < b[j] ==> SumOf(a) < SumOf(b)
    decreases |a|
  {
    if |a| > 0 {
      var k := |a| - 1;
      SumMono(a[..k], b[..k], j);
    }
  }

  /** Every passage left unfinished in `after` was already unfinished in
      `before`. */
  ghost predicate NoNewBadEdges(n: Length, walls: seq<MazeCell>, before: seq<int>, after: seq<int>)
  {
    forall x, y, d :: Bad(n, walls, after, x, y, d) ==> Bad(n, walls, before, x, y, d)
  }

  /** Lowering the cost of (x, y) keeps the field supported when the new
      cost is itself justified (or (x, y) is a goal). */
  lemma SupportAfterLowering(n: Length, walls: seq<MazeCell>, before: seq<int>, after: seq<int>, x: int, y: int)
    requires |before| == n * n && Supported(n, walls, before) && Lowered(before, after)
    requires IsInRange(n, x, y)
    requires forall i :: 0 <= i < n * n && i != MazeIdx(n, x, y) ==> after[i] == before[i]
    requires IsGoal(n, x, y) || exists e :: FeedsFrom(n, walls, before, x, y, e, after[MazeIdx(n, x, y)])
    ensures Supported(n, walls, after)
  {
    forall x', y'
      ensures SupportedAt(n, walls, after, x', y')
    {
      if IsInRange(n, x', y') && !IsGoal(n, x', y') && after[MazeIdx(n, x', y')] < Sentinel {
        if MazeIdx(n, x', y') == MazeIdx(n, x, y) {
          MazeIdxInjective(n, x', y', x, y);
          var e :| FeedsFrom(n, walls, before, x, y, e, after[MazeIdx(n, x, y)]);
          assert FeedsFrom(n, walls, after, x, y, e, after[MazeIdx(n, x, y)]);
        } else {
          assert SupportedAt(n, walls, before, x', y');
          var e :| FeedsFrom(n, walls, before, x', y', e, before[MazeIdx(n, x', y')]);
          assert FeedsFrom(n, walls, after, x', y', e, after[MazeIdx(n, x', y')]);
        }
      }
    }
  }

  /** Lowering one cost only creates unfinished passages out of that
      cell. */
  lemma LoweringOneCell(n: Length, walls: seq<MazeCell>, before: seq<int>, after: seq<int>, x: int, y: int)
    requires |before| == n * n && Lowered(before, after) && IsInRange(n, x, y)
    requires forall i :: 0 <= i < n * n && i != MazeIdx(n, x, y) ==> after[i] == before[i]
    ensures forall x', y', d :: Bad(n, walls, after, x', y', d) && (x' != x || y' != y) ==> Bad(n, walls, before, x', y', d)
  {
    forall x', y', d | Bad(n, walls, after, x', y', d) && (x' != x || y' != y)
      ensures Bad(n, walls, before, x', y', d)
    {
      DistinctCellsDistinctIdx(n, x', y', x, y);
    }
  }

  /** A cost field for the wall map whose costs are in bounds and
      justified: what every step of the recursion keeps. */
  ghost predicate Field(n: Length, walls: seq<MazeCell>, f: seq<int>)
  {
    |walls| == n * n && InBounds(n, f) && Supported(n, walls, f)
  }

  /** `after` arises from `before` by lowering costs, each lowered one to
      a value above `cost`. */
  predicate LoweredAbove(before: seq<int>, after: seq<int>, cost: int)
  {
    Lowered(before, after) && forall i :: 0 <= i < |after| && after[i] < before[i] ==> after[i] > cost
  }

  /** What floodFillRecurse at (x, y) with `cost` leaves behind: (x, y)
      holds `cost`, costs only dropped, every other drop is to a value above
      `cost`, no passage became unfinished, and no passage out of (x, y) is
      unfinished. */
  ghost predicate FloodedFrom(n: Length, walls: seq<MazeCell>, before: seq<int>, after: seq<int>,
                              x: int, y: int, cost: int)
  {
    |before| == n * n && |after| == n * n && IsInRange(n, x, y)
    && after[MazeIdx(n, x, y)] == cost && Lowered(before, after)
    && (forall i :: 0 <= i < n * n && i != MazeIdx(n, x, y) && after[i] < before[i] ==> after[i] > cost)
    && NoNewBadEdges(n, walls, before, after)
    && (forall d :: !Bad(n, walls, after, x, y, d))
  }

  /** What one block of floodFillRecurse leaves behind: costs only
      dropped, each drop to a value above `cost`, no passage became
      unfinished, the passage from (x, y) towards d is finished, and the
      sum of the costs did not grow. */
  ghost predicate Relaxed(n: Length, walls: seq<MazeCell>, before: seq<int>, after: seq<int>,
                          x: int, y: int, d: Dir, cost: int)
  {
    && LoweredAbove(before, after, cost) && NoNewBadEdges(n, walls, before, after)
    && !Bad(n, walls, after, x, y, d) && SumOf(after) <= SumOf(before)
  }

  /** A block that finds its passage finished changes nothing. */
  lemma NothingToRelax(n: Length, walls: seq<MazeCell>, f: seq<int>, x: int, y: int, d: Dir, cost: int)
    requires !Bad(n, walls, f, x, y, d)
    ensures Relaxed(n, walls, f, f, x, y, d, cost)
  {
  }

  /** The four relaxations of floodFillRecurse, composed. */
  lemma ComposeRelaxations(n: Length, walls: seq<MazeCell>, entry: seq<int>, s0: seq<int>, s1: seq<int>,
                           s2: seq<int>, s3: seq<int>, s4: seq<int>, x: int, y: int, cost: int)
    requires |entry| == n * n && IsInRange(n, x, y) && cost < entry[MazeIdx(n, x, y)]
    requires s0 == entry[MazeIdx(n, x, y) := cost]
    requires forall x', y', d :: Bad(n, walls, s0, x', y', d) && (x' != x || y' != y) ==> Bad(n, walls, entry, x', y', d)
    requires Relaxed(n, walls, s0, s1, x, y, North, cost) && Relaxed(n, walls, s1, s2, x, y, South, cost)
    requires Relaxed(n, walls, s2, s3, x, y, East, cost) && Relaxed(n, walls, s3, s4, x, y, West, cost)
    ensures FloodedFrom(n, walls, entry, s4, x, y, cost)
  {
    forall d
      ensures !Bad(n, walls, s4, x, y, d)
    {
    }
    forall x', y', d | Bad(n, walls, s4, x', y', d)
      ensures Bad(n, walls, entry, x', y', d)
    {
      assert Bad(n, walls, s3, x', y', d);
      assert Bad(n, walls, s2, x', y', d);
      assert Bad(n, walls, s1, x', y', d);
      assert Bad(n, walls, s0, x', y', d);
    }
  }

  /** After the neighbour towards d has been flooded with cost + 1, the
      passage into it is finished and (x, y) kept its cost. */
  lemma NeighbourFlooded(n: Length, walls: seq<MazeCell>, before: seq<int>, after: seq<int>,
                         x: int, y: int, d: Dir, cost: int)
    requires IsInRange(n, x, y) && |before| == n * n && before[MazeIdx(n, x, y)] == cost
    requires FloodedFrom(n, walls, before, after, x + DX(d), y + DY(d), cost + 1)
    ensures Relaxed(n, walls, before, after, x, y, d, cost)
  {
    DistinctCellsDistinctIdx(n, x, y, x + DX(d), y + DY(d));
    SumMono(after, before, -1);
  }

  /** A cell other than (x, y) whose cost was above `cost` still is. */
  lemma StillAbove(n: Length, walls: seq<MazeCell>, before: seq<int>, after: seq<int>,
                   x: int, y: int, cost: int, x': int, y': int)
    requires FloodedFrom(n, walls, before, after, x, y, cost)
    requires IsInRange(n, x', y') && (x' != x || y' != y) && before[MazeIdx(n, x', y')] > cost
    ensures after[MazeIdx(n, x', y')] > cost
  {
    DistinctCellsDistinctIdx(n, x, y, x', y');
  }

  /** One of the four blocks of floodFillRecurse: if the passage from
      (x, y) towards d is open and the neighbour's cost would drop below
      its current value, recurse into the neighbour with cost + 1.
      Afterwards that passage is finished. */
  method Relax(n: Length, walls: seq<MazeCell>, x: int, y: int, d: Dir, cost: int, flood: array<int>)
    requires flood.Length == n * n && IsInRange(n, x, y) && Field(n, walls, flood[..])
    requires flood[MazeIdx(n, x, y)] == cost
    modifies flood
    ensures Field(n, walls, flood[..]) && Relaxed(n, walls, old(flood[..]), flood[..], x, y, d, cost)
    decreases SumOf(flood[..]), 2
  {
    if IsInRange(n, x + DX(d), y + DY(d)) && !WallOn(walls[MazeIdx(n, x, y)], d)
       && flood[MazeIdx(n, x + DX(d), y + DY(d))] > cost + 1 {
      FloodNeighbour(n, walls, x, y, d, cost, flood);
    } else {
      NothingToRelax(n, walls, flood[..], x, y, d, cost);
    }
  }

  /** The recursive branch of one block: the passage towards d is open and
      the neighbour's cost is above cost + 1, so the neighbour is flooded
      with cost + 1. */
  method FloodNeighbour(n: Length, walls: seq<MazeCell>, x: int, y: int, d: Dir, cost: int, flood: array<int>)
    requires flood.Length == n * n && IsInRange(n, x, y) && Field(n, walls, flood[..])
    requires flood[MazeIdx(n, x, y)] == cost
    requires IsInRange(n, x + DX(d), y + DY(d)) && !WallOn(walls[MazeIdx(n, x, y)], d)
    requires flood[MazeIdx(n, x + DX(d), y + DY(d))] > cost + 1
    modifies flood
    ensures Field(n, walls, flood[..]) && Relaxed(n, walls, old(flood[..]), flood[..], x, y, d, cost)
    decreases SumOf(flood[..]), 1
  {
    OppositeInvolutive(d);
    assert FeedsFrom(n, walls, flood[..], x + DX(d), y + DY(d), Opposite(d), cost + 1);
    ghost var before := flood[..];
    FloodFillRecurse(n, walls, x + DX(d), y + DY(d), cost + 1, flood);
    assert |before| == n * n;
    NeighbourFlooded(n, walls, before, flood[..], x, y, d, cost);
  }

  /** `floodFillRecurse`: set the cost of (x, y), then relax its four
      passages in the order of the source.  Costs only drop, every drop
      other than at (x, y) is to a value above `cost`, and no passage ends
      up unfinished that was not unfinished before, except none at all out
      of (x, y). */
  method FloodFillRecurse(n: Length, walls: seq<MazeCell>, x: int, y: int, cost: int, flood: array<int>)
    requires flood.Length == n * n && IsInRange(n, x, y) && Field(n, walls, flood[..])
    requires 0 <= cost < flood[MazeIdx(n, x, y)]
    requires IsGoal(n, x, y) || exists e :: FeedsFrom(n, walls, flood[..], x, y, e, cost)
    modifies flood
    ensures Field(n, walls, flood[..]) && FloodedFrom(n, walls, old(flood[..]), flood[..], x, y, cost)
    decreases SumOf(flood[..]), 0
  {
    var c := MazeIdx(n, x, y);
    ghost var entry := flood[..];
    flood[c] := cost;
    ghost var s0 := flood[..];
    SupportAfterLowering(n, walls, entry, s0, x, y);
    LoweringOneCell(n, walls, entry, s0, x, y);
    SumMono(s0, entry, c);

    Relax(n, walls, x, y, North, cost, flood);
    ghost var s1 := flood[..];
    Relax(n, walls, x, y, South, cost, flood);
    ghost var s2 := flood[..];
    Relax(n, walls, x, y, East, cost, flood);
    ghost var s3 := flood[..];
    Relax(n, walls, x, y, West, cost, flood);
    ComposeRelaxations(n, walls, entry, s0, s1, s2, s3, flood[..], x, y, cost);
  }

  /** `floodFill`: reset every cost to the sentinel, then flood from the
      goal cell (odd side) or from the four goal cells in the order of the
      source (even side).  The result is consistent with the wall map. */
  method FloodFill(n: Length, walls: seq<MazeCell>, flood: array<int>)
    requires |walls| == n * n && flood.Length == n * n
    modifies flood
    ensures Consistent(n, walls, flood[..])
  {
    for i := 0 to n * n
      invariant forall j :: 0 <= j < i ==> flood[j] == Sentinel
    {
      flood[i] := Sentinel;
    }
    ghost var reset := flood[..];
    ResetField(n, walls, reset);
    var h := n / 2;
    if n % 2 == 1 {
      FloodFillRecurse(n, walls, h, h, 0, flood);
      OddGoalFlooded(n, walls, reset, flood[..]);
    } else {
      EvenGoals(n);
      FloodFillRecurse(n, walls, h - 1, h - 1, 0, flood);
      ghost var s1 := flood[..];
      StillAbove(n, walls, reset, s1, h - 1, h - 1, 0, h - 1, h);
      FloodFillRecurse(n, walls, h - 1, h, 0, flood);
      ghost var s2 := flood[..];
      StillAbove(n, walls, reset, s1, h - 1, h - 1, 0, h, h - 1);
      StillAbove(n, walls, s1, s2, h - 1, h, 0, h, h - 1);
      FloodFillRecurse(n, walls, h, h - 1, 0, flood);
      ghost var s3 := flood[..];
      StillAbove(n, walls, reset, s1, h - 1, h - 1, 0, h, h);
      StillAbove(n, walls, s1, s2, h - 1, h, 0, h, h);
      StillAbove(n, walls, s2, s3, h, h - 1, 0, h, h);
      FloodFillRecurse(n, walls, h, h, 0, flood);
      EvenGoalsFlooded(n, walls, reset, s1, s2, s3, flood[..]);
    }
  }

  /** The field of sentinels is in bounds, justified and finished. */
  lemma ResetField(n: Length, walls: seq<MazeCell>, f: seq<int>)
    requires |walls| == n * n && |f| == n * n && forall i :: 0 <= i < n * n ==> f[i] == Sentinel
    ensures Field(n, walls, f) && forall x, y, d :: !Bad(n, walls, f, x, y, d)
  {
    forall x, y
      ensures SupportedAt(n, walls, f, x, y)
    {
    }
  }

  /** Flooding the single goal cell of an odd maze from the reset field
      gives the consistent field. */
  lemma OddGoalFlooded(n: Length, walls: seq<MazeCell>, reset: seq<int>, f: seq<int>)
    requires n % 2 == 1 && forall x, y, d :: !Bad(n, walls, reset, x, y, d)
    requires Field(n, walls, f) && FloodedFrom(n, walls, reset, f, n / 2, n / 2, 0)
    ensures Consistent(n, walls, f)
  {
  }

  /** The four goal cells of an even maze, in the order floodFill floods
      them, are in range, are goals, and are the only goals. */
  lemma EvenGoals(n: Length)
    requires n % 2 == 0
    ensures n >= 2
    ensures IsInRange(n, n / 2 - 1, n / 2 - 1) && IsGoal(n, n / 2 - 1, n / 2 - 1)
    ensures IsInRange(n, n / 2 - 1, n / 2) && IsGoal(n, n / 2 - 1, n / 2)
    ensures IsInRange(n, n / 2, n / 2 - 1) && IsGoal(n, n / 2, n / 2 - 1)
    ensures IsInRange(n, n / 2, n / 2) && IsGoal(n, n / 2, n / 2)
    ensures forall x, y {:trigger IsGoal(n, x, y)} :: IsGoal(n, x, y) ==> (x == n / 2 - 1 || x == n / 2) && (y == n / 2 - 1 || y == n / 2)
  {
  }

  /** Four floods in a row that add no unfinished passage to a finished
      field leave it finished. */
  lemma ClosedAfterFour(n: Length, walls: seq<MazeCell>, s0: seq<int>, s1: seq<int>, s2: seq<int>,
                        s3: seq<int>, s4: seq<int>)
    requires forall x, y, d :: !Bad(n, walls, s0, x, y, d)
    requires NoNewBadEdges(n, walls, s0, s1) && NoNewBadEdges(n, walls, s1, s2)
    requires NoNewBadEdges(n, walls, s2, s3) && NoNewBadEdges(n, walls, s3, s4)
    ensures Closed(n, walls, s4)
  {
    forall x, y, d
      ensures !Bad(n, walls, s4, x, y, d)
    {
      assert !Bad(n, walls, s1, x, y, d);
      assert !Bad(n, walls, s2, x, y, d);
      assert !Bad(n, walls, s3, x, y, d);
    }
  }

  /** A goal cell set to 0 by one of the four floods stays at 0 through
      the later ones, since costs only drop and never below 0. */
  lemma GoalsStayZero(n: Length, s1: seq<int>, s2: seq<int>, s3: seq<int>, s4: seq<int>)
    requires n % 2 == 0 && Lowered(s1, s2) && Lowered(s2, s3) && Lowered(s3, s4) && InBounds(n, s4)
    requires IsInRange(n, n / 2 - 1, n / 2 - 1) && s1[MazeIdx(n, n / 2 - 1, n / 2 - 1)] == 0
    requires IsInRange(n, n / 2 - 1, n / 2) && s2[MazeIdx(n, n / 2 - 1, n / 2)] == 0
    requires IsInRange(n, n / 2, n / 2 - 1) && s3[MazeIdx(n, n / 2, n / 2 - 1)] == 0
    requires IsInRange(n, n / 2, n / 2) && s4[MazeIdx(n, n / 2, n / 2)] == 0
    ensures GoalsZero(n, s4)
  {
    EvenGoals(n);
    var h := n / 2;
    forall x, y | IsInRange(n, x, y) && IsGoal(n, x, y)
      ensures s4[MazeIdx(n, x, y)] == 0
    {
      var i := MazeIdx(n, x, y);
      assert (x == h - 1 || x == h) && (y == h - 1 || y == h);
      assert 0 <= s4[i] <= s3[i] <= s2[i] <= s1[i];
      if x == h - 1 && y == h - 1 {
        assert s1[i] == 0;
      } else if x == h - 1 {
        assert s2[i] == 0;
      } else if y == h - 1 {
        assert s3[i] == 0;
      }
    }
  }

  /** Flooding the four goal cells of an even maze in turn from the reset
      field gives the consistent field. */
  lemma EvenGoalsFlooded(n: Length, walls: seq<MazeCell>, s0: seq<int>, s1: seq<int>, s2: seq<int>,
                         s3: seq<int>, s4: seq<int>)
    requires n % 2 == 0 && forall x, y, d :: !Bad(n, walls, s0, x, y, d)
    requires FloodedFrom(n, walls, s0, s1, n / 2 - 1, n / 2 - 1, 0)
    requires FloodedFrom(n, walls, s1, s2, n / 2 - 1, n / 2, 0)
    requires FloodedFrom(n, walls, s2, s3, n / 2, n / 2 - 1, 0)
    requires Field(n, walls, s4) && FloodedFrom(n, walls, s3, s4, n / 2, n / 2, 0)
    ensures Consistent(n, walls, s4)
  {
    ClosedAfterFour(n, walls, s0, s1, s2, s3, s4);
    GoalsStayZero(n, s1, s2, s3, s4);
  }
}
