/** The wall followers of algo/wallfollower_algo.c: one forward square,
    at most one turn towards the followed side when it is open, then a turn
    away from it for as long as a front wall is seen.  They keep no state
    of their own; everything lives in the Drive and its WallSensors. */
module WallFollower {
  import opened WallDetection
  import opened Motion

  /** The readings one front check of the loop consumes, and the samples of
      the turn that follows it. */
  datatype FrontCheck = FrontCheck(ir1: Reading, ir4: Reading, turn: seq<Sample>)

  /** Everything one call polls: the forward move, the side check, the
      turn towards the side, and the checks of the front-wall loop. */
  datatype FollowInputs = FollowInputs(forward: seq<Sample>, sideReading: Reading, turn: seq<Sample>,
                                       checks: seq<FrontCheck>)

  /** How a call ended: with the side check's result, the number of
      iterations the forward move ran before it stopped, and the number of
      turns made in the loop; or still inside a primitive (or a check)
      whose inputs ran out. */
  datatype Follow = Followed(sideSeen: Presence, steps: nat, turns: nat) | Stalled

  /** xs repeated k times. */
  function Repeat(xs: seq<Primitive>, k: nat): seq<Primitive>
    decreases k
  {
    if k == 0 then [] else Repeat(xs, k - 1) + xs
  }

  function CountOf(p: Primitive, ps: seq<Primitive>): (c: nat)
    ensures c <= |ps|
    decreases |ps|
  {
    if ps == [] then 0 else CountOf(p, ps[..|ps| - 1]) + (if ps[|ps| - 1] == p then 1 else 0)
  }

  lemma {:induction false} CountOfAppend(p: Primitive, a: seq<Primitive>, b: seq<Primitive>)
    ensures CountOf(p, a + b) == CountOf(p, a) + CountOf(p, b)
    decreases |b|
  {
    if b == [] {
      assert a + b == a;
    } else {
      assert (a + b)[..|a + b| - 1] == a + b[..|b| - 1];
      CountOfAppend(p, a, b[..|b| - 1]);
    }
  }

  lemma {:induction false} CountOfRepeat(p: Primitive, xs: seq<Primitive>, k: nat)
    ensures CountOf(p, Repeat(xs, k)) == k * CountOf(p, xs)
    decreases k
  {
    if k > 0 {
      CountOfRepeat(p, xs, k - 1);
      CountOfAppend(p, Repeat(xs, k - 1), xs);
      assert (k - 1) * CountOf(p, xs) + CountOf(p, xs) == k * CountOf(p, xs);
    }
  }

  /** The primitives a left follow completes: forward, a left turn if the
      left side was open, then k rounds of adjust and right turn. */
  function LeftFollowPlan(sideSeen: Presence, k: nat): seq<Primitive>
  {
    [MoveForward1MazeSquare] + (if sideSeen == NotFound then [TurnLeft90Pid] else [])
    + Repeat([AdjustToFront, TurnRight90Pid], k)
  }

  function RightFollowPlan(sideSeen: Presence, k: nat): seq<Primitive>
  {
    [MoveForward1MazeSquare] + (if sideSeen == NotFound then [TurnRight90Pid] else [])
    + Repeat([AdjustToFront, TurnLeft90Pid], k)
  }

  /** A left follow moves forward exactly once, first, turns left at most
      once (exactly when the left side was seen open) and turns right once
      per front wall it met. */
  lemma LeftFollowPlanShape(sideSeen: Presence, k: nat)
    ensures LeftFollowPlan(sideSeen, k)[0] == MoveForward1MazeSquare
    ensures CountOf(MoveForward1MazeSquare, LeftFollowPlan(sideSeen, k)) == 1
    ensures CountOf(TurnLeft90Pid, LeftFollowPlan(sideSeen, k)) == (if sideSeen == NotFound then 1 else 0)
    ensures CountOf(TurnRight90Pid, LeftFollowPlan(sideSeen, k)) == k
  {
    var head := [MoveForward1MazeSquare] + (if sideSeen == NotFound then [TurnLeft90Pid] else []);
    var pair := [AdjustToFront, TurnRight90Pid];
    assert LeftFollowPlan(sideSeen, k) == head + Repeat(pair, k);
    CountOfAppend(MoveForward1MazeSquare, [MoveForward1MazeSquare], if sideSeen == NotFound then [TurnLeft90Pid] else []);
    CountOfAppend(TurnLeft90Pid, [MoveForward1MazeSquare], if sideSeen == NotFound then [TurnLeft90Pid] else []);
    CountOfAppend(TurnRight90Pid, [MoveForward1MazeSquare], if sideSeen == NotFound then [TurnLeft90Pid] else []);
    assert [AdjustToFront, TurnRight90Pid][..1] == [AdjustToFront];
    assert [TurnLeft90Pid][..0] == [] && [MoveForward1MazeSquare][..0] == [];
    forall p | p in {MoveForward1MazeSquare, TurnLeft90Pid, TurnRight90Pid}
      ensures CountOf(p, head + Repeat(pair, k)) == CountOf(p, head) + k * CountOf(p, pair)
    {
      CountOfAppend(p, head, Repeat(pair, k));
      CountOfRepeat(p, pair, k);
    }
  }

  /** Left and right swapped. */
  function Mirror(p: Primitive): Primitive
  {
    match p
    case TurnRight90 => TurnLeft90
    case TurnLeft90 => TurnRight90
    case TurnRight90Pid => TurnLeft90Pid
    case TurnLeft90Pid => TurnRight90Pid
    case TurnRight45 => TurnLeft45
    case TurnLeft45 => TurnRight45
    case _ => p
  }

  function MirrorAll(ps: seq<Primitive>): (r: seq<Primitive>)
    ensures |r| == |ps|
    decreases |ps|
  {
    if ps == [] then [] else MirrorAll(ps[..|ps| - 1]) + [Mirror(ps[|ps| - 1])]
  }

  lemma {:induction false} MirrorAllAppend(a: seq<Primitive>, b: seq<Primitive>)
    ensures MirrorAll(a + b) == MirrorAll(a) + MirrorAll(b)
    decreases |b|
  {
    if b == [] {
      assert a + b == a;
    } else {
      assert (a + b)[..|a + b| - 1] == a + b[..|b| - 1];
      MirrorAllAppend(a, b[..|b| - 1]);
    }
  }

  lemma {:induction false} MirrorRepeat(xs: seq<Primitive>, k: nat)
    ensures MirrorAll(Repeat(xs, k)) == Repeat(MirrorAll(xs), k)
    decreases k
  {
    if k > 0 {
      MirrorRepeat(xs, k - 1);
      MirrorAllAppend(Repeat(xs, k - 1), xs);
    }
  }

  /** The right follow is the mirror image of the left one. */
  lemma RightFollowIsMirror(sideSeen: Presence, k: nat)
    ensures RightFollowPlan(sideSeen, k) == MirrorAll(LeftFollowPlan(sideSeen, k))
  {
    var aside: seq<Primitive> := if sideSeen == NotFound then [TurnLeft90Pid] else [];
    var pair := [AdjustToFront, TurnRight90Pid];
    MirrorAllAppend([MoveForward1MazeSquare] + aside, Repeat(pair, k));
    MirrorAllAppend([MoveForward1MazeSquare], aside);
    MirrorRepeat(pair, k);
    assert MirrorAll([MoveForward1MazeSquare]) == [MoveForward1MazeSquare];
    assert MirrorAll(aside) == if sideSeen == NotFound then [TurnRight90Pid] else [];
    assert pair[..1] == [AdjustToFront];
    assert MirrorAll(pair) == [AdjustToFront, TurnLeft90Pid];
  }

  /** The first half of both followers: one forward square, then the
      check of the followed side.  That check goes through the gate the
      forward move left behind: still open if no iteration got past
      halfway, and then it reads the side sensor; closed otherwise, and
      then it reports the presence the move stored last. */
  method ForwardThenCheckSide(drive: Drive, forward: seq<Sample>, sideReading: Reading, leftSide: bool,
                              sensorPd: (int, int) -> int, wheelPd: (int, int) -> int)
    returns (run: Run, side: Presence)
    modifies drive, drive.walls
    ensures !run.Running? ==> run.steps < |forward| && !Continues(forward[run.steps])
                              && forall j :: 0 <= j < run.steps ==> Continues(forward[j])
    ensures !run.Running? ==> drive.done == old(drive.done) + [MoveForward1MazeSquare]
    ensures !run.Running? && leftSide ==>
      side == (if GateAfter(forward[..run.steps]) == Available then SidePresence(sideReading, LeftThreshold)
               else SideAfter(old(drive.walls.left), forward[..run.steps], true))
    ensures !run.Running? && !leftSide ==>
      side == (if GateAfter(forward[..run.steps]) == Available then SidePresence(sideReading, RightThreshold)
               else SideAfter(old(drive.walls.right), forward[..run.steps], false))
    ensures drive.walls.frontGate == old(drive.walls.frontGate)
  {
    run := drive.MoveForward1MazeSquarePid(forward, sensorPd, wheelPd);
    if leftSide {
      side := drive.walls.CheckLeftWall(sideReading);
    } else {
      side := drive.walls.CheckRightWall(sideReading);
    }
  }

  /** A 90 degree PID turn towards the followed side, taken when that
      side was seen open.  `ok` is false when the turn's samples ran out. */
  method TurnTowardsSide(drive: Drive, turn: seq<Sample>, turnPd: (int, int) -> int, towardsLeft: bool)
    returns (ok: bool)
    modifies drive, drive.walls
    ensures ok ==> drive.done == old(drive.done) + [if towardsLeft then TurnLeft90Pid else TurnRight90Pid]
    ensures drive.walls.frontGate == old(drive.walls.frontGate)
  {
    if towardsLeft {
      ok := drive.TurnLeft90DegreesPid(turn, turnPd);
    } else {
      ok := drive.TurnRight90DegreesPid(turn, turnPd);
    }
  }

  /** One round of the front-wall loop once a wall was seen: square up
      to it, then turn 90 degrees with the PID controller, away from the
      followed side.  `ok` is false when the turn's samples ran out. */
  method AdjustAndTurn(drive: Drive, turn: seq<Sample>, turnPd: (int, int) -> int, awayRight: bool)
    returns (ok: bool)
    modifies drive, drive.walls
    ensures ok ==> drive.done == old(drive.done) + [AdjustToFront, if awayRight then TurnRight90Pid else TurnLeft90Pid]
    ensures drive.walls.frontGate == old(drive.walls.frontGate)
  {
    drive.AdjustToFrontWall();
    if awayRight {
      ok := drive.TurnRight90DegreesPid(turn, turnPd);
    } else {
      ok := drive.TurnLeft90DegreesPid(turn, turnPd);
    }
  }

  /** The front-wall loop both followers end with: while the front check
      does not say NotFound, square up to the wall and turn 90 degrees with
      the PID controller, away from the followed side.  When the front gate
      is open, each check reports the front wall of its own readings, so the
      loop turns exactly while those say Found. */
  method TurnWhileBlocked(drive: Drive, checks: seq<FrontCheck>, turnPd: (int, int) -> int, awayRight: bool)
    returns (clear: bool, turns: nat)
    modifies drive, drive.walls
    ensures clear ==> drive.done == old(drive.done)
                                    + Repeat([AdjustToFront, if awayRight then TurnRight90Pid else TurnLeft90Pid], turns)
    ensures clear ==> drive.walls.front == NotFound && turns < |checks|
    ensures clear && old(drive.walls.frontGate) == Available ==>
      (forall k :: 0 <= k < turns ==> FrontPresence(checks[k].ir1, checks[k].ir4) == Found)
      && FrontPresence(checks[turns].ir1, checks[turns].ir4) == NotFound
  {
    ghost var gate0 := drive.walls.frontGate;
    ghost var done0 := drive.done;
    var away := if awayRight then TurnRight90Pid else TurnLeft90Pid;
    turns := 0;
    while turns < |checks|
      invariant turns <= |checks|
      invariant drive.walls.frontGate == gate0
      invariant drive.done == done0 + Repeat([AdjustToFront, away], turns)
      invariant gate0 == Available ==>
        forall j :: 0 <= j < turns ==> FrontPresence(checks[j].ir1, checks[j].ir4) == Found
    {
      var check := checks[turns];
      var front := drive.walls.CheckFrontWall(check.ir1, check.ir4);
      if front == NotFound {
        return true, turns;
      }
      var ok := AdjustAndTurn(drive, check.turn, turnPd, awayRight);
      if !ok {
        return false, turns;
      }
      turns := turns + 1;
    }
    return false, turns;
  }

  /** `algo_LeftWallFollow`. */
  method LeftWallFollow(drive: Drive, inputs: FollowInputs,
                        sensorPd: (int, int) -> int, wheelPd: (int, int) -> int, turnPd: (int, int) -> int)
    returns (r: Follow)
    modifies drive, drive.walls
    ensures r.Followed? ==> drive.done == old(drive.done) + LeftFollowPlan(r.sideSeen, r.turns)
    ensures r.Followed? ==> r.steps < |inputs.forward| && !Continues(inputs.forward[r.steps])
                            && forall j :: 0 <= j < r.steps ==> Continues(inputs.forward[j])
    ensures r.Followed? ==>
      r.sideSeen == (if GateAfter(inputs.forward[..r.steps]) == Available then SidePresence(inputs.sideReading, LeftThreshold)
                     else SideAfter(old(drive.walls.left), inputs.forward[..r.steps], true))
    ensures r.Followed? ==> drive.walls.front == NotFound && r.turns < |inputs.checks|
    ensures r.Followed? && old(drive.walls.frontGate) == Available ==>
      (forall k :: 0 <= k < r.turns ==> FrontPresence(inputs.checks[k].ir1, inputs.checks[k].ir4) == Found)
      && FrontPresence(inputs.checks[r.turns].ir1, inputs.checks[r.turns].ir4) == NotFound
  {
    var run, side := ForwardThenCheckSide(drive, inputs.forward, inputs.sideReading, true, sensorPd, wheelPd);
    if run.Running? {
      return Stalled;
    }
    if side == NotFound {
      var ok := TurnTowardsSide(drive, inputs.turn, turnPd, true);
      if !ok {
        return Stalled;
      }
    }
    var clear, turns := TurnWhileBlocked(drive, inputs.checks, turnPd, true);
    r := if clear then Followed(side, run.steps, turns) else Stalled;
  }

  /** `algo_RightWallFollow`, the mirror image. */
  method RightWallFollow(drive: Drive, inputs: FollowInputs,
                         sensorPd: (int, int) -> int, wheelPd: (int, int) -> int, turnPd: (int, int) -> int)
    returns (r: Follow)
    modifies drive, drive.walls
    ensures r.Followed? ==> drive.done == old(drive.done) + RightFollowPlan(r.sideSeen, r.turns)
    ensures r.Followed? ==> r.steps < |inputs.forward| && !Continues(inputs.forward[r.steps])
                            && forall j :: 0 <= j < r.steps ==> Continues(inputs.forward[j])
    ensures r.Followed? ==>
      r.sideSeen == (if GateAfter(inputs.forward[..r.steps]) == Available then SidePresence(inputs.sideReading, RightThreshold)
                     else SideAfter(old(drive.walls.right), inputs.forward[..r.steps], false))
    ensures r.Followed? ==> drive.walls.front == NotFound && r.turns < |inputs.checks|
    ensures r.Followed? && old(drive.walls.frontGate) == Available ==>
      (forall k :: 0 <= k < r.turns ==> FrontPresence(inputs.checks[k].ir1, inputs.checks[k].ir4) == Found)
      && FrontPresence(inputs.checks[r.turns].ir1, inputs.checks[r.turns].ir4) == NotFound
  {
    var run, side := ForwardThenCheckSide(drive, inputs.forward, inputs.sideReading, false, sensorPd, wheelPd);
    if run.Running? {
      return Stalled;
    }
    if side == NotFound {
      var ok := TurnTowardsSide(drive, inputs.turn, turnPd, false);
      if !ok {
        return Stalled;
      }
    }
    var clear, turns := TurnWhileBlocked(drive, inputs.checks, turnPd, false);
    r := if clear then Followed(side, run.steps, turns) else Stalled;
  }
}
