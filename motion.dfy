/** The discrete skeleton of the motion primitives of
    mouse_control_interface/movement_mci.c: the PID forward move of one
    maze square, the plain and PID 90 degree turns and the 45 degree turns.

    Everything the primitives poll (both encoder counters and the four
    infra-red readings) comes in as one injected Sample per loop
    iteration; the floating-point PD products are injected integer
    functions.  A primitive whose samples run out before its loop exits is
    reported as still running: the real loop would keep polling. */
module Motion {
  import opened MachineInts
  import opened SharedFunctions
  import opened WallDetection

  /** Speeds and encoder counts of movement_mci.h. */
  const TurnSpeed: int := 140
  const ForwardFastSpeed: int := 140
  const MinimumSpeed: int := 140
  const EdgesPerMazeSquare: int := 77
  const EdgesPer90Right: int := 32
  const EdgesPer90Left: int := 32
  const EdgesPer90RightPid: int := 33
  const EdgesPer90LeftPid: int := 33
  const EdgesPer45Right: int := EdgesPer90Right / 2
  const EdgesPer45Left: int := EdgesPer90Left / 2

  /** Encoder target of the forward move: both counters together. */
  const TargetPosition: int := EdgesPerMazeSquare * 2
  /** A single side wall is followed at the side threshold plus this
      offset. */
  const SideSetpointOffset: int := 60
  /** Base speed of the PID turns. */
  const PidTurnBaseSpeed: int := 90
  const MaxDuty: int := 255

  /** An `int32_t` encoder counter. */
  type Count = c: int | -TwoTo31 <= c < TwoTo31

  /** One poll of the hardware: the two encoder counters and the readings
      of IR1 (front left), IR2 (left), IR3 (right) and IR4 (front
      right). */
  datatype Sample = Sample(enc1: Count, enc2: Count, ir1: Reading, ir2: Reading, ir3: Reading, ir4: Reading)

  /** The guard sum: both counters are read back as `uint32_t` and added
      with wrap-around. */
  function EncoderSum(s: Sample): (u: int)
    ensures IsU32(u)
    ensures 0 <= s.enc1 && 0 <= s.enc2 ==> u == s.enc1 + s.enc2
  {
    ToU32(ToU32(s.enc1) + ToU32(s.enc2))
  }

  /** The loop guard of the forward move fails: the target is reached. */
  predicate Reached(s: Sample)
  {
    !(EncoderSum(s) < TargetPosition)
  }

  /** The averaged front reading says a wall is too close. */
  predicate FrontTooClose(s: Sample)
  {
    (s.ir1 + s.ir4) / 2 >= FrontTooCloseThreshold
  }

  /** The forward loop goes on while the guard holds and no front wall is
      too close. */
  predicate Continues(s: Sample)
  {
    !Reached(s) && !FrontTooClose(s)
  }

  /** More than half of the square has been covered. */
  predicate PastHalfway(s: Sample)
  {
    EncoderSum(s) > TargetPosition / 2
  }

  /** `mci_CheckLeftWallMoveForwardPid`: classify one IR2 reading, without
      touching the stored presences or gates. */
  function CheckLeftWallMoveForwardPid(ir2: Reading): (p: Presence)
    ensures p == Found <==> ir2 >= LeftThreshold
    ensures p == NotFound <==> ir2 < LeftThreshold
  {
    if ir2 >= LeftThreshold then Found else NotFound
  }

  /** `mci_CheckRightWallMoveForwardPid`, on IR3. */
  function CheckRightWallMoveForwardPid(ir3: Reading): (p: Presence)
    ensures p == Found <==> ir3 >= RightThreshold
    ensures p == NotFound <==> ir3 < RightThreshold
  {
    if ir3 >= RightThreshold then Found else NotFound
  }

  datatype Option<T> = None | Some(value: T)

  /** The sensor error of one forward iteration, chosen by which side walls
      the classifiers see: with both walls the difference of the two side
      readings; with one wall the offset of that side's reading from its
      setpoint 161, amplified five times when the robot is too far from the
      wall, then weighted -2 (left) or 3 (right); with none, no error
      (the sensor term and its history are reset). */
  function SensorError(left: Presence, right: Presence, ir2: Reading, ir3: Reading): (e: Option<int>)
    ensures left == Found && right == Found ==> e == Some(ir2 - ir3)
    ensures left == Found && right != Found ==>
      e.Some? && e.value == (if ir2 < LeftThreshold + SideSetpointOffset then 10 else 2) * (ir2 - (LeftThreshold + SideSetpointOffset))
    ensures left != Found && right == Found ==>
      e.Some? && e.value == (if ir3 < RightThreshold + SideSetpointOffset then 15 else 3) * (RightThreshold + SideSetpointOffset - ir3)
    ensures e == None <==> left != Found && right != Found
  {
    if left == Found && right == Found then
      var errorSensorLeft := LeftThreshold - ir2;
      var errorSensorRight := RightThreshold - ir3;
      Some(errorSensorRight - errorSensorLeft)
    else if left == Found then
      var errorSensorLeft := (LeftThreshold + SideSetpointOffset) - ir2;
      var amplified := if errorSensorLeft > 0 then errorSensorLeft * 5 else errorSensorLeft;
      Some(-amplified * 2)
    else if right == Found then
      var errorSensorRight := (RightThreshold + SideSetpointOffset) - ir3;
      var amplified := if errorSensorRight > 0 then errorSensorRight * 5 else errorSensorRight;
      Some(amplified * 3)
    else
      None
  }

  /** State of one wheel motor: PWM duty and direction. */
  datatype WheelDir = Forward | Backward | Stopped
  datatype Wheel = Wheel(duty: int, dir: WheelDir)

  const Halted: Wheel := Wheel(0, Stopped)

  function Abs(v: int): int
  {
    if v < 0 then -v else v
  }

  /** The wheel command of the forward loop: base plus PD output clamped to
      [-255, 255]; a negative value drives backward with its magnitude as
      duty, anything else forward. */
  function WheelCommand(base: int, output: int): (w: Wheel)
    ensures 0 <= w.duty <= MaxDuty && w.dir != Stopped
    ensures w.dir == Backward <==> base + output < 0
    ensures -MaxDuty <= base + output <= MaxDuty ==> w.duty == Abs(base + output)
    ensures Abs(base + output) > MaxDuty ==> w.duty == MaxDuty
  {
    var speed := Constrain(base + output, MaxDuty, -MaxDuty);
    if speed < 0 then Wheel(Abs(speed), Backward) else Wheel(speed, Forward)
  }

  /** The sensor error of a sample as the forward loop picks it from the
      two classified side readings. */
  function SampleSensorError(s: Sample): Option<int>
  {
    SensorError(CheckLeftWallMoveForwardPid(s.ir2), CheckRightWallMoveForwardPid(s.ir3), s.ir2, s.ir3)
  }

  /** The sensor error an iteration keeps for the next one's derivative:
      the chosen error, or 0 when no side wall is seen. */
  function KeptSensorError(s: Sample): int
  {
    match SampleSensorError(s)
    case Some(v) => v
    case None => 0
  }

  /** The sensor PD output of an iteration, from the sensor error kept by
      the one before.  The three gain pairs of the source (both walls, left
      only, right only) are equal, so one injected law serves all three. */
  function SensorOutput(s: Sample, sensorPd: (int, int) -> int, prevErrorSensors: int): int
  {
    match SampleSensorError(s)
    case Some(v) => sensorPd(v, v - prevErrorSensors)
    case None => 0
  }

  /** The sensor error kept before iteration j: none (0) before the
      first. */
  function PrevSensorErrorAt(samples: seq<Sample>, j: int): int
    requires 0 <= j <= |samples|
  {
    if j == 0 then 0 else KeptSensorError(samples[j - 1])
  }

  /** The steering error of iteration j: the encoder imbalance against a
      target angle of 0, corrected by the sensor output. */
  function ErrorAt(samples: seq<Sample>, j: int, sensorPd: (int, int) -> int): int
    requires 0 <= j < |samples|
  {
    0 - (samples[j].enc1 - samples[j].enc2) + SensorOutput(samples[j], sensorPd, PrevSensorErrorAt(samples, j))
  }

  /** The steering error kept before iteration j: 0 before the first. */
  function PrevErrorAt(samples: seq<Sample>, j: int, sensorPd: (int, int) -> int): int
    requires 0 <= j <= |samples|
  {
    if j == 0 then 0 else ErrorAt(samples, j - 1, sensorPd)
  }

  /** The error computed from sample i and the sensor error kept before
      it is the steering error of iteration i. */
  lemma ErrorAtStep(samples: seq<Sample>, i: int, sensorPd: (int, int) -> int, error: int, prevErrorSensors: int)
    requires 0 <= i < |samples| && prevErrorSensors == PrevSensorErrorAt(samples, i)
    requires error == 0 - (samples[i].enc1 - samples[i].enc2) + SensorOutput(samples[i], sensorPd, prevErrorSensors)
    ensures error == ErrorAt(samples, i, sensorPd)
  {
  }

  /** The two errors the forward loop keeps before iteration i. */
  predicate PdHistory(samples: seq<Sample>, i: int, sensorPd: (int, int) -> int, prevError: int, prevErrorSensors: int)
    requires 0 <= i <= |samples|
  {
    prevError == PrevErrorAt(samples, i, sensorPd) && prevErrorSensors == PrevSensorErrorAt(samples, i)
  }

  /** The wheel PD output of iteration j. */
  function OutputAt(samples: seq<Sample>, j: int, sensorPd: (int, int) -> int, wheelPd: (int, int) -> int): int
    requires 0 <= j < |samples|
  {
    wheelPd(ErrorAt(samples, j, sensorPd), ErrorAt(samples, j, sensorPd) - PrevErrorAt(samples, j, sensorPd))
  }

  /** The wheel commands of the first i forward iterations, motor 1 then
      motor 2 for each: the base speed plus the output, and minus it. */
  function ForwardCommands(samples: seq<Sample>, i: int, sensorPd: (int, int) -> int, wheelPd: (int, int) -> int)
    : (ws: seq<Wheel>)
    requires 0 <= i <= |samples|
    ensures |ws| == 2 * i
    decreases i
  {
    if i == 0 then []
    else
      var out := OutputAt(samples, i - 1, sensorPd, wheelPd);
      ForwardCommands(samples, i - 1, sensorPd, wheelPd) + [WheelCommand(MinimumSpeed, out), WheelCommand(MinimumSpeed, -out)]
  }

  /** Iteration j of the forward move sends WheelCommand of the base speed
      plus its wheel PD output to motor 1 and minus it to motor 2, and the
      commands of later iterations do not change those of earlier ones. */
  lemma {:induction false} ForwardCommandsAt(samples: seq<Sample>, i: int, j: int,
                                             sensorPd: (int, int) -> int, wheelPd: (int, int) -> int)
    requires 0 <= j < i <= |samples|
    ensures ForwardCommands(samples, i, sensorPd, wheelPd)[2 * j]
         == WheelCommand(MinimumSpeed, OutputAt(samples, j, sensorPd, wheelPd))
    ensures ForwardCommands(samples, i, sensorPd, wheelPd)[2 * j + 1]
         == WheelCommand(MinimumSpeed, -OutputAt(samples, j, sensorPd, wheelPd))
    decreases i
  {
    if j < i - 1 {
      ForwardCommandsAt(samples, i - 1, j, sensorPd, wheelPd);
    }
  }

  /** Every command the forward move sends is a valid, running one: a
      duty in [0, 255] and a direction. */
  lemma ForwardCommandsValid(samples: seq<Sample>, i: int, sensorPd: (int, int) -> int, wheelPd: (int, int) -> int)
    requires 0 <= i <= |samples|
    ensures forall k :: 0 <= k < 2 * i ==>
      0 <= ForwardCommands(samples, i, sensorPd, wheelPd)[k].duty <= MaxDuty
      && ForwardCommands(samples, i, sensorPd, wheelPd)[k].dir != Stopped
  {
    forall k | 0 <= k < 2 * i
      ensures 0 <= ForwardCommands(samples, i, sensorPd, wheelPd)[k].duty <= MaxDuty
      ensures ForwardCommands(samples, i, sensorPd, wheelPd)[k].dir != Stopped
    {
      ForwardCommandsAt(samples, i, k / 2, sensorPd, wheelPd);
    }
  }

  /** How a forward move ended: the encoder target was reached, or a front
      wall came too close, after the given number of full iterations; or
      the samples ran out with the loop still going. */
  datatype Run = Arrived(steps: nat) | Blocked(steps: nat) | Running

  function Steps(r: Run, samples: seq<Sample>): int
  {
    if r.Running? then |samples| else r.steps
  }

  /** Number of leading samples before the first one past halfway: the
      iterations during which the side gates were still open. */
  function OpenPrefix(ss: seq<Sample>): (m: nat)
    ensures m <= |ss|
    ensures forall k :: 0 <= k < m ==> !PastHalfway(ss[k])
    ensures m < |ss| ==> PastHalfway(ss[m])
    decreases |ss|
  {
    if ss == [] then 0
    else
      var m := OpenPrefix(ss[..|ss| - 1]);
      if m == |ss| - 1 && !PastHalfway(ss[|ss| - 1]) then |ss| else m
  }

  /** The side presence after the forward iterations over ss: the reading
      of the last iteration with the gate open, or the presence held before
      the move if the gate closed in the first iteration. */
  function SideAfter(before: Presence, ss: seq<Sample>, leftSide: bool): (p: Presence)
  {
    var m := OpenPrefix(ss);
    if m == 0 then before
    else if leftSide then SidePresence(ss[m - 1].ir2, LeftThreshold)
    else SidePresence(ss[m - 1].ir3, RightThreshold)
  }

  /** A gate is closed after the iterations over ss exactly when one of
      them was past halfway. */
  function GateAfter(ss: seq<Sample>): Gate
  {
    if OpenPrefix(ss) < |ss| then NotAvailable else Available
  }

  lemma GateAfterClosed(ss: seq<Sample>)
    ensures GateAfter(ss) == NotAvailable <==> exists k :: 0 <= k < |ss| && PastHalfway(ss[k])
  {
    if OpenPrefix(ss) < |ss| {
      assert PastHalfway(ss[OpenPrefix(ss)]);
    }
  }

  /** One more forward iteration: the open prefix grows only if it covered
      everything so far and the new sample is not past halfway. */
  lemma OpenPrefixStep(ss: seq<Sample>, s: Sample)
    ensures OpenPrefix(ss + [s]) == if OpenPrefix(ss) == |ss| && !PastHalfway(s) then |ss| + 1 else OpenPrefix(ss)
  {
    assert (ss + [s])[..|ss|] == ss;
  }

  /** One more forward iteration, as seen by the gates and the stored side
      presences: the gate closes if the sample is past halfway, and a side
      presence takes the new reading exactly when its gate is still open. */
  lemma WallsStep(before: Presence, ss: seq<Sample>, s: Sample, leftSide: bool)
    ensures GateAfter(ss + [s]) == if PastHalfway(s) then NotAvailable else GateAfter(ss)
    ensures SideAfter(before, ss + [s], leftSide)
         == if GateAfter(ss + [s]) == NotAvailable then SideAfter(before, ss, leftSide)
            else if leftSide then SidePresence(s.ir2, LeftThreshold)
            else SidePresence(s.ir3, RightThreshold)
  {
    OpenPrefixStep(ss, s);
    var m := OpenPrefix(ss + [s]);
    if m > 0 && m <= |ss| {
      assert (ss + [s])[m - 1] == ss[m - 1];
    }
  }

  /** Once past halfway the side gates stay closed and the side presences
      stay fixed for the rest of the move. */
  lemma {:induction false} ClosedGateStaysClosed(before: Presence, ss: seq<Sample>, rest: seq<Sample>, leftSide: bool)
    requires GateAfter(ss) == NotAvailable
    ensures OpenPrefix(ss + rest) == OpenPrefix(ss)
    ensures GateAfter(ss + rest) == NotAvailable
    ensures SideAfter(before, ss + rest, leftSide) == SideAfter(before, ss, leftSide)
    decreases |rest|
  {
    if rest == [] {
      assert ss + rest == ss;
    } else {
      var last := rest[|rest| - 1];
      var init := rest[..|rest| - 1];
      assert ss + rest == (ss + init) + [last];
      ClosedGateStaysClosed(before, ss, init, leftSide);
      OpenPrefixStep(ss + init, last);
    }
  }

  /** The PID turn error of one wheel as movement_mci.c:1118-1119 and
      1196-1197 compute it.  The counters are read as `uint32_t`, so
      `target - (-1 * count)` for the wheel counting up and `target - count`
      for the wheel counting down both come to the target plus the wheel's
      progress, modulo 2^32. */
  function PidTurnErrorAsWritten(target: int, progress: int): (e: int)
    ensures IsU32(e)
    ensures 0 <= target + progress < TwoTo32 ==> e == target + progress
  {
    ToU32(target + progress)
  }

  /** The error the decelerating turn needs: the counts still to go. */
  function PidTurnError(target: int, progress: int): (e: int)
    ensures progress <= target ==> e >= 0
    ensures e == 0 <==> progress == target
    ensures e + progress == target
  {
    target - progress
  }

  /** As written, the error of a wheel that has made all its counts is
      twice the target instead of zero, and it grows as the wheel advances,
      so the PD output speeds the turn up towards the end. */
  lemma PidTurnErrorGrows(p: int, q: int)
    requires 0 <= p < q <= EdgesPer90RightPid
    ensures PidTurnErrorAsWritten(EdgesPer90RightPid, EdgesPer90RightPid) == 2 * EdgesPer90RightPid
    ensures PidTurnErrorAsWritten(EdgesPer90RightPid, p) < PidTurnErrorAsWritten(EdgesPer90RightPid, q)
    ensures PidTurnErrorAsWritten(EdgesPer90RightPid, 0) == EdgesPer90RightPid
  {
  }

  /** The corrected error shrinks as the wheel advances and is zero exactly
      at the stopping count. */
  lemma PidTurnErrorShrinks(p: int, q: int)
    requires 0 <= p < q <= EdgesPer90RightPid
    ensures PidTurnError(EdgesPer90RightPid, EdgesPer90RightPid) == 0
    ensures PidTurnError(EdgesPer90RightPid, p) > PidTurnError(EdgesPer90RightPid, q) >= 0
  {
  }

  /** A counter read back as `uint32_t` matches a signed target exactly
      when the signed count equals it. */
  predicate Hits(count: Count, target: int)
  {
    ToU32(count) == ToU32(target)
  }

  lemma HitsIff(count: Count, target: int)
    requires IsI32(target)
    ensures Hits(count, target) <==> count == target
  {
    UnsignedEquality(count, target);
  }

  /** Both counters have met their targets in one of the first n
      samples. */
  predicate BothHit(samples: seq<Sample>, n: int, target1: int, target2: int)
    requires 0 <= n <= |samples|
  {
    HitWithin(samples, n, target1, true) && HitWithin(samples, n, target2, false)
  }

  /** Counter 1 (or counter 2) equals the target in one of the first n
      samples. */
  predicate HitWithin(samples: seq<Sample>, n: int, target: int, first: bool)
    requires 0 <= n <= |samples|
  {
    exists j :: 0 <= j < n && (if first then samples[j].enc1 else samples[j].enc2) == target
  }

  /** A target hit within the first n samples is hit within all of
      them. */
  lemma HitWithinGrows(samples: seq<Sample>, n: int, target: int, first: bool)
    requires 0 <= n <= |samples|
    ensures HitWithin(samples, n, target, first) ==> HitWithin(samples, |samples|, target, first)
  {
  }

  /** One more sample hits a target exactly when it or an earlier one
      does. */
  lemma HitWithinStep(samples: seq<Sample>, n: int, target: int, first: bool)
    requires 0 <= n < |samples|
    ensures HitWithin(samples, n + 1, target, first)
        <==> HitWithin(samples, n, target, first) || (if first then samples[n].enc1 else samples[n].enc2) == target
  {
    if HitWithin(samples, n + 1, target, first) && !HitWithin(samples, n, target, first) {
      var j :| 0 <= j < n + 1 && (if first then samples[j].enc1 else samples[j].enc2) == target;
      assert j == n;
    }
  }

  /** The number of iterations a turn loop runs from iteration `from` on:
      up to the first sample after which both counters have met their
      targets, or all samples if that never happens. */
  function TurnRounds(samples: seq<Sample>, target1: int, target2: int, from: int): (n: int)
    requires 0 <= from <= |samples|
    ensures from <= n <= |samples|
    ensures n == |samples| || BothHit(samples, n, target1, target2)
    decreases |samples| - from
  {
    if from == |samples| || BothHit(samples, from, target1, target2) then from
    else TurnRounds(samples, target1, target2, from + 1)
  }

  /** TurnRounds stops at the first iteration after which both counters
      have met their targets: no earlier one qualifies. */
  lemma {:induction false} TurnRoundsFirst(samples: seq<Sample>, target1: int, target2: int, from: int, m: int)
    requires 0 <= from <= |samples| && from <= m < TurnRounds(samples, target1, target2, from)
    ensures !BothHit(samples, m, target1, target2)
    decreases |samples| - from
  {
    if from < m {
      TurnRoundsFirst(samples, target1, target2, from + 1, m);
    }
  }

  /** The progress of a counter that runs towards `sign` times the
      target: the count itself, or its negation. */
  function Progress(sign: int, count: int): int
  {
    if sign == 1 then count else -count
  }

  /** Counter 1's error in iteration j of a PID turn, as written; `sign`
      is 1 for a right turn (counter 1 runs up to 33) and -1 for a left
      turn. */
  function TurnErrorRight(samples: seq<Sample>, j: int, sign: int): int
    requires 0 <= j < |samples|
  {
    PidTurnErrorAsWritten(EdgesPer90RightPid, Progress(sign, samples[j].enc1))
  }

  /** Counter 2's error in iteration j of a PID turn, as written. */
  function TurnErrorLeft(samples: seq<Sample>, j: int, sign: int): int
    requires 0 <= j < |samples|
  {
    PidTurnErrorAsWritten(EdgesPer90RightPid, Progress(-sign, samples[j].enc2))
  }

  /** The duty a PID turn sends a motor: the magnitude of the base speed 90
      plus the PD output of one error and its change since the previous
      iteration (0 before the first), cut to `uint16_t` and not
      clamped. */
  function PidTurnDuty(pd: (int, int) -> int, error: int, prevError: int): (d: int)
    ensures 0 <= d < TwoTo16
  {
    ToU16(Abs(PidTurnBaseSpeed + pd(error, error - prevError)))
  }

  /** The commands iteration j of a PID turn sets before its stop checks:
      motor 1 from counter 2's error, motor 2 from counter 1's, each in the
      direction of the turn. */
  function TurnCommands(samples: seq<Sample>, j: int, sign: int, pd: (int, int) -> int): seq<Wheel>
    requires 0 <= j < |samples|
  {
    var prevRight := if j == 0 then 0 else TurnErrorRight(samples, j - 1, sign);
    var prevLeft := if j == 0 then 0 else TurnErrorLeft(samples, j - 1, sign);
    [Wheel(PidTurnDuty(pd, TurnErrorLeft(samples, j, sign), prevLeft), if sign == 1 then Forward else Backward),
     Wheel(PidTurnDuty(pd, TurnErrorRight(samples, j, sign), prevRight), if sign == 1 then Backward else Forward)]
  }

  /** The commands of the first i iterations of a PID turn. */
  function PidTurnCommands(samples: seq<Sample>, i: int, sign: int, pd: (int, int) -> int): (ws: seq<Wheel>)
    requires 0 <= i <= |samples|
    ensures |ws| == 2 * i
    decreases i
  {
    if i == 0 then [] else PidTurnCommands(samples, i - 1, sign, pd) + TurnCommands(samples, i - 1, sign, pd)
  }

  /** As written, the sample at which a wheel of a PID turn reaches its
      stopping count feeds the PD law an error of 66, twice the target,
      where the decelerating turn needs 0. */
  lemma TurnErrorAtStop(samples: seq<Sample>, j: int, sign: int)
    requires 0 <= j < |samples| && (sign == 1 || sign == -1)
    ensures samples[j].enc1 == sign * EdgesPer90RightPid ==> TurnErrorRight(samples, j, sign) == 2 * EdgesPer90RightPid
    ensures samples[j].enc2 == -sign * EdgesPer90RightPid ==> TurnErrorLeft(samples, j, sign) == 2 * EdgesPer90RightPid
    ensures samples[j].enc1 == 0 ==> TurnErrorRight(samples, j, sign) == EdgesPer90RightPid
  {
  }

  /** The primitives, as recorded for the callers. */
  datatype Primitive =
    | MoveForward1MazeSquare
    | TurnRight90 | TurnLeft90
    | TurnRight90Pid | TurnLeft90Pid
    | TurnRight45 | TurnLeft45
    | AdjustToFront

  /** The two wheel motors, their encoder counters and the wall-detection
      state the primitives drive. */
  class Drive {
    const walls: WallSensors
    /** Motor 1 and motor 2. */
    var wheel1: Wheel
    var wheel2: Wheel
    /** The counters as last written by the firmware (the interrupt
        handlers that count edges are outside the model). */
    var enc1: int
    var enc2: int
    /** Completed primitives, oldest first. */
    var done: seq<Primitive>
    /** Every wheel command sent by the control loops of the forward move
        and of the PID turns, in order. */
    ghost var sent: seq<Wheel>

    constructor (walls: WallSensors)
      ensures this.walls == walls
      ensures wheel1 == Halted && wheel2 == Halted && enc1 == 0 && enc2 == 0 && done == [] && sent == []
    {
      this.walls := walls;
      wheel1, wheel2 := Halted, Halted;
      enc1, enc2 := 0, 0;
      done := [];
      sent := [];
    }

    /** The common exit of every primitive: stop both motors and clear both
        counters. */
    method StopAndClear()
      modifies this`wheel1, this`wheel2, this`enc1, this`enc2
      ensures wheel1 == Halted && wheel2 == Halted && enc1 == 0 && enc2 == 0
    {
      wheel1, wheel2 := Halted, Halted;
      enc1, enc2 := 0, 0;
    }

    /** The wall state after the forward iterations over ss, from side
        presences left0 and right0 at entry. */
    ghost predicate WallsAfter(ss: seq<Sample>, left0: Presence, right0: Presence, front0: Presence, frontGate0: Gate)
      reads walls
    {
      walls.leftGate == GateAfter(ss) && walls.rightGate == GateAfter(ss)
      && walls.left == SideAfter(left0, ss, true) && walls.right == SideAfter(right0, ss, false)
      && walls.front == front0 && walls.frontGate == frontGate0
    }

    /** The wall-state part of one forward iteration: close both side
        gates once past halfway, then refresh both stored side presences
        through their gates. */
    method RefreshSides(samples: seq<Sample>, i: int, ghost left0: Presence, ghost right0: Presence,
                        ghost front0: Presence, ghost frontGate0: Gate)
      requires 0 <= i < |samples| && WallsAfter(samples[..i], left0, right0, front0, frontGate0)
      modifies walls
      ensures WallsAfter(samples[..i + 1], left0, right0, front0, frontGate0)
    {
      var s := samples[i];
      assert samples[..i + 1] == samples[..i] + [s];
      WallsStep(left0, samples[..i], s, true);
      WallsStep(right0, samples[..i], s, false);
      if PastHalfway(s) {
        walls.SetLeftWallUpdateUnavailable();
        walls.SetRightWallUpdateUnavailable();
      }
      var _ := walls.CheckLeftWall(s.ir2);
      var _ := walls.CheckRightWall(s.ir3);
    }

    /** The steering part of one forward iteration: the sensor error picked
        by the classified side walls feeds the sensor PD law, its output
        corrects the encoder imbalance, and the wheel PD output sets both
        wheels through WheelCommand.  Returns the new PD histories. */
    method Steer(s: Sample, sensorPd: (int, int) -> int, wheelPd: (int, int) -> int,
                 prevError: int, prevErrorSensors: int)
      returns (error: int, errorSensors: int)
      modifies this`wheel1, this`wheel2, this`sent
      ensures errorSensors == KeptSensorError(s)
      ensures error == 0 - (s.enc1 - s.enc2) + SensorOutput(s, sensorPd, prevErrorSensors)
      ensures wheel1 == WheelCommand(MinimumSpeed, wheelPd(error, error - prevError))
      ensures wheel2 == WheelCommand(MinimumSpeed, -wheelPd(error, error - prevError))
      ensures sent == old(sent) + [wheel1, wheel2]
    {
      var leftWall := CheckLeftWallMoveForwardPid(s.ir2);
      var rightWall := CheckRightWallMoveForwardPid(s.ir3);
      var outputSensors;
      match SensorError(leftWall, rightWall, s.ir2, s.ir3) {
        case Some(e) =>
          outputSensors := sensorPd(e, e - prevErrorSensors);
          errorSensors := e;
        case None =>
          outputSensors := 0;
          errorSensors := 0;
      }
      error := 0 - (s.enc1 - s.enc2) + outputSensors;
      var output := wheelPd(error, error - prevError);
      wheel1 := WheelCommand(MinimumSpeed, output);
      wheel2 := WheelCommand(MinimumSpeed, -output);
      sent := sent + [wheel1, wheel2];
    }

    /** The state of the forward move after i iterations, from the given
        wall state and command log at entry: the samples so far all
        continued, the wall state is the one they produce, and their wheel
        commands were sent. */
    ghost predicate Forwarded(samples: seq<Sample>, i: int, sent0: seq<Wheel>,
                              sensorPd: (int, int) -> int, wheelPd: (int, int) -> int,
                              left0: Presence, right0: Presence, front0: Presence, frontGate0: Gate)
      reads this, walls
    {
      && 0 <= i <= |samples|
      && (forall j :: 0 <= j < i ==> Continues(samples[j]))
      && WallsAfter(samples[..i], left0, right0, front0, frontGate0)
      && sent == sent0 + ForwardCommands(samples, i, sensorPd, wheelPd)
    }

    /** One iteration of the forward loop that passed both exit tests:
        refresh the side walls, then steer.  Returns the index of the next
        iteration and the PD histories it starts from. */
    method ForwardStep(samples: seq<Sample>, i: int, sensorPd: (int, int) -> int, wheelPd: (int, int) -> int,
                       prevError: int, prevErrorSensors: int, ghost sent0: seq<Wheel>,
                       ghost left0: Presence, ghost right0: Presence, ghost front0: Presence, ghost frontGate0: Gate)
      returns (next: int, error: int, errorSensors: int)
      requires 0 <= i < |samples| && Continues(samples[i])
      requires Forwarded(samples, i, sent0, sensorPd, wheelPd, left0, right0, front0, frontGate0)
      requires PdHistory(samples, i, sensorPd, prevError, prevErrorSensors)
      modifies this`wheel1, this`wheel2, this`sent, walls
      ensures next == i + 1
      ensures Forwarded(samples, next, sent0, sensorPd, wheelPd, left0, right0, front0, frontGate0)
      ensures PdHistory(samples, next, sensorPd, error, errorSensors)
    {
      next := i + 1;
      RefreshSides(samples, i, left0, right0, front0, frontGate0);
      error, errorSensors := SteerStep(samples, i, sensorPd, wheelPd, prevError, prevErrorSensors, sent0);
    }

    /** Steer on sample i, with the PD histories of the samples before
        it: the command log grows by iteration i's two wheel commands. */
    method SteerStep(samples: seq<Sample>, i: int, sensorPd: (int, int) -> int, wheelPd: (int, int) -> int,
                     prevError: int, prevErrorSensors: int, ghost sent0: seq<Wheel>)
      returns (error: int, errorSensors: int)
      requires 0 <= i < |samples| && sent == sent0 + ForwardCommands(samples, i, sensorPd, wheelPd)
      requires PdHistory(samples, i, sensorPd, prevError, prevErrorSensors)
      modifies this`wheel1, this`wheel2, this`sent
      ensures sent == sent0 + ForwardCommands(samples, i + 1, sensorPd, wheelPd)
      ensures PdHistory(samples, i + 1, sensorPd, error, errorSensors)
    {
      error, errorSensors := Steer(samples[i], sensorPd, wheelPd, prevError, prevErrorSensors);
      ErrorAtStep(samples, i, sensorPd, error, prevErrorSensors);
    }

    /** The control loop of the forward move, from the given wall state
        at entry: it ends at the first sample that reaches the target or
        sees a front wall too close, having sent the wheel commands of
        every iteration before it. */
    method ForwardLoop(samples: seq<Sample>, sensorPd: (int, int) -> int, wheelPd: (int, int) -> int,
                       ghost left0: Presence, ghost right0: Presence, ghost front0: Presence, ghost frontGate0: Gate)
      returns (r: Run)
      requires WallsAfter([], left0, right0, front0, frontGate0)
      modifies this`wheel1, this`wheel2, this`sent, walls
      ensures !r.Running? ==> r.steps < |samples|
      ensures Forwarded(samples, Steps(r, samples), old(sent), sensorPd, wheelPd, left0, right0, front0, frontGate0)
      ensures r.Arrived? ==> Reached(samples[r.steps])
      ensures r.Blocked? ==> !Reached(samples[r.steps]) && FrontTooClose(samples[r.steps])
    {
      ghost var sent0 := sent;
      assert samples[..0] == [];
      var prevError, prevErrorSensors := 0, 0;
      var i := 0;
      while i < |samples| && !Reached(samples[i]) && !FrontTooClose(samples[i])
        invariant Forwarded(samples, i, sent0, sensorPd, wheelPd, left0, right0, front0, frontGate0)
        invariant PdHistory(samples, i, sensorPd, prevError, prevErrorSensors)
      {
        i, prevError, prevErrorSensors :=
          ForwardStep(samples, i, sensorPd, wheelPd, prevError, prevErrorSensors, sent0, left0, right0, front0, frontGate0);
      }
      r := if i == |samples| then Running else if Reached(samples[i]) then Arrived(i) else Blocked(i);
    }

    /** `mci_MoveForward1MazeSquarePid`.  The side gates are opened on
        entry and closed, for good, in the first iteration that is past
        halfway; each iteration refreshes the stored side presences through
        the gates, picks the sensor error by the classified side walls and
        drives both wheels with the clamped commands of ForwardCommands.
        The loop ends exactly at the first sample that reaches the target
        or sees a front wall too close, and then both motors stop and both
        counters are cleared. */
    method MoveForward1MazeSquarePid(samples: seq<Sample>, sensorPd: (int, int) -> int, wheelPd: (int, int) -> int)
      returns (r: Run)
      modifies this, walls
      ensures 0 <= Steps(r, samples) <= |samples| && (!r.Running? ==> r.steps < |samples|)
      ensures forall j :: 0 <= j < Steps(r, samples) ==> Continues(samples[j])
      ensures r.Arrived? ==> Reached(samples[r.steps])
      ensures r.Blocked? ==> !Reached(samples[r.steps]) && FrontTooClose(samples[r.steps])
      ensures WallsAfter(samples[..Steps(r, samples)], old(walls.left), old(walls.right), old(walls.front), old(walls.frontGate))
      ensures sent == old(sent) + ForwardCommands(samples, Steps(r, samples), sensorPd, wheelPd)
      ensures !r.Running? ==> wheel1 == Halted && wheel2 == Halted && enc1 == 0 && enc2 == 0
      ensures done == old(done) + (if r.Running? then [] else [MoveForward1MazeSquare])
    {
      wheel1, wheel2 := Wheel(ForwardFastSpeed, Forward), Wheel(ForwardFastSpeed, Forward);
      walls.SetLeftWallUpdateAvailable();
      walls.SetRightWallUpdateAvailable();
      enc1, enc2 := 0, 0;
      r := ForwardLoop(samples, sensorPd, wheelPd, old(walls.left), old(walls.right), old(walls.front), old(walls.frontGate));
      if !r.Running? {
        StopAndClear();
        done := done + [MoveForward1MazeSquare];
      }
    }

    /** The loop shared by the plain 90 and 45 degree turns: each wheel is
        stopped at the first sample whose counter, read as `uint32_t`,
        equals its target; the loop ends once both have stopped. */
    method Spin(samples: seq<Sample>, target1: int, target2: int) returns (finished: bool)
      requires IsI32(target1) && IsI32(target2)
      modifies this`wheel1, this`wheel2
      ensures finished <==> (exists j :: 0 <= j < |samples| && samples[j].enc1 == target1)
                            && (exists j :: 0 <= j < |samples| && samples[j].enc2 == target2)
      ensures finished ==> wheel1 == Halted && wheel2 == Halted
    {
      var rightDone, leftDone := false, false;
      var i := 0;
      while (!rightDone || !leftDone) && i < |samples|
        invariant 0 <= i <= |samples|
        invariant rightDone <==> exists j :: 0 <= j < i && samples[j].enc1 == target1
        invariant leftDone <==> exists j :: 0 <= j < i && samples[j].enc2 == target2
        invariant rightDone ==> wheel1 == Halted
        invariant leftDone ==> wheel2 == Halted
      {
        HitsIff(samples[i].enc1, target1);
        HitsIff(samples[i].enc2, target2);
        if !rightDone && Hits(samples[i].enc1, target1) {
          wheel1 := Halted;
          rightDone := true;
        }
        if !leftDone && Hits(samples[i].enc2, target2) {
          wheel2 := Halted;
          leftDone := true;
        }
        i := i + 1;
      }
      finished := rightDone && leftDone;
    }

    /** `mci_TurnRight90Degrees`: motor 1 forward, motor 2 backward, until
        counter 1 reads 32 and counter 2 reads -32; then the wall presences
        are rotated once for a right turn and the drive is stopped. */
    method TurnRight90Degrees(samples: seq<Sample>) returns (finished: bool)
      modifies this, walls
      ensures finished <==> (exists j :: 0 <= j < |samples| && samples[j].enc1 == EdgesPer90Right)
                            && (exists j :: 0 <= j < |samples| && samples[j].enc2 == -EdgesPer90Right)
      ensures walls.Presences() == (if finished then RightTurn(old(walls.Presences())) else old(walls.Presences()))
      ensures walls.frontGate == old(walls.frontGate) && walls.leftGate == old(walls.leftGate)
              && walls.rightGate == old(walls.rightGate)
      ensures finished ==> wheel1 == Halted && wheel2 == Halted && enc1 == 0 && enc2 == 0
      ensures done == old(done) + (if finished then [TurnRight90] else []) && sent == old(sent)
    {
      enc1, enc2 := 0, 0;
      wheel1, wheel2 := Wheel(TurnSpeed, Forward), Wheel(TurnSpeed, Backward);
      finished := Spin(samples, EdgesPer90Right, -EdgesPer90Right);
      if finished {
        walls.UpdateWallPresenceRightTurn();
        StopAndClear();
        done := done + [TurnRight90];
      }
    }

    /** `mci_TurnLeft90Degrees`: the mirror image, rotating the presences
        for a left turn. */
    method TurnLeft90Degrees(samples: seq<Sample>) returns (finished: bool)
      modifies this, walls
      ensures finished <==> (exists j :: 0 <= j < |samples| && samples[j].enc1 == -EdgesPer90Left)
                            && (exists j :: 0 <= j < |samples| && samples[j].enc2 == EdgesPer90Left)
      ensures walls.Presences() == (if finished then LeftTurn(old(walls.Presences())) else old(walls.Presences()))
      ensures walls.frontGate == old(walls.frontGate) && walls.leftGate == old(walls.leftGate)
              && walls.rightGate == old(walls.rightGate)
      ensures finished ==> wheel1 == Halted && wheel2 == Halted && enc1 == 0 && enc2 == 0
      ensures done == old(done) + (if finished then [TurnLeft90] else []) && sent == old(sent)
    {
      enc1, enc2 := 0, 0;
      wheel1, wheel2 := Wheel(TurnSpeed, Backward), Wheel(TurnSpeed, Forward);
      finished := Spin(samples, -EdgesPer90Left, EdgesPer90Left);
      if finished {
        walls.UpdateWallPresenceLeftTurn();
        StopAndClear();
        done := done + [TurnLeft90];
      }
    }

    /** `mci_TurnRight45Degrees`: the right-turn loop with half the count,
        16; the wall presences are not rotated. */
    method TurnRight45Degrees(samples: seq<Sample>) returns (finished: bool)
      modifies this
      ensures finished <==> (exists j :: 0 <= j < |samples| && samples[j].enc1 == 16)
                            && (exists j :: 0 <= j < |samples| && samples[j].enc2 == -16)
      ensures finished ==> wheel1 == Halted && wheel2 == Halted && enc1 == 0 && enc2 == 0
      ensures done == old(done) + (if finished then [TurnRight45] else []) && sent == old(sent)
    {
      enc1, enc2 := 0, 0;
      wheel1, wheel2 := Wheel(TurnSpeed, Forward), Wheel(TurnSpeed, Backward);
      finished := Spin(samples, EdgesPer45Right, -EdgesPer45Right);
      if finished {
        StopAndClear();
        done := done + [TurnRight45];
      }
    }

    /** `mci_TurnLeft45Degrees`. */
    method TurnLeft45Degrees(samples: seq<Sample>) returns (finished: bool)
      modifies this
      ensures finished <==> (exists j :: 0 <= j < |samples| && samples[j].enc1 == -16)
                            && (exists j :: 0 <= j < |samples| && samples[j].enc2 == 16)
      ensures finished ==> wheel1 == Halted && wheel2 == Halted && enc1 == 0 && enc2 == 0
      ensures done == old(done) + (if finished then [TurnLeft45] else []) && sent == old(sent)
    {
      enc1, enc2 := 0, 0;
      wheel1, wheel2 := Wheel(TurnSpeed, Backward), Wheel(TurnSpeed, Forward);
      finished := Spin(samples, -EdgesPer45Left, EdgesPer45Left);
      if finished {
        StopAndClear();
        done := done + [TurnLeft45];
      }
    }

    /** The loop of the PID 90 degree turns.  Each iteration feeds each
        wheel's error, as written, and its change to the PD law and sets
        the motors to the magnitude of 90 plus its output (motor 1 from
        counter 2's error, motor 2 from counter 1's, as in the source); the
        stopping rule is the one of Spin, except that a wheel already
        stopped is driven again by the next iteration until the other one
        stops too.  `sign` is 1 for a right turn (motor 1 forward) and -1
        for a left turn. */
    method SpinPid(samples: seq<Sample>, sign: int, pd: (int, int) -> int) returns (finished: bool)
      requires sign == 1 || sign == -1
      modifies this`wheel1, this`wheel2, this`sent
      ensures finished <==> HitWithin(samples, |samples|, sign * EdgesPer90RightPid, true)
                            && HitWithin(samples, |samples|, -sign * EdgesPer90RightPid, false)
      ensures sent == old(sent) + PidTurnCommands(samples, TurnRounds(samples, sign * EdgesPer90RightPid,
                                                                      -sign * EdgesPer90RightPid, 0), sign, pd)
    {
      ghost var sent0 := sent;
      var target1, target2 := sign * EdgesPer90RightPid, -sign * EdgesPer90RightPid;
      var rightDone, leftDone := false, false;
      var prevErrorRight, prevErrorLeft := 0, 0;
      var i := 0;
      while (!rightDone || !leftDone) && i < |samples|
        invariant Turning(samples, sign, pd, sent0, i, rightDone, leftDone, prevErrorRight, prevErrorLeft)
        invariant TurnRounds(samples, target1, target2, 0) == TurnRounds(samples, target1, target2, i)
        decreases |samples| - i
      {
        i, rightDone, leftDone, prevErrorRight, prevErrorLeft :=
          TurnStep(samples, sign, pd, sent0, i, rightDone, leftDone, prevErrorRight, prevErrorLeft);
      }
      HitWithinGrows(samples, i, target1, true);
      HitWithinGrows(samples, i, target2, false);
      finished := rightDone && leftDone;
    }

    /** The state of a PID turn after i iterations, from the command log
        at entry: each wheel is stopped exactly when its counter met its
        target in one of them, their commands were sent, and the errors of
        the last one are kept. */
    ghost predicate Turning(samples: seq<Sample>, sign: int, pd: (int, int) -> int, sent0: seq<Wheel>, i: int,
                            rightDone: bool, leftDone: bool, prevErrorRight: int, prevErrorLeft: int)
      reads this
    {
      && 0 <= i <= |samples| && (sign == 1 || sign == -1)
      && rightDone == HitWithin(samples, i, sign * EdgesPer90RightPid, true)
      && leftDone == HitWithin(samples, i, -sign * EdgesPer90RightPid, false)
      && sent == sent0 + PidTurnCommands(samples, i, sign, pd)
      && prevErrorRight == (if i == 0 then 0 else TurnErrorRight(samples, i - 1, sign))
      && prevErrorLeft == (if i == 0 then 0 else TurnErrorLeft(samples, i - 1, sign))
    }

    /** One iteration of a PID turn that has not finished: set both
        speeds, then stop each wheel whose counter meets its target.
        Returns the index of the next iteration and its state. */
    method TurnStep(samples: seq<Sample>, sign: int, pd: (int, int) -> int, ghost sent0: seq<Wheel>, i: int,
                    rightDone: bool, leftDone: bool, prevErrorRight: int, prevErrorLeft: int)
      returns (next: int, rightDone': bool, leftDone': bool, errorRight: int, errorLeft: int)
      requires Turning(samples, sign, pd, sent0, i, rightDone, leftDone, prevErrorRight, prevErrorLeft)
      requires i < |samples| && (!rightDone || !leftDone)
      modifies this`wheel1, this`wheel2, this`sent
      ensures next == i + 1
      ensures Turning(samples, sign, pd, sent0, next, rightDone', leftDone', errorRight, errorLeft)
      ensures TurnRounds(samples, sign * EdgesPer90RightPid, -sign * EdgesPer90RightPid, i)
              == TurnRounds(samples, sign * EdgesPer90RightPid, -sign * EdgesPer90RightPid, next)
    {
      next := i + 1;
      var target1, target2 := sign * EdgesPer90RightPid, -sign * EdgesPer90RightPid;
      errorRight, errorLeft := SteerTurn(samples, i, sign, pd, prevErrorRight, prevErrorLeft, sent0);
      HitWithinStep(samples, i, target1, true);
      HitWithinStep(samples, i, target2, false);
      rightDone', leftDone' := StopOnTargets(samples[i], target1, target2, rightDone, leftDone);
    }

    /** The stop checks that end each turn iteration: a wheel still
        running is stopped when its counter, read as `uint32_t`, equals its
        target. */
    method StopOnTargets(s: Sample, target1: int, target2: int, rightDone: bool, leftDone: bool)
      returns (rightStopped: bool, leftStopped: bool)
      requires IsI32(target1) && IsI32(target2)
      modifies this`wheel1, this`wheel2
      ensures rightStopped == (rightDone || s.enc1 == target1)
      ensures leftStopped == (leftDone || s.enc2 == target2)
      ensures wheel1 == (if !rightDone && s.enc1 == target1 then Halted else old(wheel1))
      ensures wheel2 == (if !leftDone && s.enc2 == target2 then Halted else old(wheel2))
    {
      HitsIff(s.enc1, target1);
      HitsIff(s.enc2, target2);
      rightStopped, leftStopped := rightDone, leftDone;
      if !rightDone && Hits(s.enc1, target1) {
        wheel1 := Halted;
        rightStopped := true;
      }
      if !leftDone && Hits(s.enc2, target2) {
        wheel2 := Halted;
        leftStopped := true;
      }
    }

    /** The speed-setting part of iteration i of a PID turn: both errors
        as written, their PD outputs, and the two motor commands of
        TurnCommands.  Returns the errors kept for the next iteration. */
    method SteerTurn(samples: seq<Sample>, i: int, sign: int, pd: (int, int) -> int,
                     prevErrorRight: int, prevErrorLeft: int, ghost sent0: seq<Wheel>)
      returns (errorRight: int, errorLeft: int)
      requires 0 <= i < |samples| && (sign == 1 || sign == -1)
      requires sent == sent0 + PidTurnCommands(samples, i, sign, pd)
      requires prevErrorRight == (if i == 0 then 0 else TurnErrorRight(samples, i - 1, sign))
      requires prevErrorLeft == (if i == 0 then 0 else TurnErrorLeft(samples, i - 1, sign))
      modifies this`wheel1, this`wheel2, this`sent
      ensures sent == sent0 + PidTurnCommands(samples, i + 1, sign, pd)
      ensures errorRight == TurnErrorRight(samples, i, sign) && errorLeft == TurnErrorLeft(samples, i, sign)
    {
      var s := samples[i];
      errorRight := PidTurnErrorAsWritten(EdgesPer90RightPid, Progress(sign, s.enc1));
      errorLeft := PidTurnErrorAsWritten(EdgesPer90RightPid, Progress(-sign, s.enc2));
      wheel1 := Wheel(PidTurnDuty(pd, errorLeft, prevErrorLeft), if sign == 1 then Forward else Backward);
      wheel2 := Wheel(PidTurnDuty(pd, errorRight, prevErrorRight), if sign == 1 then Backward else Forward);
      sent := sent + [wheel1, wheel2];
    }

    /** `mci_TurnRight90DegreesPID`: stops at counts 33 and -33, then
        rotates the presences once for a right turn. */
    method TurnRight90DegreesPid(samples: seq<Sample>, pd: (int, int) -> int) returns (finished: bool)
      modifies this, walls
      ensures finished <==> (exists j :: 0 <= j < |samples| && samples[j].enc1 == EdgesPer90RightPid)
                            && (exists j :: 0 <= j < |samples| && samples[j].enc2 == -EdgesPer90RightPid)
      ensures walls.Presences() == (if finished then RightTurn(old(walls.Presences())) else old(walls.Presences()))
      ensures walls.frontGate == old(walls.frontGate) && walls.leftGate == old(walls.leftGate)
              && walls.rightGate == old(walls.rightGate)
      ensures finished ==> wheel1 == Halted && wheel2 == Halted && enc1 == 0 && enc2 == 0
      ensures done == old(done) + (if finished then [TurnRight90Pid] else [])
      ensures sent == old(sent) + PidTurnCommands(samples, TurnRounds(samples, EdgesPer90RightPid, -EdgesPer90RightPid, 0), 1, pd)
    {
      enc1, enc2 := 0, 0;
      wheel1, wheel2 := Wheel(TurnSpeed, Forward), Wheel(TurnSpeed, Backward);
      finished := SpinPid(samples, 1, pd);
      if finished {
        walls.UpdateWallPresenceRightTurn();
        StopAndClear();
        done := done + [TurnRight90Pid];
      }
    }

    /** `mci_TurnLeft90DegreesPID`: stops at counts -33 and 33, then
        rotates the presences once for a left turn. */
    method TurnLeft90DegreesPid(samples: seq<Sample>, pd: (int, int) -> int) returns (finished: bool)
      modifies this, walls
      ensures finished <==> (exists j :: 0 <= j < |samples| && samples[j].enc1 == -EdgesPer90LeftPid)
                            && (exists j :: 0 <= j < |samples| && samples[j].enc2 == EdgesPer90LeftPid)
      ensures walls.Presences() == (if finished then LeftTurn(old(walls.Presences())) else old(walls.Presences()))
      ensures walls.frontGate == old(walls.frontGate) && walls.leftGate == old(walls.leftGate)
              && walls.rightGate == old(walls.rightGate)
      ensures finished ==> wheel1 == Halted && wheel2 == Halted && enc1 == 0 && enc2 == 0
      ensures done == old(done) + (if finished then [TurnLeft90Pid] else [])
      ensures sent == old(sent) + PidTurnCommands(samples, TurnRounds(samples, -EdgesPer90LeftPid, EdgesPer90LeftPid, 0), -1, pd)
    {
      enc1, enc2 := 0, 0;
      wheel1, wheel2 := Wheel(TurnSpeed, Backward), Wheel(TurnSpeed, Forward);
      finished := SpinPid(samples, -1, pd);
      if finished {
        walls.UpdateWallPresenceLeftTurn();
        StopAndClear();
        done := done + [TurnLeft90Pid];
      }
    }

    /** `mci_AdjustToFrontWall`, reduced to its effect on the model: it
        leaves both motors at duty 0 with the counters cleared and touches
        no wall state.  Its sensor-driven rotation is not modelled. */
    method AdjustToFrontWall()
      modifies this
      ensures wheel1.duty == 0 && wheel2.duty == 0 && enc1 == 0 && enc2 == 0
      ensures done == old(done) + [AdjustToFront] && sent == old(sent)
    {
      enc1, enc2 := 0, 0;
      wheel1, wheel2 := wheel1.(duty := 0), wheel2.(duty := 0);
      done := done + [AdjustToFront];
    }
  }
}
