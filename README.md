# Micromouse firmware core, modelled in Dafny

This project models the discrete decision logic of the mouse_7 micromouse
firmware for the AT32UC3L0256. The robot explores an unknown square maze,
records the walls it sees and plans by flood fill. It drives with encoder- and
infra-red-guided motion primitives. The model covers the following, with every
hardware read turned into a parameter:

- **`Maze`, `FloodField`, `Flood`** (`algo/algo.c`):
  - the flat-array coordinate system (`mazeIdx`, `mirrorY`, `isInRange`);
  - the goal region (`isGoal`);
  - the recursive flood fill, as a method over an `array<int>`.
  - `FloodField` holds the specification of the cost field the flood fill
    leaves: "consistent" means goals at 0, no open passage that lets the cost
    drop by more than one, and every finite cost justified by a neighbour one
    step cheaper. Its lemmas show that this field is unique, is the
    least-step distance from the goal and keeps the sentinel exactly on
    unreachable cells. They also show that it never drops when walls are
    added, and that it is the Manhattan distance on an open maze of odd side.
- **`Explorer`** (`algo/algo.c`): the exploration globals as a class.
  - The fields are `mazeDiscovered`, `mazeFlood`, `mazeVisited`, the move
    stack, `stackTop`, the pose and heading, and a log of the motions issued.
  - `push` and `pop` fail as `exit(1)` does.
  - `moveNorth` … `moveWest`, `checkNorthWall` … `checkRightWall` and
    `detectWalls` are modelled.
  - `traverseCell` is split into its visit, neighbour-scan, advance and retreat
    blocks. Each block is proved against a specification predicate.
  - The class invariant says that the move stack spells a walk of distinct
    visited cells from the start, so it never holds more than n² entries.
- **`WallDetection`** (`mouse_control_interface/walldetection_mci.c`):
  - the three tri-state wall presences and their update gates, as a class;
  - the threshold rules;
  - the rotations on 90 degree turns;
  - `Check*`, which updates and then reads.
- **`Motion`** (`mouse_control_interface/movement_mci.c`): the discrete
  skeleton of the primitives.
  - The forward move of one square covers the gate discipline, the two exit
    tests, the choice of sensor error by the classified side walls, and the
    clamped, sign-split wheel commands.
  - The plain, PID and 45 degree turns cover their stopping rule and which of
    them rotate the wall state.
  - Each loop iteration consumes one injected `Sample`: both encoder counters
    and the four infra-red readings.
  - The floating-point PD laws are injected integer functions.
- **`WallFollower`** (`algo/wallfollower_algo.c`): the left and right wall
  followers as sequences of primitive calls over a `Drive` and its
  `WallSensors`.
- **Helpers**:
  - `SharedFunctions`: `sf_constrain`.
  - `ConfigSwitch`: the configuration-button edge detector.
  - `Time`: elapsed milliseconds from a timer counter.
  - `PrintInt`: the decimal conversion loop of the serial `PrintInt`.
  - `MachineInts`: the `uint32_t` / `int32_t` conversions that the C code
    performs implicitly.

The maze side `n` is a parameter of the planner and explorer, ranging from 1
to 255. The firmware's instance is `MAZE_LENGTH` = 5; `Maze.GoalOfFiveByFive`
and `FloodField.OpenFiveByFive` state facts about that instance.

Points where the code is easy to misread:

- The "no cost yet" sentinel is `UINT_MAX` as `algo.h:10` redefines it,
  65535. It is not 2³² − 1.
- Only the forward move clamps its wheel commands to [−255, 255]
  (`movement_mci.c:360-361`). The PID turns send `(uint16_t)abs(90 + output)`
  unclamped (`movement_mci.c:1131-1134`), and the model keeps that (`ToU16`).
- The PID turns are documented as decelerating (`movement_mci.c:1085`). The
  error they compute at `movement_mci.c:1118-1119` reads the counters as
  `uint32_t` and comes to the target plus the progress, so it grows instead
  (see Findings). `Motion.Drive.SpinPid` runs that error as written, and its
  contract gives the duties it produces.

## Model

| member | source | states |
|---|---|---|
| SharedFunctions.Constrain | firmware/at32uc3l0256/src/shared_functions/constrain_sf.c:51-59 | A value below min gives min. A value above max (and not below min) gives max. A value inside [min, max] is returned unchanged. When min <= max the result lies in [min, max]. |
| SharedFunctions.ConstrainIdempotent | firmware/at32uc3l0256/src/shared_functions/constrain_sf.c:51-59 | Clamping an already clamped value changes nothing. |
| SharedFunctions.ConstrainMonotone | firmware/at32uc3l0256/src/shared_functions/constrain_sf.c:51-59 | Clamping preserves the order of two values. |
| ConfigSwitch.ConfigButton.constructor | firmware/at32uc3l0256/src/mouse_control_interface/configswitch_mci.c:40-41 | Both remembered counts start at 0, with no poll made yet. |
| ConfigSwitch.ConfigButton.CheckConfigButtonPressed | firmware/at32uc3l0256/src/mouse_control_interface/configswitch_mci.c:57-73 | Reports a press iff the count read differs from the remembered count. Afterwards both statics hold the count read. The history of answers grows by exactly this answer. |
| ConfigSwitch.ResponseComparesWithPrevious | firmware/at32uc3l0256/src/mouse_control_interface/configswitch_mci.c:61-70 | Over any sequence of polls, the k-th poll reports a press iff its count differs from the count of the poll before it (or from the initial count). A repeated count is no press; several edges between two polls are one press. |
| ConfigSwitch.FirstPoll | firmware/at32uc3l0256/src/mouse_control_interface/configswitch_mci.c:40-41 | The remembered count starts at 0, so the first poll reports a press iff its count is non-zero. |
| Time.Timer.constructor | firmware/at32uc3l0256/src/mouse_control_interface/time_mci.c:41 | `startTime` starts at 0. |
| Time.Timer.StartTimer | firmware/at32uc3l0256/src/mouse_control_interface/time_mci.c:57-60 | `startTime` becomes the counter read as `int32_t`. The elapsed time read at once, with the same counter, is 0. |
| Time.Timer.ResetTimer | firmware/at32uc3l0256/src/mouse_control_interface/time_mci.c:67-70 | Same effect as StartTimer. |
| Time.Timer.GetTimeMs | firmware/at32uc3l0256/src/mouse_control_interface/time_mci.c:78-85 | Defined when the `int32_t` subtraction does not overflow. The result is a `uint32_t`, congruent to 8 × (current − start) modulo 2³². It equals that product when the product is in [0, 2³²). |
| Time.ElapsedIsCounterDifference | firmware/at32uc3l0256/src/mouse_control_interface/time_mci.c:78-85 | The elapsed time is 8 × the difference of the raw unsigned counter values, modulo 2³², also across a wrap of the counter. |
| PrintInt.DecimalString | firmware/at32uc3l0256/src/HAL/at32uc3l0256/usart_at32uc3l0256.c:128-132 | The reference decimal text: at least one character, all decimal digits, with a leading '0' only for the value 0. |
| PrintInt.ParseDecimal | firmware/at32uc3l0256/src/HAL/at32uc3l0256/usart_at32uc3l0256.c:128-132 | Round trip: reading the digits back as a decimal number gives the value. |
| PrintInt.DecimalLength | firmware/at32uc3l0256/src/HAL/at32uc3l0256/usart_at32uc3l0256.c:128-132 | The text has at most k digits iff the value is below 10^k, in both directions. |
| PrintInt.TenDigitsSuffice | firmware/at32uc3l0256/src/HAL/at32uc3l0256/usart_at32uc3l0256.c:122-124 | Every `uint32_t` value has at most 10 digits, so the 11-character buffer with its terminator suffices. |
| PrintInt.FormatDecimal | firmware/at32uc3l0256/src/HAL/at32uc3l0256/usart_at32uc3l0256.c:118-135 | The characters from `tmp + i` up to the terminator are exactly the decimal text of the input. The index `i` stays in [0, 10) and never under-runs the buffer. The input 0 gives "0", because the body runs once. |
| WallDetection.FrontPresence | firmware/at32uc3l0256/src/mouse_control_interface/walldetection_mci.c:249-270 | Found iff (IR1 + IR4) / 2 >= 128 with integer division, NotFound otherwise, never CannotRead. |
| WallDetection.SidePresence | firmware/at32uc3l0256/src/mouse_control_interface/walldetection_mci.c:278-324 | Found iff the reading is at least the side threshold, NotFound otherwise, never CannotRead. |
| WallDetection.RightTurn | firmware/at32uc3l0256/src/mouse_control_interface/walldetection_mci.c:332-337 | (left, front, right) becomes (front, right, CannotRead): after a right turn the right-hand presence is unreadable. |
| WallDetection.LeftTurn | firmware/at32uc3l0256/src/mouse_control_interface/walldetection_mci.c:345-350 | (left, front, right) becomes (CannotRead, left, front): after a left turn the left-hand presence is unreadable. |
| WallDetection.RightThenLeft | firmware/at32uc3l0256/src/mouse_control_interface/walldetection_mci.c:332-350 | A right turn followed by a left turn restores front and right and leaves left CannotRead. |
| WallDetection.TwoRightTurns | firmware/at32uc3l0256/src/mouse_control_interface/walldetection_mci.c:332-337 | Two right turns give (old right, CannotRead, CannotRead). |
| WallDetection.RotationIsDirectional | firmware/at32uc3l0256/src/mouse_control_interface/walldetection_mci.c:332-350 | On a concrete frame, two right turns differ from one left turn: the rotation does not wrap knowledge round. |
| WallDetection.WallSensors.constructor | firmware/at32uc3l0256/src/mouse_control_interface/walldetection_mci.c:41-50 | Power-up state: front NotFound, left and right CannotRead, front gate Available, both side gates NotAvailable. |
| WallDetection.WallSensors.SetFrontWallUpdateUnavailable | firmware/at32uc3l0256/src/mouse_control_interface/walldetection_mci.c:171-174 | Closes the front gate and changes nothing else. |
| WallDetection.WallSensors.SetLeftWallUpdateUnavailable | firmware/at32uc3l0256/src/mouse_control_interface/walldetection_mci.c:182-185 | Closes the left gate and changes nothing else. |
| WallDetection.WallSensors.SetRightWallUpdateUnavailable | firmware/at32uc3l0256/src/mouse_control_interface/walldetection_mci.c:193-196 | Closes the right gate and changes nothing else. |
| WallDetection.WallSensors.SetFrontWallUpdateAvailable | firmware/at32uc3l0256/src/mouse_control_interface/walldetection_mci.c:204-207 | Opens the front gate and changes nothing else. |
| WallDetection.WallSensors.SetLeftWallUpdateAvailable | firmware/at32uc3l0256/src/mouse_control_interface/walldetection_mci.c:215-218 | Opens the left gate and changes nothing else. |
| WallDetection.WallSensors.SetRightWallUpdateAvailable | firmware/at32uc3l0256/src/mouse_control_interface/walldetection_mci.c:226-229 | Opens the right gate and changes nothing else. |
| WallDetection.WallSensors.ClearLeftRightWallPresence | firmware/at32uc3l0256/src/mouse_control_interface/walldetection_mci.c:237-241 | Both side presences become CannotRead; front and all three gates are untouched. |
| WallDetection.WallSensors.UpdateFrontWallPresence | firmware/at32uc3l0256/src/mouse_control_interface/walldetection_mci.c:249-270 | With the front gate open, the front presence becomes the classification of the readings. With it closed, the presence is unchanged. Nothing else changes, and the update never introduces CannotRead. |
| WallDetection.WallSensors.UpdateLeftWallPresence | firmware/at32uc3l0256/src/mouse_control_interface/walldetection_mci.c:278-297 | With the left gate open, the left presence becomes Found iff IR2 >= 101. With it closed, the presence is unchanged. Nothing else changes. |
| WallDetection.WallSensors.UpdateRightWallPresence | firmware/at32uc3l0256/src/mouse_control_interface/walldetection_mci.c:305-324 | With the right gate open, the right presence becomes Found iff IR3 >= 101. With it closed, the presence is unchanged. Nothing else changes. |
| WallDetection.WallSensors.UpdateWallPresenceRightTurn | firmware/at32uc3l0256/src/mouse_control_interface/walldetection_mci.c:332-337 | (left, front, right) becomes (front, right, CannotRead); the gates are untouched. |
| WallDetection.WallSensors.UpdateWallPresenceLeftTurn | firmware/at32uc3l0256/src/mouse_control_interface/walldetection_mci.c:345-350 | (left, front, right) becomes (CannotRead, left, front); the gates are untouched. |
| WallDetection.WallSensors.CheckFrontWall | firmware/at32uc3l0256/src/mouse_control_interface/walldetection_mci.c:360-364 | Returns exactly the value its update just stored: the new classification with the gate open, the previous value with it closed. |
| WallDetection.WallSensors.CheckLeftWall | firmware/at32uc3l0256/src/mouse_control_interface/walldetection_mci.c:374-378 | The same for the left side. |
| WallDetection.WallSensors.CheckRightWall | firmware/at32uc3l0256/src/mouse_control_interface/walldetection_mci.c:388-392 | The same for the right side. |
| Maze.Opposite | firmware/at32uc3l0256/src/algo/algo.c:127-140 | The reverse of a heading has the negated unit vector and differs from it, so a retreat undoes the move it pops. |
| Maze.CellCountBound | firmware/at32uc3l0256/src/algo/algo.h:10 | For every admitted side, n² stays below the sentinel 65535, so no step count reaches it. |
| Maze.MazeIdx | firmware/at32uc3l0256/src/algo/algo.c:186-192 | The index of an in-range cell lies in [0, n²). |
| Maze.MazeIdxParts | firmware/at32uc3l0256/src/algo/algo.c:186-192 | The index is mirrorY(y) · n + x; its row is n − 1 − y and its column is x. |
| Maze.CellAt | firmware/at32uc3l0256/src/algo/algo.c:186-192 | Every index in [0, n²) is the index of an in-range cell, so `mazeIdx` is onto. |
| Maze.MazeIdxInjective | firmware/at32uc3l0256/src/algo/algo.c:186-192 | Two in-range cells with the same index are the same cell. |
| Maze.DistinctCellsDistinctIdx | firmware/at32uc3l0256/src/algo/algo.c:186-192 | Distinct in-range cells have distinct indices. |
| Maze.CellAtMazeIdx | firmware/at32uc3l0256/src/algo/algo.c:186-192 | CellAt inverts MazeIdx; with CellAt's own contract the two are a bijection between in-range cells and [0, n²). |
| Maze.GoalRegion | firmware/at32uc3l0256/src/algo/algo.c:198-208 | The goal region is exactly the centre cell when n is odd and exactly the four centre cells when n is even. |
| Maze.GoalOfFiveByFive | firmware/at32uc3l0256/src/algo/algo.c:198-208 | On the 5 × 5 maze the goal is exactly the cell (2, 2). |
| Maze.UnsignedRangeCheck | firmware/at32uc3l0256/src/algo/algo.c:194-196 | For every neighbour of an in-range cell, `isInRange` on the wrapped `unsigned int` coordinates agrees with the signed check. A coordinate of −1 wraps to 2³² − 1 and is rejected. |
| FloodField.StepDown | firmware/at32uc3l0256/src/algo/algo.c:160-184 | In a consistent field, every finite cost off the goal has a neighbour, with an open passage into the cell, whose cost is exactly one less. |
| FloodField.ClosedBelowSupported | firmware/at32uc3l0256/src/algo/algo.c:146-184 | Take any field that is in bounds, zero on the goals and has no passage dropping by more than one. It lies below every field justified by neighbours over the same or more walls. |
| FloodField.ConsistentUnique | firmware/at32uc3l0256/src/algo/algo.c:146-184 | A wall map has exactly one consistent field at most. Re-running the flood fill from scratch therefore reproduces the same costs. |
| FloodField.MoreWallsNeverLower | firmware/at32uc3l0256/src/algo/algo.c:146-184 | Recording more walls never lowers any cell's cost. |
| FloodField.WalkCostBound | firmware/at32uc3l0256/src/algo/algo.c:160-184 | Along an open walk, the cost grows by at most one per step. |
| FloodField.NoShorterWalk | firmware/at32uc3l0256/src/algo/algo.c:146-184 | No open walk from a goal cell to a cell is shorter than that cell's cost. |
| FloodField.WalkOfCost | firmware/at32uc3l0256/src/algo/algo.c:146-184 | A finite cost is realised by an open walk of exactly that length from a goal cell. With NoShorterWalk, the cost is the least number of steps from the goal set. |
| FloodField.FiniteCostBound | firmware/at32uc3l0256/src/algo/algo.c:146-184 | A finite cost is at most n² − 1. |
| FloodField.ReachableIffFinite | firmware/at32uc3l0256/src/algo/algo.c:146-184 | A cell keeps the sentinel `UINT_MAX` iff no open walk from the goal reaches it, in both directions. |
| FloodField.ManhattanConsistent | firmware/at32uc3l0256/src/algo/algo.c:146-184 | With an odd side and no wall recorded, the Manhattan distance to the centre is a consistent field. |
| FloodField.OpenMazeIsManhattan | firmware/at32uc3l0256/src/algo/algo.c:146-184 | With an odd side and no wall recorded, the cost of (x, y) is \|x − c\| + \|y − c\| for the centre c. |
| FloodField.NoInnerWallsConsistent | firmware/at32uc3l0256/src/algo/algo.c:146-184 | A field consistent with a wall map that has no wall between two in-range cells is consistent with the open maze too. |
| FloodField.NoInnerWallsManhattan | firmware/at32uc3l0256/src/algo/algo.c:146-184 | With an odd side and only boundary walls recorded, the cost of every cell is its Manhattan distance to the centre. |
| FloodField.OpenFiveByFive | firmware/at32uc3l0256/src/algo/algo.c:146-184 | On the open 5 × 5 maze, cost(0, 0) = 4, cost(4, 4) = 4 and cost(2, 3) = 1. |
| Flood.NothingToRelax | firmware/at32uc3l0256/src/algo/algo.c:164-183 | A block whose guard fails changes nothing, and its passage is already finished. |
| Flood.ComposeRelaxations | firmware/at32uc3l0256/src/algo/algo.c:160-184 | Setting the cell's cost and then the four blocks N, S, E, W together give what `floodFillRecurse` promises. |
| Flood.NeighbourFlooded | firmware/at32uc3l0256/src/algo/algo.c:165-168 | Flooding the neighbour with cost + 1 finishes the passage towards it and only lowers costs to values above `cost`. |
| Flood.Relax | firmware/at32uc3l0256/src/algo/algo.c:164-183 | One block of `floodFillRecurse`. It lowers costs only to values above `cost`, adds no unfinished passage and leaves the passage from (x, y) towards d finished. The sum of costs does not grow. |
| Flood.FloodNeighbour | firmware/at32uc3l0256/src/algo/algo.c:165-168 | The recursive branch of a block, taken when the neighbour is in range, the passage is open and the neighbour costs more than cost + 1. It has the same effect as Relax. |
| Flood.FloodFillRecurse | firmware/at32uc3l0256/src/algo/algo.c:160-184 | Sets (x, y) to `cost` and never raises a cost. Every other lowered cost ends above `cost`. No unfinished passage is added, and all four passages out of (x, y) are finished. It terminates because every recursive call starts from a smaller sum of costs. |
| Flood.FloodFill | firmware/at32uc3l0256/src/algo/algo.c:146-158 | Leaves a consistent field: goals at 0; no open passage lets the cost drop by more than one; every finite cost off the goal is justified by a neighbour one step cheaper; all costs lie in [0, 65535]. |
| Flood.ResetField | firmware/at32uc3l0256/src/algo/algo.c:147-148 | The field of sentinels is in bounds, trivially justified and has no unfinished passage. |
| Flood.OddGoalFlooded | firmware/at32uc3l0256/src/algo/algo.c:150-151 | Flooding the centre cell of an odd maze from the reset field gives a consistent field. |
| Flood.EvenGoals | firmware/at32uc3l0256/src/algo/algo.c:152-156 | The four seeds of an even maze are in range, are goal cells, and are the only goal cells. |
| Flood.ClosedAfterFour | firmware/at32uc3l0256/src/algo/algo.c:152-157 | Four floods that add no unfinished passage to a finished field leave it finished. |
| Flood.GoalsStayZero | firmware/at32uc3l0256/src/algo/algo.c:152-157 | A goal cell set to 0 by one seed flood stays 0 through the later ones. |
| Flood.EvenGoalsFlooded | firmware/at32uc3l0256/src/algo/algo.c:152-157 | Flooding the four goal cells of an even maze in turn from the reset field gives a consistent field. |
| Explorer.SideOf | firmware/at32uc3l0256/src/algo/algo.c:263-409 | The switch tables of `moveD` and `checkDWall`: absolute D is the robot's front iff D is the heading. It is its back iff D is the opposite heading, and its left or right iff D is the heading turned left or right. |
| Explorer.Maneuver | firmware/at32uc3l0256/src/algo/algo.c:234-261 | Every manoeuvre ends with exactly one forward move, preceded only by turns. |
| Explorer.ManeuverFacesTarget | firmware/at32uc3l0256/src/algo/algo.c:263-341 | The turns `moveD` issues leave the robot facing D. So the forward move goes towards D, the side `checkDWall` senses. |
| Explorer.SideWall | firmware/at32uc3l0256/src/algo/algo.c:411-441 | Front, left and right report a wall iff the presence is not NotFound, so CannotRead counts as a wall. The back wall is reported only at (0, 0). |
| Explorer.DetectWalls | firmware/at32uc3l0256/src/algo/algo.c:343-409 | The recorded cell has a wall towards the heading iff the front sense says so, and one behind iff at (0, 0). It has a wall to the left and to the right iff the matching side sense says so. |
| Explorer.ScanStep | firmware/at32uc3l0256/src/algo/algo.c:69-102 | One block of the neighbour scan keeps the "best of the directions scanned so far" invariant. It takes a neighbour only when it is strictly cheaper. |
| Explorer.ScanBlock | firmware/at32uc3l0256/src/algo/algo.c:69-102 | One of the four scan blocks, reading the flood and visited arrays. It extends the best-so-far by one direction of the N, E, S, W order. |
| Explorer.BestSoFarComplete | firmware/at32uc3l0256/src/algo/algo.c:65-103 | After all four directions, the scan's choice is the best neighbour. A neighbour is found iff some in-range, open, unvisited neighbour has a cost below `UINT_MAX`. The chosen one is such a neighbour of least cost, and every earlier one in scan order costs strictly more. |
| Explorer.BestNeighbourUnique | firmware/at32uc3l0256/src/algo/algo.c:65-103 | The scan's outcome is determined by the maze state: two outcomes meeting the specification agree. |
| Explorer.ExtendWalk | firmware/at32uc3l0256/src/algo/algo.c:105-124 | Advancing to an unvisited in-range neighbour extends the stack's walk of distinct cells by one. The walk has at most n² cells. |
| Explorer.RetreatWalk | firmware/at32uc3l0256/src/algo/algo.c:125-141 | Popping the last direction and moving the opposite way shortens the walk by its last cell. |
| Explorer.CloserNeighbour | firmware/at32uc3l0256/src/algo/algo.c:65-103 | Off the goal of an odd maze with only boundary walls, and with every visited cell no cheaper than the current one, some eligible neighbour costs exactly one less. |
| Explorer.NoCheaperNeighbour | firmware/at32uc3l0256/src/algo/algo.c:65-103 | On such a maze a neighbour cheaper than the cell costs exactly one less and is one step closer to the centre. |
| Explorer.OpenMazeDescends | firmware/at32uc3l0256/src/algo/algo.c:65-103 | In that situation the scan finds a neighbour, one step cheaper and in range, so `traverseCell` advances and does not pop. |
| Explorer.OpenMazeStepDescends | firmware/at32uc3l0256/src/algo/algo.c:65-124 | One exploration step after a walk that came one cell closer to the centre each time chooses a neighbour one cell closer again. |
| Explorer.OpenMazeRunPrefix | firmware/at32uc3l0256/src/algo/algo.c:65-124 | By induction: the first k steps of such an exploration all choose a neighbour, and the j-th cell of the walk is n − 1 − j from the centre. |
| Explorer.OpenMazeRun | firmware/at32uc3l0256/src/algo/algo.c:50-144 | Exploring an odd maze with only boundary walls from (0, 0) never pops the move stack: every step finds a neighbour. The run reaches the goal after exactly n − 1 advances, which is cost(0, 0), the shortest-path depth, and it takes no more. |
| Explorer.Explorer.constructor | firmware/at32uc3l0256/src/algo/algo.c:8-14 | Power-up state: no wall recorded, nothing visited, `mazeFlood` = {UINT_MAX, 0, ...}, empty stack, at (0, 0) facing north. |
| Explorer.Explorer.Push | firmware/at32uc3l0256/src/algo/algo.c:224-232 | Succeeds iff the stack holds fewer than 1000 entries. On success it appends the direction on top. On failure it changes neither `stackTop` nor the array. |
| Explorer.Explorer.Pop | firmware/at32uc3l0256/src/algo/algo.c:214-222 | On an empty stack it fails and changes nothing. Otherwise it returns the top direction and removes exactly that one (LIFO). |
| Explorer.Explorer.Perform | firmware/at32uc3l0256/src/algo/algo.c:234-261 | `moveForward` / `moveBack` / `moveLeft` / `moveRight` append their manoeuvre to the log of motions. |
| Explorer.Explorer.Move | firmware/at32uc3l0256/src/algo/algo.c:263-341 | `moveD` issues the manoeuvre for D's side relative to the old heading. It shifts (x, y) by D's unit vector and sets the heading to D. |
| Explorer.Explorer.Visit | firmware/at32uc3l0256/src/algo/algo.c:57-63 | On a first visit it records the detected walls, marks the cell visited and recomputes the flood field, which is then consistent with the recorded walls. On a later visit it changes nothing and reuses the stored cell. The visited set only grows, and the exploration invariant is kept. |
| Explorer.Explorer.PushWalk | firmware/at32uc3l0256/src/algo/algo.c:105-123 | The push after an advance keeps the walk invariant. It cannot fail when n² <= 1000. |
| Explorer.Explorer.Advance | firmware/at32uc3l0256/src/algo/algo.c:105-124 | Moves to the chosen neighbour (pose, heading and manoeuvre as Move) and pushes its direction: depth rises by one. It cannot fail when n² <= 1000. |
| Explorer.Explorer.Retreat | firmware/at32uc3l0256/src/algo/algo.c:125-141 | Fails iff the stack is empty. Otherwise it pops the last direction and moves the opposite way: depth falls by one, and the walk invariant is kept. |
| Explorer.Explorer.ScanNeighbours | firmware/at32uc3l0256/src/algo/algo.c:65-103 | The N, E, S, W scan from cost `UINT_MAX` returns the best neighbour as specified by BestSoFarComplete. |
| Explorer.Explorer.MoveOn | firmware/at32uc3l0256/src/algo/algo.c:65-143 | With a neighbour found it advances towards it and pushes. Without one it pops and retreats. It returns whether the new cell is a goal, or the `exit(1)` it hit. |
| Explorer.Explorer.Explore | firmware/at32uc3l0256/src/algo/algo.c:57-143 | traverseCell off the goal: the visit of Visit followed by the move of MoveOn. The exploration invariant is kept unless the stack overflowed. |
| Explorer.Explorer.TraverseCell | firmware/at32uc3l0256/src/algo/algo.c:50-144 | At a goal cell it returns true and changes nothing. Otherwise it records the cell on a first visit, scans, then advances and pushes or pops and retreats. It returns whether it reached a goal, and it keeps the exploration invariant. |
| Motion.EncoderSum | firmware/at32uc3l0256/src/mouse_control_interface/movement_mci.c:209-209 | The guard sum of the two counters read back as `uint32_t`. It equals the plain sum when both counts are non-negative. |
| Motion.CheckLeftWallMoveForwardPid | firmware/at32uc3l0256/src/mouse_control_interface/movement_mci.c:579-598 | Found iff IR2 >= 101, else NotFound, never CannotRead. It touches no stored presence or gate. |
| Motion.CheckRightWallMoveForwardPid | firmware/at32uc3l0256/src/mouse_control_interface/movement_mci.c:607-626 | Found iff IR3 >= 101, else NotFound, never CannotRead. It touches no stored presence or gate. |
| Motion.SensorError | firmware/at32uc3l0256/src/mouse_control_interface/movement_mci.c:233-346 | With both walls the error is IR2 − IR3. With the left wall only it is −2 · e, where e = 161 − IR2, times 5 if positive. With the right wall only it is 3 · e, where e = 161 − IR3, times 5 if positive. With neither there is no error, and the sensor term is reset. |
| Motion.WheelCommand | firmware/at32uc3l0256/src/mouse_control_interface/movement_mci.c:360-397 | `sf_constrain(140 ± output, 255, −255)`. A negative value drives backward with duty \|v\|, anything else forward with duty v. The duty sent is always in [0, 255]. |
| Motion.GateAfterClosed | firmware/at32uc3l0256/src/mouse_control_interface/movement_mci.c:217-222 | After a run of iterations, the side gates are closed iff some iteration was past half of the target (77). |
| Motion.WallsStep | firmware/at32uc3l0256/src/mouse_control_interface/movement_mci.c:217-226 | In one iteration, the gates close if the sample is past halfway. A side presence takes the new reading iff its gate is still open. |
| Motion.ClosedGateStaysClosed | firmware/at32uc3l0256/src/mouse_control_interface/movement_mci.c:217-226 | Once closed, the side gates are never reopened inside the move, and the side presences stay fixed for the rest of it. |
| Motion.PidTurnErrorAsWritten | firmware/at32uc3l0256/src/mouse_control_interface/movement_mci.c:1118-1119 | The error as computed in `uint32_t`: a value in [0, 2³²) that equals target + progress whenever that sum is in range. |
| Motion.PidTurnError | firmware/at32uc3l0256/src/mouse_control_interface/movement_mci.c:1118-1119 | The corrected turn error is the counts still to go. It is zero exactly at the stopping count and non-negative before it. |
| Motion.PidTurnErrorGrows | firmware/at32uc3l0256/src/mouse_control_interface/movement_mci.c:1118-1119 | As written, the error starts at 33, grows as the wheel advances and is 66 at the stopping count. |
| Motion.PidTurnErrorShrinks | firmware/at32uc3l0256/src/mouse_control_interface/movement_mci.c:1118-1119 | The corrected error falls as the wheel advances and is 0 at the stopping count. |
| Motion.TurnErrorAtStop | firmware/at32uc3l0256/src/mouse_control_interface/movement_mci.c:1118-1119 | In a PID turn as written, the sample at which a wheel reaches its stopping count feeds the PD law 66, and a counter still at 0 gives 33. |
| Motion.HitWithinStep | firmware/at32uc3l0256/src/mouse_control_interface/movement_mci.c:1137-1148 | One more sample hits a target iff it or an earlier one does. |
| Motion.TurnRounds | firmware/at32uc3l0256/src/mouse_control_interface/movement_mci.c:1116-1149 | The iterations a PID turn runs: at most all the samples, and fewer only when both counters have met their targets by then. |
| Motion.TurnRoundsFirst | firmware/at32uc3l0256/src/mouse_control_interface/movement_mci.c:1116-1149 | TurnRounds stops at the first such iteration: before it, not both counters have met their targets. |
| Motion.PidTurnDuty | firmware/at32uc3l0256/src/mouse_control_interface/movement_mci.c:1126-1133 | The duty `(uint16_t)abs(90 + output)` lies in [0, 2¹⁶). |
| Motion.ForwardCommandsAt | firmware/at32uc3l0256/src/mouse_control_interface/movement_mci.c:229-397 | Iteration j sends motor 1 WheelCommand(140, output) and motor 2 WheelCommand(140, −output). The output is the wheel PD of the error −(count1 − count2) plus the sensor PD output of the sensor error SensorError picks, and of that error's change since iteration j − 1. Later iterations do not change these commands. |
| Motion.ForwardCommandsValid | firmware/at32uc3l0256/src/mouse_control_interface/movement_mci.c:360-397 | Every command of the forward move has a duty in [0, 255] and a running direction. |
| Motion.ErrorAtStep | firmware/at32uc3l0256/src/mouse_control_interface/movement_mci.c:229-354 | The error computed from a sample and the kept sensor error is that iteration's steering error. |
| Motion.HitsIff | firmware/at32uc3l0256/src/mouse_control_interface/movement_mci.c:431-442 | A counter read back as `uint32_t` equals the target exactly when the signed count equals it. |
| Motion.Drive.StopAndClear | firmware/at32uc3l0256/src/mouse_control_interface/movement_mci.c:400-404 | Both motors are stopped and both counters cleared. |
| Motion.Drive.RefreshSides | firmware/at32uc3l0256/src/mouse_control_interface/movement_mci.c:217-226 | One iteration's gate and side-presence update. It extends the wall state by one sample, as WallsStep describes. |
| Motion.Drive.Steer | firmware/at32uc3l0256/src/mouse_control_interface/movement_mci.c:229-397 | The sensor error picked by the classified side walls feeds the sensor PD law. The error is −(count1 − count2) plus that output. Motor 1 gets WheelCommand(140, output) and motor 2 WheelCommand(140, −output), where output is the wheel PD of the error and its change. Both are appended to the log. The kept sensor error is the one picked, or 0 with no side wall. |
| Motion.Drive.SteerStep | firmware/at32uc3l0256/src/mouse_control_interface/movement_mci.c:229-397 | Steering on sample i, with the histories of the samples before it, extends the log by iteration i's commands of ForwardCommands. |
| Motion.Drive.ForwardStep | firmware/at32uc3l0256/src/mouse_control_interface/movement_mci.c:211-397 | One full iteration keeps the forward-loop invariant one sample further: walls, command log and both PD histories. |
| Motion.Drive.ForwardLoop | firmware/at32uc3l0256/src/mouse_control_interface/movement_mci.c:208-398 | The loop ends at the first sample that reaches 2 × 77 or sees (IR1 + IR4) / 2 >= 160, and at no earlier one. The wall state is the one the iterations produce, and the log holds exactly their ForwardCommands. |
| Motion.Drive.MoveForward1MazeSquarePid | firmware/at32uc3l0256/src/mouse_control_interface/movement_mci.c:140-405 | Opens both side gates at entry and closes them for good past halfway. It stops exactly at the first arriving or blocked sample. The commands sent are exactly ForwardCommands of the iterations run, so each is WheelCommand(140, ±PD output) as ForwardCommandsAt spells out. It leaves the front state alone, then stops both motors and clears both counters. |
| Motion.Drive.Spin | firmware/at32uc3l0256/src/mouse_control_interface/movement_mci.c:428-443 | The loop finishes iff each counter hits its exact target at some sample. Each wheel is stopped when its own counter does. |
| Motion.Drive.TurnRight90Degrees | firmware/at32uc3l0256/src/mouse_control_interface/movement_mci.c:413-454 | Finishes iff counter 1 reads 32 and counter 2 reads −32. The wall presences are then rotated once for a right turn, the gates are kept, and the drive stops and clears. |
| Motion.Drive.TurnLeft90Degrees | firmware/at32uc3l0256/src/mouse_control_interface/movement_mci.c:462-500 | Finishes iff counter 1 reads −32 and counter 2 reads 32. The presences are then rotated once for a left turn, and the drive stops and clears. |
| Motion.Drive.TurnRight45Degrees | firmware/at32uc3l0256/src/mouse_control_interface/movement_mci.c:635-672 | Finishes iff the counters read 16 and −16, half the 90 degree count. It does not rotate the wall state. |
| Motion.Drive.TurnLeft45Degrees | firmware/at32uc3l0256/src/mouse_control_interface/movement_mci.c:681-719 | Finishes iff the counters read −16 and 16. It does not rotate the wall state. |
| Motion.Drive.SpinPid | firmware/at32uc3l0256/src/mouse_control_interface/movement_mci.c:1115-1149 | The PID turn loop finishes iff each counter hits ±33 at some sample. The commands it sends are exactly PidTurnCommands of the iterations it runs (TurnRounds). Each duty is `(uint16_t)abs(90 + pd(e, e − prev))`, with the error e computed as written, target plus progress in `uint32_t`. |
| Motion.Drive.TurnStep | firmware/at32uc3l0256/src/mouse_control_interface/movement_mci.c:1117-1148 | One unfinished iteration keeps the turn invariant one sample further: each done flag says whether its counter has hit its target, and the log and the kept errors are updated. The number of iterations left is unchanged. |
| Motion.Drive.SteerTurn | firmware/at32uc3l0256/src/mouse_control_interface/movement_mci.c:1118-1134 | Computes both errors as written and sends motor 1 the duty from counter 2's error and motor 2 the duty from counter 1's, in the direction of the turn. |
| Motion.Drive.StopOnTargets | firmware/at32uc3l0256/src/mouse_control_interface/movement_mci.c:1137-1148 | A running wheel is stopped exactly when its counter equals its target; a stopped one stays as it was. |
| Motion.Drive.TurnRight90DegreesPid | firmware/at32uc3l0256/src/mouse_control_interface/movement_mci.c:1090-1160 | Finishes iff the counters read 33 and −33. The presences are then rotated once for a right turn, and the drive stops and clears. The commands sent are those of SpinPid. |
| Motion.Drive.TurnLeft90DegreesPid | firmware/at32uc3l0256/src/mouse_control_interface/movement_mci.c:1168-1238 | Finishes iff the counters read −33 and 33. The presences are then rotated once for a left turn, and the drive stops and clears. The commands sent are those of SpinPid. |
| Motion.Drive.AdjustToFrontWall | firmware/at32uc3l0256/src/mouse_control_interface/movement_mci.c:565-569 | Leaves both duties at 0 and both counters cleared, and touches no wall state. |
| WallFollower.LeftFollowPlanShape | firmware/at32uc3l0256/src/algo/wallfollower_algo.c:56-72 | A left follow moves forward exactly once, first. It turns left at most once, exactly when the left check said NotFound, and turns right once per front wall met. |
| WallFollower.RightFollowIsMirror | firmware/at32uc3l0256/src/algo/wallfollower_algo.c:80-96 | The right follow's primitive sequence is the left follow's with left and right swapped. |
| WallFollower.ForwardThenCheckSide | firmware/at32uc3l0256/src/algo/wallfollower_algo.c:58-61 | The forward move, then the check of one side. The move ends at the first sample that does not continue. The side value is the classified reading when the gate is still open after the move, and otherwise the presence the move left. |
| WallFollower.TurnTowardsSide | firmware/at32uc3l0256/src/algo/wallfollower_algo.c:61-65 | A completed PID turn towards the side appends exactly that turn. |
| WallFollower.AdjustAndTurn | firmware/at32uc3l0256/src/algo/wallfollower_algo.c:68-70 | A completed adjust-and-turn appends the adjustment and then the turn away from the side. |
| WallFollower.TurnWhileBlocked | firmware/at32uc3l0256/src/algo/wallfollower_algo.c:66-71 | Repeats adjust-and-turn while the refreshed front presence is not NotFound, and leaves only on NotFound. With the front gate open it turns exactly while the readings classify as Found. |
| WallFollower.LeftWallFollow | firmware/at32uc3l0256/src/algo/wallfollower_algo.c:56-72 | `algo_LeftWallFollow` completes exactly the primitives of LeftFollowPlan and ends with the front clear. The left presence it acts on is the one `mci_CheckLeftWall` gives after the forward move: the classified reading if the left gate is still open, else the presence the move left. So it turns left exactly when that is NotFound. Its only state lives in the Drive and its WallSensors. |
| WallFollower.RightWallFollow | firmware/at32uc3l0256/src/algo/wallfollower_algo.c:80-96 | `algo_RightWallFollow` completes exactly the primitives of RightFollowPlan, the mirror image, and ends with the front clear. The right presence it acts on is the one `mci_CheckRightWall` gives after the forward move, so it turns right first exactly when that is NotFound. |

## Left out

- Hardware access: motors, encoders, infra-red ADC, LEDs, timer, USART writes and delays (`mhi_DelayMs`). Every value the code reads is a parameter: the encoder counts and readings as `Sample`s, the timer counter and the button edge count.
- Interrupts: the edge counters change under interrupt; the model reads one snapshot per loop iteration.
- Motion.Drive.MoveForward1MazeSquarePid: each iteration reads one `Sample`, while the source polls the counters and sensors several times per iteration.
- Floating point: the `kp`/`kd` products of the PD laws and their truncation to `int32_t` are injected integer functions.
- Int32 overflow of `140 ± output` and `90 + output`: it is not modelled, since the output is an unconstrained injected integer.
- Motion.Drive.SpinPid: the turn errors are `float` in the source and `prevError*` are `int32_t`. The model keeps them as the exact `uint32_t` value, so it does not capture float rounding of errors above 2²⁴ nor the conversion to `int32_t` of errors above 2³¹. Both arise only when a counter runs backwards past zero.
- Explorer.OpenMazeRun: it is stated over the scan's specification for the walls recorded at each step. That those walls are the boundary walls only depends on the sensed frames, which are injected.
- Motion.Drive.Spin: a turn whose samples run out before both counters hit their targets is reported as unfinished. The firmware would keep polling, and never return if a counter skips its target.
- WallFollower.LeftWallFollow: a primitive whose inputs run out is reported as `Stalled`, so the contract speaks only about calls that complete.
- Motion.Drive.AdjustToFrontWall: only its final effect is modelled (duty 0, counters cleared). The sensor-driven squaring loop is left out because it depends on the analogue behaviour.
- `mci_MoveForward1Revolution`, `mci_MoveCentertoCenterPid` and `mci_MoveForwardNSquares` are not part of this model.
- The text output of the serial `PrintInt` (`usart_write_line`) is not modelled, only the conversion into the buffer. The debug prints inside the forward move are not modelled either.
- `exit(1)` on stack misuse is an `Exit` outcome of `traverseCell`; the message printed before it is left out.
- Explorer.DetectWalls: the three presences it reads through `mci_Check*Wall` come in as one injected frame; the sensor refresh behind them is modelled separately in `WallDetection`.
- Explorer.Explorer.ScanNeighbours: the four copied blocks of the scan are one parameterised block (`ScanBlock`) applied in N, E, S, W order.
- The startup wiring (`main.c`, `init_mci.c`), the HAL configuration tables and the Python simulator are not part of this model.

## Findings

| source | as written | input that shows it | evidently intended | confidence | as-written member | corrected member |
|---|---|---|---|---|---|---|
| firmware/at32uc3l0256/src/mouse_control_interface/movement_mci.c:1118-1119 | The per-wheel error of the PID 90 degree turn is `33 - (-1 * count1)` (and `33 - count2` with count2 running to −33; the left turn mirrors both at 1196-1197). So it is target plus progress. | At the stopping count 33 the error is 66, not 0. At count 0 it is 33, and it grows by one per count. | The error is the counts still to go (target minus progress). It falls to 0 at the stopping count, so the PD output slows the wheel as the turn ends. | medium, not executed | Motion.TurnErrorAtStop | Motion.PidTurnError |
