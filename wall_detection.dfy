/** The wall-presence state machine of
    mouse_control_interface/walldetection_mci.c: three tri-state flags
    (front, left, right, always relative to the robot's heading), each with
    its own update gate, refreshed from raw infra-red readings against
    fixed thresholds and rotated on every 90 degree turn. */
module WallDetection {

  /** `mci_wall_presence_t`. */
  datatype Presence = NotFound | Found | CannotRead

  /** `mci_wall_update_availability_t`. */
  datatype Gate = NotAvailable | Available

  /** Raw thresholds for 180 mm walls (walldetection_mci.h). */
  const FrontThreshold: int := 128
  const LeftThreshold: int := 101
  const RightThreshold: int := 101
  /** Averaged front reading at which a forward move stops early. */
  const FrontTooCloseThreshold: int := 160

  /** The ADC driver masks every sample with 0xFFF, so a reading is a
      12-bit value. */
  const AdcMax: int := 4095
  type Reading = r: int | 0 <= r <= AdcMax

  /** The three presences as one value, in the robot's frame. */
  datatype Frame = Frame(left: Presence, front: Presence, right: Presence)

  /** Presence of a front wall from the two front sensors: the integer
      average of IR1 and IR4 against the front threshold. */
  function FrontPresence(ir1: Reading, ir4: Reading): (p: Presence)
    ensures p == Found <==> (ir1 + ir4) / 2 >= FrontThreshold
    ensures p == NotFound <==> (ir1 + ir4) / 2 < FrontThreshold
  {
    if (ir1 + ir4) / 2 >= FrontThreshold then Found else NotFound
  }

  /** Presence of a side wall from a single diagonal sensor. */
  function SidePresence(reading: Reading, threshold: int): (p: Presence)
    ensures p == Found <==> reading >= threshold
    ensures p == NotFound <==> reading < threshold
  {
    if reading >= threshold then Found else NotFound
  }

  /** `mci_UpdateWallPresenceRightTurn`: what was in front is now on the
      left, what was on the right is now in front, and nothing is known on
      the new right-hand side. */
  function RightTurn(f: Frame): (r: Frame)
    ensures r.left == f.front && r.front == f.right && r.right == CannotRead
  {
    Frame(f.front, f.right, CannotRead)
  }

  /** `mci_UpdateWallPresenceLeftTurn`, the mirror image. */
  function LeftTurn(f: Frame): (r: Frame)
    ensures r.left == CannotRead && r.front == f.left && r.right == f.front
  {
    Frame(CannotRead, f.left, f.front)
  }

  /** A right turn undone by a left turn restores front and right, but the
      left-hand knowledge is lost. */
  lemma RightThenLeft(f: Frame)
    ensures LeftTurn(RightTurn(f)) == Frame(CannotRead, f.front, f.right)
  {
  }

  /** Two right turns bring the old right wall to the left and forget
      everything else. */
  lemma TwoRightTurns(f: Frame)
    ensures RightTurn(RightTurn(f)) == Frame(f.right, CannotRead, CannotRead)
  {
  }

  /** Two right turns are not the same as one left turn: rotation is
      direction specific.  Witness from (left=Found, front=NotFound,
      right=CannotRead); one right turn forgets the right-hand side instead
      of carrying the old left wall round to it. */
  lemma RotationIsDirectional()
    ensures RightTurn(Frame(Found, NotFound, CannotRead)) == Frame(NotFound, CannotRead, CannotRead)
    ensures RightTurn(RightTurn(Frame(Found, NotFound, CannotRead)))
         != LeftTurn(Frame(Found, NotFound, CannotRead))
  {
  }

  /** The six statics of walldetection_mci.c. */
  class WallSensors {
    var front: Presence
    var left: Presence
    var right: Presence
    var frontGate: Gate
    var leftGate: Gate
    var rightGate: Gate

    /** The presences as a frame value. */
    function Presences(): Frame
      reads this
    {
      Frame(left, front, right)
    }

    /** Power-up values: front not found, sides unreadable, only the front
        gate open. */
    constructor ()
      ensures front == NotFound && left == CannotRead && right == CannotRead
      ensures frontGate == Available && leftGate == NotAvailable && rightGate == NotAvailable
    {
      front, left, right := NotFound, CannotRead, CannotRead;
      frontGate, leftGate, rightGate := Available, NotAvailable, NotAvailable;
    }

    /** `mci_SetFrontWallUpdateUnavailable` and its five siblings. */
    method SetFrontWallUpdateUnavailable()
      modifies this
      ensures frontGate == NotAvailable
      ensures Presences() == old(Presences()) && leftGate == old(leftGate) && rightGate == old(rightGate)
    {
      frontGate := NotAvailable;
    }

    method SetLeftWallUpdateUnavailable()
      modifies this
      ensures leftGate == NotAvailable
      ensures Presences() == old(Presences()) && frontGate == old(frontGate) && rightGate == old(rightGate)
    {
      leftGate := NotAvailable;
    }

    method SetRightWallUpdateUnavailable()
      modifies this
      ensures rightGate == NotAvailable
      ensures Presences() == old(Presences()) && frontGate == old(frontGate) && leftGate == old(leftGate)
    {
      rightGate := NotAvailable;
    }

    method SetFrontWallUpdateAvailable()
      modifies this
      ensures frontGate == Available
      ensures Presences() == old(Presences()) && leftGate == old(leftGate) && rightGate == old(rightGate)
    {
      frontGate := Available;
    }

    method SetLeftWallUpdateAvailable()
      modifies this
      ensures leftGate == Available
      ensures Presences() == old(Presences()) && frontGate == old(frontGate) && rightGate == old(rightGate)
    {
      leftGate := Available;
    }

    method SetRightWallUpdateAvailable()
      modifies this
      ensures rightGate == Available
      ensures Presences() == old(Presences()) && frontGate == old(frontGate) && leftGate == old(leftGate)
    {
      rightGate := Available;
    }

    /** `mci_ClearLeftRightWallPresence`. */
    method ClearLeftRightWallPresence()
      modifies this
      ensures left == CannotRead && right == CannotRead
      ensures front == old(front)
      ensures frontGate == old(frontGate) && leftGate == old(leftGate) && rightGate == old(rightGate)
    {
      left, right := CannotRead, CannotRead;
    }

    /** `mci_UpdateFrontWallPresence`: the sensors are read in any case; the
        flag changes only through an open gate, and never to CannotRead. */
    method UpdateFrontWallPresence(ir1: Reading, ir4: Reading)
      modifies this
      ensures front == (if frontGate == Available then FrontPresence(ir1, ir4) else old(front))
      ensures old(front) != CannotRead ==> front != CannotRead
      ensures left == old(left) && right == old(right)
      ensures frontGate == old(frontGate) && leftGate == old(leftGate) && rightGate == old(rightGate)
    {
      if frontGate == Available {
        if (ir1 + ir4) / 2 >= FrontThreshold {
          front := Found;
        } else {
          front := NotFound;
        }
      }
    }

    /** `mci_UpdateLeftWallPresence`. */
    method UpdateLeftWallPresence(ir2: Reading)
      modifies this
      ensures left == (if leftGate == Available then SidePresence(ir2, LeftThreshold) else old(left))
      ensures front == old(front) && right == old(right)
      ensures frontGate == old(frontGate) && leftGate == old(leftGate) && rightGate == old(rightGate)
    {
      if leftGate == Available {
        if ir2 >= LeftThreshold {
          left := Found;
        } else {
          left := NotFound;
        }
      }
    }

    /** `mci_UpdateRightWallPresence`. */
    method UpdateRightWallPresence(ir3: Reading)
      modifies this
      ensures right == (if rightGate == Available then SidePresence(ir3, RightThreshold) else old(right))
      ensures front == old(front) && left == old(left)
      ensures frontGate == old(frontGate) && leftGate == old(leftGate) && rightGate == old(rightGate)
    {
      if rightGate == Available {
        if ir3 >= RightThreshold {
          right := Found;
        } else {
          right := NotFound;
        }
      }
    }

    /** `mci_UpdateWallPresenceRightTurn`. */
    method UpdateWallPresenceRightTurn()
      modifies this
      ensures Presences() == RightTurn(old(Presences()))
      ensures frontGate == old(frontGate) && leftGate == old(leftGate) && rightGate == old(rightGate)
    {
      left := front;
      front := right;
      right := CannotRead;
    }

    /** `mci_UpdateWallPresenceLeftTurn`. */
    method UpdateWallPresenceLeftTurn()
      modifies this
      ensures Presences() == LeftTurn(old(Presences()))
      ensures frontGate == old(frontGate) && leftGate == old(leftGate) && rightGate == old(rightGate)
    {
      right := front;
      front := left;
      left := CannotRead;
    }

    /** `mci_CheckFrontWall`: refresh (subject to the gate), then return the
        stored flag. */
    method CheckFrontWall(ir1: Reading, ir4: Reading) returns (p: Presence)
      modifies this
      ensures p == front
      ensures p == (if frontGate == Available then FrontPresence(ir1, ir4) else old(front))
      ensures left == old(left) && right == old(right)
      ensures frontGate == old(frontGate) && leftGate == old(leftGate) && rightGate == old(rightGate)
    {
      UpdateFrontWallPresence(ir1, ir4);
      p := front;
    }

    /** `mci_CheckLeftWall`. */
    method CheckLeftWall(ir2: Reading) returns (p: Presence)
      modifies this
      ensures p == left
      ensures p == (if leftGate == Available then SidePresence(ir2, LeftThreshold) else old(left))
      ensures front == old(front) && right == old(right)
      ensures frontGate == old(frontGate) && leftGate == old(leftGate) && rightGate == old(rightGate)
    {
      UpdateLeftWallPresence(ir2);
      p := left;
    }

    /** `mci_CheckRightWall`. */
    method CheckRightWall(ir3: Reading) returns (p: Presence)
      modifies this
      ensures p == right
      ensures p == (if rightGate == Available then SidePresence(ir3, RightThreshold) else old(right))
      ensures front == old(front) && left == old(left)
      ensures frontGate == old(frontGate) && leftGate == old(leftGate) && rightGate == old(rightGate)
    {
      UpdateRightWallPresence(ir3);
      p := right;
    }
  }
}
