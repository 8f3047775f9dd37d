/** The configuration-button edge detector of
    mouse_control_interface/configswitch_mci.c.  The button's interrupt
    counts edges; each poll compares the count with the one remembered from
    the previous poll. */
module ConfigSwitch {
  import opened MachineInts

  /** The count a poll compares with: the previous read, or the initial
      remembered count before the first one. */
  function Last(initial: int, counts: seq<int>): int
  {
    if counts == [] then initial else counts[|counts| - 1]
  }

  /** The answers of successive polls that read `counts`, starting from the
      remembered count `initial`. */
  function Responses(initial: int, counts: seq<int>): (answers: seq<bool>)
    ensures |answers| == |counts|
    decreases |counts|
  {
    if counts == [] then [] else Responses(initial, counts[..|counts| - 1]) + [counts[|counts| - 1] != Last(initial, counts[..|counts| - 1])]
  }

  /** Each poll answers "pressed" exactly when its count differs from the
      count of the poll before it: several edges between two polls are one
      press, and a repeated count is no press. */
  lemma {:induction false} ResponseComparesWithPrevious(initial: int, counts: seq<int>, k: int)
    requires 0 <= k < |counts|
    ensures Responses(initial, counts)[k] <==> counts[k] != (if k == 0 then initial else counts[k - 1])
    decreases |counts|
  {
    var front := counts[..|counts| - 1];
    if k < |counts| - 1 {
      ResponseComparesWithPrevious(initial, front, k);
    } else if k > 0 {
      assert Last(initial, front) == counts[k - 1];
    }
  }

  /** With the remembered count starting at 0 the first poll reports a
      press exactly when some edge was already counted. */
  lemma FirstPoll(count: int)
    ensures Responses(0, [count]) == [count != 0]
  {
    assert [count][..0] == [];
  }

  class ConfigButton {
    /** `oldEdgeCount` and `newEdgeCount`. */
    var oldEdgeCount: int
    var newEdgeCount: int
    /** The counts read so far and the answers given. */
    ghost var history: seq<int>
    ghost var answers: seq<bool>

    ghost predicate Valid()
      reads this
    {
      IsU32(oldEdgeCount) && IsU32(newEdgeCount)
      && oldEdgeCount == Last(0, history) && answers == Responses(0, history)
    }

    constructor ()
      ensures Valid() && history == [] && answers == []
      ensures oldEdgeCount == 0 && newEdgeCount == 0
    {
      oldEdgeCount, newEdgeCount := 0, 0;
      history, answers := [], [];
    }

    /** `mci_CheckConfigButtonPressed`, given the edge count the interrupt
        handler holds. */
    method CheckConfigButtonPressed(edgeCount: int) returns (pressed: bool)
      requires Valid() && IsU32(edgeCount)
      modifies this
      ensures Valid()
      ensures pressed <==> edgeCount != old(oldEdgeCount)
      ensures oldEdgeCount == edgeCount && newEdgeCount == edgeCount
      ensures history == old(history) + [edgeCount] && answers == old(answers) + [pressed]
    {
      newEdgeCount := edgeCount;
      if newEdgeCount != oldEdgeCount {
        pressed := true;
        oldEdgeCount := newEdgeCount;
      } else {
        pressed := false;
      }
      assert (history + [edgeCount])[..|history|] == history;
      history := history + [edgeCount];
      answers := answers + [pressed];
    }
  }
}
