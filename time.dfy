/** Elapsed time of mouse_control_interface/time_mci.c: the timer counter
    value at start is kept as `int32_t`, and the elapsed time is the
    difference of counter values, converted to `uint32_t` and scaled by 8. */
module Time {
  import opened MachineInts

  /** Milliseconds per counter tick, as `mci_GetTimeMs` scales. */
  const MsPerTick: int := 8

  class Timer {
    /** `startTime`. */
    var startTime: int

    ghost predicate Valid()
      reads this
    {
      IsI32(startTime)
    }

    constructor ()
      ensures Valid() && startTime == 0
    {
      startTime := 0;
    }

    /** `mci_StartTimer`, given the counter value. */
    method StartTimer(count: int)
      requires IsU32(count)
      modifies this
      ensures Valid() && startTime == ToI32(count)
      ensures NoOverflow(count) && GetTimeMs(count) == 0
    {
      startTime := ToI32(count);
    }

    /** `mci_ResetTimer`: the same effect as StartTimer. */
    method ResetTimer(count: int)
      requires IsU32(count)
      modifies this
      ensures Valid() && startTime == ToI32(count)
      ensures NoOverflow(count) && GetTimeMs(count) == 0
    {
      startTime := ToI32(count);
    }

    /** The `int32_t` subtraction `currentTime - startTime` does not
        overflow; the source has no defined result otherwise. */
    predicate NoOverflow(count: int)
      reads this
      requires IsU32(count)
    {
      IsI32(ToI32(count) - startTime)
    }

    /** `mci_GetTimeMs`, given the counter value. */
    function GetTimeMs(count: int): (ms: int)
      reads this
      requires IsU32(count) && NoOverflow(count)
      ensures IsU32(ms)
      ensures (ms - MsPerTick * (ToI32(count) - startTime)) % TwoTo32 == 0
      ensures 0 <= ToI32(count) - startTime && MsPerTick * (ToI32(count) - startTime) < TwoTo32 ==>
                ms == MsPerTick * (ToI32(count) - startTime)
    {
      var elapsed := ToU32(ToI32(count) - startTime);
      ToU32(elapsed * MsPerTick)
    }
  }

  /** Reduction modulo 2^32 only depends on the residue. */
  lemma SameResidue(a: int, b: int)
    requires (a - b) % TwoTo32 == 0
    ensures ToU32(a) == ToU32(b)
  {
    var k := (a - b) / TwoTo32;
    assert a == b + k * TwoTo32;
  }

  /** The elapsed time is 8 times the difference of the raw unsigned
      counter values, modulo 2^32, also across a wrap of the counter. */
  lemma ElapsedIsCounterDifference(t: Timer, start: int, count: int)
    requires IsU32(start) && IsU32(count) && t.startTime == ToI32(start)
    requires t.NoOverflow(count)
    ensures t.GetTimeMs(count) == ToU32(MsPerTick * (count - start))
  {
    var ms := t.GetTimeMs(count);
    var d := ToI32(count) - ToI32(start);
    var ka := (ToI32(count) - count) / TwoTo32;
    var kb := (ToI32(start) - start) / TwoTo32;
    assert ToI32(count) == count + ka * TwoTo32;
    assert ToI32(start) == start + kb * TwoTo32;
    var j := (ms - MsPerTick * d) / TwoTo32;
    assert ms == MsPerTick * d + j * TwoTo32;
    assert ms - MsPerTick * (count - start) == (MsPerTick * (ka - kb) + j) * TwoTo32;
    SameResidue(ms, MsPerTick * (count - start));
  }
}
