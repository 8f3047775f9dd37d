/** Fixed-width C integer semantics used by the firmware: `uint32_t`
    wrap-around and the two's-complement reading of a 32-bit pattern as
    `int32_t`.  Dafny integers are unbounded, so every conversion the C
    code performs implicitly is written out here. */
module MachineInts {

  const TwoTo32: int := 0x1_0000_0000
  const TwoTo31: int := 0x8000_0000

  /** A value representable as `uint32_t`. */
  predicate IsU32(v: int) { 0 <= v < TwoTo32 }

  /** A value representable as `int32_t`. */
  predicate IsI32(v: int) { -TwoTo31 <= v < TwoTo31 }

  /** Conversion of any integer to `uint32_t` (reduction modulo 2^32). */
  function ToU32(v: int): (r: int)
    ensures IsU32(r)
    ensures (r - v) % TwoTo32 == 0
    ensures IsU32(v) ==> r == v
  {
    v % TwoTo32
  }

  /** Reading a 32-bit pattern as `int32_t` (two's complement). */
  function ToI32(u: int): (r: int)
    requires IsU32(u)
    ensures IsI32(r)
    ensures (r - u) % TwoTo32 == 0
    ensures u < TwoTo31 ==> r == u
  {
    if u < TwoTo31 then u else u - TwoTo32
  }

  /** Reading an `int32_t` back as `uint32_t` and then as `int32_t` again
      returns the original value. */
  lemma SignedRoundTrip(v: int)
    requires IsI32(v)
    ensures ToI32(ToU32(v)) == v
  {
    if v < 0 {
      assert ToU32(v) == v + TwoTo32;
    }
  }

  /** A negative `int32_t` compared with an unsigned value is seen as a
      value of at least 2^31. */
  lemma NegativeIsHugeUnsigned(v: int)
    requires IsI32(v) && v < 0
    ensures ToU32(v) == v + TwoTo32 && ToU32(v) >= TwoTo31
  {
  }

  const TwoTo16: int := 0x1_0000

  /** Conversion of any integer to `uint16_t`. */
  function ToU16(v: int): (r: int)
    ensures 0 <= r < TwoTo16
    ensures 0 <= v < TwoTo16 ==> r == v
  {
    v % TwoTo16
  }

  /** An `int32_t` compared for equality with an `int32_t` constant after
      both are converted to `uint32_t` is equal exactly when the signed
      values are. */
  lemma UnsignedEquality(a: int, b: int)
    requires IsI32(a) && IsI32(b)
    ensures ToU32(a) == ToU32(b) <==> a == b
  {
    SignedRoundTrip(a);
    SignedRoundTrip(b);
  }
}
