/** The decimal conversion of `at32uc3l0256_PrintInt` in
    HAL/at32uc3l0256/usart_at32uc3l0256.c: an `unsigned long` (32 bits on
    this target) is written digit by digit from the end of an 11-character
    buffer, least significant digit first. */
module PrintInt {
  import opened MachineInts

  /** Size of `tmp`: ten digits and the terminator. */
  const BufferSize: int := 11
  const Terminator: char := 0 as char

  function Pow10(k: nat): (p: nat)
    ensures p >= 1
  {
    if k == 0 then 1 else 10 * Pow10(k - 1)
  }

  /** The ASCII character `'0' + d`. */
  function Digit(d: int): (c: char)
    requires 0 <= d < 10
    ensures '0' <= c <= '9' && c as int - '0' as int == d
  {
    ('0' as int + d) as char
  }

  predicate IsDigit(c: char) { '0' <= c <= '9' }

  function DigitValue(c: char): (d: nat)
    requires IsDigit(c)
    ensures d < 10 && Digit(d) == c
  {
    c as int - '0' as int
  }

  /** The decimal representation of v without leading zeros. */
  function DecimalString(v: nat): (s: seq<char>)
    ensures |s| >= 1 && (forall k :: 0 <= k < |s| ==> IsDigit(s[k]))
    ensures s[0] == '0' <==> v == 0
    decreases v
  {
    if v < 10 then [Digit(v)] else DecimalString(v / 10) + [Digit(v % 10)]
  }

  /** The number a string of digits denotes. */
  function Parse(s: seq<char>): nat
    requires forall k :: 0 <= k < |s| ==> IsDigit(s[k])
    decreases |s|
  {
    if s == [] then 0 else 10 * Parse(s[..|s| - 1]) + DigitValue(s[|s| - 1])
  }

  /** Parsing the representation gives the number back. */
  lemma {:induction false} ParseDecimal(v: nat)
    ensures Parse(DecimalString(v)) == v
    decreases v
  {
    if v >= 10 {
      var s := DecimalString(v);
      assert s[..|s| - 1] == DecimalString(v / 10);
      ParseDecimal(v / 10);
    }
  }

  /** The representation has at most k digits exactly when v < 10^k. */
  lemma {:induction false} DecimalLength(v: nat, k: nat)
    requires k >= 1
    ensures |DecimalString(v)| <= k <==> v < Pow10(k)
    decreases v
  {
    if v >= 10 {
      if k == 1 {
      } else {
        DecimalLength(v / 10, k - 1);
      }
    }
  }

  /** A `uint32_t` has at most ten decimal digits. */
  lemma TenDigitsSuffice(v: nat)
    requires IsU32(v)
    ensures |DecimalString(v)| <= BufferSize - 1
  {
    assert Pow10(10) == 10_000_000_000;
    DecimalLength(v, 10);
  }

  /** The conversion loop: returns the characters `tmp + i` points at
      (without the terminator) and the start index `i`. */
  method FormatDecimal(userInt: int) returns (text: seq<char>, start: int)
    requires IsU32(userInt)
    ensures 0 <= start < BufferSize - 1
    ensures text == DecimalString(userInt) && |text| == BufferSize - 1 - start
    ensures userInt == 0 ==> text == "0"
  {
    var tmp := new char[BufferSize];
    var i := BufferSize - 1;
    tmp[i] := Terminator;
    var u := userInt;
    TenDigitsSuffice(userInt);
    // The first iteration always runs, as in the source's do-while.
    while i == BufferSize - 1 || u != 0
      invariant 0 <= i <= BufferSize - 1 && 0 <= u
      invariant i == BufferSize - 1 ==> u == userInt
      invariant u != 0 || i == BufferSize - 1 ==> DecimalString(u) + tmp[i..BufferSize - 1] == DecimalString(userInt)
      invariant u == 0 && i < BufferSize - 1 ==> tmp[i..BufferSize - 1] == DecimalString(userInt)
      decreases u, i
    {
      assert |DecimalString(u)| + (BufferSize - 1 - i) <= BufferSize - 1;
      ghost var rest := tmp[i..BufferSize - 1];
      i := i - 1;
      tmp[i] := Digit(u % 10);
      assert tmp[i..BufferSize - 1] == [Digit(u % 10)] + rest;
      u := u / 10;
    }
    text, start := tmp[i..BufferSize - 1], i;
  }
}
