/** CRC-16-CCITT (polynomial 0x1021, initial value 0xFFFF), bit by bit. */
module Crc16 {
  import opened Bytes

  const POLYNOMIAL: U16 := 0x1021

  function Power(n: nat): (p: nat)
    ensures p > 0
  {
    if n == 0 then 1 else 2 * Power(n - 1)
  }

  lemma PowerOfSixteen()
    ensures Power(16) == 0x1_0000
  {
    assert Power(4) == 0x10 && Power(8) == 0x100 && Power(12) == 0x1000;
  }

  /** The exclusive or of the `n` low bits of two numbers. */
  function Xor(a: nat, b: nat, n: nat): (x: nat)
    ensures x < Power(n)
  {
    if n == 0 then 0 else (a + b) % 2 + 2 * Xor(a / 2, b / 2, n - 1)
  }

  function Xor16(a: U16, b: U16): U16 {
    PowerOfSixteen();
    Xor(a, b, 16)
  }

  /** One bit: shifted left, and reduced by the polynomial when a bit falls out. */
  function Shift(crc: U16): U16 {
    if crc >= 0x8000 then Xor16(POLYNOMIAL, 2 * crc - 0x1_0000) else 2 * crc
  }

  function Shifts(crc: U16, n: nat): U16 {
    if n == 0 then crc else Shift(Shifts(crc, n - 1))
  }

  /** The remainder with a byte added to its high byte. */
  function Added(crc: U16, b: Byte): U16 {
    Xor16(crc, 0x100 * b)
  }

  function Crc(data: seq<Byte>): U16 {
    if data == [] then 0xFFFF else Shifts(Added(Crc(data[..|data| - 1]), data[|data| - 1]), 8)
  }

  /** `crc16_ccitt`. */
  method Crc16Ccitt(data: seq<Byte>) returns (crc: U16)
    ensures crc == Crc(data)
  {
    crc := 0xFFFF;
    for i := 0 to |data|
      invariant crc == Crc(data[..i])
    {
      ghost var before := crc;
      crc := Added(crc, data[i]);
      for k := 0 to 8
        invariant crc == Shifts(Added(before, data[i]), k)
      {
        crc := Shift(crc);
      }
      assert data[..i + 1][..i] == data[..i];
    }
    assert data[..|data|] == data;
  }

  // ---------- A changed byte changes the remainder ----------

  lemma {:induction false} XorIsInjective(a: nat, b: nat, c: nat, n: nat)
    requires Xor(a, b, n) == Xor(a, c, n) && b < Power(n) && c < Power(n)
    ensures b == c
  {
    if n > 0 {
      HalfIsBelow(b, n);
      HalfIsBelow(c, n);
      XorHalves(a, b, c, n);
      XorIsInjective(a / 2, b / 2, c / 2, n - 1);
    } else {
      assert Power(0) == 1;
    }
    hide Xor, Power;
  }

  lemma HalfIsBelow(b: nat, n: nat)
    requires n > 0 && b < Power(n)
    ensures b / 2 < Power(n - 1)
  {
  }

  lemma XorHalves(a: nat, b: nat, c: nat, n: nat)
    requires n > 0 && Xor(a, b, n) == Xor(a, c, n)
    ensures b % 2 == c % 2 && Xor(a / 2, b / 2, n - 1) == Xor(a / 2, c / 2, n - 1)
  {
    BitAndHalf((a + b) % 2, Xor(a / 2, b / 2, n - 1), (a + c) % 2, Xor(a / 2, c / 2, n - 1));
    hide Xor;
    SameParity(a, b, c);
  }

  lemma BitAndHalf(bit: nat, half: nat, bit': nat, half': nat)
    requires bit < 2 && bit' < 2 && bit + 2 * half == bit' + 2 * half'
    ensures bit == bit' && half == half'
  {
  }

  lemma SameParity(a: nat, b: nat, c: nat)
    requires (a + b) % 2 == (a + c) % 2
    ensures b % 2 == c % 2
  {
  }

  lemma {:induction false} XorIsSymmetric(a: nat, b: nat, n: nat)
    ensures Xor(a, b, n) == Xor(b, a, n)
  {
    if n > 0 { XorIsSymmetric(a / 2, b / 2, n - 1); }
  }

  lemma Xor16IsInjective(a: U16, b: U16, c: U16)
    ensures Xor16(a, b) == Xor16(a, c) ==> b == c
    ensures Xor16(b, a) == Xor16(c, a) ==> b == c
  {
    PowerOfSixteen();
    XorIsSymmetric(a, b, 16);
    XorIsSymmetric(a, c, 16);
    if Xor16(a, b) == Xor16(a, c) { XorIsInjective(a, b, c, 16); }
    hide Xor, Power;
  }

  lemma ShiftIsOdd(c: U16)
    ensures Shift(c) % 2 == if c >= 0x8000 then 1 else 0
  {
    if c >= 0x8000 {
      var x: nat := 2 * c - 0x1_0000;
      XorIsOdd(POLYNOMIAL, x, 16);
      hide Xor;
    }
  }

  lemma XorIsOdd(a: nat, b: nat, n: nat)
    requires n > 0
    ensures Xor(a, b, n) % 2 == (a + b) % 2
  {
  }

  lemma ShiftIsInjective(c: U16, d: U16)
    requires Shift(c) == Shift(d)
    ensures c == d
  {
    ShiftIsOdd(c);
    ShiftIsOdd(d);
    if c >= 0x8000 && d >= 0x8000 { Xor16IsInjective(POLYNOMIAL, 2 * c - 0x1_0000, 2 * d - 0x1_0000); }
    hide Xor16;
  }

  lemma {:induction false} ShiftsAreInjective(c: U16, d: U16, n: nat)
    requires Shifts(c, n) == Shifts(d, n)
    ensures c == d
  {
    if n > 0 {
      ShiftIsInjective(Shifts(c, n - 1), Shifts(d, n - 1));
      ShiftsAreInjective(c, d, n - 1);
    }
    hide Shift;
  }

  lemma AddedIsInjective(c: U16, d: U16, a: Byte, b: Byte)
    requires Added(c, a) == Added(d, b) && (c == d || a == b)
    ensures c == d && a == b
  {
    Xor16IsInjective(c, 0x100 * a, 0x100 * b);
    Xor16IsInjective(0x100 * a, c, d);
    hide Xor16;
  }

  /** Two messages that differ in exactly one byte have different remainders. */
  lemma {:induction false} ChangedByteIsDetected(x: seq<Byte>, y: seq<Byte>, at: nat)
    requires |x| == |y| && at < |x| && x[at] != y[at]
    requires forall i :: 0 <= i < |x| && i != at ==> x[i] == y[i]
    ensures Crc(x) != Crc(y)
  {
    var last := |x| - 1;
    var c, d := Crc(x[..last]), Crc(y[..last]);
    if at == last {
      assert x[..last] == y[..last];
    } else {
      ChangedByteIsDetected(x[..last], y[..last], at);
    }
    if Crc(x) == Crc(y) {
      ShiftsAreInjective(Added(c, x[last]), Added(d, y[last]), 8);
      AddedIsInjective(c, d, x[last], y[last]);
    }
    hide Shifts, Added;
  }
}
