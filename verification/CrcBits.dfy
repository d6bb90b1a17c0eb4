/**
 What the polynomial of CRC-16-CCITT detects, bit by bit: every odd number of changed
 bits, and every change within sixteen consecutive bits.
 */
module CrcBits {
  import opened Bytes
  import opened Crc16

  // ---------- Parity ----------

  /** How many of the `n` low bits are set. */
  function Ones(a: nat, n: nat): nat {
    if n == 0 then 0 else a % 2 + Ones(a / 2, n - 1)
  }

  lemma XorParts(a: nat, b: nat, n: nat)
    requires n > 0
    ensures Xor(a, b, n) % 2 == (a + b) % 2 && Xor(a, b, n) / 2 == Xor(a / 2, b / 2, n - 1)
  {
  }

  lemma ParityMore(a: nat, b: nat, x: nat, y: nat, z: nat)
    requires z % 2 == (x + y) % 2
    ensures ((a + b) % 2 + z) % 2 == (a % 2 + x + (b % 2 + y)) % 2
  {
  }

  lemma {:induction false} XorOnes(a: nat, b: nat, n: nat)
    ensures Ones(Xor(a, b, n), n) % 2 == (Ones(a, n) + Ones(b, n)) % 2
  {
    if n > 0 {
      XorParts(a, b, n);
      XorOnes(a / 2, b / 2, n - 1);
      hide Xor;
      ParityMore(a, b, Ones(a / 2, n - 1), Ones(b / 2, n - 1), Ones(Xor(a / 2, b / 2, n - 1), n - 1));
    }
  }

  lemma {:induction false} OnesBelow(a: nat, n: nat)
    requires a < Power(n)
    ensures Ones(a, n + 1) == Ones(a, n)
    ensures Ones(a + Power(n), n + 1) == Ones(a, n) + 1
  {
    if n > 0 {
      OnesBelow(a / 2, n - 1);
      assert (a + Power(n)) / 2 == a / 2 + Power(n - 1);
    }
  }

  lemma OnesDouble(a: nat, n: nat)
    requires n > 0
    ensures Ones(2 * a, n) == Ones(a, n - 1)
  {
  }

  lemma OnesOdd(a: nat, n: nat)
    requires n > 0
    ensures Ones(2 * a + 1, n) == Ones(a, n - 1) + 1
  {
  }

  lemma PolynomialOnes()
    ensures Ones(POLYNOMIAL, 16) == 3
  {
    OnesOdd(0x810, 16);
    OnesDouble(0x408, 15);
    OnesDouble(0x204, 14);
    OnesDouble(0x102, 13);
    OnesDouble(0x81, 12);
    OnesOdd(0x40, 11);
    OnesDouble(0x20, 10);
    OnesDouble(0x10, 9);
    OnesDouble(8, 8);
    OnesDouble(4, 7);
    OnesDouble(2, 6);
    OnesDouble(1, 5);
    OnesOdd(0, 4);
    assert Ones(0, 3) == 0;
    hide Ones;
  }

  lemma PowerOfFifteen()
    ensures Power(15) == 0x8000
  {
    PowerOfSixteen();
  }

  lemma OddParity(x: nat, y: nat, z: nat)
    requires x % 2 == (3 + y) % 2 && z == y + 1
    ensures x % 2 == z % 2
  {
  }

  lemma ShiftParity(c: U16)
    ensures Ones(Shift(c), 16) % 2 == Ones(c, 16) % 2
  {
    PowerOfFifteen();
    hide Ones, Xor, Power;
    if c >= 0x8000 {
      var low := c - 0x8000;
      OnesBelow(low, 15);
      OnesDouble(low, 16);
      XorOnes(POLYNOMIAL, 2 * low, 16);
      PolynomialOnes();
      OddParity(Ones(Shift(c), 16), Ones(2 * low, 16), Ones(c, 16));
    } else {
      OnesBelow(c, 15);
      OnesDouble(c, 16);
    }
  }

  lemma {:induction false} ShiftsParity(c: U16, n: nat)
    ensures Ones(Shifts(c, n), 16) % 2 == Ones(c, 16) % 2
  {
    if n > 0 {
      ShiftParity(Shifts(c, n - 1));
      ShiftsParity(c, n - 1);
    }
    hide Shift, Ones;
  }

  lemma {:induction false} OnesShifted(a: nat, k: nat, n: nat)
    ensures Ones(Power(k) * a, n + k) == Ones(a, n)
  {
    if k > 0 {
      assert Power(k) * a == 2 * (Power(k - 1) * a);
      OnesDouble(Power(k - 1) * a, n + k);
      OnesShifted(a, k - 1, n);
    }
    hide Ones;
  }

  lemma PowerOfEight()
    ensures Power(8) == 0x100
  {
    assert Power(4) == 0x10;
  }

  lemma AddedParity(c: U16, b: Byte)
    ensures Ones(Added(c, b), 16) % 2 == (Ones(c, 16) + Ones(b, 8)) % 2
  {
    PowerOfEight();
    OnesShifted(b, 8, 8);
    XorOnes(c, 0x100 * b, 16);
    hide Ones, Xor, Power;
  }

  /** The bits set in a message. */
  function OnesOf(data: seq<Byte>): nat {
    if data == [] then 0 else OnesOf(data[..|data| - 1]) + Ones(data[|data| - 1], 8)
  }

  lemma {:induction false} OnesFull(n: nat)
    ensures Ones(Power(n) - 1, n) == n
  {
    if n > 0 {
      OnesFull(n - 1);
      OnesOdd(Power(n - 1) - 1, n);
    }
    hide Ones;
  }

  lemma SumParity(x: nat, y: nat, z: nat, w: nat)
    requires x % 2 == (y + z) % 2 && y % 2 == w % 2
    ensures x % 2 == (w + z) % 2
  {
  }

  /** The remainder has as many bits set as the message, but for an even number. */
  lemma {:induction false} CrcParity(data: seq<Byte>)
    ensures Ones(Crc(data), 16) % 2 == OnesOf(data) % 2
  {
    if data == [] {
      OnesFull(16);
      PowerOfSixteen();
      hide Power;
    } else {
      CrcParity(data[..|data| - 1]);
      CrcParityMore(data[..|data| - 1], data[|data| - 1]);
    }
    hide Ones, Shifts, Added;
  }

  lemma CrcParityMore(p: seq<Byte>, b: Byte)
    requires Ones(Crc(p), 16) % 2 == OnesOf(p) % 2
    ensures Ones(Shifts(Added(Crc(p), b), 8), 16) % 2 == (OnesOf(p) + Ones(b, 8)) % 2
  {
    hide *;
    ShiftsParity(Added(Crc(p), b), 8);
    AddedParity(Crc(p), b);
    SumParity(Ones(Shifts(Added(Crc(p), b), 8), 16), Ones(Crc(p), 16), Ones(b, 8), OnesOf(p));
  }

  /** How many bits differ. */
  function ChangedBits(x: seq<Byte>, y: seq<Byte>): nat
    requires |x| == |y|
  {
    if x == [] then 0
    else
      var n := |x| - 1;
      ChangedBits(x[..n], y[..n]) + Ones(Xor(x[n], y[n], 8), 8)
  }

  lemma {:induction false} ChangedParity(x: seq<Byte>, y: seq<Byte>)
    requires |x| == |y|
    ensures ChangedBits(x, y) % 2 == (OnesOf(x) + OnesOf(y)) % 2
  {
    hide Ones, Xor;
    if x != [] {
      var n := |x| - 1;
      ChangedParity(x[..n], y[..n]);
      ChangedParityMore(x[..n], y[..n], x[n], y[n]);
    }
  }

  lemma ChangedParityMore(x: seq<Byte>, y: seq<Byte>, a: Byte, b: Byte)
    requires |x| == |y| && ChangedBits(x, y) % 2 == (OnesOf(x) + OnesOf(y)) % 2
    ensures (ChangedBits(x, y) + Ones(Xor(a, b, 8), 8)) % 2 == (OnesOf(x) + Ones(a, 8) + (OnesOf(y) + Ones(b, 8))) % 2
  {
    hide *;
    XorOnes(a, b, 8);
    SumsParity(ChangedBits(x, y), OnesOf(x), OnesOf(y), Ones(Xor(a, b, 8), 8), Ones(a, 8), Ones(b, 8));
  }

  lemma SumsParity(a: nat, b: nat, c: nat, d: nat, e: nat, f: nat)
    requires a % 2 == (b + c) % 2 && d % 2 == (e + f) % 2
    ensures (a + d) % 2 == (b + e + (c + f)) % 2
  {
  }

  lemma EvenSum(x: nat, y: nat)
    ensures x % 2 == y % 2 <==> (x + y) % 2 == 0
  {
  }

  /** Two messages of one length that differ in an odd number of bits have different remainders. */
  lemma OddChangeIsDetected(x: seq<Byte>, y: seq<Byte>)
    requires |x| == |y| && ChangedBits(x, y) % 2 == 1
    ensures Crc(x) != Crc(y)
  {
    ChangedParity(x, y);
    CrcParity(x);
    CrcParity(y);
    EvenSum(OnesOf(x), OnesOf(y));
    hide *;
  }

  // ---------- Linearity ----------

  function Bit(a: nat): nat { a % 2 }

  function Half(a: nat): nat { a / 2 }

  lemma XorDef(a: nat, b: nat, n: nat)
    requires n > 0
    ensures Xor(a, b, n) == Bit(a + b) + 2 * Xor(Half(a), Half(b), n - 1)
    ensures Half(Xor(a, b, n)) == Xor(Half(a), Half(b), n - 1) && Bit(Xor(a, b, n)) == Bit(a + b)
  {
  }

  lemma XorEmpty(a: nat, b: nat)
    ensures Xor(a, b, 0) == 0
  {
  }

  lemma BitSum(a: nat, b: nat, c: nat, d: nat)
    requires Bit(a) == Bit(c) && Bit(b) == Bit(d)
    ensures Bit(a + b) == Bit(c + d)
  {
  }

  lemma {:induction false} XorAssociates(a: nat, b: nat, c: nat, n: nat)
    ensures Xor(Xor(a, b, n), c, n) == Xor(a, Xor(b, c, n), n)
    decreases n
  {
    XorEmpty(Xor(a, b, n), c);
    XorEmpty(a, Xor(b, c, n));
    hide Xor, Bit, Half;
    if n > 0 {
      XorAssociates(Half(a), Half(b), Half(c), n - 1);
      XorDef(a, b, n);
      XorDef(b, c, n);
      XorDef(Xor(a, b, n), c, n);
      XorDef(a, Xor(b, c, n), n);
      BitSum(Xor(a, b, n), c, a + b, c);
      BitSum(a, Xor(b, c, n), a, b + c);
    }
  }

  lemma {:induction false} XorNothing(a: nat, n: nat)
    ensures Xor(a, a, n) == 0
    ensures a < Power(n) ==> Xor(a, 0, n) == a && Xor(0, a, n) == a
  {
    if n > 0 { XorNothing(a / 2, n - 1); }
  }

  lemma HalfTop(a: nat, n: nat)
    requires n > 0
    ensures Half(a + Power(n)) == Half(a) + Power(n - 1) && Bit(a + Power(n)) == Bit(a)
    ensures a < Power(n) ==> Half(a) < Power(n - 1)
    ensures Power(n) == 2 * Power(n - 1)
  {
  }

  lemma {:induction false} XorLow(a: nat, b: nat, n: nat)
    requires a < Power(n) && b < Power(n)
    ensures Xor(a, b, n + 1) == Xor(a, b, n)
  {
    if n > 0 {
      XorLow(a / 2, b / 2, n - 1);
    }
  }

  lemma XorOfOne()
    ensures Power(0) == 1 && Xor(0, 0, 0) == 0 && Xor(1, 0, 1) == 1 && Xor(1, 1, 1) == 0
  {
  }

  lemma {:induction false} XorTop(a: nat, b: nat, n: nat)
    requires a < Power(n) && b < Power(n)
    ensures Xor(a + Power(n), b, n + 1) == Xor(a, b, n) + Power(n)
    decreases n
  {
    XorOfOne();
    hide Xor, Power, Bit, Half;
    if n > 0 {
      HalfTop(a, n);
      HalfTop(b, n);
      XorTop(Half(a), Half(b), n - 1);
      XorDef(a + Power(n), b, n + 1);
      XorDef(a, b, n);
      BitSum(a + Power(n), b, a, b);
    }
  }

  lemma {:induction false} XorTops(a: nat, b: nat, n: nat)
    requires a < Power(n) && b < Power(n)
    ensures Xor(a + Power(n), b + Power(n), n + 1) == Xor(a, b, n)
    decreases n
  {
    XorOfOne();
    hide Xor, Power, Bit, Half;
    if n > 0 {
      HalfTop(a, n);
      HalfTop(b, n);
      XorTops(Half(a), Half(b), n - 1);
      XorDef(a + Power(n), b + Power(n), n + 1);
      XorDef(a, b, n);
      BitSum(a + Power(n), b + Power(n), a, b);
    }
  }

  lemma DoubleHalf(a: nat)
    ensures Half(2 * a) == a && Bit(2 * a) == 0
  {
  }

  lemma XorDouble(a: nat, b: nat, n: nat)
    requires n > 0
    ensures Xor(2 * a, 2 * b, n) == 2 * Xor(a, b, n - 1)
  {
    XorDef(2 * a, 2 * b, n);
    DoubleHalf(a);
    DoubleHalf(b);
    DoubleHalf(a + b);
    hide Xor, Bit, Half;
    assert 2 * a + 2 * b == 2 * (a + b);
  }

  /** A number of fifteen bits, shifted. */
  function Shifted(top: bool, low: nat): U16
    requires low < 0x8000
  {
    if top then Xor16(POLYNOMIAL, 2 * low) else 2 * low
  }

  lemma ShiftedSwap(p: U16, x: U16, y: U16)
    ensures Xor16(Xor16(p, x), y) == Xor16(p, Xor16(x, y))
    ensures Xor16(x, Xor16(p, y)) == Xor16(p, Xor16(x, y))
    ensures Xor16(Xor16(p, x), Xor16(p, y)) == Xor16(x, y)
  {
    XorAssociates(p, x, y, 16);
    XorAssociates(x, p, y, 16);
    XorAssociates(p, x, y, 16);
    XorIsSymmetric(x, p, 16);
    XorAssociates(Xor(x, p, 16), p, y, 16);
    XorAssociates(x, p, p, 16);
    XorNothing(p, 16);
    PowerOfSixteen();
    XorNothing(x, 16);
    hide Xor, Power;
  }

  lemma ShiftedLinear(s: bool, a: nat, t: bool, b: nat)
    requires a < 0x8000 && b < 0x8000
    ensures Xor(a, b, 15) < 0x8000
    ensures Xor16(Shifted(s, a), Shifted(t, b)) == Shifted(s != t, Xor(a, b, 15))
  {
    PowerOfFifteen();
    XorDouble(a, b, 16);
    ShiftedSwap(POLYNOMIAL, 2 * a, 2 * b);
    assert Xor16(2 * a, 2 * b) == 2 * Xor(a, b, 15);
    hide Xor, Xor16, Power;
  }

  /** The bits below the top one of an exclusive or, and the top one. */
  lemma XorBits(s: bool, a: nat, t: bool, b: nat, n: nat)
    requires a < Power(n) && b < Power(n)
    ensures Xor(if s then a + Power(n) else a, if t then b + Power(n) else b, n + 1)
         == if s != t then Xor(a, b, n) + Power(n) else Xor(a, b, n)
  {
    XorLow(a, b, n);
    XorTop(a, b, n);
    XorTop(b, a, n);
    XorIsSymmetric(a, b + Power(n), n + 1);
    XorIsSymmetric(a, b, n);
    XorTops(a, b, n);
    hide Xor, Power;
  }

  lemma TopBit(c: U16)
    ensures c == if c >= 0x8000 then c % 0x8000 + 0x8000 else c % 0x8000
  {
  }

  lemma ShiftIsShifted(c: U16, top: bool, low: nat)
    requires low < 0x8000 && c == if top then low + 0x8000 else low
    ensures Shift(c) == Shifted(top, low)
  {
    hide Xor16;
  }

  lemma ShiftLinear(c: U16, d: U16)
    ensures Shift(Xor16(c, d)) == Xor16(Shift(c), Shift(d))
  {
    var s, a, t, b := c >= 0x8000, c % 0x8000, d >= 0x8000, d % 0x8000;
    TopBit(c);
    TopBit(d);
    PowerOfFifteen();
    XorBits(s, a, t, b, 15);
    ShiftedLinear(s, a, t, b);
    assert Xor16(c, d) == if s != t then Xor(a, b, 15) + 0x8000 else Xor(a, b, 15);
    hide Xor, Xor16, Power;
    ShiftIsShifted(c, s, a);
    ShiftIsShifted(d, t, b);
    ShiftIsShifted(Xor16(c, d), s != t, Xor(a, b, 15));
    hide Shift, Shifted;
  }

  lemma {:induction false} ShiftsLinear(c: U16, d: U16, n: nat)
    ensures Shifts(Xor16(c, d), n) == Xor16(Shifts(c, n), Shifts(d, n))
  {
    if n > 0 {
      ShiftsLinear(c, d, n - 1);
      ShiftLinear(Shifts(c, n - 1), Shifts(d, n - 1));
    }
    hide Shift, Xor16;
  }

  // ---------- Bursts ----------

  lemma PowerSum(a: nat, b: nat)
    ensures Power(a + b) == Power(a) * Power(b)
    decreases a
  {
    if a > 0 {
      PowerSum(a - 1, b);
      assert 2 * (Power(a - 1) * Power(b)) == (2 * Power(a - 1)) * Power(b);
    }
  }

  /** Nothing falls out of the register while the bits still fit. */
  lemma {:induction false} ShiftsPlain(a: nat, k: nat)
    requires Power(k) * a < 0x1_0000
    ensures Power(k) >= 1 && a < 0x1_0000
    ensures Shifts(a, k) == Power(k) * a
  {
    if k > 0 {
      Twice(Power(k - 1), a);
      ShiftsPlain(a, k - 1);
      hide Power;
    }
  }

  lemma Twice(p: nat, a: nat)
    ensures 2 * p * a == 2 * (p * a)
  {
  }

  lemma {:induction false} ShiftsMore(c: U16, a: nat, b: nat)
    ensures Shifts(Shifts(c, a), b) == Shifts(c, a + b)
    decreases b
  {
    hide Shift;
    if b > 0 { ShiftsMore(c, a, b - 1); }
  }

  lemma ShiftsOfZero(n: nat)
    ensures Shifts(0, n) == 0
  {
    ShiftsPlain(0, n);
  }

  /** The remainder of a difference: nothing to begin with, and the same steps. */
  function Residue(d: seq<Byte>): U16 {
    if d == [] then 0 else Shifts(Added(Residue(d[..|d| - 1]), d[|d| - 1]), 8)
  }

  function Difference(x: seq<Byte>, y: seq<Byte>): (d: seq<Byte>)
    requires |x| == |y|
    ensures |d| == |x|
  {
    PowerOfEight();
    seq(|x|, i requires 0 <= i < |x| => Xor(x[i], y[i], 8) as Byte)
  }

  lemma {:induction false} XorMultiple(a: nat, b: nat, k: nat, n: nat)
    ensures Xor(Power(k) * a, Power(k) * b, n + k) == Power(k) * Xor(a, b, n)
    decreases k
  {
    hide Xor;
    if k > 0 {
      assert Power(k) * a == 2 * (Power(k - 1) * a) && Power(k) * b == 2 * (Power(k - 1) * b);
      XorDouble(Power(k - 1) * a, Power(k - 1) * b, n + k);
      XorMultiple(a, b, k - 1, n);
      assert Power(k) * Xor(a, b, n) == 2 * (Power(k - 1) * Xor(a, b, n));
    }
  }

  lemma XorFour(a: U16, b: U16, c: U16, d: U16)
    ensures Xor16(Xor16(a, b), Xor16(c, d)) == Xor16(Xor16(a, c), Xor16(b, d))
  {
    XorAssociates(a, b, Xor(c, d, 16), 16);
    XorAssociates(b, c, d, 16);
    XorIsSymmetric(b, c, 16);
    XorAssociates(c, b, d, 16);
    XorAssociates(a, c, Xor(b, d, 16), 16);
    hide Xor;
  }

  lemma AddedLinear(c: U16, d: U16, a: Byte, b: Byte, x: Byte)
    requires x == Xor(a, b, 8)
    ensures Xor16(Added(c, a), Added(d, b)) == Added(Xor16(c, d), x)
  {
    PowerOfEight();
    XorMultiple(a, b, 8, 8);
    XorFour(c, 0x100 * a, d, 0x100 * b);
    assert Xor16(0x100 * a, 0x100 * b) == 0x100 * x by { hide Xor; }
    hide Xor, Xor16, Power;
  }

  /** The remainders of two messages differ by the residue of their difference. */
  lemma {:induction false} ResidueOfDifference(x: seq<Byte>, y: seq<Byte>)
    requires |x| == |y|
    ensures Residue(Difference(x, y)) == Xor16(Crc(x), Crc(y))
  {
    if x == [] {
      XorNothing(0xFFFF, 16);
    } else {
      var n := |x| - 1;
      var p, q, d := x[..n], y[..n], Difference(x, y);
      ResidueOfDifference(p, q);
      assert d[..n] == Difference(p, q);
      AddedLinear(Crc(p), Crc(q), x[n], y[n], d[n]);
      ShiftsLinear(Added(Crc(p), x[n]), Added(Crc(q), y[n]), 8);
    }
    hide Xor16, Shifts, Added;
  }

  lemma MultipleBelow(p: nat, a: nat, b: nat)
    requires a < b && p > 0
    ensures p * a < p * b
  {
  }

  lemma MultipleAtMost(p: nat, a: nat, b: nat)
    requires a <= b
    ensures p * a <= p * b
  {
  }

  lemma MultipleSame(p: nat, a: nat, b: nat)
    requires p * a == p * b && p > 0
    ensures a == b
  {
    if a < b { MultipleBelow(p, a, b); }
    if b < a { MultipleBelow(p, b, a); }
  }

  lemma MultipleTooBig(p: nat, x: nat)
    requires p > 0 && p * x < p
    ensures x == 0
  {
    if x > 0 { MultipleAtMost(p, 1, x); }
  }

  /** The word in which a burst leaves its bits, `r` bits into the first byte. */
  lemma BurstWord(d0: Byte, d1: Byte, d2: Byte, r: nat, e: nat) returns (a: U16, b: U16, c: U16)
    requires r < 8 && d0 < Power(8 - r) && d2 == Power(8 - r) * e
    ensures a == Power(r) * (0x100 * d0) && b == Power(r) * d1 && c == e < Power(r)
    ensures Shifts(0x100 * d0, 8) == Shifts(a, 8 - r)
    ensures 0x100 * d1 == Shifts(b, 8 - r)
    ensures 0x100 * d2 == Shifts(c, 16 - r)
  {
    var q := 8 - r;
    PowerOfEight();
    PowerOfSixteen();
    hide *;
    PowerSum(q, r);
    PowerSum(q, 8);
    BurstFits(Power(r), Power(q), d0, d1, d2, e);
    ShiftsPlain(0x100 * d0, r);
    a, b, c := Power(r) * (0x100 * d0), Power(r) * d1, e;
    ShiftsMore(0x100 * d0, r, q);
    ShiftsPlain(b, q);
    ShiftsPlain(e, 8 + q);
  }

  lemma Regroup(x: nat, y: nat, z: nat)
    ensures x * (y * z) == (x * y) * z == y * (x * z)
  {
  }

  lemma BurstFits(pr: nat, pq: nat, d0: Byte, d1: Byte, d2: Byte, e: nat)
    requires pq * pr == 0x100 && d0 < pq && d2 == pq * e
    ensures e < pr && pr <= 0x100
    ensures pr * (0x100 * d0) < 0x1_0000 && pr * d1 < 0x1_0000
    ensures pq * (pr * d1) == 0x100 * d1 && (pq * 0x100) * e == 0x100 * d2 < 0x1_0000
  {
    if e >= pr { MultipleAtMost(pq, pr, e); }
    Regroup(pr, 0x100, d0);
    Regroup(pq, pr, d1);
    Regroup(0x100, pq, e);
    MultipleBelow(pr, d0, pq);
    MultipleAtMost(pr, 1, pq);
    MultipleAtMost(d1, pr, 0x100);
  }

  lemma Xor16Zero(a: U16, b: U16)
    ensures Xor16(a, b) == 0 <==> a == b
  {
    XorNothing(b, 16);
    XorIsSymmetric(a, b, 16);
    if Xor16(a, b) == 0 { Xor16IsInjective(b, a, b); }
    hide Xor;
  }

  /** No word but zero leaves the same bits twice. */
  lemma BurstWordIsZero(d0: Byte, d1: Byte, r: nat, e: nat, a: U16, b: U16)
    requires r < 8 && a == Power(r) * (0x100 * d0) && b == Power(r) * d1 && e < Power(r)
    requires Xor16(a, b) == e
    ensures d0 == 0 && d1 == 0 && e == 0
  {
    XorMultiple(0x100 * d0, d1, r, 16 - r);
    hide Power, Xor;
    MultipleTooBig(Power(r), Xor(0x100 * d0, d1, 16 - r));
    Xor16Zero(a, b);
    hide Xor16;
    MultipleSame(Power(r), 0x100 * d0, d1);
  }

  /** Three bytes that differ within sixteen bits leave a residue. */
  lemma BurstResidue(d0: Byte, d1: Byte, d2: Byte, r: nat, e: nat)
    requires r < 8 && d0 < Power(8 - r) && d2 == Power(8 - r) * e
    requires var first := Shifts(Added(0, d0), 8);
             Shifts(Added(Shifts(Added(first, d1), 8), d2), 8) == 0
    ensures d0 == 0 && d1 == 0 && d2 == 0
  {
    var q := 8 - r;
    var a, b, c := BurstWord(d0, d1, d2, r, e);
    PowerOfSixteen();
    XorNothing(0x100 * d0, 16);
    hide Power, Shifts, Xor;
    assert Added(0, d0) == 0x100 * d0;
    ShiftsLinear(a, b, q);
    var ab := Xor16(a, b);
    ShiftsMore(ab, q, 8);
    ShiftsLinear(ab, c, q + 8);
    var w := Xor16(ab, c);
    ShiftsMore(w, q + 8, 8);
    ShiftsOfZero(q + 16);
    ShiftsAreInjective(w, 0, q + 16);
    Xor16Zero(ab, c);
    BurstWordIsZero(d0, d1, r, e, a, b);
  }

  // ---------- Bits of a message ----------

  /** Bit `m` of a number, from the lowest. */
  function BitAt(a: nat, m: nat): nat {
    if m == 0 then a % 2 else BitAt(a / 2, m - 1)
  }

  lemma {:induction false} SameBitsXor(a: nat, b: nat, n: nat, m: nat)
    requires m < n && BitAt(a, m) == BitAt(b, m)
    ensures BitAt(Xor(a, b, n), m) == 0
    decreases n
  {
    XorDef(a, b, n);
    hide Xor;
    if m == 0 {
      EvenSum(a, b);
    } else {
      SameBitsXor(Half(a), Half(b), n - 1, m - 1);
    }
  }

  /** A number without bits from `q` on. */
  lemma {:induction false} NoHighBits(a: nat, n: nat, q: nat)
    requires a < Power(n) && q <= n && forall m :: q <= m < n ==> BitAt(a, m) == 0
    ensures a < Power(q)
    decreases n
  {
    if q < n {
      HalfIsBelow(a, n);
      forall m | (if q == 0 then 0 else q - 1) <= m < n - 1
        ensures BitAt(a / 2, m) == 0
      {
        assert BitAt(a, m + 1) == 0;
      }
      NoHighBits(a / 2, n - 1, if q == 0 then 0 else q - 1);
      if q == 0 { assert BitAt(a, 0) == 0; }
    }
  }

  lemma NoRemainder(p: nat, e: nat, f: nat, m: nat)
    requires p * e == p * f + m && m < p
    ensures m == 0
  {
    if e > f {
      MultipleAtMost(p, f + 1, e);
      Distribute(p, f);
    } else {
      MultipleAtMost(p, e, f);
    }
  }

  lemma Distribute(p: nat, f: nat)
    ensures p * (f + 1) == p * f + p
  {
  }

  lemma MultipleDivides(p: nat, e: nat, a: nat)
    requires p > 0 && a == p * e
    ensures a % p == 0
  {
    NoRemainder(p, e, a / p, a % p);
  }

  /** A number without bits below `q`. */
  lemma {:induction false} NoLowBits(a: nat, q: nat) returns (e: nat)
    requires forall m :: 0 <= m < q ==> BitAt(a, m) == 0
    ensures a == Power(q) * e
    decreases q
  {
    if q == 0 {
      e := a;
    } else {
      forall m | 0 <= m < q - 1
        ensures BitAt(a / 2, m) == 0
      {
        assert BitAt(a, m + 1) == 0;
      }
      e := NoLowBits(a / 2, q - 1);
      assert BitAt(a, 0) == 0;
      assert a == 2 * (Power(q - 1) * e);
    }
  }

  /** Bit `j` of a message, the highest bit of each byte first. */
  function BitOf(data: seq<Byte>, j: nat): nat
    requires j < 8 * |data|
  {
    BitAt(data[j / 8], 7 - j % 8)
  }

  /** The messages differ only within the sixteen bits from `k` on. */
  ghost predicate IsBurst(x: seq<Byte>, y: seq<Byte>, k: nat) {
    |x| == |y| && forall j :: 0 <= j < 8 * |x| && BitOf(x, j) != BitOf(y, j) ==> k <= j < k + 16
  }

  lemma SameBit(x: seq<Byte>, y: seq<Byte>, k: nat, i: nat, m: nat)
    requires IsBurst(x, y, k) && i < |x| && m < 8 && !(k <= 8 * i + 7 - m < k + 16)
    ensures BitAt(Difference(x, y)[i], m) == 0
  {
    var j := 8 * i + 7 - m;
    assert j / 8 == i && 7 - j % 8 == m;
    assert BitOf(x, j) == BitOf(y, j);
    SameBitsXor(x[i], y[i], 8, m);
  }

  /** What a burst leaves of each byte of the difference. */
  lemma BurstBytes(x: seq<Byte>, y: seq<Byte>, k: nat, i: nat)
    requires IsBurst(x, y, k) && i < |x|
    ensures var d, first, r := Difference(x, y)[i], k / 8, k % 8;
            && (i < first || i > first + 2 ==> d == 0)
            && (i == first ==> d < Power(8 - r))
            && (i == first + 2 ==> d % Power(8 - r) == 0)
  {
    var d, first, r := Difference(x, y)[i], k / 8, k % 8;
    PowerOfEight();
    hide IsBurst, Difference;
    if i < first || i > first + 2 {
      forall m | 0 <= m < 8 ensures BitAt(d, m) == 0 { SameBit(x, y, k, i, m); }
      NoHighBits(d, 8, 0);
    } else if i == first {
      forall m | 8 - r <= m < 8 ensures BitAt(d, m) == 0 { SameBit(x, y, k, i, m); }
      NoHighBits(d, 8, 8 - r);
    } else if i == first + 2 {
      forall m | 0 <= m < 8 - r ensures BitAt(d, m) == 0 { SameBit(x, y, k, i, m); }
      var e := NoLowBits(d, 8 - r);
      MultipleDivides(Power(8 - r), e, d);
    }
  }

  lemma AddedZero(c: U16)
    ensures Added(c, 0) == c
  {
    PowerOfSixteen();
    XorNothing(c, 16);
    hide Xor, Power;
  }

  lemma ResidueMore(d: seq<Byte>, b: Byte)
    ensures Residue(d + [b]) == Shifts(Added(Residue(d), b), 8)
  {
    assert (d + [b])[..|d|] == d;
  }

  /** Zeros do not make a residue, nor undo one. */
  lemma ResidueZero(d: seq<Byte>)
    ensures Residue(d + [0]) == 0 <==> Residue(d) == 0
  {
    ResidueMore(d, 0);
    AddedZero(Residue(d));
    ShiftsOfZero(8);
    hide Residue, Shifts, Added;
    if Residue(d + [0]) == 0 { ShiftsAreInjective(Residue(d), 0, 8); }
  }

  lemma {:induction false} ResidueZeros(d: seq<Byte>, m: nat)
    requires m <= |d| && forall i :: m <= i < |d| ==> d[i] == 0
    ensures Residue(d) == 0 <==> Residue(d[..m]) == 0
  {
    hide Residue;
    if m == |d| {
      assert d[..m] == d;
    } else {
      var p := d[..|d| - 1];
      ResidueZeros(p, m);
      ResidueZero(p);
      assert p + [0] == d && p[..m] == d[..m];
    }
  }

  /** The residue over three more bytes. */
  lemma ResidueThree(d: seq<Byte>, i: nat)
    requires i + 2 < |d| && Residue(d[..i]) == 0
    ensures Residue(d[..i + 3]) == Shifts(Added(Shifts(Added(Shifts(Added(0, d[i]), 8), d[i + 1]), 8), d[i + 2]), 8)
  {
    hide *;
    assert d[..i] + [d[i]] == d[..i + 1] && d[..i + 1] + [d[i + 1]] == d[..i + 2];
    assert d[..i + 2] + [d[i + 2]] == d[..i + 3];
    ResidueMore(d[..i], d[i]);
    ResidueMore(d[..i + 1], d[i + 1]);
    ResidueMore(d[..i + 2], d[i + 2]);
  }

  lemma ResidueEmpty(d: seq<Byte>)
    ensures Residue(d[..0]) == 0
  {
    assert d[..0] == [];
  }

  /** The difference within three bytes at `i`, and nowhere else, has a residue unless it is zero. */
  lemma WindowResidue(d: seq<Byte>, i: nat, r: nat)
    requires i + 2 < |d| && r < 8 && d[i] < Power(8 - r) && d[i + 2] % Power(8 - r) == 0
    requires forall j :: 0 <= j < |d| && (j < i || j > i + 2) ==> d[j] == 0
    requires Residue(d) == 0
    ensures forall j :: 0 <= j < |d| ==> d[j] == 0
  {
    hide *;
    ResidueZeros(d, i + 3);
    ResidueEmpty(d[..i]);
    ResidueZeros(d[..i], 0);
    ResidueThree(d, i);
    BurstResidue(d[i], d[i + 1], d[i + 2], r, d[i + 2] / Power(8 - r));
  }

  lemma NoDifference(x: seq<Byte>, y: seq<Byte>)
    requires |x| == |y| && forall i :: 0 <= i < |x| ==> Difference(x, y)[i] == 0
    ensures x == y
  {
    forall i | 0 <= i < |x|
      ensures x[i] == y[i]
    {
      PowerOfEight();
      XorNothing(x[i], 8);
      assert Difference(x, y)[i] == Xor(x[i], y[i], 8);
      XorIsInjective(x[i], y[i], x[i], 8);
    }
  }

  lemma PaddedResidue(d: seq<Byte>)
    ensures Residue(d + [0, 0]) == 0 <==> Residue(d) == 0
  {
    hide *;
    assert d + [0, 0] == d + [0] + [0];
    ResidueZero(d);
    ResidueZero(d + [0]);
  }

  lemma BurstDifference(x: seq<Byte>, y: seq<Byte>, k: nat)
    requires IsBurst(x, y, k) && Residue(Difference(x, y)) == 0
    ensures forall j :: 0 <= j < |x| ==> Difference(x, y)[j] == 0
  {
    var d, i, r := Difference(x, y), k / 8, k % 8;
    hide Residue, Difference, Power, IsBurst;
    forall j | 0 <= j < |d|
      ensures (j < i || j > i + 2 ==> d[j] == 0) && (j == i ==> d[j] < Power(8 - r))
      ensures j == i + 2 ==> d[j] % Power(8 - r) == 0
    {
      BurstBytes(x, y, k, j);
    }
    if i < |d| {
      var padded := d + [0, 0];
      PaddedResidue(d);
      NothingDivides(Power(8 - r));
      WindowResidue(padded, i, r);
      assert forall j :: 0 <= j < |d| ==> d[j] == padded[j];
    }
  }

  lemma NothingDivides(p: nat)
    requires p > 0
    ensures 0 % p == 0
  {
  }

  /** Two messages that differ only within sixteen consecutive bits have different remainders. */
  lemma BurstIsDetected(x: seq<Byte>, y: seq<Byte>, k: nat)
    requires IsBurst(x, y, k) && x != y
    ensures Crc(x) != Crc(y)
  {
    if Crc(x) == Crc(y) {
      ResidueOfDifference(x, y);
      Xor16Zero(Crc(x), Crc(y));
      hide Crc, Residue, Difference;
      BurstDifference(x, y, k);
      NoDifference(x, y);
    }
  }
}
