/**
 The check values published for the two checksums, which fix their polynomials, their
 initial values and their order of bits. They are computed on machine words.
 */
module CheckValues {
  import opened Bytes
  import opened Crc16
  import opened Crc32
  import opened Crc32Bits
  import opened CrcBits

  // ---------- Machine words ----------

  /** The lowest bit of a machine word. */
  function LowOf(c: bv32): nat {
    if c & 1 == 1 then 1 else 0
  }

  function Down(c: bv32): bv32 { c >> 1 }

  function Xored(a: bv32, b: bv32): bv32 { a ^ b }

  /** The number that `n` low bits of a machine word stand for. */
  function Value(c: bv32, n: nat): nat {
    if n == 0 then 0 else LowOf(c) + 2 * Value(Down(c), n - 1)
  }

  lemma XoredParts(a: bv32, b: bv32)
    ensures Down(Xored(a, b)) == Xored(Down(a), Down(b))
    ensures LowOf(Xored(a, b)) == Bit(LowOf(a) + LowOf(b))
  {
  }

  lemma ValueParts(c: bv32, n: nat)
    requires n > 0
    ensures Value(c, n) == LowOf(c) + 2 * Value(Down(c), n - 1)
    ensures Half(Value(c, n)) == Value(Down(c), n - 1) && Bit(Value(c, n)) == LowOf(c) < 2
  {
    hide Down;
  }

  lemma BitOfBit(a: nat, b: nat)
    ensures Bit(Bit(a) + Bit(b)) == Bit(a + b)
  {
  }

  lemma NoBits(a: bv32, b: bv32)
    ensures Xor(Value(a, 0), Value(b, 0), 0) == 0 == Value(Xored(a, b), 0)
  {
  }

  lemma {:induction false} XorValue(a: bv32, b: bv32, n: nat)
    ensures Xor(Value(a, n), Value(b, n), n) == Value(Xored(a, b), n)
    decreases n
  {
    hide LowOf, Down, Xored, Bit, Half, Xor, Value;
    if n == 0 {
      NoBits(a, b);
    } else {
      XoredParts(a, b);
      ValueParts(a, n);
      ValueParts(b, n);
      ValueParts(Xored(a, b), n);
      XorValue(Down(a), Down(b), n - 1);
      XorDef(Value(a, n), Value(b, n), n);
      BitOfBit(Value(a, n), Value(b, n));
    }
  }

  /** The value of the lowest eight bits. */
  function OctetOf(c: bv32): nat {
    LowOf(c) + 2 * LowOf(c >> 1) + 4 * LowOf(c >> 2) + 8 * LowOf(c >> 3)
    + 0x10 * LowOf(c >> 4) + 0x20 * LowOf(c >> 5) + 0x40 * LowOf(c >> 6) + 0x80 * LowOf(c >> 7)
  }

  lemma Downs(c: bv32)
    ensures Down(c) == c >> 1 && Down(c >> 1) == c >> 2 && Down(c >> 2) == c >> 3 && Down(c >> 3) == c >> 4
    ensures Down(c >> 4) == c >> 5 && Down(c >> 5) == c >> 6 && Down(c >> 6) == c >> 7 && Down(c >> 7) == c >> 8
  {
  }

  lemma ValueOctet(c: bv32, n: nat)
    ensures Value(c, n + 8) == OctetOf(c) + 0x100 * Value(c >> 8, n)
  {
    hide Value, LowOf, Down;
    Downs(c);
    ValueParts(c, n + 8);
    ValueParts(c >> 1, n + 7);
    ValueParts(c >> 2, n + 6);
    ValueParts(c >> 3, n + 5);
    ValueParts(c >> 4, n + 4);
    ValueParts(c >> 5, n + 3);
    ValueParts(c >> 6, n + 2);
    ValueParts(c >> 7, n + 1);
  }

  /** Nothing is left after `n` shifts. */
  predicate IsGone(c: bv32, n: nat) {
    if n == 0 then c == 0 else IsGone(Down(c), n - 1)
  }

  lemma GoneOnce(c: bv32, n: nat)
    requires n > 0
    ensures IsGone(c, n) == IsGone(Down(c), n - 1)
  {
  }

  lemma GoneOctet(c: bv32, n: nat)
    ensures IsGone(c, n + 8) == IsGone(c >> 8, n)
  {
    hide IsGone, Down;
    Downs(c);
    GoneOnce(c, n + 8);
    GoneOnce(c >> 1, n + 7);
    GoneOnce(c >> 2, n + 6);
    GoneOnce(c >> 3, n + 5);
    GoneOnce(c >> 4, n + 4);
    GoneOnce(c >> 5, n + 3);
    GoneOnce(c >> 6, n + 2);
    GoneOnce(c >> 7, n + 1);
  }

  lemma GoneAtLast(c: bv32)
    ensures IsGone(c, 32)
  {
    hide *;
    var c1, c2, c3 := FourOctets(c);
    GoneOctet(c, 24);
    GoneOctet(c1, 16);
    GoneOctet(c2, 8);
    GoneOctet(c3, 0);
    NothingIsGone();
  }

  lemma FourOctets(c: bv32) returns (c1: bv32, c2: bv32, c3: bv32)
    ensures c1 == c >> 8 && c2 == c1 >> 8 && c3 == c2 >> 8 && c3 >> 8 == 0
  {
    c1 := c >> 8;
    c2 := c1 >> 8;
    c3 := c2 >> 8;
  }

  lemma NothingIsGone()
    ensures IsGone(0, 0)
  {
  }

  lemma {:induction false} ValueOfGone(c: bv32, n: nat)
    requires IsGone(c, n)
    ensures Value(c, n + 1) == Value(c, n)
    decreases n
  {
    if n > 0 {
      GoneOnce(c, n);
      ValueOfGone(Down(c), n - 1);
    }
    hide Down;
  }

  lemma {:induction false} ValueFits(c: bv32, n: nat)
    ensures Value(c, n) < Power(n)
    decreases n
  {
    hide Down;
    if n > 0 { ValueFits(Down(c), n - 1); }
  }

  /** The register that a machine word stands for. */
  function WordOf(c: bv32): U32 {
    ValueFits(c, 32);
    PowerOfThirtyOne();
    Value(c, 32)
  }

  /** One step of the register, on a machine word. */
  function StepOf(c: bv32): bv32 {
    if c & 1 == 1 then (c >> 1) ^ 0xEDB8_8320 else c >> 1
  }

  lemma NoValue()
    ensures Value(0, 0) == 0
  {
  }

  lemma PolynomialIs()
    ensures WordOf(0xEDB8_8320) == POLYNOMIAL_32
  {
    hide Value, OctetOf;
    ValueOctet(0xEDB8_8320, 24);
    ValueOctet(0xED_B883, 16);
    ValueOctet(0xEDB8, 8);
    ValueOctet(0xED, 0);
    PolynomialOctets();
    NoValue();
  }

  lemma PolynomialOctets()
    ensures OctetOf(0xEDB8_8320) == 0x20 && OctetOf(0xED_B883) == 0x83
    ensures OctetOf(0xEDB8) == 0xB8 && OctetOf(0xED) == 0xED
  {
  }

  lemma AllOnesIs()
    ensures WordOf(0xFFFF_FFFF) == ALL_ONES
  {
    hide Value, OctetOf;
    ValueOctet(0xFFFF_FFFF, 24);
    ValueOctet(0xFF_FFFF, 16);
    ValueOctet(0xFFFF, 8);
    ValueOctet(0xFF, 0);
    OnesOctets();
    NoValue();
  }

  lemma OnesOctets()
    ensures OctetOf(0xFFFF_FFFF) == 0xFF && OctetOf(0xFF_FFFF) == 0xFF
    ensures OctetOf(0xFFFF) == 0xFF && OctetOf(0xFF) == 0xFF
  {
  }

  lemma WordDown(c: bv32)
    ensures WordOf(Down(c)) == WordOf(c) / 2 && WordOf(c) % 2 == LowOf(c)
  {
    hide Down, LowOf;
    ValueParts(c, 32);
    GoneAtLast(c);
    GoneOnce(c, 32);
    ValueOfGone(Down(c), 31);
  }

  lemma WordXored(a: bv32, b: bv32)
    ensures WordOf(Xored(a, b)) == Xor32(WordOf(a), WordOf(b))
  {
    XorValue(a, b, 32);
    hide Xor, Value, Xored;
  }

  lemma StepParts(c: bv32)
    ensures StepOf(c) == if LowOf(c) == 1 then Xored(Down(c), 0xEDB8_8320) else Down(c)
  {
  }

  lemma StepOfWord(c: bv32)
    ensures Step(WordOf(c)) == WordOf(StepOf(c))
  {
    StepParts(c);
    hide WordOf, Xored, Down, LowOf, Xor32, StepOf;
    WordDown(c);
    PolynomialIs();
    WordXored(Down(c), 0xEDB8_8320);
  }

  function StepsOf(c: bv32, n: nat): bv32 {
    if n == 0 then c else StepOf(StepsOf(c, n - 1))
  }

  lemma {:induction false} StepsOfWord(c: bv32, n: nat)
    ensures Steps(WordOf(c), n) == WordOf(StepsOf(c, n))
    decreases n
  {
    hide Step, StepOf, WordOf;
    if n > 0 {
      StepsOfWord(c, n - 1);
      StepOfWord(StepsOf(c, n - 1));
    }
  }

  function EightOf(c: bv32): bv32 {
    StepOf(StepOf(StepOf(StepOf(StepOf(StepOf(StepOf(StepOf(c))))))))
  }

  lemma TwoMore(c: bv32, n: nat)
    ensures StepsOf(c, n + 2) == StepOf(StepOf(StepsOf(c, n)))
  {
    hide StepOf;
    assert StepsOf(c, n + 1) == StepOf(StepsOf(c, n));
  }

  lemma EightIs(c: bv32)
    ensures StepsOf(c, 8) == EightOf(c)
  {
    TwoMore(c, 0);
    TwoMore(c, 2);
    TwoMore(c, 4);
    TwoMore(c, 6);
    hide StepOf;
    assert StepsOf(c, 0) == c;
  }

  /** The word after one more byte, which is itself one. */
  lemma ByteOfWord(p: seq<Byte>, b: Byte, w: bv32, c: bv32)
    requires Register(p) == WordOf(w) && b == WordOf(c)
    ensures Register(p + [b]) == WordOf(EightOf(Xored(w, c)))
  {
    var d := p + [b];
    assert d[..|d| - 1] == p && d[|d| - 1] == b;
    assert Register(p + [b]) == Steps(Xor32(Register(p), b), 8);
    hide *;
    WordXored(w, c);
    StepsOfWord(Xored(w, c), 8);
    EightIs(Xored(w, c));
  }

  lemma DigitIs(c: bv32)
    requires c >> 8 == 0
    ensures WordOf(c) == OctetOf(c)
  {
    hide Value, OctetOf;
    ValueOctet(c, 24);
    ValueOctet(0, 16);
    ValueOctet(0, 8);
    ValueOctet(0, 0);
    ZeroOctet();
    NoValue();
  }

  lemma ZeroOctet()
    ensures OctetOf(0) == 0
  {
  }

  lemma DigitWords()
    ensures EightOf(Xored(0xFFFF_FFFF, 0x31)) == 0x7C23_1048
    ensures EightOf(Xored(0x7C23_1048, 0x32)) == 0xB0AC_BB32
    ensures EightOf(Xored(0xB0AC_BB32, 0x33)) == 0x77B7_9C2D
    ensures EightOf(Xored(0x77B7_9C2D, 0x34)) == 0x641C_1F5C
    ensures EightOf(Xored(0x641C_1F5C, 0x35)) == 0x340A_C5E3
    ensures EightOf(Xored(0x340A_C5E3, 0x36)) == 0xF68D_2C9E
    ensures EightOf(Xored(0xF68D_2C9E, 0x37)) == 0xAFFC_9660
    ensures EightOf(Xored(0xAFFC_9660, 0x38)) == 0x651F_2550
    ensures EightOf(Xored(0x651F_2550, 0x39)) == 0x340B_C6D9
  {
  }

  lemma DigitOctets()
    ensures OctetOf(0x31) == 0x31
    ensures OctetOf(0x32) == 0x32
    ensures OctetOf(0x33) == 0x33
    ensures OctetOf(0x34) == 0x34
    ensures OctetOf(0x35) == 0x35
    ensures OctetOf(0x36) == 0x36
    ensures OctetOf(0x37) == 0x37
    ensures OctetOf(0x38) == 0x38
    ensures OctetOf(0x39) == 0x39
  {
  }

  /** The register after one more digit, through the words given. */
  lemma NextDigit(m: seq<Byte>, i: nat, w: bv32, c: bv32, next: bv32)
    requires i < |m| && Register(m[..i]) == WordOf(w)
    requires c >> 8 == 0 && OctetOf(c) == m[i] && EightOf(Xored(w, c)) == next
    ensures Register(m[..i + 1]) == WordOf(next)
  {
    hide *;
    DigitIs(c);
    ByteOfWord(m[..i], m[i], w, c);
    assert m[..i] + [m[i]] == m[..i + 1];
  }

  lemma NineDigits(m: seq<Byte>)
    requires |m| == 9 && forall i :: 0 <= i < 9 ==> m[i] == 0x31 + i
    ensures Register(m) == WordOf(0x340B_C6D9)
  {
    NoMessage(m);
    hide *;
    DigitWords();
    DigitOctets();
    NextDigit(m, 0, 0xFFFF_FFFF, 0x31, 0x7C23_1048);
    NextDigit(m, 1, 0x7C23_1048, 0x32, 0xB0AC_BB32);
    NextDigit(m, 2, 0xB0AC_BB32, 0x33, 0x77B7_9C2D);
    NextDigit(m, 3, 0x77B7_9C2D, 0x34, 0x641C_1F5C);
    NextDigit(m, 4, 0x641C_1F5C, 0x35, 0x340A_C5E3);
    NextDigit(m, 5, 0x340A_C5E3, 0x36, 0xF68D_2C9E);
    NextDigit(m, 6, 0xF68D_2C9E, 0x37, 0xAFFC_9660);
    NextDigit(m, 7, 0xAFFC_9660, 0x38, 0x651F_2550);
    NextDigit(m, 8, 0x651F_2550, 0x39, 0x340B_C6D9);
    assert m[..9] == m;
  }

  /** The published check value: the checksum of the digits from one to nine, in ASCII. */
  lemma CheckValue()
    ensures Checksum([0x31, 0x32, 0x33, 0x34, 0x35, 0x36, 0x37, 0x38, 0x39]) == 0xCBF4_3926
  {
    hide *;
    var m: seq<Byte> := [0x31, 0x32, 0x33, 0x34, 0x35, 0x36, 0x37, 0x38, 0x39];
    NineDigits(m);
    CheckIs(m);
  }

  lemma NoMessage(m: seq<Byte>)
    ensures Register(m[..0]) == WordOf(0xFFFF_FFFF)
  {
    AllOnesIs();
    assert m[..0] == [];
    hide WordOf;
  }

  lemma CheckIs(m: seq<Byte>)
    requires Register(m) == WordOf(0x340B_C6D9)
    ensures Checksum(m) == 0xCBF4_3926
  {
    hide Register, WordOf, Xor32;
    AllOnesIs();
    WordXored(0x340B_C6D9, 0xFFFF_FFFF);
    CheckWord();
  }

  lemma CheckWord()
    ensures Xored(0x340B_C6D9, 0xFFFF_FFFF) == 0xCBF4_3926 && WordOf(0xCBF4_3926) == 0xCBF4_3926
  {
    hide Value, OctetOf;
    ValueOctet(0xCBF4_3926, 24);
    ValueOctet(0xCB_F439, 16);
    ValueOctet(0xCBF4, 8);
    ValueOctet(0xCB, 0);
    CheckOctets();
    NoValue();
  }

  lemma CheckOctets()
    ensures OctetOf(0xCBF4_3926) == 0x26 && OctetOf(0xCB_F439) == 0x39
    ensures OctetOf(0xCBF4) == 0xF4 && OctetOf(0xCB) == 0xCB
  {
  }

  // ---------- CRC-16 ----------

  function Up(c: bv32): bv32 { c << 1 }

  /** One step of the sixteen-bit register, on a machine word. */
  function Step16(c: bv32): bv32 {
    if c & 0x8000 == 0x8000 then ((c ^ 0x8000) << 1) ^ 0x1021 else c << 1
  }

  predicate Is16(c: bv32) { c >> 16 == 0 }

  predicate Is15(c: bv32) { c >> 15 == 0 }

  function Word16(c: bv32): U16 {
    ValueFits(c, 16);
    PowerOfSixteen();
    Value(c, 16)
  }

  lemma StaysIn16(c: bv32)
    requires Is16(c)
    ensures Is16(Step16(c))
  {
  }

  lemma StepOf15(c: bv32)
    requires Is15(c)
    ensures Step16(c) == Up(c)
  {
  }

  lemma StepOf16(c: bv32)
    requires Is16(c) && !Is15(c)
    ensures Step16(c) == Xored(0x1021, Up(Xored(c, 0x8000)))
    ensures Is15(Xored(c, 0x8000)) && c == Xored(0x8000, Xored(c, 0x8000))
  {
  }

  lemma UpParts(c: bv32)
    requires Is15(c)
    ensures Down(Up(c)) == c && LowOf(Up(c)) == 0
    ensures c >> 8 >> 7 == 0
  {
  }

  lemma GoneIn15(c: bv32)
    requires Is15(c)
    ensures IsGone(c, 15)
  {
    UpParts(c);
    hide *;
    var d := c >> 8;
    Downs(d);
    GoneOctet(c, 7);
    GoneOnce(d, 7);
    GoneOnce(d >> 1, 6);
    GoneOnce(d >> 2, 5);
    GoneOnce(d >> 3, 4);
    GoneOnce(d >> 4, 3);
    GoneOnce(d >> 5, 2);
    GoneOnce(d >> 6, 1);
    NothingIsGone();
  }

  /** Fifteen bits, shifted. */
  lemma ValueUp(c: bv32)
    requires Is15(c)
    ensures Value(Up(c), 16) == 2 * Value(c, 16) && Value(c, 16) < 0x8000
  {
    UpParts(c);
    GoneIn15(c);
    hide Up, Down, LowOf, Is15;
    ValueParts(Up(c), 16);
    ValueOfGone(c, 15);
    ValueFits(c, 15);
    PowerOfFifteen();
  }

  lemma Words16()
    ensures Word16(0x8000) == 0x8000 && Word16(0x1021) == POLYNOMIAL && Word16(0xFFFF) == 0xFFFF
    ensures Word16(0x29B1) == 0x29B1
  {
    hide Value, OctetOf;
    Halves16(0x8000, 0x80);
    Halves16(0x1021, 0x10);
    Halves16(0xFFFF, 0xFF);
    Halves16(0x29B1, 0x29);
    Octets16();
  }

  lemma Octets16()
    ensures OctetOf(0x8000) == 0 && OctetOf(0x80) == 0x80 && OctetOf(0x1021) == 0x21 && OctetOf(0x10) == 0x10
    ensures OctetOf(0xFFFF) == 0xFF && OctetOf(0xFF) == 0xFF && OctetOf(0x29B1) == 0xB1 && OctetOf(0x29) == 0x29
  {
  }

  lemma Halves16(c: bv32, high: bv32)
    requires high == c >> 8 && high >> 8 == 0
    ensures Word16(c) == OctetOf(c) + 0x100 * OctetOf(high)
  {
    hide Value, OctetOf;
    ValueOctet(c, 8);
    ValueOctet(high, 0);
    NoValue();
  }

  lemma XorWord16(a: bv32, b: bv32)
    ensures Word16(Xored(a, b)) == Xor16(Word16(a), Word16(b))
  {
    XorValue(a, b, 16);
    hide Xor, Value, Xored;
  }

  lemma TopOf16(c: bv32)
    requires Is16(c) && !Is15(c)
    ensures Word16(c) == 0x8000 + Word16(Xored(c, 0x8000)) && Word16(Xored(c, 0x8000)) < 0x8000
  {
    hide *;
    var d := Xored(c, 0x8000);
    StepOf16(c);
    ValueUp16(d);
    Words16();
    XorWord16(0x8000, d);
    TopAdds(Word16(d));
  }

  lemma TopAdds(x: nat)
    requires x < 0x8000
    ensures Xor16(0x8000, x) == 0x8000 + x
  {
    PowerOfFifteen();
    XorTop(0, x, 15);
    XorNothing(x, 15);
    hide Xor, Power;
  }

  lemma ValueUp16(c: bv32)
    requires Is15(c)
    ensures Word16(Up(c)) == 2 * Word16(c) && Word16(c) < 0x8000
  {
    ValueUp(c);
    hide Value, Up;
  }

  lemma ShiftLow(c: bv32)
    requires Is15(c)
    ensures Shift(Word16(c)) == Word16(Step16(c))
  {
    StepOf15(c);
    hide Word16, Step16, Up, Is15, Xor16;
    ValueUp16(c);
  }

  lemma ShiftOfTop(y: nat)
    requires y < 0x8000
    ensures Shift(0x8000 + y) == Xor16(POLYNOMIAL, 2 * y)
  {
    hide Xor16;
  }

  lemma ShiftHigh(c: bv32)
    requires Is16(c) && !Is15(c)
    ensures Shift(Word16(c)) == Word16(Step16(c))
  {
    hide *;
    var d := Xored(c, 0x8000);
    StepOf16(c);
    TopOf16(c);
    ValueUp16(d);
    ShiftOfTop(Word16(d));
    Words16();
    XorWord16(0x1021, Up(d));
  }

  lemma ShiftOfWord(c: bv32)
    requires Is16(c)
    ensures Shift(Word16(c)) == Word16(Step16(c)) && Is16(Step16(c))
  {
    hide *;
    StaysIn16(c);
    if Is15(c) { ShiftLow(c); } else { ShiftHigh(c); }
  }

  function Steps16(c: bv32, n: nat): bv32 {
    if n == 0 then c else Step16(Steps16(c, n - 1))
  }

  lemma {:induction false} ShiftsOfWord(c: bv32, n: nat)
    requires Is16(c)
    ensures Shifts(Word16(c), n) == Word16(Steps16(c, n)) && Is16(Steps16(c, n))
    decreases n
  {
    hide Shift, Step16, Word16, Is16;
    if n > 0 {
      ShiftsOfWord(c, n - 1);
      ShiftOfWord(Steps16(c, n - 1));
    }
  }

  function Eight16(c: bv32): bv32 {
    Step16(Step16(Step16(Step16(Step16(Step16(Step16(Step16(c))))))))
  }

  lemma TwoMore16(c: bv32, n: nat)
    ensures Steps16(c, n + 2) == Step16(Step16(Steps16(c, n)))
  {
    hide Step16;
    assert Steps16(c, n + 1) == Step16(Steps16(c, n));
  }

  lemma Eight16Is(c: bv32)
    ensures Steps16(c, 8) == Eight16(c)
  {
    TwoMore16(c, 0);
    TwoMore16(c, 2);
    TwoMore16(c, 4);
    TwoMore16(c, 6);
    hide Step16;
    assert Steps16(c, 0) == c;
  }

  lemma DigitWords16()
    ensures Eight16(Xored(0xFFFF, 0x3100)) == 0xC782 && Is16(0xC782)
    ensures Eight16(Xored(0xC782, 0x3200)) == 0x3DBA && Is16(0x3DBA)
    ensures Eight16(Xored(0x3DBA, 0x3300)) == 0x5BCE && Is16(0x5BCE)
    ensures Eight16(Xored(0x5BCE, 0x3400)) == 0x5349 && Is16(0x5349)
    ensures Eight16(Xored(0x5349, 0x3500)) == 0x4560 && Is16(0x4560)
    ensures Eight16(Xored(0x4560, 0x3600)) == 0x2EF4 && Is16(0x2EF4)
    ensures Eight16(Xored(0x2EF4, 0x3700)) == 0x7718 && Is16(0x7718)
    ensures Eight16(Xored(0x7718, 0x3800)) == 0xA12B && Is16(0xA12B)
    ensures Eight16(Xored(0xA12B, 0x3900)) == 0x29B1 && Is16(0x29B1)
  {
  }

  /** A digit in the high byte of a register. */
  lemma HighDigit(c: bv32, digit: bv32)
    requires digit == c >> 8 && digit >> 8 == 0 && OctetOf(c) == 0
    ensures Word16(c) == 0x100 * OctetOf(digit)
  {
    hide Word16, OctetOf;
    Halves16(c, digit);
  }

  lemma DigitStarts16()
    ensures OctetOf(0x3100) == 0
    ensures OctetOf(0x3200) == 0
    ensures OctetOf(0x3300) == 0
    ensures OctetOf(0x3400) == 0
    ensures OctetOf(0x3500) == 0
    ensures OctetOf(0x3600) == 0
    ensures OctetOf(0x3700) == 0
    ensures OctetOf(0x3800) == 0
    ensures OctetOf(0x3900) == 0
  {
  }

  lemma DigitsFit16()
    ensures Is16(Xored(0xFFFF, 0x3100))
    ensures Is16(Xored(0xC782, 0x3200))
    ensures Is16(Xored(0x3DBA, 0x3300))
    ensures Is16(Xored(0x5BCE, 0x3400))
    ensures Is16(Xored(0x5349, 0x3500))
    ensures Is16(Xored(0x4560, 0x3600))
    ensures Is16(Xored(0x2EF4, 0x3700))
    ensures Is16(Xored(0x7718, 0x3800))
    ensures Is16(Xored(0xA12B, 0x3900))
  {
  }

  lemma AddedIs(crc: U16, b: Byte, high: U16)
    requires high == 0x100 * b
    ensures Added(crc, b) == Xor16(crc, high)
  {
    hide Xor16;
  }

  lemma NextDigit16(m: seq<Byte>, i: nat, w: bv32, c: bv32, digit: bv32, next: bv32)
    requires i < |m| && Crc(m[..i]) == Word16(w) && m[i] == OctetOf(digit)
    requires digit == c >> 8 && digit >> 8 == 0 && OctetOf(c) == 0
    requires Is16(Xored(w, c)) && Eight16(Xored(w, c)) == next
    ensures Crc(m[..i + 1]) == Word16(next)
  {
    var d := m[..i + 1];
    assert d[..|d| - 1] == m[..i] && d[|d| - 1] == m[i];
    assert Crc(d) == Shifts(Added(Crc(m[..i]), m[i]), 8);
    hide *;
    HighDigit(c, digit);
    AddedIs(Crc(m[..i]), m[i], Word16(c));
    XorWord16(w, c);
    ShiftsOfWord(Xored(w, c), 8);
    Eight16Is(Xored(w, c));
  }

  lemma NineDigits16(m: seq<Byte>)
    requires |m| == 9 && forall i :: 0 <= i < 9 ==> m[i] == 0x31 + i
    ensures Crc(m) == Word16(0x29B1)
  {
    NoMessage16(m);
    hide *;
    DigitWords16();
    DigitStarts16();
    DigitOctets();
    DigitsFit16();
    NextDigit16(m, 0, 0xFFFF, 0x3100, 0x31, 0xC782);
    NextDigit16(m, 1, 0xC782, 0x3200, 0x32, 0x3DBA);
    NextDigit16(m, 2, 0x3DBA, 0x3300, 0x33, 0x5BCE);
    NextDigit16(m, 3, 0x5BCE, 0x3400, 0x34, 0x5349);
    NextDigit16(m, 4, 0x5349, 0x3500, 0x35, 0x4560);
    NextDigit16(m, 5, 0x4560, 0x3600, 0x36, 0x2EF4);
    NextDigit16(m, 6, 0x2EF4, 0x3700, 0x37, 0x7718);
    NextDigit16(m, 7, 0x7718, 0x3800, 0x38, 0xA12B);
    NextDigit16(m, 8, 0xA12B, 0x3900, 0x39, 0x29B1);
    assert m[..9] == m;
  }

  lemma NoMessage16(m: seq<Byte>)
    ensures Crc(m[..0]) == Word16(0xFFFF)
  {
    Words16();
    assert m[..0] == [];
    hide Word16;
  }

  /** The published check value: the remainder of the digits from one to nine, in ASCII. */
  lemma CheckValue16()
    ensures Crc([0x31, 0x32, 0x33, 0x34, 0x35, 0x36, 0x37, 0x38, 0x39]) == 0x29B1
  {
    hide *;
    NineDigits16([0x31, 0x32, 0x33, 0x34, 0x35, 0x36, 0x37, 0x38, 0x39]);
    Words16();
  }
}
