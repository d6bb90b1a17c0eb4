/**
 Which changes of a frame's message are refused on the serial line: every odd number of
 bits, every burst of sixteen bits that spares the checksum or what it covers.
 */
module FrameErrors {
  import opened Bytes
  import opened Crc16
  import opened CrcBits
  import opened Prelude
  import opened SerialFrames

  lemma OnesOfTwo(data: seq<Byte>, low: Byte, high: Byte)
    ensures OnesOf(data + [low, high]) == OnesOf(data) + Ones(low, 8) + Ones(high, 8)
  {
    hide Ones;
    var more := data + [low, high];
    assert more[..|data| + 1][..|data|] == data;
    assert more[..|data| + 1] == data + [low];
  }

  lemma HalfOfSum(low: nat, p: nat, high: nat)
    ensures (low + 2 * p * high) / 2 == low / 2 + p * high && (low + 2 * p * high) % 2 == low % 2
  {
    assert 2 * p * high == 2 * (p * high);
  }

  lemma {:induction false} OnesOfSum(low: nat, high: nat, n: nat, k: nat)
    requires low < Power(k)
    ensures Ones(low + Power(k) * high, n + k) == Ones(low, k) + Ones(high, n)
    decreases k
  {
    if k > 0 {
      HalfOfSum(low, Power(k - 1), high);
      HalfIsBelow(low, k);
      OnesOfSum(low / 2, high, n, k - 1);
    }
  }

  lemma OnesOfBytes(c: U16)
    ensures Ones(c, 16) == Ones(Low(c), 8) + Ones(High(c), 8)
  {
    PowerOfEight();
    hide Ones, Power;
    OnesOfSum(Low(c), High(c), 8, 8);
  }

  /** Every message that is accepted has an even number of bits set. */
  lemma PduParity(f: Frame)
    requires IsEncodable(f)
    ensures OnesOf(Pdu(f)) % 2 == 0
  {
    var body := Body(f);
    OnesOfTwo(body, Low(Crc(body)), High(Crc(body)));
    OnesOfBytes(Crc(body));
    CrcParity(body);
    hide Body, Low, High, Crc, Ones, OnesOf;
    EvenSum(OnesOf(body), Ones(Crc(body), 16));
  }

  /** A message with an odd number of changed bits is refused. */
  lemma OddChangeIsRefused(f: Frame, y: seq<Byte>)
    requires IsEncodable(f) && |y| == |Pdu(f)| && ChangedBits(Pdu(f), y) % 2 == 1
    ensures DecodePdu(y).Err?
  {
    hide *;
    PduParity(f);
    ChangedParity(Pdu(f), y);
    if DecodePdu(y).Ok? {
      OnlyPdusAreRead(y, DecodePdu(y).value);
      PduParity(DecodePdu(y).value);
    }
    EvenSum(OnesOf(Pdu(f)), OnesOf(y));
  }

  /** The checksum sent with a message. */
  function Sum(x: seq<Byte>, n: nat): U16
    requires n + 2 == |x|
  {
    Unsigned(x[n], x[n + 1])
  }

  /**
   The checksum misses a change of a message exactly when the change of the checksum is
   the residue of the change of what it covers.
   */
  lemma MissedExactly(f: Frame, y: seq<Byte>)
    requires IsEncodable(f) && |y| == |Pdu(f)| && y[2] == f.len
    ensures var x, n := Pdu(f), 3 + f.len;
            && |x| == n + 2
            && (DecodePdu(y) != Err(BadCrc) <==>
                  Residue(Difference(x[..n], y[..n])) == Xor16(Sum(x, n), Sum(y, n)))
  {
    var x, n := Pdu(f), 3 + f.len;
    PduParts(f);
    ResidueOfDifference(x[..n], y[..n]);
    Xor16IsInjective(Sum(x, n), Crc(y[..n]), Sum(y, n));
    hide Low, High, Unsigned, Crc, Pdu, Body, Residue, Difference, Xor16, Padded;
    assert Crc(x[..n]) == Sum(x, n);
  }

  /** A burst in what the checksum covers, or in the checksum itself, is refused. */
  lemma BurstIsRefused(f: Frame, y: seq<Byte>, k: nat)
    requires IsEncodable(f) && IsBurst(Pdu(f), y, k) && y != Pdu(f)
    requires var n := 3 + f.len; |y| == n + 2 && (y[..n] == Pdu(f)[..n] || y[n..] == Pdu(f)[n..])
    ensures DecodePdu(y).Err?
  {
    var x, n := Pdu(f), 3 + f.len;
    PduParts(f);
    hide Low, High, Crc, Pdu, Body;
    if y[..n] == x[..n] {
      assert x == x[..n] + [x[n], x[n + 1]] && y == y[..n] + [y[n], y[n + 1]];
      assert y[2] == y[..n][2] == x[..n][2];
      BytesOfUnsigned(x[n], x[n + 1]);
      BytesOfUnsigned(y[n], y[n + 1]);
    } else {
      assert y[n..] == x[n..];
      assert y[n] == y[n..][0] && y[n + 1] == y[n..][1] && x[n] == x[n..][0] && x[n + 1] == x[n..][1];
      BurstOfPart(x, y, k, n);
      BurstIsDetected(x[..n], y[..n], k);
    }
  }

  lemma BurstOfPart(x: seq<Byte>, y: seq<Byte>, k: nat, n: nat)
    requires IsBurst(x, y, k) && n <= |x|
    ensures IsBurst(x[..n], y[..n], k)
  {
    forall j | 0 <= j < 8 * n && BitOf(x[..n], j) != BitOf(y[..n], j)
      ensures k <= j < k + 16
    {
      assert BitOf(x, j) == BitOf(x[..n], j) && BitOf(y, j) == BitOf(y[..n], j);
    }
  }

  // ---------- A burst across the checksum ----------

  lemma BitStep(a: nat, m: nat)
    ensures BitAt(a, m) == if m == 0 then Bit(a) else BitAt(Half(a), m - 1)
    ensures Bit(a) < 2
  {
  }

  lemma BitsAdd(a: nat, b: nat)
    ensures Bit(Bit(a) + Bit(b)) == Bit(a + b)
  {
  }

  lemma {:induction false} XorBitAt(a: nat, b: nat, n: nat, m: nat)
    requires m < n
    ensures BitAt(Xor(a, b, n), m) == Bit(BitAt(a, m) + BitAt(b, m))
    decreases m
  {
    hide *;
    XorDef(a, b, n);
    BitStep(a, m);
    BitStep(b, m);
    BitStep(Xor(a, b, n), m);
    if m == 0 {
      BitsAdd(a, b);
    } else {
      XorBitAt(Half(a), Half(b), n - 1, m - 1);
    }
  }

  lemma {:induction false} BitAbove(low: nat, high: nat, k: nat, m: nat)
    requires low < Power(k)
    ensures BitAt(low + Power(k) * high, k + m) == BitAt(high, m)
    decreases k
  {
    if k > 0 {
      HalfOfSum(low, Power(k - 1), high);
      HalfIsBelow(low, k);
      BitAbove(low / 2, high, k - 1, m);
    }
  }

  lemma BitOfHigh(c: U16)
    ensures BitAt(High(c), 0) == BitAt(c, 8)
  {
    PowerOfEight();
    hide Power, BitAt;
    BitAbove(Low(c), High(c), 8, 0);
  }

  lemma PolynomialBit()
    ensures BitAt(POLYNOMIAL, 8) == 0
  {
    BitOfHigh(POLYNOMIAL);
  }

  /** The lowest bit of the high byte is not one that the polynomial changes. */
  lemma SameHighBit(a: U16, b: U16)
    requires Xor16(a, b) == POLYNOMIAL
    ensures BitAt(High(a), 0) == BitAt(High(b), 0)
  {
    XorBitAt(a, b, 16, 8);
    PolynomialBit();
    BitOfHigh(a);
    BitOfHigh(b);
    hide Xor;
  }

  lemma OddNeighbour(v: Byte)
    requires v % 2 == 0
    ensures v + 1 < 0x100 && Xor(v, v + 1, 8) == 1
    ensures forall m :: 0 < m < 8 ==> BitAt(v, m) == BitAt(v + 1, m)
  {
    XorDef(v, v + 1, 8);
    XorNothing(v / 2, 7);
    assert (v + 1) / 2 == v / 2;
  }

  lemma ResidueOfOne()
    ensures Shifts(0x100, 8) == POLYNOMIAL
  {
    PowerOfEight();
    assert Power(7) == 0x80;
    ShiftsPlain(0x100, 7);
    assert Shifts(0x100, 8) == Shift(Shifts(0x100, 7));
    PowerOfSixteen();
    XorNothing(POLYNOMIAL, 16);
    hide Shifts, Xor, Power;
  }

  /** Counting the last byte up by one changes the remainder by the polynomial. */
  lemma CrcOfNeighbour(p: seq<Byte>, v: Byte)
    requires v % 2 == 0
    ensures Xor16(Crc(p + [v]), Crc(p + [v + 1])) == POLYNOMIAL
  {
    var c := Crc(p);
    OddNeighbour(v);
    assert (p + [v])[..|p|] == p && (p + [v + 1])[..|p|] == p;
    assert Crc(p + [v]) == Shifts(Added(c, v), 8) && Crc(p + [v + 1]) == Shifts(Added(c, v + 1), 8);
    AddedOne();
    hide *;
    ShiftsLinear(Added(c, v), Added(c, v + 1), 8);
    AddedLinear(c, c, v, v + 1, 1);
    Xor16Zero(c, c);
    ResidueOfOne();
  }

  lemma AddedOne()
    ensures Added(0, 1) == 0x100
  {
    PowerOfSixteen();
    XorNothing(0x100, 16);
    hide Xor, Power;
  }

  /** Counting up the last byte that a checksum covers: a burst of sixteen bits at most. */
  lemma CheckedBurst(p: seq<Byte>, v: Byte)
    requires v % 2 == 0
    ensures IsBurst(Checked(p + [v]), Checked(p + [v + 1]), 8 * |p| + 7)
  {
    var x, y := Checked(p + [v]), Checked(p + [v + 1]);
    OddNeighbour(v);
    CrcOfNeighbour(p, v);
    SameHighBit(Crc(p + [v]), Crc(p + [v + 1]));
    hide Crc, Low, High, BitAt, Xor, Xor16;
    forall j | 0 <= j < 8 * |x| && !(8 * |p| + 7 <= j < 8 * |p| + 23)
      ensures BitOf(x, j) == BitOf(y, j)
    {
      if j < 8 * |p| {
        assert x[j / 8] == y[j / 8];
      } else if j < 8 * |p| + 8 {
        assert j / 8 == |p| && 0 < 7 - j % 8;
      } else {
        assert j / 8 == |p| + 2 && 7 - j % 8 == 0;
      }
    }
  }

  /**
   The first burst that is missed: it changes the last bit that the checksum covers, and
   the first of its two bytes is the low one. The message is accepted as another frame.
   */
  lemma BurstAcrossIsAccepted(f: Frame, g: Frame)
    requires IsEncodable(f) && f.len > 0 && f.data[f.len - 1] % 2 == 0
    requires g == f.(data := f.data[f.len - 1 := f.data[f.len - 1] + 1])
    ensures IsEncodable(g) && Pdu(g) != Pdu(f) && IsBurst(Pdu(f), Pdu(g), 8 * (3 + f.len) - 1)
    ensures DecodePdu(Pdu(g)) == Ok(AsRead(g))
  {
    var n, v := f.len, f.data[f.len - 1];
    var p := [Low(f.id), High(f.id), f.len] + f.data[..n - 1];
    BodyEnds(f, p);
    BodyEnds(g, p);
    hide *;
    CheckedBurst(p, v);
    CheckedDiffers(p, v);
    DecodeEncodePdu(g);
  }

  lemma BodyEnds(f: Frame, p: seq<Byte>)
    requires IsEncodable(f) && f.len > 0 && p == [Low(f.id), High(f.id), f.len] + f.data[..f.len - 1]
    ensures |p| == 2 + f.len && Pdu(f) == Checked(p + [f.data[f.len - 1]])
  {
    assert f.data[..f.len] == f.data[..f.len - 1] + [f.data[f.len - 1]];
    assert Body(f) == p + [f.data[f.len - 1]];
    hide Crc, Checked;
  }

  lemma CheckedDiffers(p: seq<Byte>, v: Byte)
    requires v % 2 == 0
    ensures Checked(p + [v]) != Checked(p + [v + 1])
  {
    hide Crc, Low, High;
    assert Checked(p + [v])[|p|] == v && Checked(p + [v + 1])[|p|] == v + 1;
  }
}
