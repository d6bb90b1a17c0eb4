/**
 What CRC-32 detects: every change within thirty-two consecutive bits, the lowest bit of
 each byte first.
 */
module Crc32Bits {
  import opened Bytes
  import opened Crc16
  import opened Crc32
  import opened CrcBits
  import opened Prelude

  // ---------- One bit at a time ----------

  predicate AreBits(bits: seq<nat>) {
    forall i :: 0 <= i < |bits| ==> bits[i] < 2
  }

  /** The number with these bits, the lowest first. */
  function Number(bits: seq<nat>): nat {
    if bits == [] then 0 else bits[0] + 2 * Number(bits[1..])
  }

  /** The register after these bits, each added to its lowest bit before the step. */
  function Feed(c: U32, bits: seq<nat>): U32
    requires AreBits(bits)
    decreases |bits|
  {
    if bits == [] then c else Feed(Step(Xor32(c, bits[0])), bits[1..])
  }

  lemma PowerOfThirtyOne()
    ensures Power(31) == 0x8000_0000 && Power(32) == 0x1_0000_0000
  {
    PowerOfThirtyTwo();
  }

  lemma HalfOfU32(c: U32)
    ensures Half(c) < Power(31) && Bit(c) == c % 2 && Half(c) == c / 2
  {
    PowerOfThirtyOne();
  }

  lemma HalfOfSum(b: nat, m: nat)
    requires b < 2
    ensures Half(b + 2 * m) == m && Half(b) == 0 && Bit(b + 2 * m) == Bit(b)
  {
  }

  /** The lowest bit decides on the polynomial; the bits above only move down. */
  lemma StepOfSum(c: U32, b: nat, m: nat)
    requires b < 2 && b + 2 * m < 0x1_0000_0000
    ensures Step(Xor32(c, b + 2 * m)) == Xor32(Step(Xor32(c, b)), m)
  {
    PowerOfThirtyOne();
    hide Xor, Bit, Half, Power;
    HalfOfU32(c);
    HalfOfSum(b, m);
    XorDef(c, b + 2 * m, 32);
    XorDef(c, b, 32);
    BitSum(c, b + 2 * m, c, b);
    XorNothing(Half(c), 31);
    XorLow(Half(c), m, 31);
    HalfOfU32(Xor32(c, b + 2 * m));
    HalfOfU32(Xor32(c, b));
    XorAssociates(Half(c), m, POLYNOMIAL_32, 32);
    XorIsSymmetric(m, POLYNOMIAL_32, 32);
    XorAssociates(Half(c), POLYNOMIAL_32, m, 32);
  }

  lemma {:induction false} StepsFront(c: U32, n: nat)
    requires n > 0
    ensures Steps(c, n) == Steps(Step(c), n - 1)
    decreases n
  {
    hide Step;
    if n > 1 { StepsFront(c, n - 1); }
  }

  lemma {:induction false} NumberBelow(bits: seq<nat>)
    requires AreBits(bits)
    ensures Number(bits) < Power(|bits|)
    decreases |bits|
  {
    if bits != [] { NumberBelow(bits[1..]); }
  }

  lemma {:induction false} PowerGrows(a: nat, b: nat)
    requires a <= b
    ensures Power(a) <= Power(b)
    decreases b
  {
    if a < b { PowerGrows(a, b - 1); }
  }

  lemma NumberFits(bits: seq<nat>)
    requires AreBits(bits) && |bits| <= 32
    ensures Number(bits) < 0x1_0000_0000
  {
    NumberBelow(bits);
    PowerGrows(|bits|, 32);
    PowerOfThirtyOne();
  }

  /** Up to thirty-two bits may be added together before the steps. */
  lemma {:induction false} FeedWord(c: U32, bits: seq<nat>)
    requires AreBits(bits) && |bits| <= 32
    ensures Number(bits) < 0x1_0000_0000 && Feed(c, bits) == Steps(Xor32(c, Number(bits)), |bits|)
    decreases |bits|
  {
    NumberFits(bits);
    if bits == [] {
      PowerOfThirtyOne();
      XorNothing(c, 32);
    } else {
      NumberFits(bits[1..]);
      FeedWord(Step(Xor32(c, bits[0])), bits[1..]);
      StepOfSum(c, bits[0], Number(bits[1..]));
      StepsFront(Xor32(c, Number(bits)), |bits|);
    }
    hide Xor32, Step;
  }

  lemma {:induction false} FeedConcat(c: U32, a: seq<nat>, b: seq<nat>)
    requires AreBits(a) && AreBits(b)
    ensures Feed(c, a + b) == Feed(Feed(c, a), b)
    decreases |a|
  {
    hide Step, Xor32;
    if a == [] {
      assert a + b == b;
    } else {
      assert (a + b)[1..] == a[1..] + b;
      FeedConcat(Step(Xor32(c, a[0])), a[1..], b);
    }
  }

  // ---------- Nothing is lost ----------

  lemma Xor32IsInjective(a: U32, b: U32, c: U32)
    ensures Xor32(a, b) == Xor32(a, c) ==> b == c
    ensures Xor32(b, a) == Xor32(c, a) ==> b == c
  {
    PowerOfThirtyOne();
    XorIsSymmetric(a, b, 32);
    XorIsSymmetric(a, c, 32);
    if Xor32(a, b) == Xor32(a, c) { XorIsInjective(a, b, c, 32); }
    hide Xor, Power;
  }

  /** The polynomial has the top bit, and half a register has not. */
  lemma StepTop(c: U32)
    ensures Step(c) >= 0x8000_0000 <==> c % 2 == 1
  {
    PowerOfThirtyOne();
    if c % 2 == 1 {
      XorTop(POLYNOMIAL_32 - 0x8000_0000, c / 2, 31);
      XorIsSymmetric(POLYNOMIAL_32, c / 2, 32);
    }
    hide Xor, Power;
  }

  lemma StepIsInjective(c: U32, d: U32)
    requires Step(c) == Step(d)
    ensures c == d
  {
    StepTop(c);
    StepTop(d);
    Xor32IsInjective(POLYNOMIAL_32, c / 2, d / 2);
    hide Xor32;
  }

  lemma {:induction false} StepsAreInjective(c: U32, d: U32, n: nat)
    requires Steps(c, n) == Steps(d, n)
    ensures c == d
  {
    hide Step;
    if n > 0 {
      StepIsInjective(Steps(c, n - 1), Steps(d, n - 1));
      StepsAreInjective(c, d, n - 1);
    }
  }

  lemma {:induction false} FeedIsInjective(c: U32, d: U32, bits: seq<nat>)
    requires AreBits(bits) && Feed(c, bits) == Feed(d, bits)
    ensures c == d
    decreases |bits|
  {
    hide Step, Xor32;
    if bits != [] {
      FeedIsInjective(Step(Xor32(c, bits[0])), Step(Xor32(d, bits[0])), bits[1..]);
      StepIsInjective(Xor32(c, bits[0]), Xor32(d, bits[0]));
      Xor32IsInjective(bits[0], c, d);
    }
  }

  lemma {:induction false} NumberIsInjective(a: seq<nat>, b: seq<nat>)
    requires AreBits(a) && AreBits(b) && |a| == |b| && Number(a) == Number(b)
    ensures a == b
    decreases |a|
  {
    if a != [] {
      assert a[0] == b[0];
      NumberIsInjective(a[1..], b[1..]);
      assert a == [a[0]] + a[1..] && b == [b[0]] + b[1..];
    }
  }

  /** Two different words of at most thirty-two bits leave the register different. */
  lemma WordIsDetected(c: U32, a: seq<nat>, b: seq<nat>)
    requires AreBits(a) && AreBits(b) && |a| == |b| <= 32 && Feed(c, a) == Feed(c, b)
    ensures a == b
  {
    FeedWord(c, a);
    FeedWord(c, b);
    hide Feed, Xor32, Steps, Number;
    StepsAreInjective(Xor32(c, Number(a)), Xor32(c, Number(b)), |a|);
    Xor32IsInjective(c, Number(a), Number(b));
    NumberIsInjective(a, b);
  }

  // ---------- The bits of a message ----------

  function BitsOf(b: nat, n: nat): (bits: seq<nat>)
    ensures AreBits(bits) && |bits| == n
  {
    if n == 0 then [] else [b % 2] + BitsOf(b / 2, n - 1)
  }

  lemma {:induction false} NumberOfBits(b: nat, n: nat)
    requires b < Power(n)
    ensures Number(BitsOf(b, n)) == b
    decreases n
  {
    if n > 0 {
      HalfIsBelow(b, n);
      NumberOfBits(b / 2, n - 1);
      assert BitsOf(b, n)[1..] == BitsOf(b / 2, n - 1);
    }
  }

  lemma {:induction false} BitOfBits(b: nat, n: nat, m: nat)
    requires m < n
    ensures BitsOf(b, n)[m] == BitAt(b, m)
    decreases n
  {
    if m > 0 { BitOfBits(b / 2, n - 1, m - 1); }
  }

  /** The bits of a message, the lowest bit of each byte first. */
  function Stream(data: seq<Byte>): (bits: seq<nat>)
    ensures AreBits(bits) && |bits| == 8 * |data|
  {
    if data == [] then [] else Stream(data[..|data| - 1]) + BitsOf(data[|data| - 1], 8)
  }

  lemma {:induction false} RegisterIsFeed(data: seq<Byte>)
    ensures Register(data) == Feed(ALL_ONES, Stream(data))
  {
    hide Steps, Xor32, BitsOf;
    if data != [] {
      var p, b := data[..|data| - 1], data[|data| - 1];
      RegisterIsFeed(p);
      FeedConcat(ALL_ONES, Stream(p), BitsOf(b, 8));
      FeedWord(Register(p), BitsOf(b, 8));
      PowerOfEight();
      NumberOfBits(b, 8);
    }
  }

  /** Bit `j` of a message, in this order. */
  function LowBit(data: seq<Byte>, j: nat): nat
    requires j < 8 * |data|
  {
    BitAt(data[j / 8], j % 8)
  }

  lemma {:induction false} StreamAt(data: seq<Byte>, j: nat)
    requires j < 8 * |data|
    ensures Stream(data)[j] == LowBit(data, j)
    decreases |data|
  {
    var n := |data| - 1;
    hide BitAt, BitsOf;
    if j < 8 * n {
      StreamAt(data[..n], j);
    } else {
      assert j / 8 == n && j % 8 == j - 8 * n;
      BitOfBits(data[n], 8, j - 8 * n);
    }
  }

  lemma {:induction false} StreamIsInjective(x: seq<Byte>, y: seq<Byte>)
    requires |x| == |y| && Stream(x) == Stream(y)
    ensures x == y
    decreases |x|
  {
    hide BitsOf, Stream;
    if x != [] {
      var n := |x| - 1;
      StreamParts(x);
      StreamParts(y);
      StreamIsInjective(x[..n], y[..n]);
      ByteIsInjective(x[n], y[n]);
      SameEnds(x, y);
    }
  }

  lemma SameEnds(x: seq<Byte>, y: seq<Byte>)
    requires 0 < |x| == |y| && x[..|x| - 1] == y[..|y| - 1] && x[|x| - 1] == y[|y| - 1]
    ensures x == y
  {
    assert x == x[..|x| - 1] + [x[|x| - 1]] && y == y[..|y| - 1] + [y[|y| - 1]];
  }

  lemma StreamParts(x: seq<Byte>)
    requires x != []
    ensures var n := |x| - 1; Stream(x)[..8 * n] == Stream(x[..n]) && Stream(x)[8 * n..] == BitsOf(x[n], 8)
  {
    hide BitsOf;
  }

  lemma ByteIsInjective(a: Byte, b: Byte)
    requires BitsOf(a, 8) == BitsOf(b, 8)
    ensures a == b
  {
    PowerOfEight();
    NumberOfBits(a, 8);
    NumberOfBits(b, 8);
    hide BitsOf, Power;
  }

  // ---------- Bursts ----------

  /** The messages differ only within the thirty-two bits from `k` on. */
  ghost predicate IsLowBurst(x: seq<Byte>, y: seq<Byte>, k: nat) {
    |x| == |y| && forall j :: 0 <= j < 8 * |x| && LowBit(x, j) != LowBit(y, j) ==> k <= j < k + 32
  }

  /** Two streams of bits that differ only in a window of at most thirty-two. */
  lemma WindowIsDetected(c: U32, a: seq<nat>, b: seq<nat>, from: nat, to: nat)
    requires AreBits(a) && AreBits(b) && |a| == |b| && from <= to <= |a| && to - from <= 32
    requires a[..from] == b[..from] && a[to..] == b[to..] && Feed(c, a) == Feed(c, b)
    ensures a == b
  {
    hide Feed;
    FeedThree(c, a, from, to);
    FeedThree(c, b, from, to);
    var d := Feed(c, a[..from]);
    FeedIsInjective(Feed(d, a[from..to]), Feed(d, b[from..to]), a[to..]);
    WordIsDetected(d, a[from..to], b[from..to]);
    assert a == a[..from] + a[from..to] + a[to..] && b == b[..from] + b[from..to] + b[to..];
  }

  lemma FeedThree(c: U32, a: seq<nat>, from: nat, to: nat)
    requires AreBits(a) && from <= to <= |a|
    ensures Feed(c, a) == Feed(Feed(Feed(c, a[..from]), a[from..to]), a[to..])
  {
    hide Feed;
    assert a == a[..to] + a[to..] && a[..to] == a[..from] + a[from..to];
    FeedConcat(c, a[..to], a[to..]);
    FeedConcat(c, a[..from], a[from..to]);
  }

  lemma SameStream(x: seq<Byte>, y: seq<Byte>, k: nat, from: nat, to: nat)
    requires IsLowBurst(x, y, k) && from <= to <= 8 * |x| && (to <= k || from >= k + 32 || from == to)
    ensures Stream(x)[from..to] == Stream(y)[from..to]
  {
    forall j | from <= j < to
      ensures Stream(x)[j] == Stream(y)[j]
    {
      StreamAt(x, j);
      StreamAt(y, j);
    }
    hide Stream;
  }

  /** Two messages that differ only within thirty-two consecutive bits have different checksums. */
  lemma LowBurstIsDetected(x: seq<Byte>, y: seq<Byte>, k: nat)
    requires IsLowBurst(x, y, k) && x != y
    ensures Checksum(x) != Checksum(y)
  {
    var n := 8 * |x|;
    var from := if k < n then k else n;
    var to := if k + 32 < n then k + 32 else n;
    SameStream(x, y, k, 0, from);
    SameStream(x, y, k, to, n);
    RegisterIsFeed(x);
    RegisterIsFeed(y);
    hide Feed, Stream, IsLowBurst, Register, Xor32;
    if Checksum(x) == Checksum(y) {
      Xor32IsInjective(ALL_ONES, Register(x), Register(y));
      WindowIsDetected(ALL_ONES, Stream(x), Stream(y), from, to);
      StreamIsInjective(x, y);
    }
  }

  /** Two messages that differ in exactly one byte have different checksums. */
  lemma ChangedByteIsDetected32(x: seq<Byte>, y: seq<Byte>, at: nat)
    requires |x| == |y| && at < |x| && x[at] != y[at]
    requires forall i :: 0 <= i < |x| && i != at ==> x[i] == y[i]
    ensures Checksum(x) != Checksum(y)
  {
    forall j | 0 <= j < 8 * |x| && LowBit(x, j) != LowBit(y, j)
      ensures 8 * at <= j < 8 * at + 32
    {
      assert j / 8 == at;
    }
    LowBurstIsDetected(x, y, 8 * at);
  }
}
