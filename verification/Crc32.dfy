/** CRC-32 (polynomial 0xEDB88320, reflected), bit by bit and piece by piece. */
module Crc32 {
  import opened Bytes
  import opened Crc16
  import opened Prelude

  type U32 = x: int | 0 <= x < 0x1_0000_0000

  const POLYNOMIAL_32: U32 := 0xEDB8_8320
  const ALL_ONES: U32 := 0xFFFF_FFFF

  lemma PowerOfThirtyTwo()
    ensures Power(32) == 0x1_0000_0000
  {
    assert Power(8) == 0x100;
    assert Power(16) == 0x1_0000;
    assert Power(24) == 0x100_0000;
  }

  function Xor32(a: U32, b: U32): U32 {
    PowerOfThirtyTwo();
    Xor(a, b, 32)
  }

  /** One bit: shifted right, and reduced by the polynomial when a bit falls out. */
  function Step(crc: U32): U32 {
    if crc % 2 == 1 then Xor32(crc / 2, POLYNOMIAL_32) else crc / 2
  }

  function Steps(crc: U32, n: nat): U32 {
    if n == 0 then crc else Step(Steps(crc, n - 1))
  }

  /** The register after a message. */
  function Register(data: seq<Byte>): U32 {
    if data == [] then ALL_ONES else Steps(Xor32(Register(data[..|data| - 1]), data[|data| - 1]), 8)
  }

  function Finish(crc: U32): U32 {
    Xor32(crc, ALL_ONES)
  }

  /** `crc32_ieee`. */
  function Checksum(data: seq<Byte>): U32 {
    Finish(Register(data))
  }

  /** `Crc32Incremental::update`: the register after one more piece of a message. */
  method Update(crc: U32, data: seq<Byte>, ghost before: seq<Byte>) returns (next: U32)
    requires crc == Register(before)
    ensures next == Register(before + data)
  {
    next := crc;
    ConcatNil(before);
    for i := 0 to |data|
      invariant next == Register(before + data[..i])
    {
      ghost var done := before + data[..i];
      next := Xor32(next, data[i]);
      for k := 0 to 8
        invariant next == Steps(Xor32(Register(done), data[i]), k)
      {
        next := Step(next);
      }
      assert before + data[..i + 1] == done + [data[i]];
      assert (done + [data[i]])[..|done|] == done;
    }
    assert data[..|data|] == data;
  }
}
