/** Bytes and the little-endian numbers made of two of them. */
module Bytes {
  type Byte = x: int | 0 <= x < 0x100
  type U16 = x: int | 0 <= x < 0x1_0000
  type I16 = x: int | -0x8000 <= x < 0x8000

  function Low(v: U16): Byte { v % 0x100 }

  function High(v: U16): Byte { v / 0x100 }

  function Unsigned(low: Byte, high: Byte): U16 {
    low + 0x100 * high
  }

  lemma UnsignedBytes(v: U16)
    ensures Unsigned(Low(v), High(v)) == v
  {
  }

  lemma BytesOfUnsigned(low: Byte, high: Byte)
    ensures Low(Unsigned(low, high)) == low && High(Unsigned(low, high)) == high
  {
  }

  /** The number of two bytes, the low one first. */
  function LittleEndian(x: seq<Byte>, at: nat): int
    requires at + 1 < |x|
  {
    x[at] as int + 256 * x[at + 1] as int
  }
}
