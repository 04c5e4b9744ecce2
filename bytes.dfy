/** Machine-level value types of the packer: bytes, the fixed-width unsigned
    integers it stores, and the little-endian layout that `memcpy` of such an
    integer produces on x86. */
module Bytes {

  type byte = b: int | 0 <= b < 256

  const U32_LIMIT: nat := 0x1_0000_0000
  const U64_LIMIT: nat := 0x1_0000_0000_0000_0000

  /** `uint32_t` */
  type u32 = x: int | 0 <= x < 0x1_0000_0000

  /** `uint64_t`, and `size_t` on a 64-bit build */
  type u64 = x: int | 0 <= x < 0x1_0000_0000_0000_0000

  /** Conversion of any integer to `uint32_t` (two's complement wrap-around). */
  function ToU32(x: int): (r: u32)
    ensures 0 <= x < U32_LIMIT ==> r == x
    ensures (r - x) % U32_LIMIT == 0
  {
    x % U32_LIMIT
  }

  /** `++` on a `uint32_t`: 2^32 - 1 wraps round to 0. */
  function Inc32(x: u32): (r: u32)
    ensures r == (x + 1) % U32_LIMIT
  {
    if x == U32_LIMIT - 1 then 0 else x + 1
  }

  /** Counting modulo 2^32 step by step is counting modulo 2^32. */
  lemma Inc32OfWrapped(n: nat)
    ensures Inc32(n % U32_LIMIT) == (n + 1) % U32_LIMIT
  {
  }

  function Pow256(n: nat): (r: nat)
    ensures r > 0
  {
    if n == 0 then 1 else 256 * Pow256(n - 1)
  }

  /** The `width` bytes of `v` modulo 256^width, least significant first. */
  function LittleEndian(v: nat, width: nat): (r: seq<byte>)
    ensures |r| == width
  {
    if width == 0 then [] else [(v % 256) as byte] + LittleEndian(v / 256, width - 1)
  }

  /** The number a little-endian byte sequence stands for. */
  function FromLittleEndian(bs: seq<byte>): (v: nat)
    ensures v < Pow256(|bs|)
  {
    if bs == [] then 0 else bs[0] + 256 * FromLittleEndian(bs[1..])
  }

  /** Decoding the bytes written for a value that fits gives the value back. */
  lemma {:induction false} DecodeEncode(v: nat, width: nat)
    requires v < Pow256(width)
    ensures FromLittleEndian(LittleEndian(v, width)) == v
  {
    if width > 0 {
      DecodeEncode(v / 256, width - 1);
      assert LittleEndian(v, width)[1..] == LittleEndian(v / 256, width - 1);
    }
  }

  /** Every byte sequence is the encoding of the number it stands for. */
  lemma {:induction false} EncodeDecode(bs: seq<byte>)
    ensures LittleEndian(FromLittleEndian(bs), |bs|) == bs
  {
    if bs != [] {
      EncodeDecode(bs[1..]);
      var v := FromLittleEndian(bs);
      assert v % 256 == bs[0] && v / 256 == FromLittleEndian(bs[1..]);
    }
  }

  /** `uint32_t` little-endian, as `memcpy` into a 4-byte buffer. */
  function LE32(v: u32): (r: seq<byte>)
    ensures |r| == 4
    ensures FromLittleEndian(r) == v
  {
    DecodeEncode(v, 4);
    LittleEndian(v, 4)
  }

  /** `uint64_t` little-endian, as `memcpy` into an 8-byte buffer. */
  function LE64(v: u64): (r: seq<byte>)
    ensures |r| == 8
    ensures FromLittleEndian(r) == v
  {
    DecodeEncode(v, 8);
    LittleEndian(v, 8)
  }
}
