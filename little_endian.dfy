/**
  Fixed-width unsigned integers and their little-endian byte encodings,
  as produced by `struct.pack('<H', ...)` and `struct.pack('<I', ...)`
  and consumed by the matching `struct.unpack`.
 */
module LittleEndian {

  type byte = x: int | 0 <= x < 0x100
  type uint16 = x: int | 0 <= x < 0x1_0000
  type uint32 = x: int | 0 <= x < 0x1_0000_0000

  /** `struct.pack('<H', n)`: low byte first. */
  function EncodeU16(n: uint16): (bs: seq<byte>)
    ensures |bs| == 2
    ensures n == 0 ==> bs == [0, 0]
  {
    [n % 0x100, n / 0x100]
  }

  /** `struct.unpack('<H', bs)` on exactly two bytes. */
  function DecodeU16(bs: seq<byte>): (n: uint16)
    requires |bs| == 2
  {
    bs[0] as int + 0x100 * bs[1] as int
  }

  /** `struct.pack('<I', n)`: four bytes, least significant first. */
  function EncodeU32(n: uint32): (bs: seq<byte>)
    ensures |bs| == 4
  {
    var n1 := n / 0x100;
    var n2 := n1 / 0x100;
    [n % 0x100, n1 % 0x100, n2 % 0x100, n2 / 0x100]
  }

  /** `struct.unpack('<I', bs)` on exactly four bytes. */
  function DecodeU32(bs: seq<byte>): (n: uint32)
    requires |bs| == 4
  {
    var b0, b1, b2, b3 := bs[0] as int, bs[1] as int, bs[2] as int, bs[3] as int;
    b0 + 0x100 * (b1 + 0x100 * (b2 + 0x100 * b3))
  }

  lemma DecodeEncodeU16(n: uint16)
    ensures DecodeU16(EncodeU16(n)) == n
  {
  }

  lemma EncodeDecodeU16(bs: seq<byte>)
    requires |bs| == 2
    ensures EncodeU16(DecodeU16(bs)) == bs
  {
  }

  /** Decoding the encoding of a count gives the count back. */
  lemma DecodeEncodeU32(n: uint32)
    ensures DecodeU32(EncodeU32(n)) == n
  {
  }

  /** Every four-byte sequence is the encoding of exactly one uint32. */
  lemma EncodeDecodeU32(bs: seq<byte>)
    requires |bs| == 4
    ensures EncodeU32(DecodeU32(bs)) == bs
  {
    var b0, b1, b2, b3 := bs[0] as int, bs[1] as int, bs[2] as int, bs[3] as int;
    var hi2 := b2 + 0x100 * b3;
    var hi1 := b1 + 0x100 * hi2;
    var n := b0 + 0x100 * hi1;
    assert n / 0x100 == hi1 && n % 0x100 == b0;
    assert hi1 / 0x100 == hi2 && hi1 % 0x100 == b1;
    assert hi2 / 0x100 == b3 && hi2 % 0x100 == b2;
  }

  lemma EncodeU32Injective(m: uint32, n: uint32)
    ensures EncodeU32(m) == EncodeU32(n) ==> m == n
  {
    DecodeEncodeU32(m);
    DecodeEncodeU32(n);
  }
}
