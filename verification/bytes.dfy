/** Octets and the fixed-width unsigned integers of Python's `struct` module. */
module Bytes {

  newtype byte = x: int | 0 <= x < 256

  const U32Limit: int := 0x1_0000_0000

  /** The byte order `struct` uses: `<` is little-endian; `=` is the host's order. */
  datatype ByteOrder = Little | Big

  /** `struct.pack('I', n)` in the given byte order; it raises for n >= 2^32. */
  function EncodeU32(order: ByteOrder, n: nat): (r: seq<byte>)
    requires n < U32Limit
    ensures |r| == 4
    ensures order == Little ==> r[0] as int == n % 256
    ensures order == Big ==> r[3] as int == n % 256
  {
    var b0 := (n % 256) as byte;
    var b1 := ((n / 0x100) % 256) as byte;
    var b2 := ((n / 0x1_0000) % 256) as byte;
    var b3 := (n / 0x100_0000) as byte;
    if order == Little then [b0, b1, b2, b3] else [b3, b2, b1, b0]
  }

  /** `struct.unpack('I', bs)` in the given byte order. */
  function DecodeU32(order: ByteOrder, bs: seq<byte>): (n: nat)
    requires |bs| == 4
    ensures n < U32Limit
  {
    var lo := if order == Little then bs else [bs[3], bs[2], bs[1], bs[0]];
    lo[0] as int + 0x100 * lo[1] as int + 0x1_0000 * lo[2] as int + 0x100_0000 * lo[3] as int
  }

  /** Decoding what was encoded in the same byte order gives the number back. */
  lemma DecodeEncodeU32(order: ByteOrder, n: nat)
    requires n < U32Limit
    ensures DecodeU32(order, EncodeU32(order, n)) == n
  {
    var q1 := n / 0x100;
    var q2 := n / 0x1_0000;
    var q3 := n / 0x100_0000;
    assert q2 == q1 / 0x100;
    assert q3 == q2 / 0x100;
    assert n == n % 256 + 0x100 * q1;
    assert q1 == q1 % 256 + 0x100 * q2;
    assert q2 == q2 % 256 + 0x100 * q3;
  }

  /** Encoding what was decoded gives the four bytes back. */
  lemma EncodeDecodeU32(order: ByteOrder, bs: seq<byte>)
    requires |bs| == 4
    ensures EncodeU32(order, DecodeU32(order, bs)) == bs
  {
    var lo := if order == Little then bs else [bs[3], bs[2], bs[1], bs[0]];
    var n := DecodeU32(order, bs);
    var a, b, c, d := lo[0] as int, lo[1] as int, lo[2] as int, lo[3] as int;
    var m2 := c + 0x100 * d;
    var m1 := b + 0x100 * m2;
    assert n == a + 0x100 * m1;
    LowByte(a, m1);
    LowByte(b, m2);
    LowByte(c, d);
    assert n / 0x1_0000 == m2 && n / 0x100_0000 == d;
  }

  /** Splitting off the low byte of `a + 256 * x`. */
  lemma LowByte(a: int, x: int)
    requires 0 <= a < 0x100
    ensures (a + 0x100 * x) % 0x100 == a && (a + 0x100 * x) / 0x100 == x
  {
  }

  const U16Limit: int := 0x1_0000

  /** `struct.pack('H', n)` in the given byte order; it raises for n >= 2^16. */
  function EncodeU16(order: ByteOrder, n: nat): (r: seq<byte>)
    requires n < U16Limit
    ensures |r| == 2
    ensures order == Little ==> r[0] as int == n % 256
    ensures order == Big ==> r[1] as int == n % 256
  {
    var b0 := (n % 256) as byte;
    var b1 := (n / 0x100) as byte;
    if order == Little then [b0, b1] else [b1, b0]
  }

  /** `struct.unpack('H', bs)` in the given byte order. */
  function DecodeU16(order: ByteOrder, bs: seq<byte>): (n: nat)
    requires |bs| == 2
    ensures n < U16Limit
  {
    if order == Little then bs[0] as int + 0x100 * bs[1] as int
    else bs[1] as int + 0x100 * bs[0] as int
  }

  /** The two halves of the 16-bit round trip. */
  lemma U16RoundTrip(order: ByteOrder, n: nat, bs: seq<byte>)
    requires n < U16Limit && |bs| == 2
    ensures DecodeU16(order, EncodeU16(order, n)) == n
    ensures EncodeU16(order, DecodeU16(order, bs)) == bs
  {
    assert n == n % 256 + 0x100 * (n / 0x100);
  }
}
