/**
 * Octets and Java's fixed-width integers as Netty's ByteBuf writes them:
 * two's complement, most significant byte first.
 */
module Wire {

  /** One octet of a buffer, read as unsigned. */
  type Byte = x: int | 0 <= x < 0x100

  /** Java's `int`. */
  type Int32 = x: int | -0x8000_0000 <= x < 0x8000_0000

  /** Java's `long`. */
  type Int64 = x: int | -0x8000_0000_0000_0000 <= x < 0x8000_0000_0000_0000

  /** Widths of `int` and `long` in bytes. */
  const INT_BYTES: nat := 4
  const LONG_BYTES: nat := 8

  function Pow256(n: nat): (r: nat)
    ensures r >= 1
  {
    if n == 0 then 1 else 0x100 * Pow256(n - 1)
  }

  lemma Pow256Widths()
    ensures Pow256(INT_BYTES) == 0x1_0000_0000
    ensures Pow256(LONG_BYTES) == 0x1_0000_0000_0000_0000
  {
  }

  /** The low `n` bytes of `u`, most significant first. */
  function UnsignedToBytes(u: nat, n: nat): (bs: seq<Byte>)
    ensures |bs| == n
  {
    if n == 0 then [] else UnsignedToBytes(u / 0x100, n - 1) + [u % 0x100]
  }

  /** The unsigned number whose big-endian bytes are `bs`. */
  function BytesToUnsigned(bs: seq<Byte>): (u: nat)
    ensures u < Pow256(|bs|)
  {
    if bs == [] then 0
    else
      var high := BytesToUnsigned(bs[..|bs| - 1]);
      high * 0x100 + bs[|bs| - 1]
  }

  /** Reading back `n` written bytes gives the number written, when it fits. */
  lemma {:induction false} UnsignedRoundTrip(u: nat, n: nat)
    requires u < Pow256(n)
    ensures BytesToUnsigned(UnsignedToBytes(u, n)) == u
  {
    if n > 0 {
      var bs, high := UnsignedToBytes(u, n), u / 0x100;
      assert bs[..n - 1] == UnsignedToBytes(high, n - 1) && bs[n - 1] == u % 0x100;
      assert high < Pow256(n - 1) by { assert u < 0x100 * Pow256(n - 1); }
      UnsignedRoundTrip(high, n - 1);
      assert BytesToUnsigned(bs) == BytesToUnsigned(bs[..n - 1]) * 0x100 + bs[n - 1];
    }
  }

  /** Writing back the number read from `bs` gives `bs`. */
  lemma {:induction false} BytesRoundTrip(bs: seq<Byte>)
    ensures UnsignedToBytes(BytesToUnsigned(bs), |bs|) == bs
  {
    if bs != [] {
      var n := |bs|;
      var init := bs[..n - 1];
      var u := BytesToUnsigned(bs);
      assert u / 0x100 == BytesToUnsigned(init) && u % 0x100 == bs[n - 1];
      BytesRoundTrip(init);
      assert bs == init + [bs[n - 1]];
    }
  }

  /** An independent, positional reading of four big-endian bytes. */
  lemma BigEndian32(bs: seq<Byte>)
    requires |bs| == 4
    ensures BytesToUnsigned(bs) == (bs[0] as int) * 0x100_0000 + (bs[1] as int) * 0x1_0000 + (bs[2] as int) * 0x100 + bs[3]
  {
    var b0, b1, b2 := bs[0] as int, bs[1] as int, bs[2] as int;
    assert bs[..1][..0] == [] && bs[..2][..1] == bs[..1] && bs[..3][..2] == bs[..2] && bs[..4] == bs;
    assert BytesToUnsigned(bs[..1]) == b0;
    assert BytesToUnsigned(bs[..2]) == b0 * 0x100 + b1;
    assert BytesToUnsigned(bs[..3]) == (b0 * 0x100 + b1) * 0x100 + b2;
  }

  /** ByteBuf.writeInt: the four bytes of `x` in two's complement, big-endian. */
  function Int32ToBytes(x: Int32): (bs: seq<Byte>)
    ensures |bs| == 4
  {
    UnsignedToBytes(if x < 0 then x + 0x1_0000_0000 else x, INT_BYTES)
  }

  /** ByteBuf.readInt: the `int` whose two's-complement bytes are `bs`. */
  function BytesToInt32(bs: seq<Byte>): Int32
    requires |bs| == 4
  {
    Pow256Widths();
    var u := BytesToUnsigned(bs);
    if u < 0x8000_0000 then u else u - 0x1_0000_0000
  }

  /** ByteBuf.writeLong: the eight bytes of `x` in two's complement, big-endian. */
  function Int64ToBytes(x: Int64): (bs: seq<Byte>)
    ensures |bs| == 8
  {
    UnsignedToBytes(if x < 0 then x + 0x1_0000_0000_0000_0000 else x, LONG_BYTES)
  }

  /** ByteBuf.readLong: the `long` whose two's-complement bytes are `bs`. */
  function BytesToInt64(bs: seq<Byte>): Int64
    requires |bs| == 8
  {
    Pow256Widths();
    var u := BytesToUnsigned(bs);
    if u < 0x8000_0000_0000_0000 then u else u - 0x1_0000_0000_0000_0000
  }

  lemma Int32RoundTrip(x: Int32)
    ensures BytesToInt32(Int32ToBytes(x)) == x
  {
    Pow256Widths();
    UnsignedRoundTrip(if x < 0 then x + 0x1_0000_0000 else x, INT_BYTES);
  }

  lemma Int32BytesRoundTrip(bs: seq<Byte>)
    requires |bs| == 4
    ensures Int32ToBytes(BytesToInt32(bs)) == bs
  {
    Pow256Widths();
    BytesRoundTrip(bs);
  }

  lemma Int64RoundTrip(x: Int64)
    ensures BytesToInt64(Int64ToBytes(x)) == x
  {
    Pow256Widths();
    UnsignedRoundTrip(if x < 0 then x + 0x1_0000_0000_0000_0000 else x, LONG_BYTES);
  }

  lemma Int64BytesRoundTrip(bs: seq<Byte>)
    requires |bs| == 8
    ensures Int64ToBytes(BytesToInt64(bs)) == bs
  {
    Pow256Widths();
    BytesRoundTrip(bs);
  }

  /** The sign of a written `int` is the top bit of its first byte. */
  lemma Int32Sign(x: Int32)
    ensures Int32ToBytes(x)[0] >= 0x80 <==> x < 0
  {
    var bs := Int32ToBytes(x);
    Int32RoundTrip(x);
    BigEndian32(bs);
  }
}
