/** Java's fixed-width integers and the big-endian layout `java.nio.ByteBuffer`
    uses for them. Bytes are kept as their unsigned bit pattern 0..255. */
module Bytes {

  type byte = x: int | 0 <= x < 256

  const TwoTo31: int := 0x8000_0000
  const TwoTo32: int := 0x1_0000_0000
  const TwoTo63: int := 0x8000_0000_0000_0000
  const TwoTo64: int := 0x1_0000_0000_0000_0000

  /** The value ranges of Java `int` and `long`. */
  type Int32 = x: int | -TwoTo31 <= x < TwoTo31
  type Int64 = x: int | -TwoTo63 <= x < TwoTo63

  /** Two's-complement wrap-around of Java `int` arithmetic. */
  function WrapInt32(x: int): (r: Int32)
    ensures -TwoTo31 <= x < TwoTo31 ==> r == x
  {
    ((x + TwoTo31) % TwoTo32) - TwoTo31
  }

  /** Two's-complement wrap-around of Java `long` arithmetic. */
  function WrapInt64(x: int): (r: Int64)
    ensures -TwoTo63 <= x < TwoTo63 ==> r == x
  {
    ((x + TwoTo63) % TwoTo64) - TwoTo63
  }

  /** Java `long` subtraction: the exact difference, brought back into range
      by one turn of 2^64 when it overflows. */
  function SubInt64(a: Int64, b: Int64): Int64 {
    var d := a - b;
    if d >= TwoTo63 then d - TwoTo64 else if d < -TwoTo63 then d + TwoTo64 else d
  }

  /** `SubInt64` is the two's-complement wrap of the exact difference, and
      the exact difference whenever that fits. */
  lemma SubInt64Wraps(a: Int64, b: Int64)
    ensures SubInt64(a, b) == WrapInt64(a - b)
    ensures -TwoTo63 <= a - b < TwoTo63 ==> SubInt64(a, b) == a - b
  {
  }

  function Pow256(n: nat): (r: nat)
    ensures r > 0
  {
    if n == 0 then 1 else 256 * Pow256(n - 1)
  }

  lemma Pow256Widths()
    ensures Pow256(4) == TwoTo32
    ensures Pow256(8) == TwoTo64
  {
    assert Pow256(1) == 256;
    assert Pow256(2) == 0x1_0000;
    assert Pow256(3) == 0x100_0000;
    assert Pow256(4) == 0x1_0000_0000;
    assert Pow256(5) == 0x100_0000_0000;
    assert Pow256(6) == 0x1_0000_0000_0000;
    assert Pow256(7) == 0x100_0000_0000_0000;
  }

  /** The unsigned value of a big-endian byte sequence. */
  function Unsigned(bs: seq<byte>): (r: nat)
    ensures r < Pow256(|bs|)
  {
    if |bs| == 0 then 0 else Unsigned(bs[..|bs| - 1]) * 256 + bs[|bs| - 1]
  }

  /** The `width` big-endian bytes of `u`. */
  function EncodeUnsigned(u: nat, width: nat): (bs: seq<byte>)
    requires u < Pow256(width)
    ensures |bs| == width
    ensures Unsigned(bs) == u
  {
    if width == 0 then []
    else
      var high := EncodeUnsigned(u / 256, width - 1);
      var bs := high + [u % 256];
      assert bs[..|bs| - 1] == high;
      bs
  }

  /** Encoding is also a left inverse of decoding: a byte sequence is
      determined by its width and value. */
  lemma {:induction false} EncodeUnsignedOfUnsigned(bs: seq<byte>)
    ensures EncodeUnsigned(Unsigned(bs), |bs|) == bs
  {
    if |bs| > 0 {
      var init := bs[..|bs| - 1];
      EncodeUnsignedOfUnsigned(init);
      assert Unsigned(bs) / 256 == Unsigned(init);
      assert Unsigned(bs) % 256 == bs[|bs| - 1];
      assert bs == init + [bs[|bs| - 1]];
    }
  }

  /** `ByteBuffer.getLong` on eight bytes: big-endian two's complement. */
  function ReadLong(bs: seq<byte>): (r: Int64)
    requires |bs| == 8
    ensures r >= 0 <==> bs[0] < 128
  {
    Pow256Widths();
    var u := Unsigned(bs);
    UnsignedHighByte(bs);
    if u < TwoTo63 then u else u - TwoTo64
  }

  /** `ByteBuffer.putLong`. */
  function PutLong(x: Int64): (bs: seq<byte>)
    ensures |bs| == 8
    ensures ReadLong(bs) == x
  {
    Pow256Widths();
    var bs := EncodeUnsigned(if x >= 0 then x else x + TwoTo64, 8);
    UnsignedHighByte(bs);
    bs
  }

  /** `ByteBuffer.getInt` on four bytes. */
  function ReadInt(bs: seq<byte>): Int32
    requires |bs| == 4
  {
    Pow256Widths();
    var u := Unsigned(bs);
    if u < TwoTo31 then u else u - TwoTo32
  }

  /** `ByteBuffer.putInt`. */
  function PutInt(x: Int32): (bs: seq<byte>)
    ensures |bs| == 4
    ensures ReadInt(bs) == x
  {
    Pow256Widths();
    EncodeUnsigned(if x >= 0 then x else x + TwoTo32, 4)
  }

  /** The sign bit of a long sits in the top bit of its first byte. */
  lemma UnsignedHighByte(bs: seq<byte>)
    requires |bs| == 8
    ensures Unsigned(bs) < TwoTo63 <==> bs[0] < 128
  {
    Pow256Widths();
    UnsignedSplit(bs);
  }

  lemma {:induction false} UnsignedSplit(bs: seq<byte>)
    requires |bs| >= 1
    ensures Unsigned(bs) == bs[0] * Pow256(|bs| - 1) + Unsigned(bs[1..])
  {
    if |bs| > 1 {
      var init := bs[..|bs| - 1];
      var tail := bs[1..];
      UnsignedSplit(init);
      assert init[1..] == tail[..|tail| - 1];
      ShiftByte(bs[0], Pow256(|bs| - 2), Unsigned(init[1..]), bs[|bs| - 1]);
    } else {
      assert bs[1..] == [];
    }
  }

  /** One more byte at the low end shifts the rest up by a byte. */
  lemma ShiftByte(high: int, p: int, middle: int, low: int)
    ensures (high * p + middle) * 256 + low == high * (256 * p) + (middle * 256 + low)
  {
  }

}
