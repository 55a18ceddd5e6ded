/**
 * Bytes and the fixed-width integer codec that the storage formats use.
 *
 * The repository's `Parser` class (long/int to bytes and back) is not part of this model. It is
 * modelled here as a big-endian two's-complement codec, which is what `java.nio.ByteBuffer` does by
 * default; the rest of the model relies only on the width of each field and on the round trips
 * proved below, never on the byte order.
 */
module Bytes {

  /** An unsigned view of a Java `byte`. */
  type Byte = b: int | 0 <= b < 256

  const TWO_31: int := 0x8000_0000
  const TWO_32: int := 0x1_0000_0000
  const TWO_63: int := 0x8000_0000_0000_0000
  const TWO_64: int := 0x1_0000_0000_0000_0000

  predicate IsInt32(x: int) { -TWO_31 <= x < TWO_31 }
  predicate IsInt64(x: int) { -TWO_63 <= x < TWO_63 }

  /** The value Java sees when it reads the byte `b` as a signed `byte`. */
  function Signed(b: Byte): (r: int)
    ensures -128 <= r < 128
    ensures r % 256 == b
  {
    if b < 128 then b else b - 256
  }

  /** Java's `int` arithmetic: the 32-bit two's-complement value congruent to `v`. */
  function Wrap32(v: int): (r: int)
    ensures IsInt32(r)
    ensures IsInt32(v) ==> r == v
    decreases if v >= TWO_31 then v else if v < -TWO_31 then -v else 0
  {
    if v >= TWO_31 then Wrap32(v - TWO_32)
    else if v < -TWO_31 then Wrap32(v + TWO_32)
    else v
  }

  /** `Wrap32` keeps the value modulo 2^32. */
  lemma {:induction false} Wrap32Congruent(v: int)
    ensures (Wrap32(v) - v) % TWO_32 == 0
    decreases if v >= TWO_31 then v else if v < -TWO_31 then -v else 0
  {
    if v >= TWO_31 {
      Wrap32Congruent(v - TWO_32);
    } else if v < -TWO_31 {
      Wrap32Congruent(v + TWO_32);
    }
  }

  function Pow256(n: nat): (r: nat)
    ensures r > 0
  {
    if n == 0 then 1 else 256 * Pow256(n - 1)
  }

  lemma Pow256Widths()
    ensures Pow256(4) == TWO_32 && Pow256(8) == TWO_64
  {
    assert Pow256(1) == 256;
    assert Pow256(2) == 65536;
    assert Pow256(3) == 16777216;
    assert Pow256(4) == TWO_32;
    assert Pow256(5) == 256 * TWO_32;
    assert Pow256(6) == 65536 * TWO_32;
    assert Pow256(7) == 16777216 * TWO_32;
  }

  function Zeros(n: nat): (r: seq<Byte>)
    ensures |r| == n && forall i :: 0 <= i < n ==> r[i] == 0
  {
    seq(n, _ => 0)
  }

  /** The `n` big-endian base-256 digits of `u`. */
  function UnsignedToBytes(u: nat, n: nat): (r: seq<Byte>)
    requires u < Pow256(n)
    ensures |r| == n
  {
    if n == 0 then [] else UnsignedToBytes(u / 256, n - 1) + [u % 256]
  }

  /** The number whose big-endian base-256 digits are `b`. */
  function BytesToUnsigned(b: seq<Byte>): (r: nat)
    ensures r < Pow256(|b|)
  {
    if b == [] then 0 else BytesToUnsigned(b[..|b| - 1]) * 256 + b[|b| - 1]
  }

  lemma {:induction false} UnsignedRoundTrip(u: nat, n: nat)
    requires u < Pow256(n)
    ensures BytesToUnsigned(UnsignedToBytes(u, n)) == u
  {
    if n > 0 {
      var s := UnsignedToBytes(u, n);
      assert s[..n - 1] == UnsignedToBytes(u / 256, n - 1);
      UnsignedRoundTrip(u / 256, n - 1);
    }
  }

  lemma {:induction false} BytesRoundTrip(b: seq<Byte>)
    ensures UnsignedToBytes(BytesToUnsigned(b), |b|) == b
  {
    if b != [] {
      var p := b[..|b| - 1];
      BytesRoundTrip(p);
      var u := BytesToUnsigned(b);
      assert u / 256 == BytesToUnsigned(p);
      assert u % 256 == b[|b| - 1];
      assert b == p + [b[|b| - 1]];
    }
  }

  /** Four big-endian digits, written out. */
  lemma Unsigned4(b: seq<Byte>)
    requires |b| == 4
    ensures BytesToUnsigned(b) == b[0] as int * 0x100_0000 + b[1] as int * 0x1_0000 + b[2] as int * 0x100 + b[3]
  {
    assert b[..3][..2] == b[..2] && b[..3][2] == b[2];
    assert b[..2][..1] == b[..1] && b[..2][1] == b[1];
    assert b[..1][..0] == [] && b[..1][0] == b[0];
    assert BytesToUnsigned(b[..1]) == b[0];
    assert BytesToUnsigned(b[..2]) == b[0] as int * 256 + b[1];
    assert BytesToUnsigned(b[..3]) == (b[0] as int * 256 + b[1]) * 256 + b[2];
  }

  /** `Parser.int2Byte`: four bytes holding a Java `int`. */
  function Int2Bytes(x: int): (r: seq<Byte>)
    requires IsInt32(x)
    ensures |r| == 4
  {
    Pow256Widths();
    UnsignedToBytes(if x < 0 then x + TWO_32 else x, 4)
  }

  /** `Parser.parseInt`: the Java `int` held in four bytes. */
  function ParseInt(b: seq<Byte>): (r: int)
    requires |b| == 4
    ensures IsInt32(r)
  {
    Pow256Widths();
    var u := BytesToUnsigned(b);
    if u >= TWO_31 then u - TWO_32 else u
  }

  /** `Parser.long2Byte`: eight bytes holding a Java `long`. */
  function Long2Bytes(x: int): (r: seq<Byte>)
    requires IsInt64(x)
    ensures |r| == 8
  {
    Pow256Widths();
    UnsignedToBytes(if x < 0 then x + TWO_64 else x, 8)
  }

  /** `Parser.parseLong`: the Java `long` held in eight bytes. */
  function ParseLong(b: seq<Byte>): (r: int)
    requires |b| == 8
    ensures IsInt64(r)
  {
    Pow256Widths();
    var u := BytesToUnsigned(b);
    if u >= TWO_63 then u - TWO_64 else u
  }

  lemma IntRoundTrip(x: int)
    requires IsInt32(x)
    ensures ParseInt(Int2Bytes(x)) == x
  {
    Pow256Widths();
    UnsignedRoundTrip(if x < 0 then x + TWO_32 else x, 4);
  }

  lemma IntBytesRoundTrip(b: seq<Byte>)
    requires |b| == 4
    ensures Int2Bytes(ParseInt(b)) == b
  {
    Pow256Widths();
    BytesRoundTrip(b);
  }

  lemma LongRoundTrip(x: int)
    requires IsInt64(x)
    ensures ParseLong(Long2Bytes(x)) == x
  {
    Pow256Widths();
    UnsignedRoundTrip(if x < 0 then x + TWO_64 else x, 8);
  }

  lemma LongBytesRoundTrip(b: seq<Byte>)
    requires |b| == 8
    ensures Long2Bytes(ParseLong(b)) == b
  {
    Pow256Widths();
    BytesRoundTrip(b);
  }

  lemma ZerosParseAsZero()
    ensures ParseLong(Zeros(8)) == 0 && ParseInt(Zeros(4)) == 0
    ensures Long2Bytes(0) == Zeros(8) && Int2Bytes(0) == Zeros(4)
  {
    Pow256Widths();
    ZerosUnsigned(8);
    ZerosUnsigned(4);
    LongBytesRoundTrip(Zeros(8));
    IntBytesRoundTrip(Zeros(4));
  }

  lemma {:induction false} ZerosUnsigned(n: nat)
    ensures BytesToUnsigned(Zeros(n)) == 0
  {
    if n > 0 {
      assert Zeros(n)[..n - 1] == Zeros(n - 1);
      ZerosUnsigned(n - 1);
    }
  }
}
