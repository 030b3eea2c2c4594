/** Bytes and the little-endian layout that every fixed-width field of the
    wire format uses (BinaryPrimitives.Write*LittleEndian / Read*LittleEndian). */
module Bytes {

  newtype byte = x: int | 0 <= x < 256

  /** 256^n: the number of distinct values of an n-byte field. */
  function Pow256(n: nat): (r: nat)
    ensures r >= 1
  {
    if n == 0 then 1 else 256 * Pow256(n - 1)
  }

  /** The n-byte little-endian layout of an unsigned value. */
  function LittleEndian(v: nat, width: nat): (r: seq<byte>)
    requires v < Pow256(width)
    ensures |r| == width
  {
    if width == 0 then [] else [(v % 256) as byte] + LittleEndian(v / 256, width - 1)
  }

  /** The unsigned value whose little-endian layout is s. */
  function FromLittleEndian(s: seq<byte>): (v: nat)
    ensures v < Pow256(|s|)
  {
    if s == [] then 0 else s[0] as nat + 256 * FromLittleEndian(s[1..])
  }

  lemma DivideByBase(v: nat, width: nat)
    requires width > 0 && v < Pow256(width)
    ensures v / 256 < Pow256(width - 1)
    ensures v == v % 256 + 256 * (v / 256)
  {
  }

  lemma SplitLowByte(b: byte, rest: nat)
    ensures (b as nat + 256 * rest) % 256 == b as nat
    ensures (b as nat + 256 * rest) / 256 == rest
  {
  }

  /** Reading back what was laid out gives the value. */
  lemma {:induction false} FromLittleEndianInverse(v: nat, width: nat)
    requires v < Pow256(width)
    ensures FromLittleEndian(LittleEndian(v, width)) == v
  {
    if width > 0 {
      DivideByBase(v, width);
      FromLittleEndianInverse(v / 256, width - 1);
      assert LittleEndian(v, width)[1..] == LittleEndian(v / 256, width - 1);
    }
  }

  /** Laying out what was read gives back the bytes: the layout is a bijection. */
  lemma {:induction false} LittleEndianInverse(s: seq<byte>)
    ensures LittleEndian(FromLittleEndian(s), |s|) == s
  {
    if s != [] {
      var rest := FromLittleEndian(s[1..]);
      SplitLowByte(s[0], rest);
      LittleEndianInverse(s[1..]);
    }
  }

  /** Two's-complement layout of a signed value in `width` bytes; values
      outside the signed range wrap, as an unchecked C# cast does. */
  function SignedLittleEndian(v: int, width: nat): (r: seq<byte>)
    ensures |r| == width
  {
    LittleEndian(v % Pow256(width), width)
  }

  /** Half of 256^n: the bound of the signed values of an n-byte field. */
  function SignedBound(width: nat): (h: int)
    ensures h >= 0
  {
    if width == 0 then 0 else 128 * Pow256(width - 1)
  }

  /** The signed value of a two's-complement little-endian field. */
  function SignedFromLittleEndian(s: seq<byte>): (v: int)
    requires |s| > 0
    ensures -SignedBound(|s|) <= v < SignedBound(|s|)
  {
    var u := FromLittleEndian(s);
    HalfPow256(|s|);
    if u < SignedBound(|s|) then u else u - Pow256(|s|)
  }

  lemma HalfPow256(width: nat)
    requires width > 0
    ensures Pow256(width) == 2 * SignedBound(width)
  {
  }

  /** A signed value in range survives the two's-complement round trip. */
  lemma SignedInverse(v: int, width: nat)
    requires width > 0
    requires -SignedBound(width) <= v < SignedBound(width)
    ensures SignedFromLittleEndian(SignedLittleEndian(v, width)) == v
  {
    HalfPow256(width);
    var m := Pow256(width);
    if v < 0 {
      ModOfShifted(v, m);
    } else {
      ModOfShifted(v - m, m);
    }
    FromLittleEndianInverse(v % m, width);
  }

  /** An unsigned field value read as the signed value with the same bits
      (an unchecked C# cast such as (short)c) has the same layout. */
  lemma UnsignedAsSigned(u: int, width: nat)
    requires width > 0 && Unsigned(u, width)
    ensures var s := if u < SignedBound(width) then u else u - Pow256(width);
      Signed(s, width) && SignedLittleEndian(s, width) == LittleEndian(u, width)
  {
    HalfPow256(width);
    var m := Pow256(width);
    ModOfShifted(u - m, m);
  }

  lemma ModOfShifted(v: int, m: int)
    requires m > 0 && 0 <= v + m < m
    ensures (v + m) % m == v + m && v % m == v + m
  {
  }

  /** Zero bytes: the default value of every fixed-width field. */
  function Zeros(n: nat): (r: seq<byte>)
    ensures |r| == n && forall i | 0 <= i < n :: r[i] == 0
  {
    seq(n, _ => 0 as byte)
  }

  lemma ZerosReadAsZero(n: nat)
    ensures FromLittleEndian(Zeros(n)) == 0
  {
    if n > 0 {
      assert Zeros(n)[1..] == Zeros(n - 1);
      ZerosReadAsZero(n - 1);
    }
  }

  lemma Pow256Widths()
    ensures Pow256(1) == 0x100
    ensures Pow256(2) == 0x1_0000
    ensures Pow256(4) == 0x1_0000_0000
    ensures Pow256(8) == 0x1_0000_0000_0000_0000
  {
    assert Pow256(1) == 256 * Pow256(0);
    assert Pow256(2) == 256 * Pow256(1);
    assert Pow256(3) == 256 * Pow256(2);
    assert Pow256(4) == 256 * Pow256(3);
    assert Pow256(8) == 256 * 256 * 256 * 256 * Pow256(4);
  }

  /** A C# integer of `width` bytes: signed or unsigned. */
  predicate Signed(v: int, width: nat) { -SignedBound(width) <= v < SignedBound(width) }

  predicate Unsigned(v: int, width: nat) { 0 <= v < Pow256(width) }

  // Widths of the fixed-width fields, in bytes.
  const ByteSize: nat := 1
  const ShortSize: nat := 2
  const IntSize: nat := 4
  const LongSize: nat := 8
  const FloatSize: nat := 4
  const DoubleSize: nat := 8
  const DecimalSize: nat := 16
  const GuidSize: nat := 16

  const Int32Min: int := -0x8000_0000
  const Int32Max: int := 0x7FFF_FFFF

  predicate IsInt32(v: int) { Int32Min <= v <= Int32Max }

  /** The 4-byte little-endian layout of an int (BinaryPrimitives.WriteInt32LittleEndian). */
  function Int32Bytes(v: int): (r: seq<byte>)
    ensures |r| == IntSize
  {
    SignedLittleEndian(v, IntSize)
  }

  /** The int stored in four little-endian bytes (BinaryPrimitives.ReadInt32LittleEndian). */
  function Int32Of(s: seq<byte>): (v: int)
    requires |s| == IntSize
    ensures IsInt32(v)
  {
    SignedFromLittleEndian(s)
  }

  lemma Int32RoundTrip(v: int)
    requires IsInt32(v)
    ensures Int32Of(Int32Bytes(v)) == v
  {
    assert Pow256(4) == 0x1_0000_0000;
    SignedInverse(v, IntSize);
  }

  lemma Int32OfZeros()
    ensures Int32Of(Zeros(IntSize)) == 0
  {
    ZerosReadAsZero(IntSize);
  }

  /** Concatenation is associative (a step Dafny's sequence reasoning
      otherwise has to rediscover by extensionality). */
  lemma AppendAssoc(a: seq<byte>, b: seq<byte>, c: seq<byte>)
    ensures a + (b + c) == (a + b) + c
  {
  }
}
