/** The fixed-width scalar codec: `bool` as one byte, and the integer, `char`
    and floating-point kinds as their `BitConverter` bytes (BinarySerializer.cs,
    ReadBool .. ReadUShort and WriteBool .. WriteUShort). */
module Scalars {
  import opened Bytes

  /** Every scalar kind that is written as a fixed number of `BitConverter` bytes.
      `Char16` is a UTF-16 code unit; `Float32`/`Float64` carry the raw IEEE 754 bit
      pattern, which is exactly what `BitConverter` copies. */
  datatype NumKind =
    | UInt8 | Int8 | Char16 | Int16 | UInt16 | Int32 | UInt32 | Int64 | UInt64 | Float32 | Float64
  {
    /** `Marshal.SizeOf` of the .NET type (for `char`, the 16-bit unit written by WriteChar16). */
    function Size(): nat
    {
      match this
      case UInt8 | Int8 => 1
      case Char16 | Int16 | UInt16 => 2
      case Int32 | UInt32 | Float32 => 4
      case Int64 | UInt64 | Float64 => 8
    }

    predicate Signed()
    {
      this == Int8 || this == Int16 || this == Int32 || this == Int64
    }

    /** Values representable by the kind: two's complement for signed kinds, else unsigned. */
    predicate InRange(n: int)
    {
      var range: int := Pow256(Size());
      if Signed() then -(range / 2) <= n < range / 2 else 0 <= n < range
    }
  }

  const MinInt32: int := -0x8000_0000
  const MaxInt32: int := 0x7FFF_FFFF

  lemma Int32Range(n: int)
    ensures Int32.InRange(n) <==> MinInt32 <= n <= MaxInt32
  {
    assert Pow256(4) == 0x1_0000_0000;
  }

  /** A boxed scalar value. */
  datatype Scalar = BoolVal(b: bool) | NumVal(kind: NumKind, n: int)
  {
    predicate Valid() { NumVal? ==> kind.InRange(n) }
  }

  /** The unsigned number with the same bits (an unchecked cast to the unsigned type). */
  function Unsigned(k: NumKind, n: int): (u: nat)
    requires k.InRange(n)
    ensures u < Pow256(k.Size())
  {
    if n < 0 then n + Pow256(k.Size()) else n
  }

  /** `BitConverter.GetBytes` for the kind `k`. */
  function EncodeNum(k: NumKind, n: int): (bs: seq<Byte>)
    requires k.InRange(n)
    ensures |bs| == k.Size()
  {
    LittleEndian(Unsigned(k, n), k.Size())
  }

  /** `BitConverter.ToXxx(bytes, 0)` for the kind `k`. */
  function DecodeNum(k: NumKind, bs: seq<Byte>): (n: int)
    requires |bs| == k.Size()
    ensures k.InRange(n)
  {
    var u := FromLittleEndian(bs);
    FromLittleEndianBound(bs);
    if k.Signed() && u >= Pow256(k.Size()) / 2 then u - Pow256(k.Size()) else u
  }

  /** Writing a scalar and reading it back with the same kind is the identity. */
  lemma NumRoundTrip(k: NumKind, n: int)
    requires k.InRange(n)
    ensures DecodeNum(k, EncodeNum(k, n)) == n
  {
    LittleEndianRoundTrip(Unsigned(k, n), k.Size());
  }

  /** Every `Size()`-byte pattern is the encoding of the value it decodes to: the codec is a bijection. */
  lemma NumBytesRoundTrip(k: NumKind, bs: seq<Byte>)
    requires |bs| == k.Size()
    ensures EncodeNum(k, DecodeNum(k, bs)) == bs
  {
    FromLittleEndianBound(bs);
    BytesRoundTrip(bs);
  }

  /** WriteBool: one byte, 1 for true and 0 for false. */
  function EncodeBool(b: bool): (bs: seq<Byte>)
    ensures |bs| == 1 && DecodeBool(bs[0]) == b
  {
    [if b then 1 else 0]
  }

  /** ReadBool: any nonzero byte is true. */
  function DecodeBool(x: Byte): bool
  {
    x != 0
  }

  lemma BoolLayout(b: bool)
    ensures |EncodeBool(b)| == 1
    ensures EncodeBool(b)[0] == 0 || EncodeBool(b)[0] == 1
    ensures DecodeBool(EncodeBool(b)[0]) == b
  {
  }

  /** The codec is injective on 0 and 1 only: every nonzero byte reads as true and a zero byte
      as false, so only the bytes 0 and 1 are written back unchanged. */
  lemma BoolBytes(x: Byte)
    ensures DecodeBool(x) <==> x != 0
    ensures EncodeBool(DecodeBool(x)) == [x] <==> x == 0 || x == 1
  {
  }
}
