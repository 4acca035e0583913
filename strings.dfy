/** Reading from a stream of bytes: the single byte, the fixed-width read `Read<T>` and
    the three length-prefixed string framings of BinarySerializer.cs. Every decoder takes
    the bytes of the stream not yet read and returns the value with the bytes left after
    it, or the exception the serializer raises. */
module Strings {
  import opened Errors
  import opened Bytes
  import opened Scalars
  import opened Unicode

  // ---------------------------------------------------------------- fixed width

  /** ReadByte: one byte, or EndOfStream when none is left. */
  function ByteAt(s: seq<Byte>): (r: Result<Parsed<Byte>>)
    ensures r.Ok? <==> |s| > 0
    ensures r.Ok? ==> |r.value.rest| == |s| - 1
    ensures r.Err? ==> r.error == EndOfStream
  {
    if |s| > 0 then Ok(Parsed(s[0], s[1..])) else Err(EndOfStream)
  }

  /** Read<T>: the next `size` bytes, or EndOfStream when fewer are left. */
  function RawAt(s: seq<Byte>, size: nat): (r: Result<Parsed<seq<Byte>>>)
    ensures r.Ok? <==> size <= |s|
    ensures r.Ok? ==> |r.value.value| == size && |r.value.rest| == |s| - size
    ensures r.Err? ==> r.error == EndOfStream
  {
    if size <= |s| then Ok(Parsed(s[..size], s[size..])) else Err(EndOfStream)
  }

  /** ReadSByte, ReadChar .. ReadUShort: `BitConverter.ToXxx(Read<T>(), 0)` for kind `k`.
      A single byte (`UInt8`, `Int8`) is read with ReadByte, which fails the same way. */
  function NumAt(k: NumKind, s: seq<Byte>): (r: Result<Parsed<int>>)
    ensures r.Ok? <==> k.Size() <= |s|
    ensures r.Ok? ==> |r.value.rest| == |s| - k.Size() && k.InRange(r.value.value)
    ensures r.Err? ==> r.error == EndOfStream
  {
    match RawAt(s, k.Size())
    case Err(e) => Err(e)
    case Ok(Parsed(bs, rest)) => Ok(Parsed(DecodeNum(k, bs), rest))
  }

  /** ReadBool: `ReadByte() != 0`. */
  function BoolAt(s: seq<Byte>): (r: Result<Parsed<bool>>)
    ensures r.Ok? <==> |s| > 0
    ensures r.Ok? ==> |r.value.rest| == |s| - 1 && (r.value.value <==> s[0] != 0)
    ensures r.Err? ==> r.error == EndOfStream
  {
    match ByteAt(s)
    case Err(e) => Err(e)
    case Ok(Parsed(b, rest)) => Ok(Parsed(DecodeBool(b), rest))
  }

  /** A number written with its kind's bytes is read back by the same kind, with exactly
      what followed it left unread. */
  lemma NumAtRoundTrip(k: NumKind, n: int, rest: seq<Byte>)
    requires k.InRange(n)
    ensures NumAt(k, EncodeNum(k, n) + rest) == Ok(Parsed(n, rest))
  {
    var bs := EncodeNum(k, n);
    assert (bs + rest)[..|bs|] == bs;
    assert (bs + rest)[|bs|..] == rest;
    NumRoundTrip(k, n);
  }

  lemma BoolAtRoundTrip(b: bool, rest: seq<Byte>)
    ensures BoolAt(EncodeBool(b) + rest) == Ok(Parsed(b, rest))
  {
    assert (EncodeBool(b) + rest)[1..] == rest;
  }

  /** The 32-bit length prefix of every string. */
  function Int32Bytes(n: int): (bs: seq<Byte>)
    requires MinInt32 <= n <= MaxInt32
    ensures |bs| == 4
  {
    Int32Range(n);
    EncodeNum(Int32, n)
  }

  lemma Int32AtRoundTrip(n: int, rest: seq<Byte>)
    requires MinInt32 <= n <= MaxInt32
    ensures NumAt(Int32, Int32Bytes(n) + rest) == Ok(Parsed(n, rest))
  {
    Int32Range(n);
    NumAtRoundTrip(Int32, n, rest);
  }

  // ---------------------------------------------------------------- string framing

  /** `mStream.Read(buffer, 0, count)` into a fresh zeroed buffer of `count` bytes, with
      the count it returns ignored: what is left of the stream, up to `count` bytes,
      followed by zeros, and the stream after what was there. */
  function Payload(s: seq<Byte>, count: nat): (r: Parsed<seq<Byte>>)
    ensures |r.value| == count && |r.rest| == |s| - Min(count, |s|)
    ensures forall i :: 0 <= i < count ==> r.value[i] == if i < |s| then s[i] else 0
  {
    var k := Min(count, |s|);
    Parsed(s[..k] + Zeros(count - k), s[k..])
  }

  /** The common shape of the three string readers: a 32-bit length, `None` (null) when it
      is negative, else a payload whose size `size(len)` that length determines. */
  datatype Framing = Ascii | Wide | Utf8Text
  {
    /** The payload size for a nonnegative prefix, or None when `new byte[...]` overflows. */
    function PayloadSize(len: nat): (size: Option<nat>)
    {
      match this
      case Ascii | Utf8Text => Some(len)
      case Wide => if len < 0x4000_0000 then Some(2 * len) else None
    }

    function Decode(bs: seq<Byte>): string
      requires this == Wide ==> |bs| % 2 == 0
    {
      match this
      case Ascii => FromAscii(bs)
      case Wide => FromWideBytes(bs)
      case Utf8Text => FromUtf8(bs)
    }

    /** What the matching writer puts after the prefix, and the prefix it writes. */
    function Encode(s: string): seq<Byte>
    {
      match this
      case Ascii => AsciiBytes(s)
      case Wide => WideBytes(s)
      case Utf8Text => Utf8(s)
    }

    function Prefix(s: string): int
    {
      match this
      case Ascii | Wide => |Utf16(s)|
      case Utf8Text => |Utf8(s)|
    }

    /** The strings the writer can frame: the prefix fits 32 bits and the encoded bytes
        fit one .NET array. */
    predicate Fits(s: string)
    {
      Prefix(s) <= MaxInt32 && |Encode(s)| <= MaxInt32
    }
  }

  /** An ASCII string is one code unit, and one narrow byte, per character. */
  lemma AsciiFits(s: string)
    requires IsAscii(s) && |s| <= MaxInt32
    ensures Ascii.Fits(s)
  {
    AsciiUnits(s);
  }

  /** ReadString8 (`Ascii`), ReadString16 (`Wide`) and ReadStringUtf8 (`Utf8Text`). */
  function StringAt(f: Framing, s: seq<Byte>): (r: Result<Parsed<Option<string>>>)
    ensures r.Ok? ==> |r.value.rest| <= |s| - 4
    ensures r.Err? <==> (|s| < 4 ||
      var len := DecodeNum(Int32, s[..4]); len >= 0 && f.PayloadSize(len).None?)
    ensures r.Err? && |s| < 4 ==> r.error == EndOfStream
    ensures r.Err? && |s| >= 4 ==> r.error == Overflow
  {
    match NumAt(Int32, s)
    case Err(e) => Err(e)
    case Ok(Parsed(len, tail)) =>
      if len < 0 then Ok(Parsed(None, tail))
      else
        match f.PayloadSize(len)
        case None => Err(Overflow)
        case Some(size) =>
          var buffer := Payload(tail, size);
          Ok(Parsed(Some(f.Decode(buffer.value)), buffer.rest))
  }

  /** WriteString8, WriteString16 and WriteStringUtf8: -1 for null, else the prefix and the
      encoded characters. */
  function StringBytes(f: Framing, s: Option<string>): (bs: seq<Byte>)
    requires s.Some? ==> f.Fits(s.value)
  {
    match s
    case None => Int32Bytes(-1)
    case Some(v) => Int32Bytes(f.Prefix(v)) + f.Encode(v)
  }

  // ---------------------------------------------------------------- lemmas

  /** Null is written as the four bytes of -1, by every framing. */
  lemma NullLayout(f: Framing)
    ensures StringBytes(f, None) == [0xFF, 0xFF, 0xFF, 0xFF]
  {
    assert Pow256(4) == 0x1_0000_0000;
  }

  /** A non-null string is its 32-bit length prefix followed by its payload: the narrow and
      wide prefixes count UTF-16 code units (the C# `Length`), with one narrow byte and two
      wide bytes per unit, and the UTF-8 prefix counts the payload bytes. */
  lemma StringLayout(f: Framing, s: string)
    requires f.Fits(s)
    ensures |StringBytes(f, Some(s))| == 4 + |f.Encode(s)|
    ensures StringBytes(f, Some(s))[..4] == Int32Bytes(f.Prefix(s))
    ensures StringBytes(f, Some(s))[4..] == f.Encode(s)
    ensures f == Ascii ==> f.Prefix(s) == |Utf16(s)| == |f.Encode(s)|
    ensures f == Wide ==> f.Prefix(s) == |Utf16(s)| && |f.Encode(s)| == 2 * f.Prefix(s)
    ensures f == Utf8Text ==> f.Prefix(s) == |f.Encode(s)|
  {
    var prefix := Int32Bytes(f.Prefix(s));
    assert (prefix + f.Encode(s))[..4] == prefix;
    assert (prefix + f.Encode(s))[4..] == f.Encode(s);
  }

  /** Every negative prefix, not only -1, is read back as null, with nothing read after it. */
  lemma NegativeIsNull(f: Framing, n: int, rest: seq<Byte>)
    requires MinInt32 <= n < 0
    ensures StringAt(f, Int32Bytes(n) + rest) == Ok(Parsed(None, rest))
  {
    Int32AtRoundTrip(n, rest);
  }

  /** The payload count is not checked: a nonnegative prefix followed by fewer bytes than it
      announces still reads a string, padded with zero bytes, and leaves nothing unread. */
  lemma TruncatedPayload(f: Framing, n: nat, tail: seq<Byte>)
    requires n <= MaxInt32 && f.PayloadSize(n).Some? && |tail| < f.PayloadSize(n).value
    ensures var size := f.PayloadSize(n).value;
      StringAt(f, Int32Bytes(n) + tail) == Ok(Parsed(Some(f.Decode(tail + Zeros(size - |tail|))), []))
  {
    Int32AtRoundTrip(n, tail);
    var size := f.PayloadSize(n).value;
    assert tail[..|tail|] == tail;
  }

  /** Framing then reading a string gives it back, null included, with exactly what followed
      it left unread; except that the narrow framing gives back exactly the ASCII strings. */
  lemma StringRoundTrip(f: Framing, s: Option<string>, rest: seq<Byte>)
    requires s.Some? ==> f.Fits(s.value)
    requires f == Wide && s.Some? ==> |Utf16(s.value)| < 0x4000_0000
    ensures StringAt(f, StringBytes(f, s) + rest).Ok?
    ensures StringAt(f, StringBytes(f, s) + rest).value.rest == rest
    ensures StringAt(f, StringBytes(f, s) + rest).value.value == s <==> f != Ascii || s.None? || IsAscii(s.value)
  {
    match s
    case None =>
      NegativeIsNull(f, -1, rest);
    case Some(v) =>
      var prefix := Int32Bytes(f.Prefix(v));
      var bs := f.Encode(v);
      assert (prefix + bs) + rest == prefix + (bs + rest);
      Int32AtRoundTrip(f.Prefix(v), bs + rest);
      var size := f.PayloadSize(f.Prefix(v)).value;
      assert size == |bs|;
      assert (bs + rest)[..|bs|] == bs;
      assert (bs + rest)[|bs|..] == rest;
      assert Payload(bs + rest, size).value == bs;
      match f
      case Ascii => AsciiRoundTrip(v);
      case Wide => WideRoundTrip(v);
      case Utf8Text => Utf8RoundTrip(v);
  }

  /** A character above U+FFFF is two code units, so WriteString8 writes the prefix 2 and
      one '?' per unit; ReadString8 reads both and stops where the next value starts. */
  lemma NarrowSurrogatePair()
    ensures StringBytes(Ascii, Some("\U{1F600}")) == [2, 0, 0, 0, 0x3F, 0x3F]
    ensures StringAt(Ascii, [2, 0, 0, 0, 0x3F, 0x3F, 7]) == Ok(Parsed(Some("??"), [7]))
  {
    EmojiUnits();
    Int32Bits();
    var p: seq<Byte> := [0x3F, 0x3F];
    assert [2, 0, 0, 0, 0x3F, 0x3F, 7] == [2, 0, 0, 0] + (p + [7]);
    NarrowPairRead(p, [7]);
  }

  /** U+1F600 is the surrogate pair D83D DE00, and '?' '?' narrow. */
  lemma EmojiUnits()
    ensures Utf16("\U{1F600}") == [0xD83D, 0xDE00]
    ensures AsciiBytes("\U{1F600}") == [0x3F, 0x3F]
  {
    assert Utf16("\U{1F600}") == CharUnits('\U{1F600}') + Utf16([]);
  }

  lemma Int32Bits()
    ensures Int32Bytes(2) == [2, 0, 0, 0]
  {
    assert Pow256(4) == 0x1_0000_0000;
  }

  lemma NarrowPairRead(p: seq<Byte>, rest: seq<Byte>)
    requires p == [0x3F, 0x3F]
    ensures StringAt(Ascii, [2, 0, 0, 0] + (p + rest)) == Ok(Parsed(Some("??"), rest))
  {
    Int32Bits();
    Int32AtRoundTrip(2, p + rest);
    assert (p + rest)[..2] == p && (p + rest)[2..] == rest;
    assert p + Zeros(0) == p;
    var text := FromAscii(p);
    assert text[0] == '?' && text[1] == '?';
    assert text == "??";
  }

  /** The payload announced by a nonnegative prefix is not all there. */
  predicate Truncated(f: Framing, s: seq<Byte>)
  {
    |s| >= 4 &&
    var len := DecodeNum(Int32, s[..4]);
    len >= 0 && f.PayloadSize(len).Some? && |s| - 4 < f.PayloadSize(len).value
  }

  /** The string readers as intended: like Read<T>, a payload cut short raises
      EndOfStream instead of being padded with zeros. */
  function CheckedStringAt(f: Framing, s: seq<Byte>): Result<Parsed<Option<string>>>
  {
    if Truncated(f, s) then Err(EndOfStream) else StringAt(f, s)
  }

  /** The validating readers reject exactly the truncated payloads that the readers as written
      pad (`TruncatedPayload`). */
  lemma CheckedTruncated(f: Framing, n: nat, tail: seq<Byte>)
    requires n <= MaxInt32 && f.PayloadSize(n).Some?
    ensures CheckedStringAt(f, Int32Bytes(n) + tail).Err? <==> |tail| < f.PayloadSize(n).value
    ensures |tail| < f.PayloadSize(n).value ==> CheckedStringAt(f, Int32Bytes(n) + tail) == Err(EndOfStream)
  {
    Int32AtRoundTrip(n, tail);
    assert (Int32Bytes(n) + tail)[..4] == Int32Bytes(n);
  }

  /** What a writer frames is never truncated, so the validating readers read it as the readers
      as written do, and every round trip carries over. */
  lemma CheckedStringRoundTrip(f: Framing, s: Option<string>, rest: seq<Byte>)
    requires s.Some? ==> f.Fits(s.value)
    requires f == Wide && s.Some? ==> |Utf16(s.value)| < 0x4000_0000
    ensures CheckedStringAt(f, StringBytes(f, s) + rest) == StringAt(f, StringBytes(f, s) + rest)
  {
    if s.Some? {
      var v := s.value;
      assert (Int32Bytes(f.Prefix(v)) + f.Encode(v)) + rest == Int32Bytes(f.Prefix(v)) + (f.Encode(v) + rest);
      Int32AtRoundTrip(f.Prefix(v), f.Encode(v) + rest);
      assert (Int32Bytes(f.Prefix(v)) + (f.Encode(v) + rest))[..4] == Int32Bytes(f.Prefix(v));
      StringLayout(f, v);
    } else {
      NullLayout(f);
    }
  }
}
