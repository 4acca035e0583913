/** The three text encodings the string codec uses: `Encoding.ASCII` (narrow),
    `Encoding.Unicode` (UTF-16LE, wide) and `Encoding.UTF8` (section 3 of RFC 3629).
    A .NET string is a sequence of UTF-16 code units; here it is a Dafny `string`,
    a sequence of Unicode scalar values, and `Utf16` gives its code units, so
    `|Utf16(s)|` is the .NET `Length`. */
module Unicode {
  import opened Bytes

  type CodeUnit = x: int | 0 <= x < 0x1_0000

  /** U+FFFD, what every .NET decoder substitutes for ill-formed input. */
  const Replacement: char := '\U{FFFD}'

  predicate IsHighSurrogate(u: int) { 0xD800 <= u < 0xDC00 }
  predicate IsLowSurrogate(u: int) { 0xDC00 <= u < 0xE000 }

  // ---------------------------------------------------------------- UTF-16

  /** The UTF-16 code units of one scalar value: one unit in the Basic Multilingual
      Plane, a surrogate pair above it. */
  function CharUnits(c: char): (us: seq<CodeUnit>)
    ensures 1 <= |us| <= 2
  {
    var n := c as int;
    if n < 0x1_0000 then [n]
    else [0xD800 + (n - 0x1_0000) / 0x400, 0xDC00 + (n - 0x1_0000) % 0x400]
  }

  /** The code units of a string; `|Utf16(s)|` is `String.Length`. */
  function Utf16(s: string): (us: seq<CodeUnit>)
    ensures |s| <= |us| <= 2 * |s|
  {
    if s == [] then [] else CharUnits(s[0]) + Utf16(s[1..])
  }

  /** The string that `Encoding.Unicode.GetString` builds from code units: surrogate
      pairs combine, an unpaired surrogate becomes U+FFFD. */
  function FromUtf16(us: seq<CodeUnit>): (s: string)
    ensures |s| <= |us|
    decreases |us|
  {
    if us == [] then ""
    else if IsHighSurrogate(us[0]) && |us| >= 2 && IsLowSurrogate(us[1]) then
      var high: int, low: int := us[0], us[1];
      [(0x1_0000 + (high - 0xD800) * 0x400 + (low - 0xDC00)) as char] + FromUtf16(us[2..])
    else if IsHighSurrogate(us[0]) || IsLowSurrogate(us[0]) then
      [Replacement] + FromUtf16(us[1..])
    else
      [us[0] as char] + FromUtf16(us[1..])
  }

  lemma CharUnitsDecode(c: char, rest: seq<CodeUnit>)
    ensures FromUtf16(CharUnits(c) + rest) == [c] + FromUtf16(rest)
  {
    var us := CharUnits(c) + rest;
    if c as int >= 0x1_0000 {
      assert us[2..] == rest;
    } else {
      assert us[1..] == rest;
    }
  }

  /** Decoding the code units of a string gives the string back. */
  lemma {:induction false} Utf16RoundTrip(s: string)
    ensures FromUtf16(Utf16(s)) == s
  {
    if s != [] {
      CharUnitsDecode(s[0], Utf16(s[1..]));
      Utf16RoundTrip(s[1..]);
    }
  }

  /** `Encoding.Unicode.GetBytes` on code units: two bytes per unit, low byte first. */
  function UnitBytes(us: seq<CodeUnit>): (bs: seq<Byte>)
    ensures |bs| == 2 * |us|
  {
    if us == [] then [] else [us[0] % 0x100, us[0] / 0x100] + UnitBytes(us[1..])
  }

  /** The code units that an even number of UTF-16LE bytes spell. */
  function UnitsOfBytes(bs: seq<Byte>): (us: seq<CodeUnit>)
    requires |bs| % 2 == 0
    ensures |us| == |bs| / 2
  {
    if bs == [] then [] else [bs[0] as int + 0x100 * bs[1] as int] + UnitsOfBytes(bs[2..])
  }

  lemma {:induction false} UnitBytesRoundTrip(us: seq<CodeUnit>)
    ensures UnitsOfBytes(UnitBytes(us)) == us
  {
    if us != [] {
      var bs := UnitBytes(us);
      assert bs[2..] == UnitBytes(us[1..]);
      UnitBytesRoundTrip(us[1..]);
    }
  }

  /** What WriteString16 puts after the length prefix. */
  function WideBytes(s: string): (bs: seq<Byte>)
    ensures |bs| == 2 * |Utf16(s)|
  {
    UnitBytes(Utf16(s))
  }

  /** What ReadString16 makes of its payload buffer. */
  function FromWideBytes(bs: seq<Byte>): (s: string)
    requires |bs| % 2 == 0
    ensures |s| <= |bs| / 2
  {
    FromUtf16(UnitsOfBytes(bs))
  }

  /** The wide encoding loses nothing. */
  lemma WideRoundTrip(s: string)
    ensures FromWideBytes(WideBytes(s)) == s
  {
    UnitBytesRoundTrip(Utf16(s));
    Utf16RoundTrip(s);
  }

  // ---------------------------------------------------------------- UTF-8

  /** The UTF-8 bytes of one scalar value (section 3 of RFC 3629). */
  function CharUtf8(c: char): (bs: seq<Byte>)
    ensures 1 <= |bs| <= 4
  {
    var n := c as int;
    if n < 0x80 then [n]
    else if n < 0x800 then [0xC0 + n / 0x40, 0x80 + n % 0x40]
    else if n < 0x1_0000 then [0xE0 + n / 0x1000, 0x80 + n / 0x40 % 0x40, 0x80 + n % 0x40]
    else [0xF0 + n / 0x4_0000, 0x80 + n / 0x1000 % 0x40, 0x80 + n / 0x40 % 0x40, 0x80 + n % 0x40]
  }

  /** `Encoding.UTF8.GetBytes`. */
  function Utf8(s: string): (bs: seq<Byte>)
    ensures |s| <= |bs| <= 4 * |s|
  {
    if s == [] then [] else CharUtf8(s[0]) + Utf8(s[1..])
  }

  /** Length of the well-formed sequence a lead byte starts (RFC 3629, section 4);
      0 for a byte that starts none. */
  function SequenceLength(lead: Byte): nat
  {
    if lead < 0x80 then 1
    else if 0xC2 <= lead < 0xE0 then 2
    else if 0xE0 <= lead < 0xF0 then 3
    else if 0xF0 <= lead < 0xF5 then 4
    else 0
  }

  predicate IsContinuation(b: Byte) { 0x80 <= b < 0xC0 }

  /** The second byte a lead byte admits: the ranges of the syntax in section 4 of
      RFC 3629, which exclude overlong forms, surrogates and values above U+10FFFF. */
  predicate SecondByteFits(lead: Byte, b: Byte)
  {
    if lead == 0xE0 then 0xA0 <= b < 0xC0
    else if lead == 0xED then 0x80 <= b < 0xA0
    else if lead == 0xF0 then 0x90 <= b < 0xC0
    else if lead == 0xF4 then 0x80 <= b < 0x90
    else IsContinuation(b)
  }

  /** Decodes the front of a non-empty byte sequence: the scalar value of a well-formed
      sequence, else U+FFFD for the longest prefix of one (a maximal subpart), and the
      number of bytes used. */
  function Utf8Step(bs: seq<Byte>): (step: (char, nat))
    requires bs != []
    ensures 1 <= step.1 <= |bs|
  {
    var lead: int := bs[0];
    var len := SequenceLength(bs[0]);
    if len == 1 then (lead as char, 1)
    else if len == 0 || |bs| < 2 || !SecondByteFits(bs[0], bs[1]) then (Replacement, 1)
    else
      var b1: int := bs[1];
      if len == 2 then (((lead - 0xC0) * 0x40 + (b1 - 0x80)) as char, 2)
      else if |bs| < 3 || !IsContinuation(bs[2]) then (Replacement, 2)
      else
        var b2: int := bs[2];
        if len == 3 then (((lead - 0xE0) * 0x1000 + (b1 - 0x80) * 0x40 + (b2 - 0x80)) as char, 3)
        else if |bs| < 4 || !IsContinuation(bs[3]) then (Replacement, 3)
        else
          var b3: int := bs[3];
          (((lead - 0xF0) * 0x4_0000 + (b1 - 0x80) * 0x1000 + (b2 - 0x80) * 0x40 + (b3 - 0x80)) as char, 4)
  }

  /** `Encoding.UTF8.GetString`. */
  function FromUtf8(bs: seq<Byte>): (s: string)
    ensures |s| <= |bs|
    decreases |bs|
  {
    if bs == [] then ""
    else
      var step := Utf8Step(bs);
      [step.0] + FromUtf8(bs[step.1..])
  }

  lemma SplitSix(n: int)
    requires 0 <= n
    ensures n == n / 0x40 * 0x40 + n % 0x40
    ensures n / 0x40 == n / 0x1000 * 0x40 + n / 0x40 % 0x40
    ensures n / 0x1000 == n / 0x4_0000 * 0x40 + n / 0x1000 % 0x40
  {
  }

  lemma CharUtf8Step(c: char, rest: seq<Byte>)
    ensures Utf8Step(CharUtf8(c) + rest) == (c, |CharUtf8(c)|)
  {
    var n := c as int;
    SplitSix(n);
    var bs := CharUtf8(c) + rest;
    if n < 0x80 {
    } else if n < 0x800 {
      assert bs[0] == 0xC0 + n / 0x40 && bs[1] == 0x80 + n % 0x40;
    } else if n < 0x1_0000 {
      assert bs[0] == 0xE0 + n / 0x1000;
      assert bs[1] == 0x80 + n / 0x40 % 0x40 && bs[2] == 0x80 + n % 0x40;
      assert n / 0x1000 == 0 ==> n / 0x40 % 0x40 >= 0x20;
      assert n / 0x1000 == 0xD ==> n / 0x40 % 0x40 < 0x20;
    } else {
      assert bs[0] == 0xF0 + n / 0x4_0000;
      assert bs[1] == 0x80 + n / 0x1000 % 0x40;
      assert bs[2] == 0x80 + n / 0x40 % 0x40 && bs[3] == 0x80 + n % 0x40;
      assert n / 0x4_0000 == 0 ==> n / 0x1000 % 0x40 >= 0x10;
      assert n / 0x4_0000 == 4 ==> n / 0x1000 % 0x40 < 0x10;
    }
  }

  /** Decoding the UTF-8 bytes of a string gives the string back. */
  lemma {:induction false} Utf8RoundTrip(s: string)
    ensures FromUtf8(Utf8(s)) == s
  {
    if s != [] {
      var bs := Utf8(s);
      CharUtf8Step(s[0], Utf8(s[1..]));
      assert bs[|CharUtf8(s[0])|..] == Utf8(s[1..]);
      Utf8RoundTrip(s[1..]);
    }
  }

  // ---------------------------------------------------------------- ASCII

  predicate IsAscii(s: string)
  {
    forall i :: 0 <= i < |s| ==> s[i] as int < 0x80
  }

  /** The byte `Encoding.ASCII` writes for a code unit: itself below 0x80, else '?'. The
      replacement fallback writes one '?' per code unit, so a surrogate pair gives two. */
  function NarrowByte(u: CodeUnit): Byte
  {
    if u < 0x80 then u else 0x3F
  }

  /** `Encoding.ASCII.GetBytes`: one byte per code unit, so as many bytes as the C#
      `Length`; an ASCII unit is kept and every other unit becomes '?'. */
  function AsciiBytes(s: string): (bs: seq<Byte>)
    ensures |bs| == |Utf16(s)|
    ensures forall i :: 0 <= i < |bs| ==> (bs[i] == Utf16(s)[i] <==> Utf16(s)[i] < 0x80)
  {
    var us := Utf16(s);
    seq(|us|, i requires 0 <= i < |us| => NarrowByte(us[i]))
  }

  /** `Encoding.ASCII.GetString`: one character per byte, '?' for bytes above 0x7F. */
  function FromAscii(bs: seq<Byte>): (s: string)
    ensures |s| == |bs|
    ensures IsAscii(s)
  {
    seq(|bs|, i requires 0 <= i < |bs| => if bs[i] < 0x80 then bs[i] as char else '?')
  }

  lemma {:induction false} AsciiUnits(s: string)
    requires IsAscii(s)
    ensures |Utf16(s)| == |s|
    ensures forall i :: 0 <= i < |s| ==> Utf16(s)[i] == s[i] as int
  {
    if s != [] {
      AsciiUnits(s[1..]);
      assert forall i :: 0 <= i < |s| - 1 ==> s[1..][i] == s[i + 1];
    }
  }

  /** The narrow encoding gives exactly the ASCII strings back, and no other string. */
  lemma AsciiRoundTrip(s: string)
    ensures FromAscii(AsciiBytes(s)) == s <==> IsAscii(s)
  {
    if IsAscii(s) {
      AsciiUnits(s);
      var t := FromAscii(AsciiBytes(s));
      assert forall i :: 0 <= i < |s| ==> t[i] == s[i];
    }
  }
}
