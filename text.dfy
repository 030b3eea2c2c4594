/** The four string encodings the writer and reader accept (EncodingType), over
    strings of Unicode scalar values. Each encoder gives the bytes that follow a
    string header; each decoder turns an arbitrary byte run back into a string,
    putting U+FFFD where the bytes are not a well-formed encoding. */
module Text {
  import opened Bytes

  datatype Encoding = UTF8 | ASCII | UTF16 | UTF32

  const Replacement: char := '\U{FFFD}'
  const QuestionMark: byte := 0x3F

  predicate IsScalar(n: int) { 0 <= n < 0xD800 || 0xE000 <= n < 0x11_0000 }

  predicate IsAscii(s: string) { forall i | 0 <= i < |s| :: s[i] as int < 0x80 }

  // ---------------------------------------------------------------- UTF-16

  /** The UTF-16 code units of one character (a surrogate pair above U+FFFF). */
  function CharUnits(c: char): (r: seq<int>)
    ensures 1 <= |r| <= 2 && forall i | 0 <= i < |r| :: 0 <= r[i] < 0x1_0000
  {
    var n := c as int;
    if n < 0x1_0000 then [n]
    else [0xD800 + (n - 0x1_0000) / 0x400, 0xDC00 + (n - 0x1_0000) % 0x400]
  }

  /** The UTF-16 code units of a string: what a .NET string holds and what its
      Length counts. */
  function Units(s: string): (r: seq<int>)
    ensures |r| >= |s|
    ensures forall i | 0 <= i < |r| :: 0 <= r[i] < 0x1_0000
  {
    if s == [] then [] else CharUnits(s[0]) + Units(s[1..])
  }

  /** The character count of a .NET string (String.Length). */
  function Length(s: string): nat { |Units(s)| }

  function Utf16Encode(s: string): (r: seq<byte>)
    ensures |r| == 2 * Length(s)
  {
    if s == [] then []
    else
      var u := CharUnits(s[0]);
      UnitBytes(u) + Utf16Encode(s[1..])
  }

  function UnitBytes(u: seq<int>): (r: seq<byte>)
    requires forall i | 0 <= i < |u| :: 0 <= u[i] < 0x1_0000
    ensures |r| == 2 * |u|
  {
    if u == [] then [] else LittleEndian(u[0], 2) + UnitBytes(u[1..])
  }

  predicate IsHighSurrogate(u: int) { 0xD800 <= u < 0xDC00 }
  predicate IsLowSurrogate(u: int) { 0xDC00 <= u < 0xE000 }

  function Utf16Decode(b: seq<byte>): (s: string)
    decreases |b|
  {
    if |b| == 0 then []
    else if |b| == 1 then [Replacement]
    else
      var u := FromLittleEndian(b[..2]);
      if IsHighSurrogate(u) && |b| >= 4 && IsLowSurrogate(FromLittleEndian(b[2..4])) then
        var n := 0x1_0000 + (u - 0xD800) * 0x400 + (FromLittleEndian(b[2..4]) - 0xDC00);
        [n as char] + Utf16Decode(b[4..])
      else if IsHighSurrogate(u) || IsLowSurrogate(u) then
        [Replacement] + Utf16Decode(b[2..])
      else
        [u as char] + Utf16Decode(b[2..])
  }

  lemma UnitBytesOne(u: int)
    requires 0 <= u < 0x1_0000
    ensures UnitBytes([u]) == LittleEndian(u, 2)
  {
  }

  lemma UnitBytesTwo(u0: int, u1: int)
    requires 0 <= u0 < 0x1_0000 && 0 <= u1 < 0x1_0000
    ensures UnitBytes([u0, u1]) == LittleEndian(u0, 2) + LittleEndian(u1, 2)
  {
    assert [u0, u1][1..] == [u1];
  }

  lemma SurrogatePair(n: int)
    requires 0x1_0000 <= n < 0x11_0000
    ensures IsHighSurrogate(0xD800 + (n - 0x1_0000) / 0x400)
    ensures IsLowSurrogate(0xDC00 + (n - 0x1_0000) % 0x400)
    ensures 0x1_0000 + ((n - 0x1_0000) / 0x400) * 0x400 + (n - 0x1_0000) % 0x400 == n
  {
  }

  lemma {:induction false} Utf16DecodeOne(c: char, rest: seq<byte>)
    ensures Utf16Decode(UnitBytes(CharUnits(c)) + rest) == [c] + Utf16Decode(rest)
  {
    var n := c as int;
    var b := UnitBytes(CharUnits(c)) + rest;
    if n < 0x1_0000 {
      UnitBytesOne(n);
      FromLittleEndianInverse(n, 2);
      assert b[..2] == LittleEndian(n, 2);
      assert b[2..] == rest;
    } else {
      var hi := 0xD800 + (n - 0x1_0000) / 0x400;
      var lo := 0xDC00 + (n - 0x1_0000) % 0x400;
      SurrogatePair(n);
      UnitBytesTwo(hi, lo);
      FromLittleEndianInverse(hi, 2);
      FromLittleEndianInverse(lo, 2);
      assert b[..2] == LittleEndian(hi, 2);
      assert b[2..4] == LittleEndian(lo, 2);
      assert b[4..] == rest;
    }
  }

  /** UTF-16 decoding undoes UTF-16 encoding for every string. */
  lemma {:induction false} Utf16RoundTrip(s: string)
    ensures Utf16Decode(Utf16Encode(s)) == s
  {
    if s != [] {
      Utf16DecodeOne(s[0], Utf16Encode(s[1..]));
      Utf16RoundTrip(s[1..]);
    }
  }

  // ---------------------------------------------------------------- UTF-8

  function Utf8Char(c: char): (r: seq<byte>)
    ensures 1 <= |r| <= 4
  {
    var n := c as int;
    if n < 0x80 then [n as byte]
    else if n < 0x800 then [(0xC0 + n / 64) as byte, (0x80 + n % 64) as byte]
    else if n < 0x1_0000 then
      [(0xE0 + n / 4096) as byte, (0x80 + (n / 64) % 64) as byte, (0x80 + n % 64) as byte]
    else
      [(0xF0 + n / 262144) as byte, (0x80 + (n / 4096) % 64) as byte,
       (0x80 + (n / 64) % 64) as byte, (0x80 + n % 64) as byte]
  }

  function Utf8Encode(s: string): (r: seq<byte>)
    ensures |r| >= |s|
  {
    if s == [] then [] else Utf8Char(s[0]) + Utf8Encode(s[1..])
  }

  predicate IsContinuation(b: byte) { 0x80 <= b < 0xC0 }

  /** The scalar that the well-formed sequence at the head of b encodes and its
      length, or U+FFFD and 1 when the head is not well-formed. */
  function Utf8DecodeOne(b: seq<byte>): (r: (char, nat))
    requires |b| > 0
    ensures 1 <= r.1 <= |b|
  {
    var b0 := b[0] as int;
    if b0 < 0x80 then (b0 as char, 1)
    else if 0xC2 <= b0 < 0xE0 && |b| >= 2 && IsContinuation(b[1]) then
      var n := (b0 - 0xC0) * 64 + (b[1] as int - 0x80);
      if IsScalar(n) then (n as char, 2) else (Replacement, 1)
    else if 0xE0 <= b0 < 0xF0 && |b| >= 3 && IsContinuation(b[1]) && IsContinuation(b[2]) then
      var n := (b0 - 0xE0) * 4096 + (b[1] as int - 0x80) * 64 + (b[2] as int - 0x80);
      if 0x800 <= n && IsScalar(n) then (n as char, 3) else (Replacement, 1)
    else if 0xF0 <= b0 < 0xF5 && |b| >= 4 && IsContinuation(b[1]) && IsContinuation(b[2]) && IsContinuation(b[3]) then
      var n := (b0 - 0xF0) * 262144 + (b[1] as int - 0x80) * 4096 + (b[2] as int - 0x80) * 64 + (b[3] as int - 0x80);
      if 0x1_0000 <= n && IsScalar(n) then (n as char, 4) else (Replacement, 1)
    else (Replacement, 1)
  }

  function Utf8Decode(b: seq<byte>): (s: string)
    decreases |b|
  {
    if b == [] then []
    else
      var r := Utf8DecodeOne(b);
      [r.0] + Utf8Decode(b[r.1..])
  }

  lemma Split64(n: int)
    requires n >= 0
    ensures n == (n / 64) * 64 + n % 64 && 0 <= n % 64 < 64
    ensures n / 4096 == (n / 64) / 64
    ensures n / 262144 == (n / 4096) / 64
  {
  }

  lemma Utf8Two(n: int)
    requires 0x80 <= n < 0x800
    ensures 0xC2 <= 0xC0 + n / 64 < 0xE0
    ensures (n / 64) * 64 + n % 64 == n
  {
    Split64(n);
  }

  lemma Utf8Three(n: int)
    requires 0x800 <= n < 0x1_0000
    ensures 0xE0 <= 0xE0 + n / 4096 < 0xF0
    ensures (n / 4096) * 4096 + ((n / 64) % 64) * 64 + n % 64 == n
  {
    Split64(n);
    Split64(n / 64);
  }

  lemma Utf8Four(n: int)
    requires 0x1_0000 <= n < 0x11_0000
    ensures 0xF0 <= 0xF0 + n / 262144 < 0xF5
    ensures (n / 262144) * 262144 + ((n / 4096) % 64) * 4096 + ((n / 64) % 64) * 64 + n % 64 == n
  {
    Split64(n);
    Split64(n / 64);
    Split64(n / 4096);
  }

  lemma Utf8DecodeOneChar(c: char, rest: seq<byte>)
    ensures Utf8DecodeOne(Utf8Char(c) + rest) == (c, |Utf8Char(c)|)
  {
    var n := c as int;
    if n < 0x80 {
    } else if n < 0x800 {
      Utf8Two(n);
    } else if n < 0x1_0000 {
      Utf8Three(n);
    } else {
      Utf8Four(n);
    }
  }

  /** UTF-8 decoding undoes UTF-8 encoding for every string. */
  lemma {:induction false} Utf8RoundTrip(s: string)
    ensures Utf8Decode(Utf8Encode(s)) == s
  {
    if s != [] {
      var b := Utf8Encode(s);
      Utf8DecodeOneChar(s[0], Utf8Encode(s[1..]));
      assert b[|Utf8Char(s[0])|..] == Utf8Encode(s[1..]);
      Utf8RoundTrip(s[1..]);
    }
  }

  // ---------------------------------------------------------------- UTF-32

  function Utf32Encode(s: string): (r: seq<byte>)
    ensures |r| == 4 * |s|
  {
    if s == [] then [] else LittleEndian(s[0] as int, 4) + Utf32Encode(s[1..])
  }

  function Utf32Decode(b: seq<byte>): (s: string)
    decreases |b|
  {
    if b == [] then []
    else if |b| < 4 then [Replacement]
    else
      var n := FromLittleEndian(b[..4]);
      [if IsScalar(n) then n as char else Replacement] + Utf32Decode(b[4..])
  }

  /** UTF-32 decoding undoes UTF-32 encoding for every string. */
  lemma {:induction false} Utf32RoundTrip(s: string)
    ensures Utf32Decode(Utf32Encode(s)) == s
  {
    if s != [] {
      var b := Utf32Encode(s);
      assert Pow256(4) == 0x1_0000_0000;
      FromLittleEndianInverse(s[0] as int, 4);
      assert b[..4] == LittleEndian(s[0] as int, 4);
      assert b[4..] == Utf32Encode(s[1..]);
      Utf32RoundTrip(s[1..]);
    }
  }

  // ---------------------------------------------------------------- ASCII

  /** One byte per UTF-16 code unit; code units outside ASCII become '?'.
      This agrees with .NET's ASCII encoder on strings without surrogate
      pairs. For a surrogate pair .NET emits a single '?', one byte fewer
      than the two written here. */
  function AsciiEncode(s: string): (r: seq<byte>)
    ensures |r| == Length(s)
  {
    AsciiUnits(Units(s))
  }

  function AsciiUnits(u: seq<int>): (r: seq<byte>)
    ensures |r| == |u|
  {
    if u == [] then []
    else (if 0 <= u[0] < 0x80 then [u[0] as byte] else [QuestionMark]) + AsciiUnits(u[1..])
  }

  function AsciiDecode(b: seq<byte>): (s: string)
    ensures |s| == |b|
  {
    if b == [] then [] else [if b[0] < 0x80 then b[0] as char else '?'] + AsciiDecode(b[1..])
  }

  /** An ASCII string survives the ASCII round trip, and only an ASCII string does. */
  lemma {:induction false} AsciiRoundTrip(s: string)
    ensures AsciiDecode(AsciiEncode(s)) == s <==> IsAscii(s)
  {
    if s == [] {
    } else {
      var c := s[0];
      var u := CharUnits(c);
      AsciiUnitsAppend(u, Units(s[1..]));
      AsciiRoundTrip(s[1..]);
      var d := AsciiDecode(AsciiEncode(s));
      if c as int < 0x80 {
        assert AsciiUnits(u) == [c as int as byte];
        assert d == [c] + AsciiDecode(AsciiEncode(s[1..]));
        assert IsAscii(s) <==> IsAscii(s[1..]) by {
          if IsAscii(s[1..]) {
            forall i | 0 <= i < |s| ensures s[i] as int < 0x80 {
              if i > 0 { assert s[i] == s[1..][i - 1]; }
            }
          }
        }
      } else {
        assert !IsAscii(s);
        if |u| == 1 {
          assert d[0] == '?' && d[0] != c;
        } else {
          assert |d| == Length(s) > |s|;
        }
      }
    }
  }

  lemma {:induction false} AsciiUnitsAppend(u: seq<int>, v: seq<int>)
    ensures AsciiUnits(u + v) == AsciiUnits(u) + AsciiUnits(v)
  {
    if u != [] {
      assert (u + v)[0] == u[0] && (u + v)[1..] == u[1..] + v;
      AsciiUnitsAppend(u[1..], v);
      var h := if 0 <= u[0] < 0x80 then [u[0] as byte] else [QuestionMark];
      calc {
        AsciiUnits(u + v);
        h + AsciiUnits(u[1..] + v);
        h + (AsciiUnits(u[1..]) + AsciiUnits(v));
        (h + AsciiUnits(u[1..])) + AsciiUnits(v);
        AsciiUnits(u) + AsciiUnits(v);
      }
    } else {
      assert u + v == v;
    }
  }

  lemma {:induction false} AsciiDecodeAppend(a: seq<byte>, b: seq<byte>)
    ensures AsciiDecode(a + b) == AsciiDecode(a) + AsciiDecode(b)
  {
    if a != [] {
      assert (a + b)[0] == a[0] && (a + b)[1..] == a[1..] + b;
      AsciiDecodeAppend(a[1..], b);
      var h := [if a[0] < 0x80 then a[0] as char else '?'];
      calc {
        AsciiDecode(a + b);
        h + AsciiDecode(a[1..] + b);
        h + (AsciiDecode(a[1..]) + AsciiDecode(b));
        (h + AsciiDecode(a[1..])) + AsciiDecode(b);
        AsciiDecode(a) + AsciiDecode(b);
      }
    } else {
      assert a + b == b;
    }
  }

  /** For an ASCII string, the UTF-8 bytes are the ASCII bytes. This is the one
      case in which a key written with UTF-8 and read back as ASCII agrees. */
  lemma {:induction false} Utf8OfAscii(s: string)
    requires IsAscii(s)
    ensures Utf8Encode(s) == AsciiEncode(s)
  {
    if s != [] {
      assert IsAscii(s[1..]) by {
        forall i | 0 <= i < |s[1..]| ensures s[1..][i] as int < 0x80 { assert s[1..][i] == s[i + 1]; }
      }
      Utf8OfAscii(s[1..]);
      assert s[0] as int < 0x80;
      AsciiUnitsAppend(CharUnits(s[0]), Units(s[1..]));
    }
  }

  // ---------------------------------------------------------------- dispatch

  /** The bytes the writer puts after a string header (LBinarySerializer.Write(string, EncodingType)). */
  function Encode(s: string, enc: Encoding): seq<byte>
  {
    match enc
    case UTF8 => Utf8Encode(s)
    case ASCII => AsciiEncode(s)
    case UTF16 => Utf16Encode(s)
    case UTF32 => Utf32Encode(s)
  }

  /** The string the reader makes of a header's worth of bytes (ReadUnmanagedString). */
  function Decode(b: seq<byte>, enc: Encoding): string
  {
    match enc
    case UTF8 => Utf8Decode(b)
    case ASCII => AsciiDecode(b)
    case UTF16 => Utf16Decode(b)
    case UTF32 => Utf32Decode(b)
  }

  /** The value written into a string header: the character count for ASCII,
      the encoded byte count otherwise. */
  function HeaderValue(s: string, enc: Encoding): (n: nat)
    ensures n == |Encode(s, enc)|
    ensures s != [] ==> n > 0
  {
    match enc
    case ASCII => Length(s)
    case _ => |Encode(s, enc)|
  }

  /** Which strings survive writing then reading with the same encoding: all of
      them for the Unicode encodings, exactly the ASCII strings for ASCII. */
  predicate Representable(s: string, enc: Encoding)
  {
    enc == ASCII ==> IsAscii(s)
  }

  lemma StringRoundTrip(s: string, enc: Encoding)
    ensures Decode(Encode(s, enc), enc) == s <==> Representable(s, enc)
  {
    match enc
    case UTF8 => Utf8RoundTrip(s);
    case ASCII => AsciiRoundTrip(s);
    case UTF16 => Utf16RoundTrip(s);
    case UTF32 => Utf32RoundTrip(s);
  }

  /** A string-keyed dictionary writes its keys with UTF-8 and reads them as
      ASCII: the key comes back unchanged exactly when it is ASCII. */
  lemma {:induction false} Utf8KeyReadAsAscii(s: string)
    ensures AsciiDecode(Utf8Encode(s)) == s <==> IsAscii(s)
  {
    if IsAscii(s) {
      Utf8OfAscii(s);
      AsciiRoundTrip(s);
    } else if s != [] {
      if s[0] as int < 0x80 {
        AsciiDecodeAppend(Utf8Char(s[0]), Utf8Encode(s[1..]));
        assert !IsAscii(s[1..]) by {
          var i :| 0 <= i < |s| && s[i] as int >= 0x80;
          assert s[1..][i - 1] == s[i];
        }
        Utf8KeyReadAsAscii(s[1..]);
      } else {
        var b := Utf8Encode(s);
        assert b[0] >= 0x80;
        assert AsciiDecode(b)[0] == '?';
      }
    }
  }

  /** The key "é" is written as the two UTF-8 bytes C3 A9 under header 2 and
      read back as "??". */
  lemma NonAsciiKeyExample()
    ensures Utf8Encode("\U{E9}") == [0xC3, 0xA9]
    ensures AsciiDecode(Utf8Encode("\U{E9}")) == "??"
  {
  }
}
