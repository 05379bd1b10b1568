/**
 * The text handling the command server applies to a received line: UTF-8
 * validation (`str::from_utf8`), stripping trailing carriage returns
 * (`trim_end_matches('\r')`), trimming white space at both ends (`trim`)
 * and upper-casing (`to_uppercase`, ASCII letters only).
 *
 * Dafny's `char` is a Unicode scalar value, as Rust's is, so a `string` here
 * is the same sequence of scalar values as a Rust `&str`.
 */
module Text {
  import opened Wrappers

  type byte = x: int | 0 <= x < 256

  // ---------------------------------------------------------------------
  // UTF-8 (the well-formed byte sequences of the Unicode standard,
  // section 3.9, table 3-7)
  // ---------------------------------------------------------------------

  predicate IsContinuation(b: byte)
  {
    0x80 <= b < 0xC0
  }

  /** The least second byte allowed after a leading byte of 3 or 4 bytes. */
  function SecondLow(b0: byte): byte
  {
    if b0 == 0xE0 then 0xA0 else if b0 == 0xF0 then 0x90 else 0x80
  }

  /** The greatest second byte allowed after a leading byte of 3 or 4 bytes. */
  function SecondHigh(b0: byte): byte
  {
    if b0 == 0xED then 0x9F else if b0 == 0xF4 then 0x8F else 0xBF
  }

  predicate IsScalar(v: int)
  {
    0 <= v < 0xD800 || 0xE000 <= v < 0x11_0000
  }

  /**
   * The scalar value encoded at the head of `b` and the number of bytes it
   * takes, or None when the head of `b` is not a well-formed encoding.
   */
  function DecodeScalar(b: seq<byte>): (r: Option<(char, nat)>)
    requires |b| > 0
    ensures r.Some? ==> 1 <= r.value.1 <= 4 && r.value.1 <= |b|
  {
    if b[0] < 0x80 then Some((b[0] as char, 1))
    else if b[0] < 0xC2 || 0xF4 < b[0] then None
    else if b[0] < 0xE0 then DecodeTwo(b)
    else if b[0] < 0xF0 then DecodeThree(b)
    else DecodeFour(b)
  }

  /** A two-byte encoding (leading byte C2 to DF): U+0080 to U+07FF. */
  function DecodeTwo(b: seq<byte>): (r: Option<(char, nat)>)
    requires |b| > 0 && 0xC2 <= b[0] < 0xE0
    ensures r.Some? ==> r.value.1 == 2 <= |b|
  {
    if |b| < 2 || !IsContinuation(b[1]) then None
    else
      var v := (b[0] as int - 0xC0) * 0x40 + (b[1] as int - 0x80);
      assert 0x80 <= v < 0x800;
      Some((v as char, 2))
  }

  /** A three-byte encoding (leading byte E0 to EF): U+0800 to U+FFFF less the surrogates. */
  function DecodeThree(b: seq<byte>): (r: Option<(char, nat)>)
    requires |b| > 0 && 0xE0 <= b[0] < 0xF0
    ensures r.Some? ==> r.value.1 == 3 <= |b|
  {
    if |b| < 3 || !(SecondLow(b[0]) <= b[1] <= SecondHigh(b[0])) || !IsContinuation(b[2]) then None
    else
      var v := (b[0] as int - 0xE0) * 0x1000 + (b[1] as int - 0x80) * 0x40 + (b[2] as int - 0x80);
      assert 0x800 <= v < 0x1_0000 && (v < 0xD800 || 0xE000 <= v);
      Some((v as char, 3))
  }

  /** A four-byte encoding (leading byte F0 to F4): U+10000 to U+10FFFF. */
  function DecodeFour(b: seq<byte>): (r: Option<(char, nat)>)
    requires |b| > 0 && 0xF0 <= b[0] <= 0xF4
    ensures r.Some? ==> r.value.1 == 4 <= |b|
  {
    if |b| < 4 || !(SecondLow(b[0]) <= b[1] <= SecondHigh(b[0])) || !IsContinuation(b[2]) || !IsContinuation(b[3]) then None
    else
      var v := (b[0] as int - 0xF0) * 0x4_0000 + (b[1] as int - 0x80) * 0x1000 + (b[2] as int - 0x80) * 0x40 + (b[3] as int - 0x80);
      assert 0x1_0000 <= v < 0x11_0000;
      Some((v as char, 4))
  }

  /** `str::from_utf8`: the text `b` encodes, or None when `b` is not well-formed UTF-8. */
  function DecodeUtf8(b: seq<byte>): Option<string>
    decreases |b|
  {
    if b == [] then Some("")
    else
      match DecodeScalar(b)
      case None => None
      case Some((c, n)) =>
        match DecodeUtf8(b[n..])
        case None => None
        case Some(rest) => Some([c] + rest)
  }

  /** The UTF-8 encoding of one scalar value. */
  function EncodeScalar(c: char): (b: seq<byte>)
    ensures 1 <= |b| <= 4
  {
    var v := c as int;
    if v < 0x80 then [v]
    else if v < 0x800 then [0xC0 + v / 0x40, 0x80 + v % 0x40]
    else if v < 0x1_0000 then [0xE0 + v / 0x1000, 0x80 + v / 0x40 % 0x40, 0x80 + v % 0x40]
    else [0xF0 + v / 0x4_0000, 0x80 + v / 0x1000 % 0x40, 0x80 + v / 0x40 % 0x40, 0x80 + v % 0x40]
  }

  /** The UTF-8 encoding of a text (`str::as_bytes`). */
  function EncodeUtf8(s: string): seq<byte>
  {
    if s == [] then [] else EncodeScalar(s[0]) + EncodeUtf8(s[1..])
  }

  /** Decoding the encoding of a scalar value gives it back, whatever follows it. */
  lemma DecodeEncodeScalar(c: char, rest: seq<byte>)
    ensures DecodeScalar(EncodeScalar(c) + rest) == Some((c, |EncodeScalar(c)|))
  {
    var v := c as int;
    if v < 0x80 {
    } else if v < 0x800 {
      DecodeEncodeTwo(c, rest);
    } else if v < 0x1_0000 {
      DecodeEncodeThree(c, rest);
    } else {
      DecodeEncodeFour(c, rest);
    }
  }

  lemma DecodeEncodeTwo(c: char, rest: seq<byte>)
    requires 0x80 <= c as int < 0x800
    ensures DecodeTwo(EncodeScalar(c) + rest) == Some((c, 2))
  {
    var v := c as int;
    var b := EncodeScalar(c) + rest;
    assert b[0] == 0xC0 + v / 0x40 && b[1] == 0x80 + v % 0x40;
  }

  lemma DecodeEncodeThree(c: char, rest: seq<byte>)
    requires 0x800 <= c as int < 0x1_0000
    ensures DecodeThree(EncodeScalar(c) + rest) == Some((c, 3))
  {
    var v := c as int;
    var b := EncodeScalar(c) + rest;
    var q := v / 0x40;
    assert v == q * 0x40 + v % 0x40;
    assert q == q / 0x40 * 0x40 + q % 0x40;
    assert v / 0x1000 == q / 0x40;
    assert b[0] == 0xE0 + q / 0x40 && b[1] == 0x80 + q % 0x40 && b[2] == 0x80 + v % 0x40;
  }

  lemma DecodeEncodeFour(c: char, rest: seq<byte>)
    requires 0x1_0000 <= c as int
    ensures DecodeFour(EncodeScalar(c) + rest) == Some((c, 4))
  {
    var v := c as int;
    var b := EncodeScalar(c) + rest;
    var q := v / 0x40;
    var p := q / 0x40;
    assert v == q * 0x40 + v % 0x40;
    assert q == p * 0x40 + q % 0x40;
    assert p == p / 0x40 * 0x40 + p % 0x40;
    assert v / 0x1000 == p;
    assert v / 0x4_0000 == p / 0x40;
    assert b[0] == 0xF0 + p / 0x40 && b[1] == 0x80 + p % 0x40;
    assert b[2] == 0x80 + q % 0x40 && b[3] == 0x80 + v % 0x40;
  }

  /** A well-formed encoding at the head of `b` is the encoding of the scalar value it decodes to. */
  lemma EncodeDecodeScalar(b: seq<byte>)
    requires |b| > 0 && DecodeScalar(b).Some?
    ensures EncodeScalar(DecodeScalar(b).value.0) == b[..DecodeScalar(b).value.1]
  {
    var b0: int := b[0];
    if b0 < 0x80 {
    } else if b0 < 0xE0 {
      EncodeDecodeTwo(b);
    } else if b0 < 0xF0 {
      EncodeDecodeThree(b);
    } else {
      EncodeDecodeFour(b);
    }
  }

  lemma EncodeDecodeTwo(b: seq<byte>)
    requires 0 < |b| && 0xC2 <= b[0] < 0xE0 && DecodeTwo(b).Some?
    ensures EncodeScalar(DecodeTwo(b).value.0) == b[..2]
  {
    var x: int, y: int := b[0] - 0xC0, b[1] - 0x80;
    var v := DecodeTwo(b).value.0 as int;
    assert v == x * 0x40 + y;
    assert v / 0x40 == x && v % 0x40 == y;
  }

  lemma EncodeDecodeThree(b: seq<byte>)
    requires 0 < |b| && 0xE0 <= b[0] < 0xF0 && DecodeThree(b).Some?
    ensures EncodeScalar(DecodeThree(b).value.0) == b[..3]
  {
    var x: int, y: int, z: int := b[0] - 0xE0, b[1] - 0x80, b[2] - 0x80;
    var v := DecodeThree(b).value.0 as int;
    var q := x * 0x40 + y;
    assert v == q * 0x40 + z;
    assert v / 0x40 == q && v % 0x40 == z;
    assert q / 0x40 == x && q % 0x40 == y;
    assert v / 0x1000 == x;
  }

  lemma EncodeDecodeFour(b: seq<byte>)
    requires 0 < |b| && 0xF0 <= b[0] <= 0xF4 && DecodeFour(b).Some?
    ensures EncodeScalar(DecodeFour(b).value.0) == b[..4]
  {
    var w: int, x: int, y: int, z: int := b[0] - 0xF0, b[1] - 0x80, b[2] - 0x80, b[3] - 0x80;
    var v := DecodeFour(b).value.0 as int;
    var p := w * 0x40 + x;
    var q := p * 0x40 + y;
    assert v == q * 0x40 + z;
    assert v / 0x40 == q && v % 0x40 == z;
    assert q / 0x40 == p && q % 0x40 == y;
    assert p / 0x40 == w && p % 0x40 == x;
    assert v / 0x1000 == p && v / 0x4_0000 == w;
  }

  /** Round trip, text to bytes to text. */
  lemma {:induction false} DecodeEncodeUtf8(s: string)
    ensures DecodeUtf8(EncodeUtf8(s)) == Some(s)
  {
    if s != [] {
      var head := EncodeScalar(s[0]);
      var tail := EncodeUtf8(s[1..]);
      DecodeEncodeScalar(s[0], tail);
      assert (head + tail)[|head|..] == tail;
      DecodeEncodeUtf8(s[1..]);
      assert [s[0]] + s[1..] == s;
    }
  }

  /** Round trip, bytes to text to bytes: well-formed UTF-8 is the encoding of its text. */
  lemma {:induction false} EncodeDecodeUtf8(b: seq<byte>)
    requires DecodeUtf8(b).Some?
    ensures EncodeUtf8(DecodeUtf8(b).value) == b
    decreases |b|
  {
    if b != [] {
      var c, n := DecodeUtf8Step(b);
      EncodeDecodeUtf8(b[n..]);
      EncodeCons(c, DecodeUtf8(b[n..]).value);
      assert b == b[..n] + b[n..];
    }
  }

  /**
   * A well-formed text starts with the encoding of one scalar value, of n
   * bytes, and goes on with well-formed text.
   */
  lemma DecodeUtf8Step(b: seq<byte>) returns (c: char, n: nat)
    requires b != [] && DecodeUtf8(b).Some?
    ensures 0 < n <= |b| && EncodeScalar(c) == b[..n]
    ensures DecodeUtf8(b[n..]).Some? && DecodeUtf8(b).value == [c] + DecodeUtf8(b[n..]).value
  {
    c, n := DecodeScalar(b).value.0, DecodeScalar(b).value.1;
    EncodeDecodeScalar(b);
  }

  /** The encoding of a text is the encoding of its first character, then that of the rest. */
  lemma EncodeCons(c: char, s: string)
    ensures EncodeUtf8([c] + s) == EncodeScalar(c) + EncodeUtf8(s)
  {
    assert ([c] + s)[1..] == s;
  }



  /** The characters whose codes are the bytes of `b`. */
  function AsciiText(b: seq<byte>): (s: string)
    ensures |s| == |b| && forall i :: 0 <= i < |b| ==> s[i] as int == b[i]
  {
    seq(|b|, i requires 0 <= i < |b| => b[i] as char)
  }

  /** Bytes below 0x80 (ASCII) decode one character each, to the character of the same code. */
  lemma {:induction false} DecodeAscii(b: seq<byte>)
    requires forall i :: 0 <= i < |b| ==> b[i] < 0x80
    ensures DecodeUtf8(b) == Some(AsciiText(b))
    decreases |b|
  {
    if b != [] {
      DecodeAscii(b[1..]);
      assert AsciiText(b) == [b[0] as char] + AsciiText(b[1..]);
    }
  }

  /** A lone continuation byte, an overlong form and an encoded surrogate are all rejected. */
  lemma DecodeRejects(b: seq<byte>)
    requires |b| >= 3
    ensures b[0] == 0x80 ==> DecodeUtf8(b).None?
    ensures b[0] == 0xC0 ==> DecodeUtf8(b).None?
    ensures b[0] == 0xED && b[1] == 0xA0 ==> DecodeUtf8(b).None?
  {
  }

  // ---------------------------------------------------------------------
  // Trimming
  // ---------------------------------------------------------------------

  /**
   * `char::is_whitespace`: the Unicode White_Space property, that is U+0009
   * to U+000D, U+0020, U+0085, U+00A0, U+1680, U+2000 to U+200A, U+2028,
   * U+2029, U+202F, U+205F and U+3000.
   */
  predicate IsWhitespace(c: char)
  {
    || ('\U{0009}' <= c <= '\U{000D}') || c == '\U{0020}' || c == '\U{0085}' || c == '\U{00A0}'
    || c == '\U{1680}' || ('\U{2000}' <= c <= '\U{200A}') || c == '\U{2028}' || c == '\U{2029}'
    || c == '\U{202F}' || c == '\U{205F}' || c == '\U{3000}'
  }

  /** The length of the longest prefix of `s` whose characters all satisfy `IsWhitespace`. */
  function LeadingSpace(s: string): (n: nat)
    ensures n <= |s|
    ensures forall i :: 0 <= i < n ==> IsWhitespace(s[i])
    ensures n < |s| ==> !IsWhitespace(s[n])
  {
    if s == [] || !IsWhitespace(s[0]) then 0 else 1 + LeadingSpace(s[1..])
  }

  /** The length of the longest suffix of `s` whose characters all equal `c`. */
  function TrailingMatches(s: string, c: char): (n: nat)
    ensures n <= |s|
    ensures forall i :: |s| - n <= i < |s| ==> s[i] == c
    ensures n < |s| ==> s[|s| - n - 1] != c
  {
    if s == [] || s[|s| - 1] != c then 0 else 1 + TrailingMatches(s[..|s| - 1], c)
  }

  /** The length of the longest suffix of `s` whose characters all satisfy `IsWhitespace`. */
  function TrailingSpace(s: string): (n: nat)
    ensures n <= |s|
    ensures forall i :: |s| - n <= i < |s| ==> IsWhitespace(s[i])
    ensures n < |s| ==> !IsWhitespace(s[|s| - n - 1])
  {
    if s == [] || !IsWhitespace(s[|s| - 1]) then 0 else 1 + TrailingSpace(s[..|s| - 1])
  }

  /** `trim_end_matches(c)`: `s` without the run of `c` at its end. */
  function TrimEndMatches(s: string, c: char): string
  {
    s[..|s| - TrailingMatches(s, c)]
  }

  /** `trim`: `s` without its leading and trailing white space. */
  function Trim(s: string): string
  {
    var t := s[LeadingSpace(s)..];
    t[..|t| - TrailingSpace(t)]
  }

  /**
   * What `trim` keeps: a contiguous part of `s` that neither begins nor ends
   * with white space, everything cut off on either side being white space.
   */
  lemma TrimShape(s: string)
    ensures var t := Trim(s);
      && (|t| > 0 ==> !IsWhitespace(t[0]) && !IsWhitespace(t[|t| - 1]))
      && LeadingSpace(s) + |t| <= |s|
      && t == s[LeadingSpace(s)..LeadingSpace(s) + |t|]
      && (forall j :: 0 <= j < LeadingSpace(s) ==> IsWhitespace(s[j]))
      && (forall j :: LeadingSpace(s) + |t| <= j < |s| ==> IsWhitespace(s[j]))
  {
    var lead := LeadingSpace(s);
    var u := s[lead..];
    var t := Trim(s);
    assert t == s[lead..lead + |t|];
    forall j | lead + |t| <= j < |s| ensures IsWhitespace(s[j]) {
      assert s[j] == u[j - lead];
    }
    if |t| > 0 {
      assert t[0] == u[0];
    }
  }

  /** A text of white space only trims to the empty text. */
  lemma TrimAllSpace(s: string)
    requires forall i :: 0 <= i < |s| ==> IsWhitespace(s[i])
    ensures Trim(s) == ""
  {
  }

  /** Trimming twice is trimming once. */
  lemma TrimIdempotent(s: string)
    ensures Trim(Trim(s)) == Trim(s)
  {
    var t := Trim(s);
    TrimShape(s);
    if |t| > 0 {
      assert LeadingSpace(t) == 0;
      assert TrailingSpace(t) == 0;
    }
  }

  /**
   * The carriage returns `trim_end_matches('\r')` strips are white space, so
   * the following `trim` gives the same text with or without it.
   */
  lemma TrimAfterCarriageReturns(s: string)
    ensures Trim(TrimEndMatches(s, '\r')) == Trim(s)
  {
    var lead := LeadingSpace(s);
    var r := TrimEndMatches(s, '\r');
    var crs := TrailingMatches(s, '\r');
    assert r == s[..|s| - crs];
    if lead >= |r| {
      // r is white space only; so is s, since the rest of s is carriage returns
      forall i | 0 <= i < |r| ensures IsWhitespace(r[i]) {
        assert r[i] == s[i];
      }
      TrimAllSpace(r);
      forall i | 0 <= i < |s| ensures IsWhitespace(s[i]) {
        if i >= |r| {
          assert s[i] == '\r';
        }
      }
      TrimAllSpace(s);
    } else {
      assert LeadingSpace(r) == lead by {
        assert !IsWhitespace(r[lead]) by { assert r[lead] == s[lead]; }
        LeadingSpacePrefix(s, |r|, lead);
      }
      var t := s[lead..];
      var u := r[lead..];
      assert u == t[..|t| - crs];
      TrailingSpaceCut(t, crs);
    }
  }

  /** A prefix of `s` that reaches past its leading white space has the same leading white space. */
  lemma {:induction false} LeadingSpacePrefix(s: string, k: nat, lead: nat)
    requires lead == LeadingSpace(s) && lead < k <= |s|
    ensures LeadingSpace(s[..k]) == lead
  {
    var p := s[..k];
    assert p[lead] == s[lead];
    forall i | 0 <= i < lead ensures IsWhitespace(p[i]) {
      assert p[i] == s[i];
    }
    LeadingSpaceExact(p, lead);
  }

  /** `LeadingSpace` is fixed by where the leading run of white space ends. */
  lemma LeadingSpaceExact(t: string, end: nat)
    requires end <= |t|
    requires forall i :: 0 <= i < end ==> IsWhitespace(t[i])
    requires end < |t| ==> !IsWhitespace(t[end])
    ensures LeadingSpace(t) == end
  {
  }

  /**
   * Cutting `k` trailing white-space characters off `t` leaves the same text
   * once trailing white space is trimmed.
   */
  lemma TrailingSpaceCut(t: string, k: nat)
    requires k <= |t|
    requires forall i :: |t| - k <= i < |t| ==> IsWhitespace(t[i])
    ensures var u := t[..|t| - k]; u[..|u| - TrailingSpace(u)] == t[..|t| - TrailingSpace(t)]
  {
    var u := t[..|t| - k];
    var m := TrailingSpace(u);
    var n := TrailingSpace(t);
    // all of t from |u| - m on is white space, and the character before it is not
    forall i | |u| - m <= i < |t| ensures IsWhitespace(t[i]) {
      if i < |u| {
        assert t[i] == u[i];
      }
    }
    if m < |u| {
      assert t[|u| - m - 1] == u[|u| - m - 1];
      TrailingSpaceExact(t, |u| - m);
    } else {
      TrailingSpaceExact(t, 0);
    }
  }

  /** `TrailingSpace` is fixed by where the trailing run of white space starts. */
  lemma TrailingSpaceExact(t: string, start: nat)
    requires start <= |t|
    requires forall i :: start <= i < |t| ==> IsWhitespace(t[i])
    requires start > 0 ==> !IsWhitespace(t[start - 1])
    ensures TrailingSpace(t) == |t| - start
  {
  }

  // ---------------------------------------------------------------------
  // Upper-casing
  // ---------------------------------------------------------------------

  /** One character upper-cased: ASCII letters a to z become A to Z, everything else is kept. */
  function UpperChar(c: char): (u: char)
    ensures 'a' <= c <= 'z' ==> u as int == c as int - 32
    ensures !('a' <= c <= 'z') ==> u == c
  {
    if 'a' <= c <= 'z' then (c as int - 32) as char else c
  }

  /** `to_uppercase`, restricted to ASCII letters. */
  function AsciiUpper(s: string): (u: string)
    ensures |u| == |s|
    ensures forall i :: 0 <= i < |s| ==> u[i] == UpperChar(s[i])
  {
    seq(|s|, i requires 0 <= i < |s| => UpperChar(s[i]))
  }

  /** Upper-casing twice is upper-casing once, and text without lower-case ASCII letters is kept. */
  lemma AsciiUpperIdempotent(s: string)
    ensures AsciiUpper(AsciiUpper(s)) == AsciiUpper(s)
    ensures (forall i :: 0 <= i < |s| ==> !('a' <= s[i] <= 'z')) ==> AsciiUpper(s) == s
  {
  }
}
