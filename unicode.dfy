/**
 * The UTF-8 and UTF-16 encoding forms of the Unicode Standard (section 3.9,
 * definitions D92 and D91). Rust strings are UTF-8 byte sequences
 * (`str::as_bytes`) and Windows wide strings are UTF-16 code units
 * (`str::encode_utf16`); a Dafny `char` is a Unicode scalar value, so a
 * `string` here is the sequence of scalar values of the Rust string.
 */
module Unicode {
  import opened Wrappers

  /** An 8-bit byte (Rust `u8`). */
  type Byte = b: int | 0 <= b < 0x100
  /** A 16-bit code unit (Rust `u16`). */
  type CodeUnit = u: int | 0 <= u < 0x1_0000

  /** A byte of the form 10xxxxxx. */
  predicate IsContinuation(b: Byte) {
    0x80 <= b < 0xC0
  }

  // ---------------------------------------------------------------- UTF-8

  /** The UTF-8 code unit sequence of one scalar value (Table 3-6). */
  function Utf8Char(c: char): (r: seq<Byte>)
    ensures 1 <= |r| <= 4
    ensures |r| == 1 <==> c as int < 0x80
    ensures |r| == 1 ==> r[0] < 0x80
    ensures |r| == 2 ==> 0xC2 <= r[0] < 0xE0
    ensures |r| == 3 ==> 0xE0 <= r[0] < 0xF0
    ensures |r| == 4 ==> 0xF0 <= r[0] < 0xF5
    ensures forall k :: 1 <= k < |r| ==> IsContinuation(r[k])
  {
    var n := c as int;
    if n < 0x80 then
      [n]
    else if n < 0x800 then
      [(0xC0 + n / 0x40), (0x80 + n % 0x40)]
    else if n < 0x10000 then
      [(0xE0 + n / 0x1000), (0x80 + n / 0x40 % 0x40), (0x80 + n % 0x40)]
    else
      [(0xF0 + n / 0x40000), (0x80 + n / 0x1000 % 0x40),
       (0x80 + n / 0x40 % 0x40), (0x80 + n % 0x40)]
  }

  /** The UTF-8 encoding of a string: what Rust's `as_bytes` yields. */
  function Utf8(s: string): (r: seq<Byte>)
    ensures |s| <= |r| <= 4 * |s|
  {
    if s == [] then [] else Utf8Char(s[0]) + Utf8(s[1..])
  }

  /** Reads one scalar value from the front of a UTF-8 sequence, with the
      number of bytes it occupies; None if the front is not well formed. */
  function Utf8DecodeChar(b: seq<Byte>): (r: Option<(char, nat)>)
    ensures r.Some? ==> 1 <= r.value.1 <= |b| && r.value.1 <= 4
  {
    if |b| == 0 then None
    else if b[0] < 0x80 then Some((b[0] as char, 1))
    else if b[0] < 0xC2 then None
    else if b[0] < 0xE0 then
      if |b| < 2 || !IsContinuation(b[1]) then None
      else
        var n: int := (b[0] as int - 0xC0) * 0x40 + (b[1] as int - 0x80);
        Some((n as char, 2))
    else if b[0] < 0xF0 then
      if |b| < 3 || !IsContinuation(b[1]) || !IsContinuation(b[2]) then None
      else
        var n: int := (b[0] as int - 0xE0) * 0x1000 + (b[1] as int - 0x80) * 0x40 + (b[2] as int - 0x80);
        if n < 0x800 || (0xD800 <= n < 0xE000) then None else Some((n as char, 3))
    else if b[0] < 0xF5 then
      if |b| < 4 || !IsContinuation(b[1]) || !IsContinuation(b[2]) || !IsContinuation(b[3]) then None
      else
        var n: int := (b[0] as int - 0xF0) * 0x40000 + (b[1] as int - 0x80) * 0x1000
                 + (b[2] as int - 0x80) * 0x40 + (b[3] as int - 0x80);
        if n < 0x10000 || n >= 0x110000 then None else Some((n as char, 4))
    else None
  }

  /** Decodes a whole UTF-8 sequence. */
  function Utf8Decode(b: seq<Byte>): Option<string>
    decreases |b|
  {
    if b == [] then Some([])
    else match Utf8DecodeChar(b)
      case None => None
      case Some((c, len)) =>
        match Utf8Decode(b[len..])
        case None => None
        case Some(rest) => Some([c] + rest)
  }

  lemma Utf8TwoByteRoundTrip(c: char, tail: seq<Byte>)
    requires 0x80 <= c as int < 0x800
    ensures Utf8DecodeChar(Utf8Char(c) + tail) == Some((c, 2))
  {
    var n := c as int;
    var e := Utf8Char(c) + tail;
    assert e[0] == 0xC0 + n / 0x40 && e[1] == 0x80 + n % 0x40;
    assert (n / 0x40) * 0x40 + n % 0x40 == n;
  }

  lemma Utf8ThreeByteRoundTrip(c: char, tail: seq<Byte>)
    requires 0x800 <= c as int < 0x10000
    ensures Utf8DecodeChar(Utf8Char(c) + tail) == Some((c, 3))
  {
    var n := c as int;
    var e := Utf8Char(c) + tail;
    assert e[0] == 0xE0 + n / 0x1000 && e[1] == 0x80 + n / 0x40 % 0x40 && e[2] == 0x80 + n % 0x40;
    assert n % 0x1000 == (n / 0x40 % 0x40) * 0x40 + n % 0x40;
    assert (n / 0x1000) * 0x1000 + n % 0x1000 == n;
  }

  /** The base-64 digits of a supplementary code point. */
  lemma FourByteDigits(n: int)
    requires 0x10000 <= n < 0x110000
    ensures n / 0x40000 < 5
    ensures (n / 0x40000) * 0x40000 + (n / 0x1000 % 0x40) * 0x1000 + (n / 0x40 % 0x40) * 0x40 + n % 0x40 == n
  {
    assert n % 0x1000 == (n / 0x40 % 0x40) * 0x40 + n % 0x40;
    assert n % 0x40000 == (n / 0x1000 % 0x40) * 0x1000 + n % 0x1000;
    assert (n / 0x40000) * 0x40000 + n % 0x40000 == n;
  }

  lemma Utf8FourByteRoundTrip(c: char, tail: seq<Byte>)
    requires 0x10000 <= c as int
    ensures Utf8DecodeChar(Utf8Char(c) + tail) == Some((c, 4))
  {
    var n := c as int;
    var e := Utf8Char(c) + tail;
    var d0, d1, d2, d3 := n / 0x40000, n / 0x1000 % 0x40, n / 0x40 % 0x40, n % 0x40;
    assert e[0] == 0xF0 + d0 && e[1] == 0x80 + d1 && e[2] == 0x80 + d2 && e[3] == 0x80 + d3;
    FourByteDigits(n);
    assert d0 * 0x40000 + d1 * 0x1000 + d2 * 0x40 + d3 == n;
  }

  /** The decoder reads the encoding of one scalar value back, whatever
      follows it. */
  lemma Utf8CharRoundTrip(c: char, tail: seq<Byte>)
    ensures Utf8DecodeChar(Utf8Char(c) + tail) == Some((c, |Utf8Char(c)|))
  {
    var n := c as int;
    if n < 0x80 {
    } else if n < 0x800 {
      Utf8TwoByteRoundTrip(c, tail);
    } else if n < 0x10000 {
      Utf8ThreeByteRoundTrip(c, tail);
    } else {
      Utf8FourByteRoundTrip(c, tail);
    }
  }

  /** Decoding the UTF-8 encoding of any string gives the string back. */
  lemma {:induction false} Utf8RoundTrip(s: string)
    ensures Utf8Decode(Utf8(s)) == Some(s)
  {
    if s != [] {
      var head := Utf8Char(s[0]);
      var e := head + Utf8(s[1..]);
      assert Utf8(s) == e;
      Utf8CharRoundTrip(s[0], Utf8(s[1..]));
      assert e[|head|..] == Utf8(s[1..]);
      Utf8RoundTrip(s[1..]);
      assert [s[0]] + s[1..] == s;
    }
  }

  /** Distinct strings have distinct UTF-8 encodings. */
  lemma Utf8Injective(s: string, t: string)
    requires Utf8(s) == Utf8(t)
    ensures s == t
  {
    Utf8RoundTrip(s);
    Utf8RoundTrip(t);
  }

  // --------------------------------------------------------------- UTF-16

  predicate IsHighSurrogate(u: CodeUnit) { 0xD800 <= u < 0xDC00 }
  predicate IsLowSurrogate(u: CodeUnit) { 0xDC00 <= u < 0xE000 }

  /** The UTF-16 code unit sequence of one scalar value (D91): one unit
      below U+10000, a surrogate pair otherwise. */
  function Utf16Char(c: char): (r: seq<CodeUnit>)
    ensures |r| == 1 <==> c as int < 0x10000
    ensures 1 <= |r| <= 2
    ensures |r| == 1 ==> r[0] == c as int && !IsHighSurrogate(r[0]) && !IsLowSurrogate(r[0])
    ensures |r| == 2 ==> IsHighSurrogate(r[0]) && IsLowSurrogate(r[1])
  {
    var n := c as int;
    if n < 0x10000 then
      [n]
    else
      [(0xD800 + (n - 0x10000) / 0x400), (0xDC00 + (n - 0x10000) % 0x400)]
  }

  /** The UTF-16 encoding of a string: what Rust's `encode_utf16` yields. */
  function Utf16(s: string): (r: seq<CodeUnit>)
    ensures |s| <= |r| <= 2 * |s|
  {
    if s == [] then [] else Utf16Char(s[0]) + Utf16(s[1..])
  }

  /** Reads one scalar value from the front of a UTF-16 sequence, with the
      number of units it occupies; None for an unpaired surrogate. */
  function Utf16DecodeChar(u: seq<CodeUnit>): (r: Option<(char, nat)>)
    ensures r.Some? ==> 1 <= r.value.1 <= |u| && r.value.1 <= 2
  {
    if |u| == 0 || IsLowSurrogate(u[0]) then None
    else if IsHighSurrogate(u[0]) then
      if |u| < 2 || !IsLowSurrogate(u[1]) then None
      else
        var n: int := 0x10000 + (u[0] as int - 0xD800) * 0x400 + (u[1] as int - 0xDC00);
        Some((n as char, 2))
    else Some((u[0] as char, 1))
  }

  /** Decodes a whole UTF-16 sequence. */
  function Utf16Decode(u: seq<CodeUnit>): Option<string>
    decreases |u|
  {
    if u == [] then Some([])
    else match Utf16DecodeChar(u)
      case None => None
      case Some((c, len)) =>
        match Utf16Decode(u[len..])
        case None => None
        case Some(rest) => Some([c] + rest)
  }

  lemma Utf16CharRoundTrip(c: char, tail: seq<CodeUnit>)
    ensures Utf16DecodeChar(Utf16Char(c) + tail) == Some((c, |Utf16Char(c)|))
  {
    var n := c as int;
    if n >= 0x10000 {
      assert 0x10000 + ((n - 0x10000) / 0x400) * 0x400 + (n - 0x10000) % 0x400 == n;
    }
  }

  /** Decoding the UTF-16 encoding of any string gives the string back. */
  lemma {:induction false} Utf16RoundTrip(s: string)
    ensures Utf16Decode(Utf16(s)) == Some(s)
  {
    if s != [] {
      var head := Utf16Char(s[0]);
      var e := head + Utf16(s[1..]);
      assert Utf16(s) == e;
      Utf16CharRoundTrip(s[0], Utf16(s[1..]));
      assert e[|head|..] == Utf16(s[1..]);
      Utf16RoundTrip(s[1..]);
      assert [s[0]] + s[1..] == s;
    }
  }
}
