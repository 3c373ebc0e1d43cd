/**
 * UTF-8 as RFC 3629 defines it, for the conversions between JavaScript
 * strings and Node `Buffer` bytes (`Buffer.from(text)` and
 * `buffer.toString('utf-8')`). Decoding never fails: each maximal subpart
 * of an ill-formed sequence (its longest start that could still begin a
 * well-formed one, or else a single byte) becomes one U+FFFD, as section
 * 3.9 of the Unicode Standard recommends and the WHATWG Encoding Standard's
 * UTF-8 decoder does.
 */
module Utf8 {
  import opened Base64

  const Replacement: char := 0xFFFD as char

  /** A continuation byte, 10xxxxxx. */
  predicate Continuation(b: Byte)
  {
    0x80 <= b < 0xC0
  }

  /** The one to four bytes of one character. */
  function EncodeChar(c: char): (bytes: seq<Byte>)
    ensures 1 <= |bytes| <= 4
  {
    var n := c as int;
    if n < 0x80 then [n]
    else if n < 0x800 then [0xC0 + n / 64, 0x80 + n % 64]
    else if n < 0x1_0000 then [0xE0 + n / 4096, 0x80 + (n / 64) % 64, 0x80 + n % 64]
    else [0xF0 + n / 262144, 0x80 + (n / 4096) % 64, 0x80 + (n / 64) % 64, 0x80 + n % 64]
  }

  function Encode(s: string): (bytes: seq<Byte>)
    ensures |s| <= |bytes| <= 4 * |s|
  {
    if s == [] then [] else EncodeChar(s[0]) + Encode(s[1..])
  }

  /**
   * The bytes that may follow the lead byte `b0` (Table 3-7 of the Unicode
   * Standard): narrower after E0, ED, F0 and F4, which rules out overlong
   * forms, surrogates and values past U+10FFFF.
   */
  predicate SecondByte(b0: Byte, b1: Byte)
  {
    if b0 == 0xE0 then 0xA0 <= b1 <= 0xBF
    else if b0 == 0xED then 0x80 <= b1 <= 0x9F
    else if b0 == 0xF0 then 0x90 <= b1 <= 0xBF
    else if b0 == 0xF4 then 0x80 <= b1 <= 0x8F
    else Continuation(b1)
  }

  /**
   * The character at the front of `b` and how many bytes it takes. An
   * ill-formed sequence gives U+FFFD for the lead byte together with the
   * continuation bytes that were still valid; the byte that broke the
   * sequence is read afresh.
   */
  function DecodeOne(b: seq<Byte>): (r: (char, nat))
    requires b != []
    ensures 1 <= r.1 <= |b|
    ensures r.1 > 1 ==> SecondByte(b[0], b[1])
  {
    var b0 := b[0] as int;
    if b0 < 0x80 then (b0 as char, 1)
    else if 0xC2 <= b0 <= 0xDF then
      if |b| >= 2 && SecondByte(b[0], b[1]) then (((b0 - 0xC0) * 64 + (b[1] as int - 0x80)) as char, 2)
      else (Replacement, 1)
    else if 0xE0 <= b0 <= 0xEF then
      if |b| >= 2 && SecondByte(b[0], b[1]) then
        if |b| >= 3 && Continuation(b[2]) then
          (((b0 - 0xE0) * 4096 + (b[1] as int - 0x80) * 64 + (b[2] as int - 0x80)) as char, 3)
        else (Replacement, 2)
      else (Replacement, 1)
    else if 0xF0 <= b0 <= 0xF4 then
      if |b| >= 2 && SecondByte(b[0], b[1]) then
        if |b| >= 3 && Continuation(b[2]) then
          if |b| >= 4 && Continuation(b[3]) then
            (((b0 - 0xF0) * 262144 + (b[1] as int - 0x80) * 4096 + (b[2] as int - 0x80) * 64 + (b[3] as int - 0x80)) as char, 4)
          else (Replacement, 3)
        else (Replacement, 2)
      else (Replacement, 1)
    else (Replacement, 1)
  }

  function Decode(b: seq<Byte>): string
    decreases |b|
  {
    if b == [] then ""
    else
      var (c, k) := DecodeOne(b);
      [c] + Decode(b[k..])
  }

  lemma Digits64(n: int)
    requires 0 <= n
    ensures (n / 64) * 64 + n % 64 == n
    ensures (n / 4096) * 64 + (n / 64) % 64 == n / 64
    ensures (n / 262144) * 64 + (n / 4096) % 64 == n / 4096
  {
  }

  /** One encoded character decodes to itself, whatever follows it. */
  lemma DecodeOneEncodeChar(c: char, rest: seq<Byte>)
    ensures DecodeOne(EncodeChar(c) + rest) == (c, |EncodeChar(c)|)
  {
    var n := c as int;
    if n < 0x80 {
    } else if n < 0x800 {
      DecodeOneTwoBytes(c, rest);
    } else if n < 0x1_0000 {
      DecodeOneThreeBytes(c, rest);
    } else {
      DecodeOneFourBytes(c, rest);
    }
  }

  lemma DecodeOneTwoBytes(c: char, rest: seq<Byte>)
    requires 0x80 <= c as int < 0x800
    ensures DecodeOne(EncodeChar(c) + rest) == (c, 2)
  {
    var n := c as int;
    var b := EncodeChar(c) + rest;
    Digits64(n);
    assert b[0] == 0xC0 + n / 64 && b[1] == 0x80 + n % 64;
  }

  lemma DecodeOneThreeBytes(c: char, rest: seq<Byte>)
    requires 0x800 <= c as int < 0x1_0000
    ensures DecodeOne(EncodeChar(c) + rest) == (c, 3)
  {
    var n := c as int;
    var b := EncodeChar(c) + rest;
    Digits64(n);
    assert b[0] == 0xE0 + n / 4096 && b[1] == 0x80 + (n / 64) % 64 && b[2] == 0x80 + n % 64;
    assert (n / 4096) * 4096 + ((n / 64) % 64) * 64 + n % 64 == n;
  }

  lemma DecodeOneFourBytes(c: char, rest: seq<Byte>)
    requires 0x1_0000 <= c as int
    ensures DecodeOne(EncodeChar(c) + rest) == (c, 4)
  {
    var n := c as int;
    var b := EncodeChar(c) + rest;
    Digits64(n);
    assert b[0] == 0xF0 + n / 262144 && b[1] == 0x80 + (n / 4096) % 64;
    assert b[2] == 0x80 + (n / 64) % 64 && b[3] == 0x80 + n % 64;
    assert (n / 262144) * 262144 + ((n / 4096) % 64) * 4096 + ((n / 64) % 64) * 64 + n % 64 == n;
  }

  /** Decoding the UTF-8 of a string gives the string back. */
  lemma {:induction false} DecodeEncode(s: string)
    ensures Decode(Encode(s)) == s
    decreases |s|
  {
    if s != [] {
      var e := EncodeChar(s[0]);
      var b := Encode(s);
      assert b == e + Encode(s[1..]);
      DecodeOneEncodeChar(s[0], Encode(s[1..]));
      assert b[|e|..] == Encode(s[1..]);
      DecodeEncode(s[1..]);
      assert [s[0]] + s[1..] == s;
    }
  }

  /**
   * A sequence cut short is one U+FFFD, and the byte that cut it is read as
   * itself: E2 82 starts a three-byte character, and 41 is `A`.
   */
  lemma TruncatedSequenceKeepsNextByte()
    ensures Decode([0xE2, 0x82, 0x41]) == [Replacement, 'A']
  {
    var b: seq<Byte> := [0xE2, 0x82, 0x41];
    assert DecodeOne(b) == (Replacement, 2);
    assert b[2..] == [0x41];
    assert DecodeOne(b[2..]) == ('A', 1);
    assert b[2..][1..] == [];
  }
}
