/**
 * Base64 as section 4 of RFC 4648 defines it: every three bytes become four
 * characters of the alphabet A-Z a-z 0-9 + /, and a final group of one or two
 * bytes is padded with `=`. Node's `Buffer` uses it for cursors and for the
 * credentials of a Basic authorization header.
 */
module Base64 {
  import opened Wrappers

  type Byte = b: int | 0 <= b < 256
  type Sextet = s: int | 0 <= s < 64

  /** The character that encodes a six-bit value (Table 1 of RFC 4648). */
  function CharOf(s: Sextet): (c: char)
    ensures c != '='
  {
    if s < 26 then ('A' as int + s) as char
    else if s < 52 then ('a' as int + s - 26) as char
    else if s < 62 then ('0' as int + s - 52) as char
    else if s == 62 then '+'
    else '/'
  }

  /** The six-bit value a character encodes, if it is in the alphabet. */
  function SextetOf(c: char): (r: Option<Sextet>)
    ensures r.Some? ==> CharOf(r.value) == c
  {
    if 'A' <= c <= 'Z' then Some(c as int - 'A' as int)
    else if 'a' <= c <= 'z' then Some(c as int - 'a' as int + 26)
    else if '0' <= c <= '9' then Some(c as int - '0' as int + 52)
    else if c == '+' then Some(62)
    else if c == '/' then Some(63)
    else None
  }

  lemma SextetOfCharOf(s: Sextet)
    ensures SextetOf(CharOf(s)) == Some(s)
  {
  }

  /** Three bytes as four characters. */
  function EncodeTriple(b0: Byte, b1: Byte, b2: Byte): (q: string)
    ensures |q| == 4
  {
    [CharOf(b0 / 4), CharOf((b0 % 4) * 16 + b1 / 16), CharOf((b1 % 16) * 4 + b2 / 64), CharOf(b2 % 64)]
  }

  function Encode(bytes: seq<Byte>): (s: string)
    ensures |s| == 4 * ((|bytes| + 2) / 3)
  {
    if |bytes| == 0 then ""
    else if |bytes| == 1 then [CharOf(bytes[0] / 4), CharOf((bytes[0] % 4) * 16), '=', '=']
    else if |bytes| == 2 then
      [CharOf(bytes[0] / 4), CharOf((bytes[0] % 4) * 16 + bytes[1] / 16), CharOf((bytes[1] % 16) * 4), '=']
    else EncodeTriple(bytes[0], bytes[1], bytes[2]) + Encode(bytes[3..])
  }

  /** The byte spread over the first sextet and the top two bits of the second. */
  function High(s0: Sextet, s1: Sextet): Byte
  {
    (s0 as int) * 4 + (s1 as int) / 16
  }

  /** The byte spread over the low four bits of the second sextet and the top four of the third. */
  function Middle(s1: Sextet, s2: Sextet): Byte
  {
    ((s1 as int) % 16) * 16 + (s2 as int) / 4
  }

  /** The byte spread over the low two bits of the third sextet and the fourth. */
  function Low(s2: Sextet, s3: Sextet): Byte
  {
    ((s2 as int) % 4) * 64 + (s3 as int)
  }

  /** Four characters, none of them padding, as three bytes. */
  function DecodeQuad(q: string): Option<seq<Byte>>
    requires |q| == 4
  {
    match (SextetOf(q[0]), SextetOf(q[1]), SextetOf(q[2]), SextetOf(q[3]))
    case (Some(s0), Some(s1), Some(s2), Some(s3)) =>
      Some([High(s0, s1), Middle(s1, s2), Low(s2, s3)])
    case _ => None
  }

  /** The last group, which may end in one or two `=`. Non-zero leftover bits are rejected. */
  function DecodeLast(q: string): Option<seq<Byte>>
    requires |q| == 4
  {
    if q[2] == '=' && q[3] == '=' then
      match (SextetOf(q[0]), SextetOf(q[1]))
      case (Some(s0), Some(s1)) => if s1 % 16 == 0 then Some([High(s0, s1)]) else None
      case _ => None
    else if q[3] == '=' then
      match (SextetOf(q[0]), SextetOf(q[1]), SextetOf(q[2]))
      case (Some(s0), Some(s1), Some(s2)) =>
        if s2 % 4 == 0 then Some([High(s0, s1), Middle(s1, s2)]) else None
      case _ => None
    else DecodeQuad(q)
  }

  /** Decoding of canonical Base64; anything else gives `None`. */
  function Decode(s: string): Option<seq<Byte>>
    decreases |s|
  {
    if s == [] then Some([])
    else if |s| < 4 then None
    else if |s| == 4 then DecodeLast(s)
    else match DecodeQuad(s[..4])
      case None => None
      case Some(head) =>
        match Decode(s[4..])
        case None => None
        case Some(tail) => Some(head + tail)
  }

  /**
   * `Buffer.from(text, 'base64')`: canonical Base64 decodes as above. Node
   * never refuses its input: what it makes of anything else (it skips
   * characters outside the alphabet and does not insist on padding) is the
   * parameter `lenient`.
   */
  function NodeDecode(text: string, lenient: string -> seq<Byte>): (bytes: seq<Byte>)
    ensures Decode(text).Some? ==> bytes == Decode(text).value
  {
    match Decode(text)
    case Some(b) => b
    case None => lenient(text)
  }

  lemma Split16(x: int, y: int)
    requires 0 <= y < 16
    ensures (x * 16 + y) / 16 == x && (x * 16 + y) % 16 == y
  {
  }

  lemma Split4(x: int, y: int)
    requires 0 <= y < 4
    ensures (x * 4 + y) / 4 == x && (x * 4 + y) % 4 == y
  {
  }

  /** The three bytes come back out of the four sextets they were spread over. */
  lemma SextetsRecombine(b0: Byte, b1: Byte, b2: Byte)
    ensures High(b0 / 4, (b0 % 4) * 16 + b1 / 16) == b0
    ensures Middle((b0 % 4) * 16 + b1 / 16, (b1 % 16) * 4 + b2 / 64) == b1
    ensures Low((b1 % 16) * 4 + b2 / 64, b2 % 64) == b2
  {
    Split16(b0 % 4, b1 / 16);
    Split4(b1 % 16, b2 / 64);
  }

  lemma TripleRoundTrip(b0: Byte, b1: Byte, b2: Byte)
    ensures DecodeQuad(EncodeTriple(b0, b1, b2)) == Some([b0, b1, b2])
  {
    var s0, s1, s2, s3 := b0 / 4, (b0 % 4) * 16 + b1 / 16, (b1 % 16) * 4 + b2 / 64, b2 % 64;
    var q := EncodeTriple(b0, b1, b2);
    SextetOfCharOf(s0);
    SextetOfCharOf(s1);
    SextetOfCharOf(s2);
    SextetOfCharOf(s3);
    assert SextetOf(q[0]) == Some(s0) && SextetOf(q[1]) == Some(s1);
    assert SextetOf(q[2]) == Some(s2) && SextetOf(q[3]) == Some(s3);
    SextetsRecombine(b0, b1, b2);
  }

  lemma DecodeEncodeOne(b0: Byte)
    ensures Decode(Encode([b0])) == Some([b0])
  {
    var s0: Sextet, s1: Sextet := b0 / 4, (b0 % 4) * 16;
    SextetOfCharOf(s0);
    SextetOfCharOf(s1);
    Split16(b0 % 4, 0);
    assert High(s0, s1) == b0;
    var q := Encode([b0]);
    assert q == [CharOf(s0), CharOf(s1), '=', '='];
    assert SextetOf(q[0]) == Some(s0) && SextetOf(q[1]) == Some(s1);
    assert DecodeLast(q) == Some([b0]);
  }

  /** A last group of three sextets and one `=` decodes to the two bytes they hold. */
  lemma DecodeLastTwo(s0: Sextet, s1: Sextet, s2: Sextet)
    requires s2 % 4 == 0
    ensures DecodeLast([CharOf(s0), CharOf(s1), CharOf(s2), '=']) == Some([High(s0, s1), Middle(s1, s2)])
  {
    var q := [CharOf(s0), CharOf(s1), CharOf(s2), '='];
    SextetOfCharOf(s0);
    SextetOfCharOf(s1);
    SextetOfCharOf(s2);
    assert SextetOf(q[0]) == Some(s0) && SextetOf(q[1]) == Some(s1) && SextetOf(q[2]) == Some(s2);
  }

  /** Two bytes encode as three sextets and one `=`. */
  lemma EncodeTwo(b0: Byte, b1: Byte)
    ensures Encode([b0, b1]) == [CharOf(b0 / 4), CharOf((b0 % 4) * 16 + b1 / 16), CharOf((b1 % 16) * 4), '=']
  {
  }

  /** The two bytes come back out of the three sextets they were spread over. */
  lemma PairRecombine(b0: Byte, b1: Byte)
    ensures High(b0 / 4, (b0 % 4) * 16 + b1 / 16) == b0
    ensures Middle((b0 % 4) * 16 + b1 / 16, (b1 % 16) * 4) == b1
  {
    SextetsRecombine(b0, b1, 0);
  }

  lemma DecodeEncodeTwo(b0: Byte, b1: Byte)
    ensures Decode(Encode([b0, b1])) == Some([b0, b1])
  {
    var s0: Sextet, s1: Sextet, s2: Sextet := b0 / 4, (b0 % 4) * 16 + b1 / 16, (b1 % 16) * 4;
    EncodeTwo(b0, b1);
    PairRecombine(b0, b1);
    Split4(b1 % 16, 0);
    DecodeLastTwo(s0, s1, s2);
  }

  lemma DecodeEncodeThree(b0: Byte, b1: Byte, b2: Byte)
    ensures Decode(Encode([b0, b1, b2])) == Some([b0, b1, b2])
  {
    var q := EncodeTriple(b0, b1, b2);
    TripleRoundTrip(b0, b1, b2);
    assert [b0, b1, b2][3..] == [];
    assert Encode([b0, b1, b2]) == q + "" == q;
    assert q[3] != '=';
  }

  /** A full group in front of a decodable rest decodes to its bytes in front of the rest's. */
  lemma DecodeFrontQuad(head: string, tail: string)
    requires |head| == 4 && |tail| >= 4 && DecodeQuad(head).Some? && Decode(tail).Some?
    ensures Decode(head + tail) == Some(DecodeQuad(head).value + Decode(tail).value)
  {
    var s := head + tail;
    assert s[..4] == head && s[4..] == tail;
  }

  /** Base64 decoding undoes encoding. */
  lemma {:induction false} DecodeEncode(bytes: seq<Byte>)
    ensures Decode(Encode(bytes)) == Some(bytes)
    decreases |bytes|
  {
    if |bytes| == 1 {
      DecodeEncodeOne(bytes[0]);
      assert bytes == [bytes[0]];
    } else if |bytes| == 2 {
      DecodeEncodeTwo(bytes[0], bytes[1]);
      assert bytes == [bytes[0], bytes[1]];
    } else if |bytes| == 3 {
      DecodeEncodeThree(bytes[0], bytes[1], bytes[2]);
      assert bytes == [bytes[0], bytes[1], bytes[2]];
    } else if |bytes| > 3 {
      DecodeEncode(bytes[3..]);
      DecodeEncodeLonger(bytes);
    }
  }

  lemma FrontThree(bytes: seq<Byte>)
    requires |bytes| >= 3
    ensures [bytes[0], bytes[1], bytes[2]] + bytes[3..] == bytes
  {
  }

  /** The step of the round trip: a full group in front of a rest that round-trips. */
  lemma DecodeEncodeLonger(bytes: seq<Byte>)
    requires |bytes| > 3 && Decode(Encode(bytes[3..])) == Some(bytes[3..])
    ensures Decode(Encode(bytes)) == Some(bytes)
  {
    var three, rest := [bytes[0], bytes[1], bytes[2]], bytes[3..];
    var head, tail := EncodeTriple(bytes[0], bytes[1], bytes[2]), Encode(rest);
    TripleRoundTrip(bytes[0], bytes[1], bytes[2]);
    DecodeFrontQuad(head, tail);
    assert Encode(bytes) == head + tail;
    FrontThree(bytes);
    calc {
      Decode(Encode(bytes));
      Decode(head + tail);
      Some(three + rest);
    }
  }

  /** Every encoded character is in the alphabet or is padding, so no space, `:` or `_` appears. */
  lemma {:induction false} EncodeAlphabet(bytes: seq<Byte>)
    ensures forall i :: 0 <= i < |Encode(bytes)| ==> SextetOf(Encode(bytes)[i]).Some? || Encode(bytes)[i] == '='
    decreases |bytes|
  {
    if |bytes| >= 3 {
      EncodeAlphabet(bytes[3..]);
      var q := EncodeTriple(bytes[0], bytes[1], bytes[2]);
      forall i | 0 <= i < 4 ensures SextetOf(q[i]).Some? {
        assert q[i] == CharOf(if i == 0 then bytes[0] / 4 else if i == 1 then (bytes[0] % 4) * 16 + bytes[1] / 16
          else if i == 2 then (bytes[1] % 16) * 4 + bytes[2] / 64 else bytes[2] % 64);
      }
    } else if |bytes| == 1 {
      SextetOfCharOf(bytes[0] / 4);
      SextetOfCharOf((bytes[0] % 4) * 16);
    } else if |bytes| == 2 {
      SextetOfCharOf(bytes[0] / 4);
      SextetOfCharOf((bytes[0] % 4) * 16 + bytes[1] / 16);
      SextetOfCharOf((bytes[1] % 16) * 4);
    }
  }
}
