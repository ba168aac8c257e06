/** UTF-8 as label files carry it (RFC 3629): the encoder the exporter applies
    to every label, and a strict decoder that reads a label file back. */
module Utf8 {
  import opened Media

  /** True of a continuation byte 10xxxxxx. */
  predicate IsContinuation(b: byte) {
    0x80 <= b < 0xC0
  }

  /** The shortest byte form of one Unicode scalar value. */
  function EncodeChar(c: char): (r: seq<byte>)
    ensures 1 <= |r| <= 4
    ensures |r| == 1 <==> c as int < 0x80
    ensures forall k :: 1 <= k < |r| ==> IsContinuation(r[k])
  {
    var cp := c as int;
    if cp < 0x80 then
      [cp as byte]
    else if cp < 0x800 then
      [(0xC0 + cp / 0x40) as byte, (0x80 + cp % 0x40) as byte]
    else if cp < 0x1_0000 then
      [(0xE0 + cp / 0x1000) as byte, (0x80 + cp / 0x40 % 0x40) as byte, (0x80 + cp % 0x40) as byte]
    else
      [(0xF0 + cp / 0x4_0000) as byte, (0x80 + cp / 0x1000 % 0x40) as byte,
       (0x80 + cp / 0x40 % 0x40) as byte, (0x80 + cp % 0x40) as byte]
  }

  /** The UTF-8 encoding of a string, character by character. */
  function Encode(s: string): (r: seq<byte>)
    ensures |s| <= |r| <= 4 * |s|
    ensures r == [] <==> s == []
  {
    if s == [] then [] else EncodeChar(s[0]) + Encode(s[1..])
  }

  /** Decodes the first character of b and says how many bytes it took;
      None for a malformed, overlong, surrogate or out-of-range sequence. */
  function DecodeFirst(b: seq<byte>): (r: Option<(char, nat)>)
    ensures r.Some? ==> 1 <= r.value.1 <= |b|
  {
    if |b| == 0 then None
    else if b[0] < 0x80 then Some((b[0] as int as char, 1))
    else if 0xC0 <= b[0] < 0xE0 then
      if |b| < 2 || !IsContinuation(b[1]) then None
      else
        var cp := (b[0] as int - 0xC0) * 0x40 + (b[1] as int - 0x80);
        if cp < 0x80 then None else Some((cp as char, 2))
    else if 0xE0 <= b[0] < 0xF0 then
      if |b| < 3 || !IsContinuation(b[1]) || !IsContinuation(b[2]) then None
      else
        var cp := (b[0] as int - 0xE0) * 0x1000 + (b[1] as int - 0x80) * 0x40 + (b[2] as int - 0x80);
        if cp < 0x800 || (0xD800 <= cp < 0xE000) then None else Some((cp as char, 3))
    else if 0xF0 <= b[0] < 0xF8 then
      if |b| < 4 || !IsContinuation(b[1]) || !IsContinuation(b[2]) || !IsContinuation(b[3]) then None
      else
        var cp := (b[0] as int - 0xF0) * 0x4_0000 + (b[1] as int - 0x80) * 0x1000
                  + (b[2] as int - 0x80) * 0x40 + (b[3] as int - 0x80);
        if cp < 0x1_0000 || cp > 0x10_FFFF then None else Some((cp as char, 4))
    else None
  }

  /** Strict decoding of a whole byte sequence; None if any part is malformed. */
  function Decode(b: seq<byte>): (r: Option<string>)
    decreases |b|
  {
    if b == [] then Some([])
    else
      match DecodeFirst(b)
      case None => None
      case Some((c, n)) =>
        match Decode(b[n..])
        case None => None
        case Some(t) => Some([c] + t)
  }

  /** A number is its low 6-bit group plus 0x40 times the rest. */
  lemma Groups2(hi: int, lo: int)
    requires 0 <= hi && 0 <= lo < 0x40
    ensures (hi * 0x40 + lo) / 0x40 == hi && (hi * 0x40 + lo) % 0x40 == lo
  {
  }

  /** A code point below 0x1_0000 is three groups: 4, 6 and 6 bits. */
  lemma Groups3(hi: int, mid: int, lo: int)
    requires 0 <= hi < 0x10 && 0 <= mid < 0x40 && 0 <= lo < 0x40
    ensures var cp := hi * 0x1000 + mid * 0x40 + lo;
            cp / 0x1000 == hi && cp / 0x40 % 0x40 == mid && cp % 0x40 == lo
  {
    var cp := hi * 0x1000 + mid * 0x40 + lo;
    Groups2(hi * 0x40 + mid, lo);
    assert cp == (hi * 0x40 + mid) * 0x40 + lo;
    assert cp / 0x40 == hi * 0x40 + mid;
  }

  /** A code point below 0x20_0000 is four groups: 3, 6, 6 and 6 bits. */
  lemma Groups4(top: int, hi: int, mid: int, lo: int)
    requires 0 <= top < 0x8 && 0 <= hi < 0x40 && 0 <= mid < 0x40 && 0 <= lo < 0x40
    ensures var cp := top * 0x4_0000 + hi * 0x1000 + mid * 0x40 + lo;
            cp / 0x4_0000 == top && cp / 0x1000 % 0x40 == hi && cp / 0x40 % 0x40 == mid && cp % 0x40 == lo
  {
    var cp := top * 0x4_0000 + hi * 0x1000 + mid * 0x40 + lo;
    assert cp == (top * 0x40 + hi) * 0x1000 + mid * 0x40 + lo;
    assert cp / 0x1000 == top * 0x40 + hi && cp / 0x40 % 0x40 == mid && cp % 0x40 == lo;
  }

  /** Every code point is the sum of its groups. */
  lemma SplitGroups(cp: int)
    requires 0 <= cp < 0x20_0000
    ensures 0 <= cp % 0x40 < 0x40 && 0 <= cp / 0x40 % 0x40 < 0x40 && 0 <= cp / 0x1000 % 0x40 < 0x40
    ensures cp == (cp / 0x40) * 0x40 + cp % 0x40
    ensures cp == (cp / 0x1000) * 0x1000 + (cp / 0x40 % 0x40) * 0x40 + cp % 0x40
    ensures cp == (cp / 0x4_0000) * 0x4_0000 + (cp / 0x1000 % 0x40) * 0x1000 + (cp / 0x40 % 0x40) * 0x40 + cp % 0x40
  {
  }

  /** The decoder reads one encoded character back and stops right after it. */
  lemma DecodeFirstOfEncodeChar(c: char, rest: seq<byte>)
    ensures DecodeFirst(EncodeChar(c) + rest) == Some((c, |EncodeChar(c)|))
  {
    var cp := c as int;
    var e := EncodeChar(c);
    var b := e + rest;
    SplitGroups(cp);
    if cp < 0x80 {
    } else if cp < 0x800 {
      assert b[0] == e[0] && b[1] == e[1];
    } else if cp < 0x1_0000 {
      assert b[0] == e[0] && b[1] == e[1] && b[2] == e[2];
    } else {
      assert b[0] == e[0] && b[1] == e[1] && b[2] == e[2] && b[3] == e[3];
    }
  }

  /** Whatever the decoder accepts as one character is that character's
      shortest encoding: it accepts no alternative spelling. */
  lemma DecodeFirstIsCanonical(b: seq<byte>)
    requires DecodeFirst(b).Some?
    ensures EncodeChar(DecodeFirst(b).value.0) == b[..DecodeFirst(b).value.1]
  {
    if b[0] < 0x80 {
    } else if b[0] < 0xE0 {
      CanonicalTwo(b);
    } else if b[0] < 0xF0 {
      CanonicalThree(b);
    } else {
      CanonicalFour(b);
    }
  }

  /** A two-byte sequence the decoder accepts is its character's encoding. */
  lemma CanonicalTwo(b: seq<byte>)
    requires DecodeFirst(b).Some? && 0x80 <= b[0] < 0xE0
    ensures DecodeFirst(b).value.1 == 2 && EncodeChar(DecodeFirst(b).value.0) == b[..2]
  {
    var hi, lo := b[0] as int - 0xC0, b[1] as int - 0x80;
    var c := DecodeFirst(b).value.0;
    assert c as int == hi * 0x40 + lo;
    Groups2(hi, lo);
  }

  /** A three-byte sequence the decoder accepts is its character's encoding. */
  lemma CanonicalThree(b: seq<byte>)
    requires DecodeFirst(b).Some? && 0xE0 <= b[0] < 0xF0
    ensures DecodeFirst(b).value.1 == 3 && EncodeChar(DecodeFirst(b).value.0) == b[..3]
  {
    var hi, mid, lo := b[0] as int - 0xE0, b[1] as int - 0x80, b[2] as int - 0x80;
    var c := DecodeFirst(b).value.0;
    assert c as int == hi * 0x1000 + mid * 0x40 + lo;
    Groups3(hi, mid, lo);
  }

  /** A four-byte sequence the decoder accepts is its character's encoding. */
  lemma CanonicalFour(b: seq<byte>)
    requires DecodeFirst(b).Some? && 0xF0 <= b[0]
    ensures DecodeFirst(b).value.1 == 4 && EncodeChar(DecodeFirst(b).value.0) == b[..4]
  {
    var top, hi, mid, lo := b[0] as int - 0xF0, b[1] as int - 0x80, b[2] as int - 0x80, b[3] as int - 0x80;
    var c := DecodeFirst(b).value.0;
    assert c as int == top * 0x4_0000 + hi * 0x1000 + mid * 0x40 + lo;
    Groups4(top, hi, mid, lo);
  }

  /** Reading a label file back gives exactly the label that was written. */
  lemma {:induction false} DecodeEncode(s: string)
    ensures Decode(Encode(s)) == Some(s)
  {
    if s != [] {
      var head := EncodeChar(s[0]);
      var tail := Encode(s[1..]);
      DecodeFirstOfEncodeChar(s[0], tail);
      assert (head + tail)[|head|..] == tail;
      DecodeEncode(s[1..]);
      assert [s[0]] + s[1..] == s;
    }
  }

  /** Every byte sequence the decoder accepts is the encoding of what it
      returns, so a label file holds one label and one spelling of it. */
  lemma {:induction false} EncodeDecode(b: seq<byte>)
    requires Decode(b).Some?
    ensures Encode(Decode(b).value) == b
    decreases |b|
  {
    if b != [] {
      var c, n := DecodeFirst(b).value.0, DecodeFirst(b).value.1;
      var rest := b[n..];
      DecodeStep(b);
      var t := Decode(rest).value;
      assert Decode(b).value == [c] + t;
      DecodeFirstIsCanonical(b);
      assert EncodeChar(c) == b[..n];
      EncodeDecode(rest);
      assert Encode(t) == rest;
      EncodeCons(c, t);
      assert b == b[..n] + rest;
    }
  }

  /** A non-empty sequence the decoder accepts is its first character
      followed by the decoding of what comes after that character. */
  lemma DecodeStep(b: seq<byte>)
    requires b != [] && Decode(b).Some?
    ensures Decode(b[DecodeFirst(b).value.1..]).Some?
    ensures Decode(b).value == [DecodeFirst(b).value.0] + Decode(b[DecodeFirst(b).value.1..]).value
  {
  }

  /** Encoding a string with a first character encodes that character and
      then the rest. */
  lemma EncodeCons(c: char, t: string)
    ensures Encode([c] + t) == EncodeChar(c) + Encode(t)
  {
    assert ([c] + t)[0] == c && ([c] + t)[1..] == t;
  }

  /** Standard test vectors: one character of each encoded length and the
      bounds of the three- and four-byte ranges. */
  lemma EncodeKnown()
    ensures Encode("A") == [0x41]
    ensures Encode("\U{E9}") == [0xC3, 0xA9]
    ensures Encode("\U{800}") == [0xE0, 0xA0, 0x80]
    ensures Encode("\U{20AC}") == [0xE2, 0x82, 0xAC]
    ensures Encode("\U{1F600}") == [0xF0, 0x9F, 0x98, 0x80]
    ensures Encode("\U{10FFFF}") == [0xF4, 0x8F, 0xBF, 0xBF]
  {
  }

  /** Distinct labels give distinct label files. */
  lemma EncodeInjective(s: string, t: string)
    requires Encode(s) == Encode(t)
    ensures s == t
  {
    DecodeEncode(s);
    DecodeEncode(t);
  }
}
