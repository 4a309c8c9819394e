/**
 * UTF-8 as defined in RFC 3629: the encoding `str.encode("utf8")` applies to
 * the header block, and the strict decoder that undoes it.
 */
module Utf8 {
  import opened Wrappers

  newtype uint8 = x: int | 0 <= x < 256

  /** `b` is a continuation byte, `10xxxxxx`. */
  predicate IsCont(b: uint8)
  {
    0x80 <= b < 0xC0
  }

  /** The bytes of one code point: one to four, by the ranges of section 3 of RFC 3629. */
  function EncodeChar(c: char): (bs: seq<uint8>)
    ensures 1 <= |bs| <= 4
    ensures (c as int < 0x80) <==> |bs| == 1
    ensures |bs| == 1 ==> bs[0] as int == c as int
    ensures forall i :: 1 <= i < |bs| ==> IsCont(bs[i])
  {
    var n := c as int;
    if n < 0x80 then [n as uint8]
    else if n < 0x800 then [(0xC0 + n / 64) as uint8, (0x80 + n % 64) as uint8]
    else if n < 0x10000 then
      [(0xE0 + n / 4096) as uint8, (0x80 + (n / 64) % 64) as uint8, (0x80 + n % 64) as uint8]
    else
      [(0xF0 + n / 262144) as uint8, (0x80 + (n / 4096) % 64) as uint8,
       (0x80 + (n / 64) % 64) as uint8, (0x80 + n % 64) as uint8]
  }

  /** The bytes of a string: its code points' bytes, in order. */
  function Encode(s: string): (bs: seq<uint8>)
    ensures |s| <= |bs| <= 4 * |s|
  {
    if s == [] then [] else EncodeChar(s[0]) + Encode(s[1..])
  }

  lemma {:induction false} EncodeAppend(a: string, b: string)
    ensures Encode(a + b) == Encode(a) + Encode(b)
  {
    if a == [] {
      assert a + b == b;
    } else {
      assert (a + b)[0] == a[0];
      assert (a + b)[1..] == a[1..] + b;
      EncodeAppend(a[1..], b);
    }
  }

  /** Every character below 0x80: the encoding is the characters' own codes, one byte each. */
  predicate IsAscii(s: string)
  {
    forall i :: 0 <= i < |s| ==> s[i] as int < 0x80
  }

  lemma {:induction false} EncodeAscii(s: string)
    requires IsAscii(s)
    ensures |Encode(s)| == |s|
    ensures forall i :: 0 <= i < |s| ==> Encode(s)[i] as int == s[i] as int
  {
    if s != [] {
      EncodeAscii(s[1..]);
      assert Encode(s) == EncodeChar(s[0]) + Encode(s[1..]);
    }
  }

  /** A code point that is a Unicode scalar value (not a surrogate). */
  predicate IsScalar(n: int)
  {
    (0 <= n < 0xD800) || (0xE000 <= n < 0x11_0000)
  }

  /**
   * The first code point of `bs` and the number of bytes it takes, or None
   * when `bs` does not start with a well-formed sequence: a stray
   * continuation byte, a truncated sequence, an overlong form, a surrogate or
   * a value beyond U+10FFFF.
   */
  function DecodeChar(bs: seq<uint8>): (r: Option<(char, nat)>)
    ensures r.Some? ==> 1 <= r.value.1 <= |bs| && r.value.1 <= 4
  {
    if bs == [] then None
    else
      var b0 := bs[0] as int;
      if b0 < 0x80 then Some((b0 as char, 1))
      else if 0xC2 <= b0 < 0xE0 then
        if |bs| < 2 || !IsCont(bs[1]) then None
        else Some((((b0 - 0xC0) * 64 + (bs[1] as int - 0x80)) as char, 2))
      else if 0xE0 <= b0 < 0xF0 then
        if |bs| < 3 || !IsCont(bs[1]) || !IsCont(bs[2]) then None
        else
          var n := (b0 - 0xE0) * 4096 + (bs[1] as int - 0x80) * 64 + (bs[2] as int - 0x80);
          if n < 0x800 || !IsScalar(n) then None else Some((n as char, 3))
      else if 0xF0 <= b0 < 0xF5 then
        if |bs| < 4 || !IsCont(bs[1]) || !IsCont(bs[2]) || !IsCont(bs[3]) then None
        else
          var n := (b0 - 0xF0) * 262144 + (bs[1] as int - 0x80) * 4096
            + (bs[2] as int - 0x80) * 64 + (bs[3] as int - 0x80);
          if n < 0x1_0000 || 0x11_0000 <= n then None else Some((n as char, 4))
      else None
  }

  /** The string `bs` encodes, or None when it is not well-formed UTF-8. */
  function Decode(bs: seq<uint8>): (r: Option<string>)
    ensures bs == [] ==> r == Some([])
    decreases |bs|
  {
    if bs == [] then Some([])
    else
      match DecodeChar(bs)
      case None => None
      case Some((c, k)) =>
        match Decode(bs[k..])
        case None => None
        case Some(rest) => Some([c] + rest)
  }

  /** Splitting off the low six bits, and putting them back. */
  lemma SixBits(n: int)
    requires 0 <= n
    ensures n == (n / 64) * 64 + n % 64 && 0 <= n % 64 < 64
    ensures n / 4096 == (n / 64) / 64 && n / 262144 == (n / 4096) / 64
  {
  }

  lemma JoinSixBits(a: int, b: int)
    requires 0 <= b < 64
    ensures (a * 64 + b) / 64 == a && (a * 64 + b) % 64 == b
  {
  }

  /** Decoding the encoding of one code point gives it back, whatever follows. */
  lemma DecodeEncodeChar(c: char, rest: seq<uint8>)
    ensures DecodeChar(EncodeChar(c) + rest) == Some((c, |EncodeChar(c)|))
  {
    var n := c as int;
    var bs := EncodeChar(c) + rest;
    SixBits(n);
    SixBits(n / 64);
    SixBits(n / 4096);
    if n < 0x80 {
    } else if n < 0x800 {
      assert bs[0] as int == 0xC0 + n / 64 && bs[1] as int == 0x80 + n % 64;
    } else if n < 0x10000 {
      assert bs[0] as int - 0xE0 == n / 4096;
      assert bs[1] as int - 0x80 == (n / 64) % 64;
      assert bs[2] as int - 0x80 == n % 64;
    } else {
      assert bs[0] as int - 0xF0 == n / 262144;
      assert bs[1] as int - 0x80 == (n / 4096) % 64;
      assert bs[2] as int - 0x80 == (n / 64) % 64;
      assert bs[3] as int - 0x80 == n % 64;
    }
  }

  /** The decoder undoes the encoder on every string. */
  lemma {:induction false} DecodeEncode(s: string)
    ensures Decode(Encode(s)) == Some(s)
  {
    if s != [] {
      var e := EncodeChar(s[0]);
      DecodeEncodeChar(s[0], Encode(s[1..]));
      assert (e + Encode(s[1..]))[|e|..] == Encode(s[1..]);
      DecodeEncode(s[1..]);
      assert [s[0]] + s[1..] == s;
    }
  }

  /** The three six-bit groups of a code point below 0x40000, read back. */
  lemma Digits(n: int, a: int, d1: int, d2: int)
    requires 0 <= a && 0 <= d1 < 64 && 0 <= d2 < 64
    requires n == (a * 64 + d1) * 64 + d2
    ensures n / 4096 == a && (n / 64) % 64 == d1 && n % 64 == d2 && n / 64 == a * 64 + d1
  {
    JoinSixBits(a * 64 + d1, d2);
    JoinSixBits(a, d1);
    SixBits(n);
  }

  /** A well-formed two-byte sequence is the encoding of the code point it decodes to. */
  lemma EncodeDecodeTwo(bs: seq<uint8>)
    requires DecodeChar(bs).Some? && DecodeChar(bs).value.1 == 2
    ensures EncodeChar(DecodeChar(bs).value.0) == bs[..2]
  {
    JoinSixBits(bs[0] as int - 0xC0, bs[1] as int - 0x80);
  }

  /** A well-formed three-byte sequence is the encoding of the code point it decodes to. */
  lemma EncodeDecodeThree(bs: seq<uint8>)
    requires DecodeChar(bs).Some? && DecodeChar(bs).value.1 == 3
    ensures EncodeChar(DecodeChar(bs).value.0) == bs[..3]
  {
    var c := DecodeChar(bs).value.0;
    Digits(c as int, bs[0] as int - 0xE0, bs[1] as int - 0x80, bs[2] as int - 0x80);
    assert EncodeChar(c) == bs[..3];
  }

  /** A well-formed four-byte sequence is the encoding of the code point it decodes to. */
  lemma EncodeDecodeFour(bs: seq<uint8>)
    requires DecodeChar(bs).Some? && DecodeChar(bs).value.1 == 4
    ensures EncodeChar(DecodeChar(bs).value.0) == bs[..4]
  {
    var c := DecodeChar(bs).value.0;
    var n := c as int;
    var d1, d2, d3 := bs[1] as int - 0x80, bs[2] as int - 0x80, bs[3] as int - 0x80;
    var q := ((bs[0] as int - 0xF0) * 64 + d1) * 64 + d2;
    JoinSixBits(q, d3);
    Digits(q, bs[0] as int - 0xF0, d1, d2);
    SixBits(n);
    SixBits(n / 64);
    assert EncodeChar(c) == bs[..4];
  }

  /** A well-formed sequence is the encoding of the code point it decodes to. */
  lemma EncodeDecodeChar(bs: seq<uint8>)
    requires DecodeChar(bs).Some?
    ensures EncodeChar(DecodeChar(bs).value.0) == bs[..DecodeChar(bs).value.1]
  {
    var k := DecodeChar(bs).value.1;
    if k == 2 {
      EncodeDecodeTwo(bs);
    } else if k == 3 {
      EncodeDecodeThree(bs);
    } else if k == 4 {
      EncodeDecodeFour(bs);
    }
  }

  /** The encoder undoes the decoder: a decodable byte string is the encoding of what it decodes to. */
  lemma {:induction false} EncodeDecode(bs: seq<uint8>)
    requires Decode(bs).Some?
    ensures Encode(Decode(bs).value) == bs
    decreases |bs|
  {
    if bs != [] {
      var (c, k) := DecodeChar(bs).value;
      EncodeDecodeChar(bs);
      EncodeDecode(bs[k..]);
      var s := Decode(bs).value;
      assert s == [c] + Decode(bs[k..]).value;
      assert s[0] == c && s[1..] == Decode(bs[k..]).value;
      assert bs == bs[..k] + bs[k..];
    }
  }
}
