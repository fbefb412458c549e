/**
  UTF-8 as defined by RFC 3629: the encoding of Unicode scalar values into
  bytes (section 3) and the syntax of well-formed byte sequences (section 4).

  This module stands in for what Rust's `str` gives the wrapper: `as_bytes`
  is `Utf8Encode`, and `str::from_utf8_unchecked`, whose caller must promise
  well-formed input, is `Utf8Decode` with `ValidUtf8` as its precondition.
  Dafny 4 `char` values are Unicode scalar values, as Rust `char`s are, so a
  Dafny `string` is exactly the content of a Rust `str`.
*/
module Utf8 {

  /** An octet, Rust's `u8`. */
  newtype Byte = b: int | 0 <= b < 0x100

  /** UTF8-tail of section 4 of RFC 3629. */
  predicate IsTail(b: Byte) {
    0x80 <= b <= 0xBF
  }

  /**
    The number of bytes of the character that starts with `lead`, or 0 when
    no character can start with it (0x80-0xC1 and 0xF5-0xFF).
  */
  function LeadLength(lead: Byte): nat {
    if lead <= 0x7F then 1
    else if 0xC2 <= lead <= 0xDF then 2
    else if 0xE0 <= lead <= 0xEF then 3
    else if 0xF0 <= lead <= 0xF4 then 4
    else 0
  }

  /** UTF8-char of section 4 of RFC 3629: `c` is exactly one encoded character. */
  predicate WellFormedChar(c: seq<Byte>) {
    match |c|
    case 1 => c[0] <= 0x7F
    case 2 => 0xC2 <= c[0] <= 0xDF && IsTail(c[1])
    case 3 =>
      && (|| (c[0] == 0xE0 && 0xA0 <= c[1] <= 0xBF)
          || (0xE1 <= c[0] <= 0xEC && IsTail(c[1]))
          || (c[0] == 0xED && 0x80 <= c[1] <= 0x9F)
          || (0xEE <= c[0] <= 0xEF && IsTail(c[1])))
      && IsTail(c[2])
    case 4 =>
      && (|| (c[0] == 0xF0 && 0x90 <= c[1] <= 0xBF)
          || (0xF1 <= c[0] <= 0xF3 && IsTail(c[1]))
          || (c[0] == 0xF4 && 0x80 <= c[1] <= 0x8F))
      && IsTail(c[2]) && IsTail(c[3])
    case _ => false
  }

  /**
    UTF8-octets of section 4 of RFC 3629: a sequence of UTF8-chars. The
    alternatives of UTF8-char have disjoint first bytes, so the lead byte
    fixes how long the first character is (see LeadLengthOfWellFormed).
  */
  predicate ValidUtf8(b: seq<Byte>)
    decreases |b|
  {
    |b| == 0 ||
    var n := LeadLength(b[0]);
    0 < n <= |b| && WellFormedChar(b[..n]) && ValidUtf8(b[n..])
  }

  /** Every well-formed character is as long as its lead byte announces. */
  lemma LeadLengthOfWellFormed(c: seq<Byte>)
    requires WellFormedChar(c)
    ensures LeadLength(c[0]) == |c|
  {
  }

  /** The character encoding of section 3 of RFC 3629. */
  function EncodeChar(c: char): (r: seq<Byte>)
    ensures WellFormedChar(r)
    ensures LeadLength(r[0]) == |r|
  {
    var n := c as int;
    if n < 0x80 then [n as Byte]
    else if n < 0x800 then EncodeTwoBytes(n)
    else if n < 0x10000 then EncodeThreeBytes(n)
    else EncodeFourBytes(n)
  }

  /** 110xxxxx 10xxxxxx for U+0080 to U+07FF. */
  function EncodeTwoBytes(n: int): (r: seq<Byte>)
    requires 0x80 <= n < 0x800
    ensures |r| == 2 && WellFormedChar(r)
  {
    [(0xC0 + n / 0x40) as Byte, (0x80 + n % 0x40) as Byte]
  }

  /** 1110xxxx 10xxxxxx 10xxxxxx for U+0800 to U+FFFF, surrogates excluded. */
  function EncodeThreeBytes(n: int): (r: seq<Byte>)
    requires 0x800 <= n < 0x10000 && !(0xD800 <= n < 0xE000)
    ensures |r| == 3 && WellFormedChar(r)
  {
    [(0xE0 + n / 0x1000) as Byte, (0x80 + n / 0x40 % 0x40) as Byte, (0x80 + n % 0x40) as Byte]
  }

  /** 11110xxx 10xxxxxx 10xxxxxx 10xxxxxx for U+10000 to U+10FFFF. */
  function EncodeFourBytes(n: int): (r: seq<Byte>)
    requires 0x10000 <= n < 0x110000
    ensures |r| == 4 && WellFormedChar(r)
  {
    [(0xF0 + n / 0x40000) as Byte, (0x80 + n / 0x1000 % 0x40) as Byte,
     (0x80 + n / 0x40 % 0x40) as Byte, (0x80 + n % 0x40) as Byte]
  }

  /** The four ranges of section 3 of RFC 3629 and the lengths of their encodings. */
  lemma EncodeCharLength(c: char)
    ensures |EncodeChar(c)| == 1 <==> c as int < 0x80
    ensures |EncodeChar(c)| == 2 <==> 0x80 <= c as int < 0x800
    ensures |EncodeChar(c)| == 3 <==> 0x800 <= c as int < 0x10000
    ensures |EncodeChar(c)| == 4 <==> 0x10000 <= c as int
  {
  }

  /** The scalar value that a well-formed character encodes. */
  function ScalarValue(c: seq<Byte>): (n: int)
    requires WellFormedChar(c)
    ensures 0 <= n < 0xD800 || 0xE000 <= n < 0x110000
  {
    if |c| == 1 then
      c[0] as int
    else if |c| == 2 then
      (c[0] as int - 0xC0) * 0x40 + (c[1] as int - 0x80)
    else if |c| == 3 then
      (c[0] as int - 0xE0) * 0x1000 + (c[1] as int - 0x80) * 0x40 + (c[2] as int - 0x80)
    else
      (c[0] as int - 0xF0) * 0x40000 + (c[1] as int - 0x80) * 0x1000
      + (c[2] as int - 0x80) * 0x40 + (c[3] as int - 0x80)
  }

  /** The character that a well-formed byte sequence encodes. */
  function DecodeChar(c: seq<Byte>): char
    requires WellFormedChar(c)
  {
    ScalarValue(c) as char
  }

  lemma DecodeEncodeChar(c: char)
    ensures DecodeChar(EncodeChar(c)) == c
  {
    var n := c as int;
    if 0x80 <= n < 0x800 {
      DecodeEncodeTwoBytes(n);
    } else if 0x800 <= n < 0x10000 {
      DecodeEncodeThreeBytes(n);
    } else if 0x10000 <= n {
      DecodeEncodeFourBytes(n);
    }
  }

  lemma DecodeEncodeTwoBytes(n: int)
    requires 0x80 <= n < 0x800
    ensures ScalarValue(EncodeTwoBytes(n)) == n
  {
    assert n == n / 0x40 * 0x40 + n % 0x40;
  }

  lemma DecodeEncodeThreeBytes(n: int)
    requires 0x800 <= n < 0x10000 && !(0xD800 <= n < 0xE000)
    ensures ScalarValue(EncodeThreeBytes(n)) == n
  {
    var a := n / 0x40;
    assert n == a * 0x40 + n % 0x40;
    assert a == a / 0x40 * 0x40 + a % 0x40;
    assert n / 0x1000 == a / 0x40;
  }

  lemma DecodeEncodeFourBytes(n: int)
    requires 0x10000 <= n < 0x110000
    ensures ScalarValue(EncodeFourBytes(n)) == n
  {
    var a := n / 0x40;
    var b := a / 0x40;
    assert n == a * 0x40 + n % 0x40;
    assert a == b * 0x40 + a % 0x40;
    assert b == b / 0x40 * 0x40 + b % 0x40;
    assert n / 0x1000 == b;
    assert n / 0x40000 == b / 0x40;
  }

  lemma EncodeDecodeChar(c: seq<Byte>)
    requires WellFormedChar(c)
    ensures EncodeChar(DecodeChar(c)) == c
  {
    if |c| == 2 {
      EncodeDecodeTwoBytes(c);
    } else if |c| == 3 {
      EncodeDecodeThreeBytes(c);
    } else if |c| == 4 {
      EncodeDecodeFourBytes(c);
    }
  }

  lemma EncodeDecodeTwoBytes(c: seq<Byte>)
    requires |c| == 2 && WellFormedChar(c)
    ensures EncodeChar(DecodeChar(c)) == c
  {
    var n := ScalarValue(c);
    SplitDigit(c[0] as int - 0xC0, c[1] as int - 0x80);
    assert EncodeChar(DecodeChar(c)) == EncodeTwoBytes(n);
  }

  lemma EncodeDecodeThreeBytes(c: seq<Byte>)
    requires |c| == 3 && WellFormedChar(c)
    ensures EncodeChar(DecodeChar(c)) == c
  {
    var n := ScalarValue(c);
    var hi := (c[0] as int - 0xE0) * 0x40 + (c[1] as int - 0x80);
    SplitDigit(hi, c[2] as int - 0x80);
    SplitDigit(c[0] as int - 0xE0, c[1] as int - 0x80);
    assert n / 0x40 == hi;
    assert n / 0x1000 == hi / 0x40;
    assert EncodeChar(DecodeChar(c)) == EncodeThreeBytes(n);
  }

  lemma EncodeDecodeFourBytes(c: seq<Byte>)
    requires |c| == 4 && WellFormedChar(c)
    ensures EncodeChar(DecodeChar(c)) == c
  {
    var n := ScalarValue(c);
    var top := (c[0] as int - 0xF0) * 0x40 + (c[1] as int - 0x80);
    var hi := top * 0x40 + (c[2] as int - 0x80);
    SplitDigit(hi, c[3] as int - 0x80);
    SplitDigit(top, c[2] as int - 0x80);
    SplitDigit(c[0] as int - 0xF0, c[1] as int - 0x80);
    assert n / 0x40 == hi;
    assert n / 0x1000 == hi / 0x40;
    assert n / 0x40000 == top / 0x40;
    assert EncodeChar(DecodeChar(c)) == EncodeFourBytes(n);
  }

  /** One base-64 digit comes off a number by division and remainder. */
  lemma SplitDigit(q: int, r: int)
    requires 0 <= r < 0x40
    ensures (q * 0x40 + r) / 0x40 == q
    ensures (q * 0x40 + r) % 0x40 == r
  {
  }

  /** Rust's `str::as_bytes`: the UTF-8 bytes of a text, character by character. */
  function Utf8Encode(s: string): (r: seq<Byte>)
    ensures ValidUtf8(r)
    ensures |s| <= |r| <= 4 * |s|
  {
    if |s| == 0 then
      []
    else
      var head, tail := EncodeChar(s[0]), Utf8Encode(s[1..]);
      assert (head + tail)[..|head|] == head;
      assert (head + tail)[|head|..] == tail;
      head + tail
  }

  /**
    Rust's `str::from_utf8_unchecked`: reads the bytes back as text. The bytes
    of the result are exactly the input, so it is a reinterpretation.
  */
  function Utf8Decode(b: seq<Byte>): (s: string)
    requires ValidUtf8(b)
    ensures Utf8Encode(s) == b
    decreases |b|
  {
    if |b| == 0 then
      []
    else
      var n := LeadLength(b[0]);
      var c, rest := DecodeChar(b[..n]), Utf8Decode(b[n..]);
      EncodeDecodeChar(b[..n]);
      EncodeCons(c, rest);
      assert b == b[..n] + b[n..];
      [c] + rest
  }

  /** The encoding of a text that starts with `c`. */
  lemma EncodeCons(c: char, s: string)
    ensures Utf8Encode([c] + s) == EncodeChar(c) + Utf8Encode(s)
  {
    assert ([c] + s)[1..] == s;
  }

  /** Reading back what was encoded gives the original text. */
  lemma {:induction false} DecodeEncode(s: string)
    ensures Utf8Decode(Utf8Encode(s)) == s
  {
    if |s| > 0 {
      var head, tail := EncodeChar(s[0]), Utf8Encode(s[1..]);
      var b := head + tail;
      assert b == Utf8Encode(s);
      assert b[..|head|] == head;
      assert b[|head|..] == tail;
      DecodeEncodeChar(s[0]);
      DecodeEncode(s[1..]);
    }
  }

  /** Different texts have different encodings. */
  lemma EncodeInjective(s: string, t: string)
    ensures Utf8Encode(s) == Utf8Encode(t) <==> s == t
  {
    DecodeEncode(s);
    DecodeEncode(t);
  }

  /** Well-formed byte sequences and their texts correspond one to one. */
  lemma DecodeInjective(a: seq<Byte>, b: seq<Byte>)
    requires ValidUtf8(a) && ValidUtf8(b)
    ensures Utf8Decode(a) == Utf8Decode(b) <==> a == b
  {
  }
}
