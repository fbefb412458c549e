/**
  Orders on byte strings and on texts, as Rust's `Ord` gives them: slices of
  `u8` compare lexicographically byte by byte, and a shorter sequence that is
  a prefix of a longer one comes first. Texts compared character by character
  use the order of Unicode scalar values.

  UTF-8 is built so that the two agree: comparing the encodings of two texts
  byte by byte gives the same answer as comparing the texts scalar value by
  scalar value (EncodePreservesOrder).
*/
module Order {
  import opened Utf8

  /** Rust's `std::cmp::Ordering`. */
  datatype Ordering = Less | Equal | Greater {
    /** The outcome of the comparison with its operands swapped. */
    function Reverse(): Ordering {
      match this
      case Less => Greater
      case Equal => Equal
      case Greater => Less
    }
  }

  /** Compares two numbers. */
  function CompareInt(m: int, n: int): (r: Ordering)
    ensures r == Less <==> m < n
    ensures r == Equal <==> m == n
    ensures r == Greater <==> m > n
  {
    if m < n then Less else if m == n then Equal else Greater
  }

  /** `<[u8] as Ord>::cmp`: lexicographic order of byte strings. */
  function BytesCompare(a: seq<Byte>, b: seq<Byte>): Ordering
    decreases |a|
  {
    if |a| == 0 then
      if |b| == 0 then Equal else Less
    else if |b| == 0 then
      Greater
    else if a[0] != b[0] then
      CompareInt(a[0] as int, b[0] as int)
    else
      BytesCompare(a[1..], b[1..])
  }

  /** Lexicographic order of texts by Unicode scalar value, `<char as Ord>::cmp` element-wise. */
  function TextCompare(s: string, t: string): Ordering
    decreases |s|
  {
    if |s| == 0 then
      if |t| == 0 then Equal else Less
    else if |t| == 0 then
      Greater
    else if s[0] != t[0] then
      CompareInt(s[0] as int, t[0] as int)
    else
      TextCompare(s[1..], t[1..])
  }

  /** Two byte strings compare Equal exactly when they are the same. */
  lemma {:induction false} BytesCompareEqual(a: seq<Byte>, b: seq<Byte>)
    ensures BytesCompare(a, b) == Equal <==> a == b
    decreases |a|
  {
    if |a| > 0 && |b| > 0 && a[0] == b[0] {
      BytesCompareEqual(a[1..], b[1..]);
      assert a == [a[0]] + a[1..];
      assert b == [b[0]] + b[1..];
    }
  }

  /** Swapping the operands reverses the outcome. */
  lemma {:induction false} BytesCompareSwap(a: seq<Byte>, b: seq<Byte>)
    ensures BytesCompare(b, a) == BytesCompare(a, b).Reverse()
    decreases |a|
  {
    if |a| > 0 && |b| > 0 && a[0] == b[0] {
      BytesCompareSwap(a[1..], b[1..]);
    }
  }

  /** Less is transitive. */
  lemma {:induction false} BytesCompareTransitive(a: seq<Byte>, b: seq<Byte>, c: seq<Byte>)
    requires BytesCompare(a, b) == Less && BytesCompare(b, c) == Less
    ensures BytesCompare(a, c) == Less
    decreases |a|
  {
    if |a| > 0 && a[0] == b[0] && b[0] == c[0] {
      BytesCompareTransitive(a[1..], b[1..], c[1..]);
    }
  }

  /** A common prefix does not change the outcome. */
  lemma {:induction false} BytesCompareCommonPrefix(p: seq<Byte>, a: seq<Byte>, b: seq<Byte>)
    ensures BytesCompare(p + a, p + b) == BytesCompare(a, b)
    decreases |p|
  {
    if |p| > 0 {
      assert (p + a)[0] == p[0] == (p + b)[0];
      assert (p + a)[1..] == p[1..] + a;
      assert (p + b)[1..] == p[1..] + b;
      BytesCompareCommonPrefix(p[1..], a, b);
    } else {
      assert p + a == a && p + b == b;
    }
  }

  /** The first position where two byte strings differ decides their order. */
  lemma {:induction false} BytesCompareFirstDifference(a: seq<Byte>, b: seq<Byte>, i: nat)
    requires i < |a| && i < |b|
    requires a[..i] == b[..i] && a[i] != b[i]
    ensures BytesCompare(a, b) == CompareInt(a[i] as int, b[i] as int)
    decreases i
  {
    if i > 0 {
      assert a[0] == a[..i][0] == b[..i][0] == b[0];
      assert a[1..][..i - 1] == a[..i][1..];
      assert b[1..][..i - 1] == b[..i][1..];
      BytesCompareFirstDifference(a[1..], b[1..], i - 1);
    }
  }

  /**
    The encodings of two scalar values first differ at a byte that the two
    encodings both have, and that byte is larger in the encoding of the
    larger value, so neither encoding is a prefix of the other.
  */
  lemma EncodeCharOrder(c: char, d: char) returns (i: nat)
    requires c as int < d as int
    ensures i < |EncodeChar(c)| && i < |EncodeChar(d)|
    ensures EncodeChar(c)[..i] == EncodeChar(d)[..i]
    ensures EncodeChar(c)[i] < EncodeChar(d)[i]
  {
    var m, n := c as int, d as int;
    EncodeCharLength(c);
    EncodeCharLength(d);
    if |EncodeChar(c)| != |EncodeChar(d)| || m < 0x80 {
      i := 0;
    } else if m < 0x800 {
      i := EncodeOrderTwoBytes(c, d);
    } else if m < 0x10000 {
      i := EncodeOrderThreeBytes(c, d);
    } else {
      i := EncodeOrderFourBytes(c, d);
    }
  }

  lemma EncodeOrderTwoBytes(c: char, d: char) returns (i: nat)
    requires 0x80 <= c as int < d as int < 0x800
    ensures i < 2 && EncodeChar(c)[..i] == EncodeChar(d)[..i] && EncodeChar(c)[i] < EncodeChar(d)[i]
  {
    var m, n := c as int, d as int;
    Div64Monotone(m, n);
    if m / 0x40 < n / 0x40 {
      i := 0;
    } else {
      Div64SameQuotient(m, n);
      i := 1;
    }
  }

  lemma EncodeOrderThreeBytes(c: char, d: char) returns (i: nat)
    requires 0x800 <= c as int < d as int < 0x10000
    ensures i < 3 && EncodeChar(c)[..i] == EncodeChar(d)[..i] && EncodeChar(c)[i] < EncodeChar(d)[i]
  {
    var m, n := c as int, d as int;
    var a, b := m / 0x40, n / 0x40;
    Div64Twice(m);
    Div64Twice(n);
    Div64Monotone(m, n);
    Div64Monotone(a, b);
    if a / 0x40 < b / 0x40 {
      i := 0;
    } else if a < b {
      Div64SameQuotient(a, b);
      i := 1;
    } else {
      Div64SameQuotient(m, n);
      i := 2;
    }
  }

  lemma EncodeOrderFourBytes(c: char, d: char) returns (i: nat)
    requires 0x10000 <= c as int < d as int
    ensures i < 4 && EncodeChar(c)[..i] == EncodeChar(d)[..i] && EncodeChar(c)[i] < EncodeChar(d)[i]
  {
    var m, n := c as int, d as int;
    var a, b := m / 0x40, n / 0x40;
    var a2, b2 := a / 0x40, b / 0x40;
    Div64Twice(m);
    Div64Twice(n);
    Div64Twice(a);
    Div64Twice(b);
    Div64Monotone(m, n);
    Div64Monotone(a, b);
    Div64Monotone(a2, b2);
    if a2 / 0x40 < b2 / 0x40 {
      i := 0;
    } else if a2 < b2 {
      Div64SameQuotient(a2, b2);
      i := 1;
    } else if a < b {
      Div64SameQuotient(a, b);
      i := 2;
    } else {
      Div64SameQuotient(m, n);
      i := 3;
    }
  }

  lemma Div64Monotone(m: int, n: int)
    requires 0 <= m <= n
    ensures m / 0x40 <= n / 0x40
  {
  }

  lemma Div64SameQuotient(m: int, n: int)
    requires 0 <= m < n && m / 0x40 == n / 0x40
    ensures m % 0x40 < n % 0x40
  {
  }

  lemma Div64Twice(m: int)
    requires 0 <= m
    ensures m / 0x1000 == m / 0x40 / 0x40
    ensures m / 0x40000 == m / 0x40 / 0x40 / 0x40
  {
  }

  /** Different leading characters decide the order of the encodings. */
  lemma EncodeCharsDiffer(c: char, d: char, a: seq<Byte>, b: seq<Byte>)
    requires c != d
    ensures BytesCompare(EncodeChar(c) + a, EncodeChar(d) + b) == CompareInt(c as int, d as int)
  {
    if c as int < d as int {
      var i := EncodeCharOrder(c, d);
      var u, v := EncodeChar(c) + a, EncodeChar(d) + b;
      assert u[..i] == EncodeChar(c)[..i] && v[..i] == EncodeChar(d)[..i];
      BytesCompareFirstDifference(u, v, i);
    } else {
      var i := EncodeCharOrder(d, c);
      var u, v := EncodeChar(d) + b, EncodeChar(c) + a;
      assert u[..i] == EncodeChar(d)[..i] && v[..i] == EncodeChar(c)[..i];
      BytesCompareFirstDifference(u, v, i);
      BytesCompareSwap(u, v);
    }
  }

  /** Byte order on UTF-8 encodings is scalar-value order on the texts. */
  lemma {:induction false} EncodePreservesOrder(s: string, t: string)
    ensures BytesCompare(Utf8Encode(s), Utf8Encode(t)) == TextCompare(s, t)
    decreases |s|
  {
    if |s| > 0 && |t| > 0 {
      assert Utf8Encode(s) == EncodeChar(s[0]) + Utf8Encode(s[1..]);
      assert Utf8Encode(t) == EncodeChar(t[0]) + Utf8Encode(t[1..]);
      if s[0] == t[0] {
        BytesCompareCommonPrefix(EncodeChar(s[0]), Utf8Encode(s[1..]), Utf8Encode(t[1..]));
        EncodePreservesOrder(s[1..], t[1..]);
      } else {
        EncodeCharsDiffer(s[0], t[0], Utf8Encode(s[1..]), Utf8Encode(t[1..]));
      }
    }
  }
}
