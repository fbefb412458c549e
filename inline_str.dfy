/**
  The `InlineStr` wrapper of the `inline_str` crate (src/lib.rs): a read-only
  UTF-8 string kept in an `InlineArray` byte buffer.

  The buffer comes from another crate and is modelled by its byte content
  alone; whether the bytes sit inline or on the heap, and how clones share
  them, cannot be observed through the wrapper. The derived `PartialEq` and
  `Ord` of `InlineStr` compare that buffer, and the model takes as an
  assumption that `InlineArray` compares like the byte slice it holds (its
  source is not part of this model).

  Rust's text types `String`, `&String` and `&str` all carry the same content,
  a sequence of Unicode scalar values, and are all modelled as `string`.
*/
module InlineStrLib {
  import opened Utf8
  import opened Order

  /**
    `struct InlineStr { inner: InlineArray }`. The field is private, and
    every way the crate offers to build a value stores UTF-8 bytes: that is
    the invariant Valid, which `deref` relies on without checking.
  */
  datatype InlineStr = InlineStr(inner: seq<Byte>) {
    predicate Valid() {
      ValidUtf8(inner)
    }
  }

  /** `std::borrow::Cow<'a, str>`: a text either borrowed or owned. */
  datatype Cow = Borrowed(borrowed: string) | Owned(owned: string) {
    /** `<Cow<str> as Deref>::deref`: the text, whichever variant holds it. */
    function Text(): string {
      match this
      case Borrowed(s) => s
      case Owned(s) => s
    }
  }

  // Construction (the three `From` impls)

  /** `impl From<&str> for InlineStr`: copies the UTF-8 bytes of the text into the buffer. */
  function FromStr(value: string): (r: InlineStr)
    ensures r.Valid()
    ensures r.inner == Utf8Encode(value)
    ensures Deref(r) == value
  {
    DecodeEncode(value);
    InlineStr(Utf8Encode(value))
  }

  /** `impl From<String> for InlineStr`: the same bytes as from the slice of the text. */
  function FromString(value: string): (r: InlineStr)
    ensures r.Valid()
    ensures r == FromStr(value)
    ensures Deref(r) == value
  {
    DecodeEncode(value);
    InlineStr(Utf8Encode(value))
  }

  /** `impl From<&String> for InlineStr`: the same bytes as from the slice of the text. */
  function FromStringRef(value: string): (r: InlineStr)
    ensures r.Valid()
    ensures r == FromStr(value)
    ensures Deref(r) == value
  {
    DecodeEncode(value);
    InlineStr(Utf8Encode(value))
  }

  // The text view

  /**
    `impl Deref for InlineStr`: `str::from_utf8_unchecked` on the buffer.
    Its precondition is the invariant, and the text it gives has exactly the
    buffer's bytes.
  */
  function Deref(x: InlineStr): (s: string)
    requires x.Valid()
    ensures Utf8Encode(s) == x.inner
  {
    Utf8Decode(x.inner)
  }

  // Equality with the other text types, each direction an impl of its own

  /** `impl PartialEq<String> for InlineStr`: compares the text view with the `String`. */
  function EqString(x: InlineStr, other: string): (r: bool)
    requires x.Valid()
    ensures r <==> x.inner == Utf8Encode(other)
    ensures r <==> x == FromString(other)
  {
    EncodeInjective(Deref(x), other);
    Deref(x) == other
  }

  /** `impl PartialEq<InlineStr> for String`: asks the impl above. */
  function StringEq(s: string, other: InlineStr): (r: bool)
    requires other.Valid()
    ensures r <==> Utf8Encode(s) == other.inner
  {
    EqString(other, s)
  }

  /** `impl PartialEq<&str> for InlineStr`: compares the text view with the slice. */
  function EqStr(x: InlineStr, other: string): (r: bool)
    requires x.Valid()
    ensures r <==> x.inner == Utf8Encode(other)
    ensures r <==> x == FromStr(other)
  {
    EncodeInjective(Deref(x), other);
    Deref(x) == other
  }

  /** `impl PartialEq<InlineStr> for &str`: asks the impl above. */
  function StrEq(s: string, other: InlineStr): (r: bool)
    requires other.Valid()
    ensures r <==> Utf8Encode(s) == other.inner
  {
    EqStr(other, s)
  }

  /** `impl PartialEq<Cow<str>> for InlineStr`: compares the text view with the Cow's text. */
  function EqCow(x: InlineStr, other: Cow): (r: bool)
    requires x.Valid()
    ensures r <==> x.inner == Utf8Encode(other.Text())
    ensures r <==> x == FromStr(other.Text())
  {
    EncodeInjective(Deref(x), other.Text());
    Deref(x) == other.Text()
  }

  /** `impl PartialEq<InlineStr> for Cow<str>`: asks the impl above. */
  function CowEq(c: Cow, other: InlineStr): (r: bool)
    requires other.Valid()
    ensures r <==> Utf8Encode(c.Text()) == other.inner
  {
    EqCow(other, c)
  }

  // Derived comparisons of InlineStr with itself

  /** Derived `PartialEq for InlineStr`: compares the buffers, assumed to compare by content. */
  function Eq(x: InlineStr, y: InlineStr): bool {
    x.inner == y.inner
  }

  /** Derived `Ord::cmp for InlineStr`: compares the buffers, assumed to order their bytes lexicographically. */
  function Compare(x: InlineStr, y: InlineStr): Ordering {
    BytesCompare(x.inner, y.inner)
  }

  /** Derived `PartialOrd::lt for InlineStr`. */
  predicate Lt(x: InlineStr, y: InlineStr) {
    Compare(x, y) == Less
  }

  // Properties

  /** Whatever constructor built it, every InlineStr may be dereferenced. */
  lemma ConstructorsKeepInvariant(value: string)
    ensures FromStr(value).Valid() && FromString(value).Valid() && FromStringRef(value).Valid()
    ensures FromString(value) == FromStringRef(value) == FromStr(value)
  {
  }

  /** Building from a text and reading the text back gives that text. */
  lemma RoundTrip(s: string)
    ensures Deref(FromStr(s)) == s
    ensures Deref(FromString(s)) == s
    ensures Deref(FromStringRef(s)) == s
  {
  }

  /** Every valid InlineStr is the one built from its own text view. */
  lemma FromDeref(x: InlineStr)
    requires x.Valid()
    ensures FromStr(Deref(x)) == x
  {
  }

  /** Each reversed impl agrees with the forward one, for every foreign text type. */
  lemma EqSymmetric(x: InlineStr, s: string, c: Cow)
    requires x.Valid()
    ensures StringEq(s, x) == EqString(x, s)
    ensures StrEq(s, x) == EqStr(x, s)
    ensures CowEq(c, x) == EqCow(x, c)
  {
  }

  /** Equality with each foreign text type is equality of the text view with that text. */
  lemma EqIsTextEq(x: InlineStr, s: string, c: Cow)
    requires x.Valid()
    ensures EqString(x, s) <==> Deref(x) == s
    ensures EqStr(x, s) <==> Deref(x) == s
    ensures EqCow(x, c) <==> Deref(x) == c.Text()
  {
  }

  /** Comparing with a Cow does not look at whether it is borrowed or owned. */
  lemma EqCowIgnoresVariant(x: InlineStr, s: string)
    requires x.Valid()
    ensures EqCow(x, Borrowed(s)) == EqCow(x, Owned(s)) == EqStr(x, s)
    ensures CowEq(Borrowed(s), x) == CowEq(Owned(s), x) == StrEq(s, x)
  {
  }

  /** Two InlineStr values are equal exactly when their text views are. */
  lemma EqAgreesWithText(x: InlineStr, y: InlineStr)
    requires x.Valid() && y.Valid()
    ensures Eq(x, y) <==> Deref(x) == Deref(y)
  {
    DecodeInjective(x.inner, y.inner);
  }

  /** Built from texts, two values are equal exactly when the texts are. */
  lemma EqOfConstructed(s: string, t: string)
    ensures Eq(FromStr(s), FromStr(t)) <==> s == t
  {
    if Eq(FromStr(s), FromStr(t)) {
      EncodeInjective(s, t);
    }
  }

  /** The order agrees with equality: Compare says Equal exactly when Eq holds. */
  lemma CompareConsistentWithEq(x: InlineStr, y: InlineStr)
    ensures Compare(x, y) == Equal <==> Eq(x, y)
  {
    BytesCompareEqual(x.inner, y.inner);
  }

  /** Swapping the operands of Compare reverses its outcome. */
  lemma CompareSwap(x: InlineStr, y: InlineStr)
    ensures Compare(y, x) == Compare(x, y).Reverse()
  {
    BytesCompareSwap(x.inner, y.inner);
  }

  /** `<` is a strict total order on InlineStr: irreflexive, transitive, total. */
  lemma LtStrictTotalOrder(x: InlineStr, y: InlineStr, z: InlineStr)
    ensures !Lt(x, x)
    ensures Lt(x, y) && Lt(y, z) ==> Lt(x, z)
    ensures x == y || Lt(x, y) || Lt(y, x)
    ensures !(Lt(x, y) && Lt(y, x))
  {
    BytesCompareEqual(x.inner, x.inner);
    BytesCompareEqual(x.inner, y.inner);
    BytesCompareSwap(x.inner, y.inner);
    if Lt(x, y) && Lt(y, z) {
      BytesCompareTransitive(x.inner, y.inner, z.inner);
    }
  }

  /**
    On values built from texts, the byte order of the buffers is the order of
    the texts by Unicode scalar value.
  */
  lemma CompareIsTextOrder(s: string, t: string)
    ensures Compare(FromStr(s), FromStr(t)) == TextCompare(s, t)
  {
    EncodePreservesOrder(s, t);
  }

  /** The crate's test `test_basic_eq`. */
  lemma BasicEq()
    ensures var words := "the quick brown fox";
      && Deref(FromStr(words)) == words
      && StrEq(words, FromStr(words))
      && EqStr(FromStr(words), words)
  {
  }
}
