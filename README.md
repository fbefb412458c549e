# inline_str in Dafny

A model of the `InlineStr` type of the Rust crate `inline_str`: an immutable
UTF-8 string whose bytes are kept in an `InlineArray`, a byte buffer from
another crate that stores short contents inline and longer ones in a shared,
reference-counted heap block.

The wrapper's one safety obligation is that its buffer holds only well-formed
UTF-8, because `deref` reinterprets the bytes as text without checking. The
model shows that every constructor establishes this, that `deref` sees exactly
the text the value was built from, and that the six cross-type equality
impls and the derived comparisons agree with plain text equality and order.

Files:

- `utf8.dfy` (module `Utf8`): UTF-8 as in RFC 3629. `ValidUtf8` follows the
  byte-sequence syntax of section 4. `EncodeChar` and `Utf8Encode` follow the
  encoding of section 3 and stand in for Rust's `str::as_bytes`.
  `Utf8Decode`, whose precondition is `ValidUtf8`, stands in for
  `str::from_utf8_unchecked`. Bytes are the newtype `Byte` (0 to 255). Dafny
  `char` values are Unicode scalar values, like Rust `char`s, so Rust's
  `String`, `&String` and `&str` are all modelled as `string`.
- `order.dfy` (module `Order`): Rust's `Ordering`; lexicographic order on
  byte strings (`<[u8] as Ord>::cmp`) and on texts by scalar value; proof that
  UTF-8 encoding preserves order.
- `inline_str.dfy` (module `InlineStrLib`): the contents of `src/lib.rs`.
  `InlineStr` is a datatype holding the buffer's byte content, and its
  predicate `Valid` is the UTF-8 invariant. `Cow` has `Borrowed` and `Owned`
  cases that both carry a `string`. There is one function per `From` impl,
  `Deref`, one function per `PartialEq` impl, and the derived `Eq`,
  `Compare` (`Ord::cmp`) and `Lt` (`PartialOrd::lt`).

The derived `PartialEq` and `Ord` of `InlineStr` compare the `InlineArray`
field. Its implementation is not part of this model. The model ASSUMES that
it compares like the byte slice it holds: equality by content, order
byte-lexicographic. This is written into the definitions of `Eq` and
`Compare`; it is not verified.

## Model

| member | source | states |
|---|---|---|
| `Utf8.EncodeChar` | src/lib.rs:40 | the UTF-8 bytes of one scalar value form one well-formed character, as long as its lead byte announces |
| `Utf8.EncodeCharLength` | src/lib.rs:40 | a scalar value is encoded in one, two, three or four bytes exactly when it lies in the corresponding range of section 3 of RFC 3629 |
| `Utf8.Utf8Encode` | src/lib.rs:40 | `as_bytes` always yields valid UTF-8, between one and four bytes per character |
| `Utf8.Utf8Decode` | src/lib.rs:67 | `from_utf8_unchecked` on valid UTF-8 is a reinterpretation: the text it yields has exactly the given bytes |
| `Utf8.DecodeEncode` | src/lib.rs:53-67 | decoding the encoding of a text gives the text back |
| `Utf8.EncodeInjective` | src/lib.rs:71-99 | two texts have the same bytes exactly when they are the same text |
| `Utf8.DecodeInjective` | src/lib.rs:20-23 | two valid byte strings read as the same text exactly when they are equal |
| `InlineStrLib.FromStr` | src/lib.rs:53-59 | `From<&str>` stores exactly the text's UTF-8 bytes, so the result satisfies the invariant and dereferences to the input |
| `InlineStrLib.FromString` | src/lib.rs:37-43 | `From<String>` satisfies the invariant, gives the same value as `From<&str>` and dereferences to the input |
| `InlineStrLib.FromStringRef` | src/lib.rs:45-51 | `From<&String>` satisfies the invariant, gives the same value as `From<&str>` and dereferences to the input |
| `InlineStrLib.Deref` | src/lib.rs:61-68 | the unchecked decode is called only on values meeting the invariant, and the text it yields has exactly the buffer's bytes |
| `InlineStrLib.EqString` | src/lib.rs:71-75 | `InlineStr == String` holds iff the buffer is the `String`'s bytes, iff the value is the one built from that `String` |
| `InlineStrLib.StringEq` | src/lib.rs:77-81 | `String == InlineStr` holds iff the `String`'s bytes are the buffer |
| `InlineStrLib.EqStr` | src/lib.rs:83-87 | `InlineStr == &str` holds iff the buffer is the slice's bytes, iff the value is the one built from that slice |
| `InlineStrLib.StrEq` | src/lib.rs:89-93 | `&str == InlineStr` holds iff the slice's bytes are the buffer |
| `InlineStrLib.EqCow` | src/lib.rs:95-99 | `InlineStr == Cow<str>` holds iff the buffer is the bytes of the Cow's text, iff the value is the one built from it |
| `InlineStrLib.CowEq` | src/lib.rs:101-105 | `Cow<str> == InlineStr` holds iff the bytes of the Cow's text are the buffer |
| `InlineStrLib.ConstructorsKeepInvariant` | src/lib.rs:37-59 | all three `From` impls establish the UTF-8 invariant and give the same value for the same text |
| `InlineStrLib.RoundTrip` | src/lib.rs:37-67 | dereferencing a value built from text `s` by any constructor gives `s` |
| `InlineStrLib.FromDeref` | src/lib.rs:53-67 | every valid value is the one built from its own text view |
| `InlineStrLib.EqIsTextEq` | src/lib.rs:71-99 | each forward cross-type equality is equality of the text view with the other text |
| `InlineStrLib.EqSymmetric` | src/lib.rs:77-105 | for `String`, `&str` and `Cow<str>`, `t == x` has the same outcome as `x == t` |
| `InlineStrLib.EqCowIgnoresVariant` | src/lib.rs:95-105 | comparing with a borrowed and with an owned Cow of the same text gives the same outcome, in both directions, and the same as comparing with that `&str` |
| `InlineStrLib.EqAgreesWithText` | src/lib.rs:20-23 | derived equality of two valid values holds exactly when their text views are equal (assuming the buffer compares by content) |
| `InlineStrLib.EqOfConstructed` | src/lib.rs:20-23 | two values built from texts are equal under derived equality exactly when the texts are equal |
| `InlineStrLib.CompareConsistentWithEq` | src/lib.rs:20 | derived `cmp` gives `Equal` exactly when derived `eq` holds |
| `InlineStrLib.CompareSwap` | src/lib.rs:20 | swapping the operands of derived `cmp` reverses the outcome |
| `InlineStrLib.LtStrictTotalOrder` | src/lib.rs:20 | derived `<` is irreflexive, asymmetric, transitive and total over InlineStr values (assuming the buffer orders byte-lexicographically) |
| `InlineStrLib.CompareIsTextOrder` | src/lib.rs:20-22 | on values built from texts, derived `cmp` equals the lexicographic order of the texts by Unicode scalar value |
| `InlineStrLib.BasicEq` | src/lib.rs:111-119 | for "the quick brown fox", the text view equals the input and equality holds in both directions with the `&str` |
| `Order.EncodePreservesOrder` | src/lib.rs:20 | byte-lexicographic order on UTF-8 encodings is scalar-value order on the texts |
| `Order.BytesCompareEqual` | src/lib.rs:20 | the assumed buffer order says `Equal` exactly for equal byte strings |
| `Order.BytesCompareTransitive` | src/lib.rs:20 | the assumed buffer order's `Less` is transitive |

## Left out

- `InlineArray` internals (src/lib.rs:18, src/lib.rs:22): inline versus heap storage, reference counting and O(1) clone belong to another crate, whose source is not part of this model. The buffer is modelled as its byte content.
- `InlineStrLib.Eq` and `InlineStrLib.Compare`: byte-wise equality and byte-lexicographic order of `InlineArray` are assumed, not verified, because its source is not available.
- `Display` and `Debug` (src/lib.rs:25-35): they only forward the text view to the standard library's formatting, which is output.
- The raw-pointer and lifetime meaning of `&**self` and the `unsafe` block itself (src/lib.rs:64-67): modelled only through `Valid` being the precondition of the decode.
- Hashing, `Borrow`, `AsRef` (bytes, path, OS string), a length accessor and serde support: src/lib.rs implements none of them, so none are modelled.
- Equality between an `InlineStr` and a reference to an `InlineStr` beyond the derived impl: src/lib.rs defines no such impl.
- Concurrency of reference-count updates on clone or drop: not present in the modelled code.
