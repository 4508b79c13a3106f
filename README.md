# IString: an immutable string for yew properties

This project models `IString` from the yew-immutable crate. `IString` is a two-variant value type for text that is passed through component properties and attributes. The variants are:

- `Static`: a reference to constant text.
- `Rc`: a reference-counted shared buffer.

The model covers the operations in `src/string.rs`:

- the default value;
- the three `From` constructors and the `IntoPropValue` conversions built on them;
- the tag-for-tag conversions to and from yew's `AttrValue`;
- `Display`;
- the four comparisons against plain text (`str`, `&str`, `String`, `&String`);
- the derived `Clone`, `PartialEq`/`Eq` and `Hash`.

Files:

- `string.dfy` (module `ImmutableString`): the `IString` datatype, every operation as a function, and the lemmas about them.
- `virtual_dom.dfy` (module `VirtualDom`): yew's `AttrValue`, reduced to its `Static` and `Rc` variants.
- `wrappers.dfy` (module `Wrappers`): Rust's `Option`.
- `hash.dfy` (module `RustHash`): the `Hasher` calls a derived `Hash` makes, and the bytes those calls stream into the hasher under the default `Hasher` methods. This covers `write_isize`, and `write_str` as UTF-8 bytes followed by `0xff`. It includes the proof that UTF-8 encoding is injective (RFC 3629, section 3).

Both `IString` variants hold their content as a Dafny `string`. Rust's `&str`, `str`, `String` and `&String` are all modelled as `string`. Borrowing a value does not change its content.

Equality between two `IString`s is the derived one (`src/string.rs:6`). It compares the variant first, so `Static("foo")` and `Rc("foo")` are not equal. The four comparisons with plain text ignore the variant (`src/string.rs:78-112`), so the derived impls are the only place where the variant matters. The model follows the code. `ImmutableString.Eq` and `ImmutableString.HashBytes` are the derived impls. The content-only versions appear under "## Findings".

## Model

| member | source | states |
|---|---|---|
| `ImmutableString.Default` | src/string.rs:12-16 | The default is the `Static` variant with empty content, and it compares equal to a text `t` exactly when `t` is `""` |
| `ImmutableString.StaticIntoProp` | src/string.rs:18-22 | `IntoPropValue` from `&'static str` gives exactly what `From<&'static str>` gives: `Static` with the same content |
| `ImmutableString.StringIntoProp` | src/string.rs:24-28 | `IntoPropValue` from `String` gives exactly what `From<String>` gives: `Rc` with the same content |
| `ImmutableString.FromAttrValue` | src/string.rs:30-38 | `AttrValue` to `IString` maps `Static` to `Static` and `Rc` to `Rc`, and keeps the content |
| `ImmutableString.ToAttrValue` | src/string.rs:40-47 | `&IString` to `Option<AttrValue>` is always `Some`, maps variant to variant, and keeps the content |
| `ImmutableString.IStringRoundTrip` | src/string.rs:30-47 | `IString` to `AttrValue` and back returns the same value, variant included |
| `ImmutableString.AttrValueRoundTrip` | src/string.rs:30-47 | `AttrValue` to `IString` and back returns `Some` of the same value |
| `ImmutableString.Display` | src/string.rs:51-58 | Display writes the value's content, and what it writes compares equal to the value |
| `ImmutableString.DisplayIgnoresVariant` | src/string.rs:51-58 | The same text displays the same under `Static` and under `Rc` |
| `ImmutableString.FromStatic` | src/string.rs:60-64 | `From<&'static str>` gives the `Static` variant, and it displays as the given text |
| `ImmutableString.FromString` | src/string.rs:66-70 | `From<String>` gives the `Rc` variant, and it displays as the given text |
| `ImmutableString.FromRc` | src/string.rs:72-76 | `From<Rc<str>>` gives the `Rc` variant, and it displays as the given text |
| `ImmutableString.EqStr` | src/string.rs:78-85 | `x == other` for `other: str` holds iff x's content is `other`, whatever x's variant |
| `ImmutableString.EqStrRef` | src/string.rs:87-94 | `x == other` for `other: &str` holds iff x's content is `other`, whatever x's variant |
| `ImmutableString.EqString` | src/string.rs:96-103 | `x == other` for `other: String` holds iff x's content is `other`, whatever x's variant |
| `ImmutableString.EqStringRef` | src/string.rs:105-112 | `x == other` for `other: &String` holds iff x's content is `other`, whatever x's variant |
| `ImmutableString.StrComparisonsAgree` | src/string.rs:78-112 | The four comparisons with plain text give the same answer, and moving the content to the other variant does not change it |
| `ImmutableString.FromThenCompare` | src/string.rs:60-112 | A value built from text `t` by any `From` compares equal to `t` under each comparison |
| `ImmutableString.StringCmp` | src/string.rs:118-123 | The crate's `string_cmp` test: `IString::from("foo")` equals `"foo"` under `PartialEq<&str>`, `String::from("foo")` under `PartialEq<String>` and `&String::from("foo")` under `PartialEq<&String>` |
| `ImmutableString.Clone` | src/string.rs:6-10 | The derived clone is equal to the original, with the same variant and the same content |
| `ImmutableString.Eq` | src/string.rs:6-10 | Derived `PartialEq` holds iff both values have the same variant and equal content |
| `ImmutableString.EqIsStructural` | src/string.rs:6-10 | Derived equality holds iff the two values are identical |
| `ImmutableString.EqIsEquivalence` | src/string.rs:6 | Derived `Eq` is reflexive, symmetric and transitive |
| `ImmutableString.StaticIsNotRc` | src/string.rs:6-10 | `Static(t)` and `Rc(t)` are unequal under derived equality, and so are `From<&'static str>` and `From<String>` applied to the same text |
| `ImmutableString.Discriminant` | src/string.rs:6-10 | The derived impls give `Static` discriminant 0 and `Rc` discriminant 1 |
| `ImmutableString.HashCalls` | src/string.rs:6-10 | Derived `Hash` makes two hasher calls: first `write_isize` of the variant's discriminant, then `write_str` of the content |
| `ImmutableString.HashBytes` | src/string.rs:6-10 | Derived `Hash` streams the eight discriminant bytes, then the content's UTF-8 bytes, then `0xff` |
| `ImmutableString.HashMatchesEq` | src/string.rs:6-10 | Derived `Hash` agrees with derived `Eq` in both directions: equal values stream the same bytes into the hasher, and values that stream the same bytes are equal |
| `ImmutableString.ContentEq` | src/string.rs:6-10 | Content equality holds iff the two values agree on every comparison with plain text |
| `ImmutableString.ContentHashBytes` | src/string.rs:6 | The corrected hash streams only the content's UTF-8 bytes, then `0xff`, with no discriminant |
| `ImmutableString.ContentHashMatchesContentEq` | src/string.rs:6-10 | A content-only hash agrees with content equality in both directions, and content equality relates `Static(t)` to `Rc(t)` |
| `ImmutableString.ContentEqExtendsEq` | src/string.rs:6-10 | Derived equality implies content equality. Two values equal to the same text are content-equal |
| `ImmutableString.DerivedEqSplitsEqualText` | src/string.rs:6-10 | `IString::from(String::from("foo"))` and `IString::from("foo")` both compare equal to `"foo"`, but they are unequal to each other under derived equality |

## Left out

- Reference counting, allocation and drop of the `Rc` variant are not modelled. Both variants hold a `string` value, so the model cannot express that a clone shares the buffer or is O(1).
- `ImplicitClone` (`src/string.rs:49`) is a marker trait with no behaviour.
- ImmutableString.Display: returns the content as the plain `{}` format writes it. The width, fill, alignment and precision options of `fmt::Formatter` are not modelled, and neither is the `fmt::Result` plumbing.
- The derived `Debug` is not modelled. It produces diagnostic text only.
- Hash values are not modelled. The model stops at the bytes the derived `Hash` streams into the `Hasher`, and the hashing algorithm is left out.
- RustHash.IsizeBytes: assumes a 64-bit little-endian target for `write_isize`. Other targets stream the discriminant with another width or byte order. The discriminant still separates the variants on those targets.
- The `static_string` test (`src/string.rs:125-128`) checks a compile-time property: an `IString` can be built in a `const`. Dafny has no counterpart for this.
- yew's `IntoPropValue` trait machinery and the rest of `AttrValue` are not part of this model. `AttrValue` appears only as its `Static` and `Rc` variants. The `Owned` arm is commented out at `src/string.rs:34` and is not added.

## Findings

| source | as written | input that shows it | evidently intended | confidence | as-written member | corrected member |
|---|---|---|---|---|---|---|
| src/string.rs:6 | `PartialEq` and `Hash` are derived, so two `IString`s compare and hash by variant first, then content | `IString::from(String::from("foo")) == IString::from("foo")` is false, although each side compares equal to `"foo"` | Equality and hashing between two `IString`s go by content alone. The four comparisons with plain text ignore the variant (src/string.rs:78-112), so the derived impls are the only place where the variant matters | medium; not executed | `ImmutableString.Eq`, `ImmutableString.DerivedEqSplitsEqualText` | `ImmutableString.ContentEq`, `ImmutableString.ContentHashMatchesContentEq` |

`ImmutableString.Eq` and `ImmutableString.HashBytes` still model `IString == IString` and `Hash` as the crate defines them. The comparisons against plain text already ignore the variant. No other member of the model depends on which equality between two `IString`s is chosen.
