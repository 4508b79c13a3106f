/** `IString`, an immutable string for component properties: either constant
    text or reference-counted shared text. Both variants hold their content as
    a `string`; reference counting and allocation are not modelled. */
module ImmutableString {

  import opened Wrappers
  import VirtualDom
  import opened RustHash

  datatype IString = Static(s: string) | Rc(s: string)

  // ---------------------------------------------------------------------------
  // Content and display

  /** `Display`: writes the content, whichever variant holds it. */
  function Display(x: IString): (r: string)
    ensures r == x.s
    ensures EqStr(x, r)
  {
    match x
    case Static(s) => s
    case Rc(s) => s
  }

  /** Display does not depend on the variant. */
  lemma DisplayIgnoresVariant(t: string)
    ensures Display(Static(t)) == Display(Rc(t)) == t
  {
  }

  // ---------------------------------------------------------------------------
  // Construction

  /** `Default`: the empty text, held as constant text. */
  function Default(): (r: IString)
    ensures r.Static? && Display(r) == ""
    ensures forall t :: EqStr(r, t) <==> t == ""
  {
    Static("")
  }

  /** `From<&'static str>`: constant text, no allocation. */
  function FromStatic(t: string): (r: IString)
    ensures r.Static? && Display(r) == t
  {
    Static(t)
  }

  /** `From<String>`: the buffer becomes shared text. */
  function FromString(t: string): (r: IString)
    ensures r.Rc? && Display(r) == t
  {
    Rc(t)
  }

  /** `From<Rc<str>>`: the shared buffer is adopted as it is. */
  function FromRc(t: string): (r: IString)
    ensures r.Rc? && Display(r) == t
  {
    Rc(t)
  }

  /** `IntoPropValue<IString> for &'static str`: what `From` produces. */
  function StaticIntoProp(t: string): (r: IString)
    ensures r == FromStatic(t)
    ensures r.Static? && Display(r) == t
  {
    FromStatic(t)
  }

  /** `IntoPropValue<IString> for String`: what `From` produces. */
  function StringIntoProp(t: string): (r: IString)
    ensures r == FromString(t)
    ensures r.Rc? && Display(r) == t
  {
    FromString(t)
  }

  /** Derived `Clone`: a new handle on the same text in the same variant
      (for `Rc`, one more reference to the same buffer). */
  function Clone(x: IString): (r: IString)
    ensures Eq(r, x) && r.Static? == x.Static? && Display(r) == Display(x)
  {
    match x
    case Static(s) => Static(s)
    case Rc(s) => Rc(s)
  }

  // ---------------------------------------------------------------------------
  // Conversions to and from the host framework's attribute value

  /** `IntoPropValue<IString> for AttrValue`: tag for tag, content kept. */
  function FromAttrValue(a: VirtualDom.AttrValue): (r: IString)
    ensures r.Static? <==> a.Static?
    ensures Display(r) == a.s
  {
    match a
    case Static(s) => FromStatic(s)
    case Rc(s) => FromRc(s)
  }

  /** `IntoPropValue<Option<AttrValue>> for &IString`: always `Some`, tag for
      tag, content kept. */
  function ToAttrValue(x: IString): (r: Option<VirtualDom.AttrValue>)
    ensures r.Some?
    ensures r.value.Static? <==> x.Static?
    ensures r.value.s == Display(x)
  {
    Some(match x
      case Static(s) => VirtualDom.AttrValue.Static(s)
      case Rc(s) => VirtualDom.AttrValue.Rc(s))
  }

  /** `IString` -> `AttrValue` -> `IString` is the identity. */
  lemma IStringRoundTrip(x: IString)
    ensures FromAttrValue(ToAttrValue(x).value) == x
  {
  }

  /** `AttrValue` -> `IString` -> `AttrValue` is the identity. */
  lemma AttrValueRoundTrip(a: VirtualDom.AttrValue)
    ensures ToAttrValue(FromAttrValue(a)) == Some(a)
  {
  }

  // ---------------------------------------------------------------------------
  // Comparison with plain strings: content only

  /** `PartialEq<str> for IString`. */
  function EqStr(x: IString, other: string): (r: bool)
    ensures r <==> x.s == other
  {
    match x
    case Static(s) => s == other
    case Rc(s) => s == other
  }

  /** `PartialEq<&str> for IString`. */
  function EqStrRef(x: IString, other: string): (r: bool)
    ensures r <==> x.s == other
  {
    match x
    case Static(s) => s == other
    case Rc(s) => s == other
  }

  /** `PartialEq<String> for IString`. */
  function EqString(x: IString, other: string): (r: bool)
    ensures r <==> x.s == other
  {
    match x
    case Static(s) => s == other
    case Rc(s) => s == other
  }

  /** `PartialEq<&String> for IString`. */
  function EqStringRef(x: IString, other: string): (r: bool)
    ensures r <==> x.s == other
  {
    match x
    case Static(s) => s == other
    case Rc(s) => s == other
  }

  /** The four comparisons with plain text agree, and none looks at the variant. */
  lemma StrComparisonsAgree(x: IString, t: string)
    ensures EqStr(x, t) == EqStrRef(x, t) == EqString(x, t) == EqStringRef(x, t)
    ensures EqStr(x, t) == EqStr(Static(x.s), t) == EqStr(Rc(x.s), t)
  {
  }

  /** Text built from `t` by any constructor compares equal to `t`, by any of
      the four comparisons. */
  lemma FromThenCompare(t: string)
    ensures EqStr(FromStatic(t), t) && EqStrRef(FromStatic(t), t)
    ensures EqString(FromStatic(t), t) && EqStringRef(FromStatic(t), t)
    ensures EqStr(FromString(t), t) && EqStrRef(FromString(t), t)
    ensures EqString(FromString(t), t) && EqStringRef(FromString(t), t)
    ensures EqStr(FromRc(t), t) && EqStrRef(FromRc(t), t)
    ensures EqString(FromRc(t), t) && EqStringRef(FromRc(t), t)
  {
  }

  /** The crate's `string_cmp` test: a `&str`, a `String` and a `&String`. */
  lemma StringCmp()
    ensures EqStrRef(FromStatic("foo"), "foo")
    ensures EqString(FromStatic("foo"), "foo")
    ensures EqStringRef(FromStatic("foo"), "foo")
  {
  }

  // ---------------------------------------------------------------------------
  // Derived `PartialEq`, `Eq` and `Hash` between two `IString`s

  /** Derived `PartialEq`: the variants must match, then the contents. */
  function Eq(x: IString, y: IString): (r: bool)
    ensures r <==> (x.Static? == y.Static? && Display(x) == Display(y))
  {
    match (x, y)
    case (Static(a), Static(b)) => a == b
    case (Rc(a), Rc(b)) => a == b
    case _ => false
  }

  /** Derived equality is structural equality of the two values. */
  lemma EqIsStructural(x: IString, y: IString)
    ensures Eq(x, y) <==> x == y
  {
  }

  /** Derived `Eq` is an equivalence relation. */
  lemma EqIsEquivalence(x: IString, y: IString, z: IString)
    ensures Eq(x, x)
    ensures Eq(x, y) ==> Eq(y, x)
    ensures Eq(x, y) && Eq(y, z) ==> Eq(x, z)
  {
  }

  /** The same text held as constant text and as shared text is not equal
      under the derived equality. */
  lemma StaticIsNotRc(t: string)
    ensures !Eq(Static(t), Rc(t))
    ensures !Eq(FromStatic(t), FromString(t))
  {
  }

  /** The discriminant the derived impls give each variant, in declaration order. */
  function Discriminant(x: IString): (d: isize)
    ensures d == 0 <==> x.Static?
    ensures 0 <= d <= 1
  {
    match x
    case Static(_) => 0
    case Rc(_) => 1
  }

  /** Derived `Hash`: `write_isize` of the discriminant, then the field's
      `str::hash`, which is `write_str` of the content. */
  function HashCalls(x: IString): (r: seq<HasherCall>)
    ensures |r| == 2
    ensures r[0] == WriteIsize(Discriminant(x))
    ensures r[1] == WriteStr(Display(x))
  {
    [WriteIsize(Discriminant(x)), WriteStr(x.s)]
  }

  /** The bytes the derived `Hash` streams into the hasher: eight
      discriminant bytes, then the content's UTF-8 bytes and `0xff`. */
  function HashBytes(x: IString): (r: seq<byte>)
    ensures r == IsizeBytes(Discriminant(x)) + (Utf8(Display(x)) + [0xFF])
  {
    var calls := HashCalls(x);
    StreamOfOne(calls[1]);
    assert calls[1..] == [calls[1]];
    StreamBytes(calls)
  }

  /** Derived `Hash` agrees with derived `Eq` in both directions: equal values
      stream the same bytes into the hasher, and values that stream the same
      bytes are equal. */
  lemma HashMatchesEq(x: IString, y: IString)
    ensures Eq(x, y) <==> HashBytes(x) == HashBytes(y)
  {
    if HashBytes(x) == HashBytes(y) {
      var hx, hy := HashBytes(x), HashBytes(y);
      assert IsizeBytes(Discriminant(x))[0] == hx[0] == hy[0] == IsizeBytes(Discriminant(y))[0];
      assert Discriminant(x) == Discriminant(y);
      assert CallBytes(WriteStr(x.s)) == hx[8..] == hy[8..] == CallBytes(WriteStr(y.s));
      WriteStrInjective(x.s, y.s);
    }
  }

  // ---------------------------------------------------------------------------
  // Content equality: the four comparisons with plain text ignore the
  // variant, so the derived impls are the only place where it matters

  /** Equality by content alone, variant ignored. */
  function ContentEq(x: IString, y: IString): (r: bool)
    ensures r <==> forall t :: EqStr(x, t) <==> EqStr(y, t)
  {
    assert EqStr(x, x.s);
    x.s == y.s
  }

  /** A hash that streams only the content, as `str` itself does: the
      content's UTF-8 bytes and `0xff`, with no discriminant. */
  function ContentHashBytes(x: IString): (r: seq<byte>)
    ensures r == Utf8(Display(x)) + [0xFF]
  {
    StreamOfOne(WriteStr(x.s));
    StreamBytes([WriteStr(x.s)])
  }

  /** Content equality agrees with the content hash in both directions, and
      relates the same text whatever variant holds it. */
  lemma ContentHashMatchesContentEq(x: IString, y: IString)
    ensures ContentEq(x, y) <==> ContentHashBytes(x) == ContentHashBytes(y)
    ensures ContentEq(Static(x.s), Rc(x.s))
  {
    if ContentHashBytes(x) == ContentHashBytes(y) {
      WriteStrInjective(x.s, y.s);
    }
  }

  /** Content equality is what derived equality gives once variants are
      forgotten, and it is transitive with the comparisons against plain text. */
  lemma ContentEqExtendsEq(x: IString, y: IString, t: string)
    ensures Eq(x, y) ==> ContentEq(x, y)
    ensures EqStr(x, t) && EqStr(y, t) ==> ContentEq(x, y)
  {
  }

  /** As written, two values that both compare equal to "foo" are unequal to
      each other under the derived equality. */
  lemma DerivedEqSplitsEqualText()
    ensures EqStr(FromStatic("foo"), "foo") && EqStr(FromString("foo"), "foo")
    ensures !Eq(FromString("foo"), FromStatic("foo"))
    ensures ContentEq(FromString("foo"), FromStatic("foo"))
  {
  }
}
