/** The `c_enum!` machinery: a closed, declaration-ordered table of (name, kernel
    constant) pairs with parsing by exact name (`FromStr`), rendering to the name
    (`AsRef<str>` and the derived `Debug`), enumeration (`EnumValues::values`),
    the parse error's `Debug`/`Display`, the enum's own `Display`, and the symmetric
    `BitAnd` between a variant and a raw integer of the enum's width.

    A variant is identified by its declaration index. */
module CEnums {
  import opened Results
  import opened Text

  /** The integer representation `c_enum!` gives the enum: `#[repr(u32)]` or `#[repr(u64)]`. */
  datatype Repr = U32 | U64

  /** A machine word, modelled by the positions of its one bits: `a & b` is `a * b`,
      `a | b` is `a + b`, and `x != 0` is `x != {}`. */
  type Bits = set<nat>

  datatype Variant = Variant(name: string, value: Bits)

  /** One generated enum: its type name, its representation and its variants in
      declaration order. */
  datatype CEnum = CEnum(typeName: string, repr: Repr, variants: seq<Variant>)

  /** What a `c_enum!` invocation writes: `enum Name { A, B }` (no width) or
      `enum(u32) Name { ... }` / `enum(u64) Name { ... }`. */
  datatype EnumDecl = EnumDecl(typeName: string, width: Option<Repr>, flags: seq<string>)

  /** `CEnumParseError<T>`: the string that named no variant (the type is phantom). */
  datatype ParseError = ParseError(input: string)

  function WidthOf(repr: Repr): nat
  {
    match repr
    case U32 => 32
    case U64 => 64
  }

  /** A value representable in the enum's integer type. */
  predicate FitsRepr(repr: Repr, v: Bits)
  {
    forall b :: b in v ==> b < WidthOf(repr)
  }

  /** What the Rust compiler enforces on a generated enum: variant identifiers are
      distinct, discriminants are distinct, and each discriminant fits the `repr`. */
  predicate Valid(e: CEnum)
  {
    && DistinctNames(e)
    && (forall i, j :: 0 <= i < j < |e.variants| ==> e.variants[i].value != e.variants[j].value)
    && ValuesFit(e)
  }

  /** No two variants share an identifier. */
  predicate DistinctNames(e: CEnum)
  {
    forall i, j :: 0 <= i < j < |e.variants| ==> e.variants[i].name != e.variants[j].name
  }

  /** Every discriminant is representable in the enum's `repr`. */
  predicate ValuesFit(e: CEnum)
  {
    forall i :: 0 <= i < |e.variants| ==> FitsRepr(e.repr, e.variants[i].value)
  }

  predicate IsFlag(e: CEnum, i: nat)
  {
    i < |e.variants|
  }

  /** Expansion of one `c_enum!` declaration: the first macro arm rewrites a declaration
      without a width to `enum(u64)`, and each variant `F` is bound to `libc::F`. */
  function Expand(decl: EnumDecl, libc: string -> Bits): (e: CEnum)
    ensures e.typeName == decl.typeName
    ensures e.repr == U32 <==> decl.width == Some(U32)
    ensures e.repr == U64 <==> decl.width != Some(U32)
    ensures |e.variants| == |decl.flags|
    ensures forall i :: 0 <= i < |e.variants| ==>
              e.variants[i].name == decl.flags[i] && e.variants[i].value == libc(decl.flags[i])
  {
    var repr := match decl.width
      case Some(U32) => U32
      case _ => U64;
    CEnum(decl.typeName, repr,
          seq(|decl.flags|, i requires 0 <= i < |decl.flags| => Variant(decl.flags[i], libc(decl.flags[i]))))
  }

  /** `as_ref()`, and equally the derived `Debug` of a fieldless variant: its identifier. */
  function Render(e: CEnum, i: nat): string
    requires IsFlag(e, i)
  {
    e.variants[i].name
  }

  /** `EnumValues::values()`: every variant, in declaration order. */
  function Values(e: CEnum): (r: seq<nat>)
    ensures |r| == |e.variants|
    ensures forall k :: 0 <= k < |r| ==> r[k] == k
  {
    seq(|e.variants|, k => k)
  }

  /** The names of the given variants, in the given order. */
  function NamesOf(e: CEnum, flags: seq<nat>): (r: seq<string>)
    requires forall k :: 0 <= k < |flags| ==> IsFlag(e, flags[k])
    ensures |r| == |flags|
    ensures forall k :: 0 <= k < |r| ==> r[k] == Render(e, flags[k])
  {
    seq(|flags|, k requires 0 <= k < |flags| => Render(e, flags[k]))
  }

  /** Every variant name in declaration order. */
  function Names(e: CEnum): seq<string>
  {
    NamesOf(e, Values(e))
  }

  /** The first variant, in declaration order, whose identifier is exactly `s`. */
  function FindName(vs: seq<Variant>, s: string): (r: Option<nat>)
    ensures r.Some? ==> r.value < |vs| && vs[r.value].name == s
    ensures r.Some? ==> forall j :: 0 <= j < r.value ==> vs[j].name != s
    ensures r.None? <==> forall j :: 0 <= j < |vs| ==> vs[j].name != s
  {
    if |vs| == 0 then None
    else if vs[0].name == s then Some(0)
    else match FindName(vs[1..], s)
      case None => None
      case Some(k) => Some(k + 1)
  }

  /** The generated `from_str`: a `match` over the identifiers in declaration order,
      falling through to `CEnumParseError::new(s)`. */
  function Parse(e: CEnum, s: string): (r: Result<nat, ParseError>)
    ensures r.Ok? ==> IsFlag(e, r.value) && Render(e, r.value) == s
    ensures r.Err? <==> forall i :: 0 <= i < |e.variants| ==> Render(e, i) != s
    ensures r.Err? ==> r.error == ParseError(s)
  {
    match FindName(e.variants, s)
    case Some(i) => Ok(i)
    case None => Err(ParseError(s))
  }

  /** Parsing the name of any variant gives back that variant. */
  lemma ParseRender(e: CEnum, i: nat)
    requires DistinctNames(e) && IsFlag(e, i)
    ensures Parse(e, Render(e, i)) == Ok(i)
  {
  }

  const ERROR_PREFIX := "invalid value: "
  const OPTIONS_INFIX := ", options: "
  const OPTIONS_SEPARATOR := ", "

  function ErrorHeader(input: string): string
  {
    ERROR_PREFIX + input + OPTIONS_INFIX
  }

  /** `Debug` of a `CEnumParseError<T>`: the rejected string, then the `Debug` of every
      variant of `T` joined with `", "`. */
  function ErrorDebug(e: CEnum, err: ParseError): (r: string)
    ensures |ErrorHeader(err.input)| <= |r|
    ensures r[..|ErrorHeader(err.input)|] == ErrorHeader(err.input)
  {
    ErrorHeader(err.input) + Join(OPTIONS_SEPARATOR, Names(e))
  }

  /** `Display` of a parse error writes its `Debug`: the message opens with
      `invalid value: `, then the rejected string itself, then `, options: `. */
  function ErrorDisplay(e: CEnum, err: ParseError): (r: string)
    ensures r == ErrorDebug(e, err)
    ensures |ERROR_PREFIX| + |err.input| + |OPTIONS_INFIX| <= |r|
    ensures r[..|ERROR_PREFIX|] == ERROR_PREFIX
    ensures r[|ERROR_PREFIX|..|ERROR_PREFIX| + |err.input|] == err.input
    ensures r[|ERROR_PREFIX| + |err.input|..|ERROR_PREFIX| + |err.input| + |OPTIONS_INFIX|] == OPTIONS_INFIX
  {
    var r := ErrorDebug(e, err);
    var h := ErrorHeader(err.input);
    assert r[..|h|] == h;
    assert h[..|ERROR_PREFIX|] == ERROR_PREFIX;
    assert h[|ERROR_PREFIX|..|ERROR_PREFIX| + |err.input|] == err.input;
    assert h[|ERROR_PREFIX| + |err.input|..|h|] == OPTIONS_INFIX;
    r
  }

  /** The error message lists every option: the name of variant `i` appears right after
      the header at its join offset, `", "` separates it from the next variant's name,
      and the last variant's name ends the message, so the options appear once each in
      declaration order and nothing else follows them. */
  lemma ErrorListsOptions(e: CEnum, err: ParseError, i: nat)
    requires IsFlag(e, i)
    ensures var o := |ErrorHeader(err.input)| + JoinOffset(OPTIONS_SEPARATOR, Names(e), i);
            && o + |Render(e, i)| <= |ErrorDebug(e, err)|
            && ErrorDebug(e, err)[o..o + |Render(e, i)|] == Render(e, i)
            && (i + 1 < |e.variants| ==>
                  && o + |Render(e, i)| + 2 <= |ErrorDebug(e, err)|
                  && ErrorDebug(e, err)[o + |Render(e, i)|..o + |Render(e, i)| + 2] == OPTIONS_SEPARATOR)
            && (i + 1 == |e.variants| ==> o + |Render(e, i)| == |ErrorDebug(e, err)|)
  {
    var names := Names(e);
    var h := ErrorHeader(err.input);
    JoinPiece(OPTIONS_SEPARATOR, names, i);
    var o := JoinOffset(OPTIONS_SEPARATOR, names, i);
    var n := |Render(e, i)|;
    SliceOfRight(h, Join(OPTIONS_SEPARATOR, names), o, o + n);
    if i + 1 < |e.variants| {
      SliceOfRight(h, Join(OPTIONS_SEPARATOR, names), o + n, o + n + 2);
    }
  }

  /** The enum's own `Display`: `stringify!($name)`, the type name, whatever the variant. */
  function VariantDisplay(e: CEnum, i: nat): (r: string)
    requires IsFlag(e, i)
    ensures r == e.typeName
    ensures r == Render(e, i) <==> e.typeName == e.variants[i].name
  {
    e.typeName
  }

  /** `flag & raw` from `bit_as!`: `self as $out & rhs as $out`. The impl exists only for a
      right-hand side of the enum's own integer type, and casting a variant to its own
      `repr` yields its discriminant, so both casts keep their operand's value. */
  function FlagAndRaw(e: CEnum, i: nat, raw: Bits): Bits
    requires IsFlag(e, i) && FitsRepr(e.repr, raw)
  {
    e.variants[i].value * raw
  }

  /** `raw & flag`, the mirrored impl `bit_as_assoc!` adds. */
  function RawAndFlag(e: CEnum, raw: Bits, i: nat): Bits
    requires IsFlag(e, i) && FitsRepr(e.repr, raw)
  {
    raw * e.variants[i].value
  }

  /** Both operand orders agree, keep exactly the bits the variant and the raw integer
      share, and stay within the enum's width. */
  lemma BitAndSymmetric(e: CEnum, i: nat, raw: Bits)
    requires IsFlag(e, i) && FitsRepr(e.repr, raw)
    ensures FlagAndRaw(e, i, raw) == RawAndFlag(e, raw, i)
    ensures forall b :: b in FlagAndRaw(e, i, raw) <==> b in e.variants[i].value && b in raw
    ensures FitsRepr(e.repr, FlagAndRaw(e, i, raw))
  {
  }
}
