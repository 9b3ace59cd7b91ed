/** The one `c_enum!` instance the program declares: `FanEvents`, the seven
    fanotify event flags it can watch and print. The libc constants are the Linux
    uapi values (`include/uapi/linux/fanotify.h`), each a single bit. */
module FanEvents {
  import opened Results
  import opened CEnums
  import opened Masks

  const FAN_ACCESS: Bits := {0}
  const FAN_MODIFY: Bits := {1}
  const FAN_CLOSE_WRITE: Bits := {3}
  const FAN_CLOSE_NOWRITE: Bits := {4}
  const FAN_OPEN: Bits := {5}
  const FAN_EVENT_ON_CHILD: Bits := {27}
  const FAN_ONDIR: Bits := {30}

  /** The declaration as written: no width, so it expands to `enum(u64)`. */
  const DECLARATION: EnumDecl :=
    EnumDecl("FanEvents", None,
             ["FAN_ACCESS", "FAN_MODIFY", "FAN_CLOSE_WRITE", "FAN_CLOSE_NOWRITE",
              "FAN_OPEN", "FAN_ONDIR", "FAN_EVENT_ON_CHILD"])

  /** `libc::$flag` for the identifiers the declaration names. */
  function Libc(name: string): Bits
  {
    if name == "FAN_ACCESS" then FAN_ACCESS
    else if name == "FAN_MODIFY" then FAN_MODIFY
    else if name == "FAN_CLOSE_WRITE" then FAN_CLOSE_WRITE
    else if name == "FAN_CLOSE_NOWRITE" then FAN_CLOSE_NOWRITE
    else if name == "FAN_OPEN" then FAN_OPEN
    else if name == "FAN_ONDIR" then FAN_ONDIR
    else if name == "FAN_EVENT_ON_CHILD" then FAN_EVENT_ON_CHILD
    else {}
  }

  /** The generated `FanEvents` enum, variants in declaration order. */
  const TABLE: CEnum :=
    CEnum("FanEvents", U64,
          [Variant("FAN_ACCESS", FAN_ACCESS), Variant("FAN_MODIFY", FAN_MODIFY),
           Variant("FAN_CLOSE_WRITE", FAN_CLOSE_WRITE), Variant("FAN_CLOSE_NOWRITE", FAN_CLOSE_NOWRITE),
           Variant("FAN_OPEN", FAN_OPEN), Variant("FAN_ONDIR", FAN_ONDIR),
           Variant("FAN_EVENT_ON_CHILD", FAN_EVENT_ON_CHILD)])

  /** Expanding the declaration binds each identifier to its libc constant, in order,
      at the default `u64` width. */
  lemma DeclarationExpands()
    ensures Expand(DECLARATION, Libc) == TABLE
  {
    var e := Expand(DECLARATION, Libc);
    assert |e.variants| == 7;
    forall i | 0 <= i < 7
      ensures e.variants[i] == TABLE.variants[i]
    {
    }
  }

  /** The table is a legal Rust enum: distinct identifiers, distinct discriminants. */
  lemma TableValid()
    ensures Valid(TABLE)
  {
  }

  /** A Rust identifier as the declaration spells it: upper-case letters and `_`. */
  predicate Identifier(s: string)
  {
    |s| > 0 && forall k :: 0 <= k < |s| ==> 'A' <= s[k] <= 'Z' || s[k] == '_'
  }

  lemma ShortNamesAreIdentifiers()
    ensures Identifier("FAN_ACCESS") && Identifier("FAN_MODIFY")
    ensures Identifier("FAN_OPEN") && Identifier("FAN_ONDIR")
  {
    assert Identifier("FAN_ACCESS");
    assert Identifier("FAN_MODIFY");
    assert Identifier("FAN_OPEN");
  }

  lemma LongNamesAreIdentifiers()
    ensures Identifier("FAN_CLOSE_WRITE") && Identifier("FAN_CLOSE_NOWRITE")
    ensures Identifier("FAN_EVENT_ON_CHILD")
  {
    assert Identifier("FAN_CLOSE_WRITE");
    assert Identifier("FAN_CLOSE_NOWRITE");
  }

  /** Every `FanEvents` identifier is made of upper-case letters and `_`. */
  lemma NamesAreIdentifiers()
    ensures forall i :: 0 <= i < |TABLE.variants| ==> Identifier(TABLE.variants[i].name)
  {
    ShortNamesAreIdentifiers();
    LongNamesAreIdentifiers();
  }

  /** The names can be written between `|` (the mask column), between `,` (the
      `--events` list) and before a tab without ambiguity. */
  lemma TableWellNamed()
    ensures WellNamed(TABLE, '|') && WellNamed(TABLE, ',') && WellNamed(TABLE, '\t')
  {
    NamesAreIdentifiers();
  }
}
