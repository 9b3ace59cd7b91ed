/** The two places `main.rs` turns between raw event masks and flag names: the
    `|`-joined rendering of an event's mask in `handle_fanotify`, and the fold in
    `main` that ORs the comma-separated names given with `--events` into the watch
    mask. Both are stated over any `c_enum!` table. */
module Masks {
  import opened Results
  import opened Text
  import opened CEnums

  /** `(m as u64) & mask != 0`: the variant's value shares a bit with the mask. */
  predicate Intersects(v: Bits, mask: Bits)
  {
    v * mask != {}
  }

  /** Names usable on both sides of a `c` separator: non-empty and free of `c`. */
  predicate WellNamed(e: CEnum, c: char)
  {
    forall i :: 0 <= i < |e.variants| ==> |e.variants[i].name| > 0 && c !in e.variants[i].name
  }

  /** The variants from index `k` on whose value intersects `mask`, in declaration order. */
  function SetFlagsFrom(e: CEnum, mask: Bits, k: nat): (r: seq<nat>)
    requires k <= |e.variants|
    ensures forall j :: 0 <= j < |r| ==> k <= r[j] < |e.variants|
    decreases |e.variants| - k
  {
    if k == |e.variants| then []
    else (if Intersects(e.variants[k].value, mask) then [k] else []) + SetFlagsFrom(e, mask, k + 1)
  }

  /** The known flags set in `mask`, in declaration order. */
  function SetFlags(e: CEnum, mask: Bits): seq<nat>
  {
    SetFlagsFrom(e, mask, 0)
  }

  /** `SetFlags` lists exactly the variants whose value intersects the mask, each once,
      in declaration order. */
  lemma SetFlagsExactly(e: CEnum, mask: Bits)
    ensures forall j :: 0 <= j < |SetFlags(e, mask)| ==>
              Intersects(e.variants[SetFlags(e, mask)[j]].value, mask)
    ensures forall j, l :: 0 <= j < l < |SetFlags(e, mask)| ==> SetFlags(e, mask)[j] < SetFlags(e, mask)[l]
    ensures forall i :: 0 <= i < |e.variants| ==>
              (i in SetFlags(e, mask) <==> Intersects(e.variants[i].value, mask))
  {
    SetFlagsFromSound(e, mask, 0);
    SetFlagsFromSorted(e, mask, 0);
    SetFlagsFromComplete(e, mask, 0);
  }

  /** Every listed flag shares a bit with the mask. */
  lemma {:induction false} SetFlagsFromSound(e: CEnum, mask: Bits, k: nat)
    requires k <= |e.variants|
    ensures forall j :: 0 <= j < |SetFlagsFrom(e, mask, k)| ==>
              Intersects(e.variants[SetFlagsFrom(e, mask, k)[j]].value, mask)
    decreases |e.variants| - k
  {
    if k < |e.variants| {
      SetFlagsFromSound(e, mask, k + 1);
    }
  }

  /** The flags are listed in strictly increasing declaration order. */
  lemma {:induction false} SetFlagsFromSorted(e: CEnum, mask: Bits, k: nat)
    requires k <= |e.variants|
    ensures forall j, l :: 0 <= j < l < |SetFlagsFrom(e, mask, k)| ==>
              SetFlagsFrom(e, mask, k)[j] < SetFlagsFrom(e, mask, k)[l]
    decreases |e.variants| - k
  {
    if k < |e.variants| {
      SetFlagsFromSorted(e, mask, k + 1);
      var rest := SetFlagsFrom(e, mask, k + 1);
      if Intersects(e.variants[k].value, mask) {
        var r := [k] + rest;
        assert SetFlagsFrom(e, mask, k) == r;
        forall j, l | 0 <= j < l < |r|
          ensures r[j] < r[l]
        {
          if j > 0 {
            assert r[j] == rest[j - 1] && r[l] == rest[l - 1];
          } else {
            assert r[l] == rest[l - 1];
          }
        }
      }
    }
  }

  /** Every flag from index `k` on that shares a bit with the mask is listed, and no other. */
  lemma {:induction false} SetFlagsFromComplete(e: CEnum, mask: Bits, k: nat)
    requires k <= |e.variants|
    ensures forall i :: k <= i < |e.variants| ==>
              (i in SetFlagsFrom(e, mask, k) <==> Intersects(e.variants[i].value, mask))
    decreases |e.variants| - k
  {
    if k < |e.variants| {
      SetFlagsFromComplete(e, mask, k + 1);
      var rest := SetFlagsFrom(e, mask, k + 1);
      assert k !in rest;
      if Intersects(e.variants[k].value, mask) {
        assert SetFlagsFrom(e, mask, k) == [k] + rest;
      } else {
        assert SetFlagsFrom(e, mask, k) == rest;
      }
    }
  }

  function MaskNames(e: CEnum, mask: Bits): seq<string>
  {
    NamesOf(e, SetFlags(e, mask))
  }

  /** `mask_buf` after the loop over `FanEvents::values()`: `name|` appended for every
      variant whose value intersects the mask. */
  function MaskBufferFrom(e: CEnum, mask: Bits, k: nat): string
    requires k <= |e.variants|
    decreases |e.variants| - k
  {
    if k == |e.variants| then ""
    else (if Intersects(e.variants[k].value, mask) then e.variants[k].name + "|" else "")
         + MaskBufferFrom(e, mask, k + 1)
  }

  /** The mask column as `handle_fanotify` writes it: the buffer with its last
      character (the trailing `|`) removed when it is not empty. */
  function RenderMask(e: CEnum, mask: Bits): string
  {
    var buf := MaskBufferFrom(e, mask, 0);
    if |buf| != 0 then buf[..|buf| - 1] else buf
  }

  lemma NamesOfCons(e: CEnum, k: nat, flags: seq<nat>)
    requires IsFlag(e, k)
    requires forall j :: 0 <= j < |flags| ==> IsFlag(e, flags[j])
    ensures NamesOf(e, [k] + flags) == [Render(e, k)] + NamesOf(e, flags)
  {
  }

  /** The buffer is the join of the set flags' names followed by one `|`, or empty. */
  lemma {:induction false} MaskBufferShape(e: CEnum, mask: Bits, k: nat)
    requires k <= |e.variants|
    ensures var fs := SetFlagsFrom(e, mask, k);
            MaskBufferFrom(e, mask, k) == if |fs| == 0 then "" else Join("|", NamesOf(e, fs)) + "|"
    decreases |e.variants| - k
  {
    if k < |e.variants| {
      MaskBufferShape(e, mask, k + 1);
      var rest := SetFlagsFrom(e, mask, k + 1);
      var tail := MaskBufferFrom(e, mask, k + 1);
      if Intersects(e.variants[k].value, mask) {
        var fs := [k] + rest;
        assert SetFlagsFrom(e, mask, k) == fs;
        assert MaskBufferFrom(e, mask, k) == e.variants[k].name + "|" + tail;
        NamesOfCons(e, k, rest);
        var names := NamesOf(e, fs);
        if |rest| == 0 {
          assert names == [e.variants[k].name];
        } else {
          assert names[1..] == NamesOf(e, rest);
          assert Join("|", names) == e.variants[k].name + "|" + Join("|", NamesOf(e, rest));
        }
      } else {
        assert SetFlagsFrom(e, mask, k) == rest;
      }
    }
  }

  /** The rendered mask is exactly the set flags' names joined with `|`: no leading or
      trailing separator, and the empty string when no known bit is set. */
  lemma RenderMaskIsJoin(e: CEnum, mask: Bits)
    ensures RenderMask(e, mask) == Join("|", MaskNames(e, mask))
    ensures RenderMask(e, mask) == "" <== |SetFlags(e, mask)| == 0
  {
    MaskBufferShape(e, mask, 0);
    var fs := SetFlags(e, mask);
    if |fs| > 0 {
      var j := Join("|", NamesOf(e, fs));
      assert (j + "|")[..|j|] == j;
    }
  }

  /** The mask column holds no tab when no flag name does. */
  lemma MaskAvoidsTab(e: CEnum, mask: Bits)
    requires WellNamed(e, '\t')
    ensures '\t' !in RenderMask(e, mask)
  {
    RenderMaskIsJoin(e, mask);
    var fs := SetFlags(e, mask);
    SetFlagsFromBound(e, mask);
    var names := MaskNames(e, mask);
    forall j | 0 <= j < |names|
      ensures '\t' !in names[j]
    {
      assert names[j] == e.variants[fs[j]].name;
    }
    JoinAvoids("|", names, '\t');
  }

  /** Every listed flag is a variant index. */
  lemma SetFlagsFromBound(e: CEnum, mask: Bits)
    ensures forall j :: 0 <= j < |SetFlags(e, mask)| ==> SetFlags(e, mask)[j] < |e.variants|
  {
  }

  /** Round trip of the mask column: splitting it at `|` gives the names of the set flags
      in declaration order, and each piece parses back to its flag. */
  lemma RenderMaskRoundTrip(e: CEnum, mask: Bits)
    requires DistinctNames(e) && WellNamed(e, '|')
    requires |SetFlags(e, mask)| > 0
    ensures RenderMask(e, mask) != ""
    ensures Split(RenderMask(e, mask), '|') == MaskNames(e, mask)
    ensures forall j :: 0 <= j < |SetFlags(e, mask)| ==>
              Parse(e, Split(RenderMask(e, mask), '|')[j]) == Ok(SetFlags(e, mask)[j])
  {
    var fs := SetFlags(e, mask);
    var names := MaskNames(e, mask);
    RenderMaskIsJoin(e, mask);
    forall j | 0 <= j < |names|
      ensures '|' !in names[j]
    {
      assert names[j] == e.variants[fs[j]].name;
    }
    SplitJoin(names, '|');
    assert |names[0]| > 0 by {
      assert names[0] == e.variants[fs[0]].name;
    }
    JoinPieceAt("|", names, 0);
    forall j | 0 <= j < |fs|
      ensures Parse(e, names[j]) == Ok(fs[j])
    {
      ParseRender(e, fs[j]);
    }
  }

  /** With no variant touching `extra`, adding `extra` to the mask changes nothing:
      unknown bits are ignored. */
  lemma UnknownBitsIgnored(e: CEnum, mask: Bits, extra: Bits)
    requires forall i :: 0 <= i < |e.variants| ==> e.variants[i].value * extra == {}
    ensures RenderMask(e, mask + extra) == RenderMask(e, mask)
  {
    SetFlagsUnchanged(e, mask, extra, 0);
    RenderMaskIsJoin(e, mask);
    RenderMaskIsJoin(e, mask + extra);
  }

  lemma {:induction false} SetFlagsUnchanged(e: CEnum, mask: Bits, extra: Bits, k: nat)
    requires k <= |e.variants|
    requires forall i :: 0 <= i < |e.variants| ==> e.variants[i].value * extra == {}
    ensures SetFlagsFrom(e, mask + extra, k) == SetFlagsFrom(e, mask, k)
    decreases |e.variants| - k
  {
    if k < |e.variants| {
      SetFlagsUnchanged(e, mask, extra, k + 1);
      IntersectsIgnoresDisjoint(e.variants[k].value, mask, extra);
    }
  }

  lemma IntersectsIgnoresDisjoint(v: Bits, mask: Bits, extra: Bits)
    requires v * extra == {}
    ensures Intersects(v, mask + extra) == Intersects(v, mask)
  {
    if Intersects(v, mask + extra) {
      var b :| b in v * (mask + extra);
      assert b !in extra by {
        assert b !in v * extra;
      }
      assert b in v * mask;
    }
    if Intersects(v, mask) {
      var b :| b in v * mask;
      assert b in v * (mask + extra);
    }
  }

  /** The OR of the given variants' values. */
  function OrOfFlags(e: CEnum, flags: seq<nat>): Bits
    requires forall j :: 0 <= j < |flags| ==> IsFlag(e, flags[j])
  {
    if |flags| == 0 then {}
    else
      assert IsFlag(e, flags[0]);
      e.variants[flags[0]].value + OrOfFlags(e, flags[1..])
  }

  /** Every name parses as a variant. */
  predicate AllParse(e: CEnum, names: seq<string>)
  {
    forall k :: 0 <= k < |names| ==> Parse(e, names[k]).Ok?
  }

  /** The `for m in events.split(',')` loop of `main`: each name is parsed and its value
      ORed into the mask; the first name that does not parse ends the fold with an
      `InvalidInput` error wrapping the parse error. */
  function FoldMask(e: CEnum, names: seq<string>, acc: Bits): (r: Result<Bits, IoError>)
    ensures r.Ok? <==> AllParse(e, names)
    ensures r.Ok? ==> acc <= r.value
    ensures r.Err? ==> r.error.InvalidInput?
    decreases |names|
  {
    if |names| == 0 then Ok(acc)
    else match Parse(e, names[0])
      case Err(err) => Err(InvalidInput(ErrorDisplay(e, err)))
      case Ok(i) => FoldMask(e, names[1..], acc + e.variants[i].value)
  }

  /** The watch mask built from the `--events` string: it exists exactly when every
      comma-separated piece names a variant, and otherwise `main` fails with `InvalidInput`. */
  function WatchMask(e: CEnum, events: string): (r: Result<Bits, IoError>)
    ensures r.Ok? <==> AllParse(e, Split(events, ','))
    ensures r.Err? ==> r.error.InvalidInput?
  {
    FoldMask(e, Split(events, ','), {})
  }

  /** Folding the names of `flags` ORs exactly their values into the accumulator. */
  lemma {:induction false} FoldMaskOfNames(e: CEnum, flags: seq<nat>, acc: Bits)
    requires DistinctNames(e)
    requires forall j :: 0 <= j < |flags| ==> IsFlag(e, flags[j])
    ensures FoldMask(e, NamesOf(e, flags), acc) == Ok(acc + OrOfFlags(e, flags))
  {
    if |flags| > 0 {
      var names := NamesOf(e, flags);
      var v := e.variants[flags[0]].value;
      ParseRender(e, flags[0]);
      assert Parse(e, names[0]) == Ok(flags[0]);
      assert names[1..] == NamesOf(e, flags[1..]);
      assert FoldMask(e, names, acc) == FoldMask(e, names[1..], acc + v);
      FoldMaskOfNames(e, flags[1..], acc + v);
      assert OrOfFlags(e, flags) == v + OrOfFlags(e, flags[1..]);
      assert (acc + v) + OrOfFlags(e, flags[1..]) == acc + OrOfFlags(e, flags);
    } else {
      assert acc + OrOfFlags(e, flags) == acc;
    }
  }

  /** The first name that names no variant decides the error, whatever follows it. */
  lemma {:induction false} FoldMaskFirstError(e: CEnum, names: seq<string>, acc: Bits, k: nat)
    requires k < |names|
    requires forall j :: 0 <= j < k ==> Parse(e, names[j]).Ok?
    requires Parse(e, names[k]).Err?
    ensures FoldMask(e, names, acc) == Err(InvalidInput(ErrorDisplay(e, ParseError(names[k]))))
  {
    if k > 0 {
      var i := Parse(e, names[0]).value;
      FoldMaskFirstError(e, names[1..], acc + e.variants[i].value, k - 1);
    }
  }

  /** Writing flags' names comma-separated gives a watch mask that is the OR of their
      values: the `--events` syntax round-trips. */
  lemma WatchMaskOfJoin(e: CEnum, flags: seq<nat>)
    requires DistinctNames(e) && WellNamed(e, ',')
    requires |flags| >= 1
    requires forall j :: 0 <= j < |flags| ==> IsFlag(e, flags[j])
    ensures WatchMask(e, Join(",", NamesOf(e, flags))) == Ok(OrOfFlags(e, flags))
  {
    var names := NamesOf(e, flags);
    forall j | 0 <= j < |names|
      ensures ',' !in names[j]
    {
      assert names[j] == e.variants[flags[j]].name;
    }
    SplitJoin(names, ',');
    FoldMaskOfNames(e, flags, {});
    assert {} + OrOfFlags(e, flags) == OrOfFlags(e, flags);
  }

  /** A watch-mask string with a piece that names no variant is an `InvalidInput` error
      carrying the first such piece. */
  lemma WatchMaskRejects(e: CEnum, events: string, k: nat)
    requires k < |Split(events, ',')|
    requires forall j :: 0 <= j < k ==> Parse(e, Split(events, ',')[j]).Ok?
    requires forall i :: 0 <= i < |e.variants| ==> e.variants[i].name != Split(events, ',')[k]
    ensures WatchMask(e, events) == Err(InvalidInput(ErrorDisplay(e, ParseError(Split(events, ',')[k]))))
  {
    FoldMaskFirstError(e, Split(events, ','), {}, k);
  }
}
