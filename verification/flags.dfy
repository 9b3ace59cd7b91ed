/** The command-line options after `Opt::from_args_with_default`: the event list
    defaults to every `FanEvents` flag, the `-f`/`-m`/`-r` implications are applied,
    and, outside a foreign namespace, every path is made absolute. Argument parsing
    itself is left out: the options arrive as parsed. */
module Flags {
  import opened Results
  import opened Text
  import opened CEnums
  import opened Masks
  import opened FanEvents

  /** `Opt`: `--events`, `--process` (the namespace pid), `-r`, `-m`, `-f` and the paths. */
  datatype Opt = Opt(events: Option<string>, namespace: Option<nat>, recursive: bool,
                     mount: bool, filesystem: bool, paths: seq<string>)

  /** The string literal `FAN_ACCESS,FAN_MODIFY,...,FAN_EVENT_ON_CHILD`, written in pieces. */
  const DEFAULT_EVENTS: string :=
    "FAN_ACCESS" + "," + "FAN_MODIFY" + "," + "FAN_CLOSE_WRITE" + "," + "FAN_CLOSE_NOWRITE" + ","
    + "FAN_OPEN" + "," + "FAN_ONDIR" + "," + "FAN_EVENT_ON_CHILD"

  /** `opt.events.get_or_insert(DEFAULT_EVENTS.into())`. */
  function WithDefaultEvents(events: Option<string>): (r: Option<string>)
    ensures r.Some?
    ensures events.Some? ==> r == events
    ensures events.None? ==> r == Some(DEFAULT_EVENTS)
  {
    if events.Some? then events else Some(DEFAULT_EVENTS)
  }

  /** `-f` implies `-r`; otherwise `-m` implies `-r`; otherwise `-r` implies `-m`. */
  function ApplyImplications(o: Opt): (r: Opt)
    ensures r.events == o.events && r.namespace == o.namespace && r.paths == o.paths
    ensures r.filesystem == o.filesystem
    ensures r.recursive == (o.recursive || o.mount || o.filesystem)
    ensures r.mount == (o.mount || (o.recursive && !o.filesystem))
    ensures r.recursive <==> r.mount || r.filesystem
  {
    if o.filesystem then o.(recursive := true)
    else if o.mount then o.(recursive := true)
    else if o.recursive then o.(mount := true)
    else o
  }

  /** The rules change an option set exactly when it breaks "recursive iff mount or
      filesystem"; so applying them a second time changes nothing. */
  lemma ImplicationsFixedPoints(o: Opt)
    ensures ApplyImplications(o) == o <==> (o.recursive <==> o.mount || o.filesystem)
    ensures ApplyImplications(ApplyImplications(o)) == ApplyImplications(o)
  {
  }

  /** `format!("{:?}: {}", p, e)`: the path as a quoted string, then the error. */
  function CanonicalizeMessage(path: string, error: string): string
  {
    "\"" + path + "\": " + error
  }

  /** The `map(fs::canonicalize)` + `collect::<io::Result<Vec<_>>>()` over the paths:
      `canon` stands for `fs::canonicalize`, returning the absolute path or the error's
      text. The first failing path, in order, decides the `InvalidInput` error. */
  function CanonicalizeAll(paths: seq<string>, canon: string -> Result<string, string>)
    : (r: Result<seq<string>, IoError>)
    ensures r.Ok? <==> forall i :: 0 <= i < |paths| ==> canon(paths[i]).Ok?
    ensures r.Ok? ==> |r.value| == |paths|
    ensures r.Ok? ==> forall i :: 0 <= i < |paths| ==> r.value[i] == canon(paths[i]).value
    ensures r.Err? ==> r.error.InvalidInput?
  {
    if |paths| == 0 then Ok([])
    else match canon(paths[0])
      case Err(msg) => Err(InvalidInput(CanonicalizeMessage(paths[0], msg)))
      case Ok(c) =>
        match CanonicalizeAll(paths[1..], canon)
        case Err(err) => Err(err)
        case Ok(rest) => Ok([c] + rest)
  }

  /** The error names the first path that failed, with that path's error. */
  lemma {:induction false} CanonicalizeFirstError(paths: seq<string>, canon: string -> Result<string, string>, k: nat)
    requires k < |paths|
    requires forall j :: 0 <= j < k ==> canon(paths[j]).Ok?
    requires canon(paths[k]).Err?
    ensures CanonicalizeAll(paths, canon) == Err(InvalidInput(CanonicalizeMessage(paths[k], canon(paths[k]).error)))
  {
    if k > 0 {
      assert canon(paths[0]).Ok?;
      CanonicalizeFirstError(paths[1..], canon, k - 1);
    }
  }

  /** `Opt::from_args_with_default`, given the parsed arguments. */
  function FromArgsWithDefault(args: Opt, canon: string -> Result<string, string>): (r: Result<Opt, IoError>)
    ensures r.Ok? ==> r.value.events.Some?
    ensures r.Ok? && args.events.Some? ==> r.value.events == args.events
    ensures r.Ok? && args.events.None? ==> r.value.events == Some(DEFAULT_EVENTS)
    ensures r.Ok? ==> r.value.namespace == args.namespace && r.value.filesystem == args.filesystem
    ensures r.Ok? ==> r.value.recursive == (args.recursive || args.mount || args.filesystem)
    ensures r.Ok? ==> r.value.mount == (args.mount || (args.recursive && !args.filesystem))
    ensures r.Ok? ==> (r.value.recursive <==> r.value.mount || r.value.filesystem)
    ensures args.namespace.Some? ==> r.Ok? && r.value.paths == args.paths
    ensures args.namespace.None? ==> (r.Ok? <==> forall i :: 0 <= i < |args.paths| ==> canon(args.paths[i]).Ok?)
    ensures args.namespace.None? && r.Ok? ==>
              |r.value.paths| == |args.paths|
              && forall i :: 0 <= i < |args.paths| ==> r.value.paths[i] == canon(args.paths[i]).value
    ensures r.Err? ==> args.namespace.None? && r.error.InvalidInput?
  {
    var o := ApplyImplications(args.(events := WithDefaultEvents(args.events)));
    if o.namespace.Some? then Ok(o)
    else match CanonicalizeAll(o.paths, canon)
      case Err(err) => Err(err)
      case Ok(ps) => Ok(o.(paths := ps))
  }

  lemma NamesOfTable()
    ensures Names(TABLE) == ["FAN_ACCESS", "FAN_MODIFY", "FAN_CLOSE_WRITE", "FAN_CLOSE_NOWRITE",
                             "FAN_OPEN", "FAN_ONDIR", "FAN_EVENT_ON_CHILD"]
  {
  }

  lemma JoinSeven(a: string, b: string, c: string, d: string, e: string, f: string, g: string)
    ensures Join(",", [a, b, c, d, e, f, g])
            == a + "," + b + "," + c + "," + d + "," + e + "," + f + "," + g
  {
    var ns := [a, b, c, d, e, f, g];
    assert ns[6..] == [g];
    assert ns[5..][1..] == ns[6..];
    assert ns[4..][1..] == ns[5..];
    assert ns[3..][1..] == ns[4..];
    assert ns[2..][1..] == ns[3..];
    assert ns[1..][1..] == ns[2..];
    assert Join(",", ns[6..]) == g;
    assert Join(",", ns[5..]) == f + "," + Join(",", ns[6..]);
    assert Join(",", ns[4..]) == e + "," + Join(",", ns[5..]);
    assert Join(",", ns[3..]) == d + "," + Join(",", ns[4..]);
    assert Join(",", ns[2..]) == c + "," + Join(",", ns[3..]);
    assert Join(",", ns[1..]) == b + "," + Join(",", ns[2..]);
    assert Join(",", ns) == a + "," + Join(",", ns[1..]);
  }

  /** The default event list names every `FanEvents` variant once, in declaration order. */
  lemma DefaultEventsAreAllNames()
    ensures DEFAULT_EVENTS == Join(",", Names(TABLE))
  {
    NamesOfTable();
    JoinSeven("FAN_ACCESS", "FAN_MODIFY", "FAN_CLOSE_WRITE", "FAN_CLOSE_NOWRITE",
              "FAN_OPEN", "FAN_ONDIR", "FAN_EVENT_ON_CHILD");
  }

  /** The OR of every variant's value, in declaration order. */
  lemma OrOfAllFlags()
    ensures OrOfFlags(TABLE, Values(TABLE))
            == FAN_ACCESS + FAN_MODIFY + FAN_CLOSE_WRITE + FAN_CLOSE_NOWRITE
               + FAN_OPEN + FAN_ONDIR + FAN_EVENT_ON_CHILD
  {
    var all := Values(TABLE);
    assert all == [0, 1, 2, 3, 4, 5, 6];
    assert OrOfFlags(TABLE, all[6..]) == FAN_EVENT_ON_CHILD;
    assert OrOfFlags(TABLE, all[5..]) == FAN_ONDIR + OrOfFlags(TABLE, all[6..]);
    assert OrOfFlags(TABLE, all[4..]) == FAN_OPEN + OrOfFlags(TABLE, all[5..]);
    assert OrOfFlags(TABLE, all[3..]) == FAN_CLOSE_NOWRITE + OrOfFlags(TABLE, all[4..]);
    assert OrOfFlags(TABLE, all[2..]) == FAN_CLOSE_WRITE + OrOfFlags(TABLE, all[3..]);
    assert OrOfFlags(TABLE, all[1..]) == FAN_MODIFY + OrOfFlags(TABLE, all[2..]);
    assert OrOfFlags(TABLE, all) == FAN_ACCESS + OrOfFlags(TABLE, all[1..]);
  }

  /** With `--events` absent the watch mask is the OR of all seven flags. */
  lemma DefaultWatchMask()
    ensures WatchMask(TABLE, DEFAULT_EVENTS)
            == Ok(FAN_ACCESS + FAN_MODIFY + FAN_CLOSE_WRITE + FAN_CLOSE_NOWRITE
                  + FAN_OPEN + FAN_ONDIR + FAN_EVENT_ON_CHILD)
  {
    DefaultEventsAreAllNames();
    TableValid();
    TableWellNamed();
    WatchMaskOfJoin(TABLE, Values(TABLE));
    OrOfAllFlags();
  }
}
