/** `handle_fanotify`: one `read` of the fanotify descriptor into a fixed array of
    `MAX_FANOTIFY_BUFS` metadata slots, then a walk over the slots in order with a
    remaining-bytes counter, printing one `mask\tfd\tpath` line per wanted event.

    The `read` result is an input; `fs::read_link` of `/proc/self/fd/N` is an oracle
    `readLink`; dropping the `File` made with `from_raw_fd` closes the event's fd and
    is recorded in `closed`; standard output is the sequence of printed lines. */
module Fanotify {
  import opened Results
  import opened Text
  import opened CEnums
  import opened Masks
  import opened PathMatch
  import opened Flags

  /** `mem::size_of::<libc::fanotify_event_metadata>()`. */
  const METADATA_LEN: nat := 24
  /** `libc::FANOTIFY_METADATA_VERSION`. */
  const FANOTIFY_METADATA_VERSION: nat := 3
  /** Slots in the read buffer. */
  const MAX_FANOTIFY_BUFS: nat := 200
  const U32_MODULUS: nat := 0x1_0000_0000

  type u32 = x: int | 0 <= x < 0x1_0000_0000
  type i32 = x: int | -0x8000_0000 <= x < 0x8000_0000

  /** One `fanotify_event_metadata` slot. */
  datatype Metadata = Metadata(eventLen: u32, vers: nat, metadataLen: nat, mask: Bits, fd: i32, pid: i32)

  /** What `read` returned: an OS error, or the byte count. */
  datatype ReadOutcome = ReadFailed(errno: int) | ReadBytes(nread: nat)

  /** The lines written to standard output, the fds closed, and the returned `io::Result<()>`. */
  datatype Batch = Batch(lines: seq<string>, closed: seq<int>, result: Result<(), IoError>)

  /** The loop guard: at least one record's worth of bytes remains, and `event_len` is at
      least one record and at most `nread as u32` (a truncating cast). */
  predicate LengthOk(m: Metadata, remaining: int)
  {
    && remaining >= METADATA_LEN
    && m.eventLen >= METADATA_LEN
    && m.eventLen <= remaining % U32_MODULUS
  }

  /** The path of an event: `read_link` of its fd, or `-` when there is no fd. */
  function Resolve(fd: i32, readLink: int -> Result<string, IoError>): (r: Result<string, IoError>)
  {
    if fd >= 0 then readLink(fd) else Ok("-")
  }

  /** The fds closed for an event: its own when it has one. */
  function Closes(fd: i32): (r: seq<int>)
  {
    if fd >= 0 then [fd] else []
  }

  /** The filter: with `-r`, no namespace and a real path, the path must start with every
      configured path; otherwise every event passes. */
  predicate Wanted(opt: Opt, path: string)
  {
    path != "-" && opt.recursive && opt.namespace.None? ==>
      forall k :: 0 <= k < |opt.paths| ==> StartsWith(path, opt.paths[k])
  }

  /** `print!("{}\t{}\t", mask_buf, metadata.fd)`, the path bytes, then `println!()`. */
  function Line(e: CEnum, m: Metadata, path: string): string
  {
    RenderMask(e, m.mask) + "\t" + IntToDecimal(m.fd) + "\t" + path + "\n"
  }

  /** What an accepted event prints: its line, unless the filter drops it. */
  function Emit(e: CEnum, opt: Opt, m: Metadata, path: string): (r: seq<string>)
  {
    if Wanted(opt, path) then [Line(e, m, path)] else []
  }

  /** Output, then the rest of the walk. */
  function Prepend(lines: seq<string>, closed: seq<int>, b: Batch): Batch
  {
    Batch(lines + b.lines, closed + b.closed, b.result)
  }

  lemma ModBelow(n: nat)
    ensures n % U32_MODULUS <= n
  {
  }

  /** What printing an accepted event writes, given the event and its resolved path. */
  type Printer = (Metadata, string) -> seq<string>

  /** The printer `handle_fanotify` uses: the filter, then the tab-separated line. */
  function EventPrinter(e: CEnum, opt: Opt): Printer
  {
    (m: Metadata, path: string) => Emit(e, opt, m, path)
  }

  /** The walk over the slots from the current one on, with `remaining` bytes left;
      `emit` gives what each accepted event writes. */
  function Walk(emit: Printer, readLink: int -> Result<string, IoError>,
                slots: seq<Metadata>, remaining: nat): (b: Batch)
    decreases |slots|
  {
    if |slots| == 0 then Batch([], [], Ok(()))
    else
      var m := slots[0];
      if !LengthOk(m, remaining) then Batch([], [], Ok(()))
      else if m.vers != FANOTIFY_METADATA_VERSION then Batch([], [], Err(Os(EINVAL)))
      else match Resolve(m.fd, readLink)
        case Err(err) => Batch([], [], Err(err))
        case Ok(path) =>
          ModBelow(remaining);
          Prepend(emit(m, path), Closes(m.fd),
                  Walk(emit, readLink, slots[1..], remaining - m.eventLen))
  }

  /** `handle_fanotify` after its `read`. */
  function HandleFanotify(e: CEnum, opt: Opt, readLink: int -> Result<string, IoError>,
                          read: ReadOutcome, slots: seq<Metadata>): (b: Batch)
    requires |slots| == MAX_FANOTIFY_BUFS
    ensures read.ReadFailed? && (read.errno == EAGAIN || read.errno == EINTR) ==> b == Batch([], [], Ok(()))
    ensures read.ReadFailed? && read.errno != EAGAIN && read.errno != EINTR ==> b == Batch([], [], Err(Os(read.errno)))
    ensures |b.lines| <= MAX_FANOTIFY_BUFS && |b.closed| <= MAX_FANOTIFY_BUFS
  {
    match read
    case ReadFailed(errno) =>
      if errno == EAGAIN || errno == EINTR then Batch([], [], Ok(())) else Batch([], [], Err(Os(errno)))
    case ReadBytes(nread) =>
      WalkLinesBound(EventPrinter(e, opt), readLink, slots, nread);
      Walk(EventPrinter(e, opt), readLink, slots, nread)
  }

  /** The first `k` slots all pass the length and version checks and resolve. */
  predicate Accepts(readLink: int -> Result<string, IoError>, slots: seq<Metadata>, n: int, k: nat)
    requires k <= |slots|
    decreases k
  {
    k == 0 ||
      (&& LengthOk(slots[0], n)
       && slots[0].vers == FANOTIFY_METADATA_VERSION
       && Resolve(slots[0].fd, readLink).Ok?
       && Accepts(readLink, slots[1..], n - slots[0].eventLen, k - 1))
  }

  /** The sum of the `event_len`s of the first `k` slots. */
  function SumFirst(slots: seq<Metadata>, k: nat): nat
    requires k <= |slots|
    decreases k
  {
    if k == 0 then 0 else slots[0].eventLen + SumFirst(slots[1..], k - 1)
  }

  /** A printer that writes at most one line per event writes at most one line per slot,
      and at most one fd per slot is closed. */
  lemma {:induction false} WalkLinesBound(emit: Printer, readLink: int -> Result<string, IoError>,
                                          slots: seq<Metadata>, remaining: nat)
    requires forall m, path :: |emit(m, path)| <= 1
    ensures |Walk(emit, readLink, slots, remaining).lines| <= |slots|
    ensures |Walk(emit, readLink, slots, remaining).closed| <= |slots|
    decreases |slots|
  {
    if |slots| > 0 && LengthOk(slots[0], remaining) && Resolve(slots[0].fd, readLink).Ok? {
      ModBelow(remaining);
      WalkLinesBound(emit, readLink, slots[1..], remaining - slots[0].eventLen);
    }
  }

  /** Only real fds are closed: never the negative fd of an event without one. */
  lemma {:induction false} WalkClosesOnlyFds(emit: Printer, readLink: int -> Result<string, IoError>,
                                             slots: seq<Metadata>, remaining: nat)
    ensures forall k :: 0 <= k < |Walk(emit, readLink, slots, remaining).closed| ==>
              Walk(emit, readLink, slots, remaining).closed[k] >= 0
    decreases |slots|
  {
    if |slots| > 0 && LengthOk(slots[0], remaining) && Resolve(slots[0].fd, readLink).Ok? {
      ModBelow(remaining);
      WalkClosesOnlyFds(emit, readLink, slots[1..], remaining - slots[0].eventLen);
    }
  }

  /** One step of the walk over an accepted slot. */
  lemma WalkAccept(emit: Printer, readLink: int -> Result<string, IoError>,
                   slots: seq<Metadata>, r: nat, path: string)
    requires |slots| > 0 && LengthOk(slots[0], r) && slots[0].vers == FANOTIFY_METADATA_VERSION
    requires Resolve(slots[0].fd, readLink) == Ok(path)
    ensures r - slots[0].eventLen >= 0
    ensures Walk(emit, readLink, slots, r)
            == Prepend(emit(slots[0], path), Closes(slots[0].fd),
                       Walk(emit, readLink, slots[1..], r - slots[0].eventLen))
  {
    ModBelow(r);
  }

  /** The three ways a slot ends the walk. */
  lemma WalkHalt(emit: Printer, readLink: int -> Result<string, IoError>,
                 slots: seq<Metadata>, r: nat)
    requires |slots| > 0
    ensures !LengthOk(slots[0], r) ==> Walk(emit, readLink, slots, r) == Batch([], [], Ok(()))
    ensures LengthOk(slots[0], r) && slots[0].vers != FANOTIFY_METADATA_VERSION ==>
              Walk(emit, readLink, slots, r) == Batch([], [], Err(Os(EINVAL)))
    ensures LengthOk(slots[0], r) && slots[0].vers == FANOTIFY_METADATA_VERSION
            && Resolve(slots[0].fd, readLink).Err? ==>
              Walk(emit, readLink, slots, r) == Batch([], [], Err(Resolve(slots[0].fd, readLink).error))
  {
  }

  lemma PrependTwice(a: seq<string>, c: seq<int>, b: seq<string>, d: seq<int>, x: Batch)
    ensures Prepend(a, c, Prepend(b, d, x)) == Prepend(a + b, c + d, x)
  {
    assert a + (b + x.lines) == (a + b) + x.lines;
    assert c + (d + x.closed) == (c + d) + x.closed;
  }

  /** The inductive step of `WalkSplit`: an accepted first slot in front of a split of the
      rest. */
  lemma WalkSplitStep(emit: Printer, readLink: int -> Result<string, IoError>,
                      slots: seq<Metadata>, n: nat, k: nat, path: string)
    requires 0 < k <= |slots|
    requires LengthOk(slots[0], n) && slots[0].vers == FANOTIFY_METADATA_VERSION
    requires Resolve(slots[0].fd, readLink) == Ok(path)
    requires n - slots[0].eventLen - SumFirst(slots[1..], k - 1) >= 0
    requires Walk(emit, readLink, slots[1..][..k - 1], n - slots[0].eventLen).result == Ok(())
    requires Walk(emit, readLink, slots[1..], n - slots[0].eventLen)
             == Prepend(Walk(emit, readLink, slots[1..][..k - 1], n - slots[0].eventLen).lines,
                        Walk(emit, readLink, slots[1..][..k - 1], n - slots[0].eventLen).closed,
                        Walk(emit, readLink, slots[1..][k - 1..],
                             n - slots[0].eventLen - SumFirst(slots[1..], k - 1)))
    ensures n - SumFirst(slots, k) >= 0
    ensures Walk(emit, readLink, slots[..k], n).result == Ok(())
    ensures Walk(emit, readLink, slots, n)
            == Prepend(Walk(emit, readLink, slots[..k], n).lines,
                       Walk(emit, readLink, slots[..k], n).closed,
                       Walk(emit, readLink, slots[k..], n - SumFirst(slots, k)))
  {
    var m := slots[0];
    var pre := slots[..k];
    var n' := n - m.eventLen;
    assert pre[0] == m;
    assert pre[1..] == slots[1..][..k - 1];
    assert slots[1..][k - 1..] == slots[k..];
    WalkAccept(emit, readLink, slots, n, path);
    WalkAccept(emit, readLink, pre, n, path);
    var w1 := Walk(emit, readLink, slots[1..][..k - 1], n');
    var rest := Walk(emit, readLink, slots[k..], n - SumFirst(slots, k));
    var emitted := emit(m, path);
    var closes := Closes(m.fd);
    var wp := Walk(emit, readLink, pre, n);
    assert wp == Prepend(emitted, closes, w1);
    assert Walk(emit, readLink, slots[1..], n') == Prepend(w1.lines, w1.closed, rest);
    calc {
      Walk(emit, readLink, slots, n);
      Prepend(emitted, closes, Prepend(w1.lines, w1.closed, rest));
      { PrependTwice(emitted, closes, w1.lines, w1.closed, rest); }
      Prepend(emitted + w1.lines, closes + w1.closed, rest);
      Prepend(wp.lines, wp.closed, rest);
    }
  }

  /** Splitting the walk after `k` accepted slots: the output of those `k` slots, then
      the walk of the rest with the counter lowered by each accepted `event_len`. */
  lemma {:induction false} WalkSplit(emit: Printer, readLink: int -> Result<string, IoError>,
                                     slots: seq<Metadata>, n: nat, k: nat)
    requires k <= |slots| && Accepts(readLink, slots, n, k)
    ensures n - SumFirst(slots, k) >= 0
    ensures Walk(emit, readLink, slots[..k], n).result == Ok(())
    ensures Walk(emit, readLink, slots, n)
            == Prepend(Walk(emit, readLink, slots[..k], n).lines,
                       Walk(emit, readLink, slots[..k], n).closed,
                       Walk(emit, readLink, slots[k..], n - SumFirst(slots, k)))
  {
    if k == 0 {
      assert slots[..0] == [];
      assert slots[0..] == slots;
      var w := Walk(emit, readLink, slots, n);
      assert [] + w.lines == w.lines && [] + w.closed == w.closed;
    } else {
      ModBelow(n);
      WalkSplit(emit, readLink, slots[1..], n - slots[0].eventLen, k - 1);
      WalkSplitStep(emit, readLink, slots, n, k, Resolve(slots[0].fd, readLink).value);
    }
  }

  /** A short or inconsistent length at slot `k` ends the batch without error: the output
      is exactly that of the slots before it. */
  lemma StopIsSilent(emit: Printer, readLink: int -> Result<string, IoError>,
                     slots: seq<Metadata>, n: nat, k: nat)
    requires k < |slots| && Accepts(readLink, slots, n, k)
    requires !LengthOk(slots[k], n - SumFirst(slots, k))
    ensures Walk(emit, readLink, slots, n) == Walk(emit, readLink, slots[..k], n)
    ensures Walk(emit, readLink, slots, n).result == Ok(())
  {
    WalkSplit(emit, readLink, slots, n, k);
    var front := Walk(emit, readLink, slots[..k], n);
    assert slots[k..][0] == slots[k];
    WalkHalt(emit, readLink, slots[k..], n - SumFirst(slots, k));
    assert front.lines + [] == front.lines && front.closed + [] == front.closed;
  }

  /** A version mismatch at slot `k` fails with `EINVAL`: the slots before it have been
      printed and closed, nothing after it is. */
  lemma VersionMismatchFails(emit: Printer, readLink: int -> Result<string, IoError>,
                             slots: seq<Metadata>, n: nat, k: nat)
    requires k < |slots| && Accepts(readLink, slots, n, k)
    requires LengthOk(slots[k], n - SumFirst(slots, k))
    requires slots[k].vers != FANOTIFY_METADATA_VERSION
    ensures Walk(emit, readLink, slots, n)
            == Walk(emit, readLink, slots[..k], n).(result := Err(Os(EINVAL)))
  {
    WalkSplit(emit, readLink, slots, n, k);
    var front := Walk(emit, readLink, slots[..k], n);
    assert slots[k..][0] == slots[k];
    WalkHalt(emit, readLink, slots[k..], n - SumFirst(slots, k));
    assert front.lines + [] == front.lines && front.closed + [] == front.closed;
  }

  /** A `read_link` failure at slot `k` is returned as the error, and that slot's fd is
      not closed. */
  lemma ResolveFailurePropagates(emit: Printer, readLink: int -> Result<string, IoError>,
                                 slots: seq<Metadata>, n: nat, k: nat)
    requires k < |slots| && Accepts(readLink, slots, n, k)
    requires LengthOk(slots[k], n - SumFirst(slots, k))
    requires slots[k].vers == FANOTIFY_METADATA_VERSION
    requires slots[k].fd >= 0 && readLink(slots[k].fd).Err?
    ensures Walk(emit, readLink, slots, n)
            == Walk(emit, readLink, slots[..k], n).(result := Err(readLink(slots[k].fd).error))
  {
    WalkSplit(emit, readLink, slots, n, k);
    var front := Walk(emit, readLink, slots[..k], n);
    assert slots[k..][0] == slots[k];
    WalkHalt(emit, readLink, slots[k..], n - SumFirst(slots, k));
    assert front.lines + [] == front.lines && front.closed + [] == front.closed;
  }

  /** An accepted slot `k` contributes its line (if wanted) and its close right after the
      output of the slots before it, and the walk goes on at slot `k + 1` with the
      counter lowered by its `event_len`. */
  lemma AcceptedRecord(emit: Printer, readLink: int -> Result<string, IoError>,
                       slots: seq<Metadata>, n: nat, k: nat, path: string)
    requires k < |slots| && Accepts(readLink, slots, n, k)
    requires LengthOk(slots[k], n - SumFirst(slots, k))
    requires slots[k].vers == FANOTIFY_METADATA_VERSION
    requires Resolve(slots[k].fd, readLink) == Ok(path)
    ensures n - SumFirst(slots, k) - slots[k].eventLen >= 0
    ensures Walk(emit, readLink, slots, n)
            == Prepend(Walk(emit, readLink, slots[..k], n).lines + emit(slots[k], path),
                       Walk(emit, readLink, slots[..k], n).closed + Closes(slots[k].fd),
                       Walk(emit, readLink, slots[k + 1..], n - SumFirst(slots, k) - slots[k].eventLen))
  {
    WalkSplit(emit, readLink, slots, n, k);
    var r := n - SumFirst(slots, k);
    assert slots[k..][0] == slots[k] && slots[k..][1..] == slots[k + 1..];
    WalkAccept(emit, readLink, slots[k..], r, path);
    var front := Walk(emit, readLink, slots[..k], n);
    PrependTwice(front.lines, front.closed, emit(slots[k], path), Closes(slots[k].fd),
                 Walk(emit, readLink, slots[k + 1..], r - slots[k].eventLen));
  }

  /** An event without an fd prints `-` as its path, whatever the filter settings, and
      closes nothing. */
  lemma NegativeFdRecord(e: CEnum, opt: Opt, readLink: int -> Result<string, IoError>, m: Metadata)
    requires m.fd < 0
    ensures Resolve(m.fd, readLink) == Ok("-")
    ensures Closes(m.fd) == []
    ensures Emit(e, opt, m, "-") == [Line(e, m, "-")]
  {
  }

  /** An event with an fd is resolved through `read_link` and its fd is closed. */
  lemma NonNegativeFdRecord(readLink: int -> Result<string, IoError>, m: Metadata)
    requires m.fd >= 0
    ensures Resolve(m.fd, readLink) == readLink(m.fd)
    ensures Closes(m.fd) == [m.fd]
  {
  }

  /** With one configured directory, events below it are printed. */
  lemma FilterKeepsChildren(e: CEnum, opt: Opt, m: Metadata, base: string, rest: string)
    requires opt.paths == [base] && |base| > 0
    ensures Emit(e, opt, m, base + "/" + rest) == [Line(e, m, base + "/" + rest)]
  {
    StartsWithChild(base, rest);
  }

  /** The filter asks for every configured path, not one of them: with `/a` and `/b` both
      configured under `-r`, an event on `/a/x` is dropped. */
  lemma FilterRequiresEveryPath(e: CEnum, opt: Opt, m: Metadata)
    requires opt.recursive && opt.namespace.None? && opt.paths == ["/a", "/b"]
    ensures Emit(e, opt, m, "/a/x") == []
  {
    assert "/a/x" == "/" + "a" + "/" + "x";
    ComponentsOfTwoNames("a", "x");
    assert "/b" == "/" + "b";
    ComponentsOfRootName("b");
    var cp := Components("/a/x");
    assert cp[..2][1] == Normal("a") != Normal("b");
    assert !StartsWith("/a/x", opt.paths[1]);
  }

  /** The printed line has three tab-separated fields, mask, fd and path, then a newline;
      the fd field reads back as the event's fd and the pid is not printed. */
  lemma LineFields(e: CEnum, m: Metadata, path: string)
    requires WellNamed(e, '\t') && '\t' !in path
    ensures var line := Line(e, m, path);
            && |line| > 0 && line[|line| - 1] == '\n'
            && Split(line[..|line| - 1], '\t') == [RenderMask(e, m.mask), IntToDecimal(m.fd), path]
            && SignedDecimalValue(IntToDecimal(m.fd)) == m.fd
    ensures forall pid: i32 :: Line(e, m.(pid := pid), path) == Line(e, m, path)
  {
    var mask := RenderMask(e, m.mask);
    var fd := IntToDecimal(m.fd);
    MaskAvoidsTab(e, m.mask);
    DecimalAvoids(m.fd, '\t');
    var body := mask + "\t" + fd + "\t" + path;
    assert Line(e, m, path) == body + "\n";
    assert (body + "\n")[..|body|] == body;
    SplitThree(mask, fd, path, '\t');
    IntDecimalRoundTrip(m.fd);
  }

  /** The imperative `for m in FanEvents::values()` loop building `mask_buf`, then the
      removal of its trailing `|`. */
  method RenderMaskLoop(e: CEnum, mask: Bits) returns (s: string)
    ensures s == Join("|", MaskNames(e, mask))
  {
    var buf := "";
    var k := 0;
    while k < |e.variants|
      invariant 0 <= k <= |e.variants|
      invariant buf + MaskBufferFrom(e, mask, k) == MaskBufferFrom(e, mask, 0)
    {
      if Intersects(e.variants[k].value, mask) {
        buf := buf + (e.variants[k].name + "|");
      }
      k := k + 1;
    }
    assert buf == MaskBufferFrom(e, mask, 0);
    if |buf| != 0 {
      buf := buf[..|buf| - 1];
    }
    RenderMaskIsJoin(e, mask);
    s := buf;
  }

  /** The path of one event: `read_link` when it has an fd, `-` otherwise. */
  method ResolvePath(m: Metadata, readLink: int -> Result<string, IoError>) returns (r: Result<string, IoError>)
    ensures r == Resolve(m.fd, readLink)
    ensures m.fd < 0 ==> r == Ok("-")
  {
    if m.fd >= 0 {
      r := readLink(m.fd);
    } else {
      r := Ok("-");
    }
  }

  /** The line one accepted event prints, built as the source builds it, or nothing
      when the filter drops the event. */
  method EmitRecord(e: CEnum, opt: Opt, m: Metadata, path: string) returns (out: seq<string>)
    ensures out == Emit(e, opt, m, path)
  {
    var maskBuf := RenderMaskLoop(e, m.mask);
    RenderMaskIsJoin(e, m.mask);
    var keep := FilterLoop(opt, path);
    if keep {
      out := [maskBuf + "\t" + IntToDecimal(m.fd) + "\t" + path + "\n"];
    } else {
      out := [];
    }
  }

  /** The filter as the source runs it: with a real path, `-r` and no namespace, the
      first configured path that `path` does not start with drops the event. */
  method FilterLoop(opt: Opt, path: string) returns (keep: bool)
    ensures keep <==> Wanted(opt, path)
  {
    if path != "-" && opt.recursive {
      if opt.namespace.None? {
        for j := 0 to |opt.paths|
          invariant forall k :: 0 <= k < j ==> StartsWith(path, opt.paths[k])
        {
          if !StartsWith(path, opt.paths[j]) {
            return false;
          }
        }
      }
    }
    return true;
  }

  /** `handle_fanotify` as a method: the errno match, then the slot loop that breaks,
      returns early or prints, with the counter held in a variable. */
  method HandleFanotifyLoop(e: CEnum, opt: Opt, readLink: int -> Result<string, IoError>,
                            read: ReadOutcome, slots: seq<Metadata>) returns (b: Batch)
    requires |slots| == MAX_FANOTIFY_BUFS
    ensures b == HandleFanotify(e, opt, readLink, read, slots)
  {
    match read {
      case ReadFailed(errno) =>
        if errno == EAGAIN || errno == EINTR {
          return Batch([], [], Ok(()));
        }
        return Batch([], [], Err(Os(errno)));
      case ReadBytes(nread) =>
        b := WalkLoop(e, opt, readLink, slots, nread);
    }
  }

  /** The loop invariant carried over an accepted slot: its output and close are
      appended and the counter drops by its `event_len`. */
  lemma WalkLoopStep(emit: Printer, readLink: int -> Result<string, IoError>, slots: seq<Metadata>,
                     nread: nat, i: nat, remaining: nat, lines: seq<string>, closed: seq<int>, path: string,
                     lines': seq<string>, closed': seq<int>, remaining': int)
    requires i < |slots|
    requires Walk(emit, readLink, slots, nread) == Prepend(lines, closed, Walk(emit, readLink, slots[i..], remaining))
    requires LengthOk(slots[i], remaining) && slots[i].vers == FANOTIFY_METADATA_VERSION
    requires Resolve(slots[i].fd, readLink) == Ok(path)
    requires lines' == lines + emit(slots[i], path) && closed' == closed + Closes(slots[i].fd)
    requires remaining' == remaining - slots[i].eventLen
    ensures remaining' >= 0
    ensures Walk(emit, readLink, slots, nread) == Prepend(lines', closed', Walk(emit, readLink, slots[i + 1..], remaining'))
  {
    assert slots[i..][0] == slots[i] && slots[i..][1..] == slots[i + 1..];
    WalkAccept(emit, readLink, slots[i..], remaining, path);
    PrependTwice(lines, closed, emit(slots[i], path), Closes(slots[i].fd),
                 Walk(emit, readLink, slots[i + 1..], remaining'));
  }

  /** The loop invariant at a slot that ends the walk, or past the last slot. */
  lemma WalkLoopExit(emit: Printer, readLink: int -> Result<string, IoError>, slots: seq<Metadata>,
                     nread: nat, i: nat, remaining: nat, lines: seq<string>, closed: seq<int>)
    requires i <= |slots|
    requires Walk(emit, readLink, slots, nread) == Prepend(lines, closed, Walk(emit, readLink, slots[i..], remaining))
    ensures i == |slots| ==> Walk(emit, readLink, slots, nread) == Batch(lines, closed, Ok(()))
    ensures i < |slots| && !LengthOk(slots[i], remaining) ==>
              Walk(emit, readLink, slots, nread) == Batch(lines, closed, Ok(()))
    ensures i < |slots| && LengthOk(slots[i], remaining) && slots[i].vers != FANOTIFY_METADATA_VERSION ==>
              Walk(emit, readLink, slots, nread) == Batch(lines, closed, Err(Os(EINVAL)))
    ensures i < |slots| && LengthOk(slots[i], remaining) && slots[i].vers == FANOTIFY_METADATA_VERSION
            && Resolve(slots[i].fd, readLink).Err? ==>
              Walk(emit, readLink, slots, nread) == Batch(lines, closed, Err(Resolve(slots[i].fd, readLink).error))
  {
    assert lines + [] == lines && closed + [] == closed;
    if i == |slots| {
      assert slots[i..] == [];
    } else {
      assert slots[i..][0] == slots[i];
      WalkHalt(emit, readLink, slots[i..], remaining);
    }
  }

  /** The `'next_metadata` loop, step by step in the source's order: the guard, the
      version check, lowering the counter, the mask buffer, the path and its close,
      the filter, which skips to the next slot, and the print. */
  method WalkLoop(e: CEnum, opt: Opt, readLink: int -> Result<string, IoError>,
                  slots: seq<Metadata>, nread: nat) returns (b: Batch)
    ensures b == Walk(EventPrinter(e, opt), readLink, slots, nread)
  {
    var emit := EventPrinter(e, opt);
    var remaining: nat := nread;
    var lines: seq<string> := [];
    var closed: seq<int> := [];
    var i := 0;
    assert [] + Walk(emit, readLink, slots, nread).lines == Walk(emit, readLink, slots, nread).lines;
    assert [] + Walk(emit, readLink, slots, nread).closed == Walk(emit, readLink, slots, nread).closed;
    while i < |slots|
      invariant 0 <= i <= |slots|
      invariant Walk(emit, readLink, slots, nread)
                == Prepend(lines, closed, Walk(emit, readLink, slots[i..], remaining))
    {
      var m := slots[i];
      WalkLoopExit(emit, readLink, slots, nread, i, remaining, lines, closed);
      if !LengthOk(m, remaining) {
        break;
      }
      if m.vers != FANOTIFY_METADATA_VERSION {
        return Batch(lines, closed, Err(Os(EINVAL)));
      }
      ghost var before := remaining;
      ModBelow(remaining);
      remaining := remaining - m.eventLen;
      var maskBuf := RenderMaskLoop(e, m.mask);
      var file := ResolvePath(m, readLink);
      if file.Err? {
        return Batch(lines, closed, Err(file.error));
      }
      var path := file.value;
      WalkLoopStep(emit, readLink, slots, nread, i, before, lines, closed, path,
                   lines + Emit(e, opt, m, path), closed + Closes(m.fd), remaining);
      closed, i := closed + Closes(m.fd), i + 1;
      var keep := FilterLoop(opt, path);
      if !keep {
        assert lines + Emit(e, opt, m, path) == lines;
        continue;
      }
      RenderMaskIsJoin(e, m.mask);
      lines := lines + [maskBuf + "\t" + IntToDecimal(m.fd) + "\t" + path + "\n"];
    }
    WalkLoopExit(emit, readLink, slots, nread, i, remaining, lines, closed);
    return Batch(lines, closed, Ok(()));
  }
}
