# fanotify-cli in Dafny

A model of the core of `fanotify-cli`, a small Linux tool that watches paths with
fanotify and prints one `mask<TAB>fd<TAB>path` line per event. The model covers:

- the `c_enum!` machinery (`src/c_enum.rs`, and the copy `src/main.rs` carries):
  - parsing a variant by its exact identifier;
  - rendering it back to that identifier;
  - `values()` in declaration order;
  - the parse error's message;
  - the enum's `Display`;
  - the symmetric bitwise AND;
  - the default `u64` width;
- the `FanEvents` instance with its seven flags;
- how `main` folds the `--events` list into a watch mask;
- `Opt::from_args_with_default`:
  - the default event list;
  - the `-f`/`-m`/`-r` implications;
  - making every path absolute;
- `handle_fanotify`, which reads one batch of event records and walks them in order.
  For each record the walk:
  - checks the length guard and the version;
  - renders the mask;
  - resolves and closes the event's fd;
  - applies the path filter;
  - prints the line.

Modules follow the program's structure:

| module | file | contents |
|---|---|---|
| `Results` | results.dfy | `Option`, `Result`, `io::Error` as `Os(errno)` / `InvalidInput(message)`, errno values |
| `Text` | text.dfy | `str::split`, `join`, decimal formatting of integers |
| `CEnums` | c_enum.dfy | the generic enum table, its parse/render/values/error/display/bit-and |
| `Masks` | masks.dfy | the mask column (`FLAG_A\|FLAG_B`) and the watch-mask fold |
| `FanEvents` | fan_events.dfy | the `FanEvents` declaration and its table |
| `PathMatch` | path_match.dfy | `Path::starts_with`, component-wise |
| `Flags` | flags.dfy | `Opt` and `from_args_with_default` |
| `Fanotify` | fanotify.dfy | `handle_fanotify`, as a recursive walk and as the source's loop |

How the model represents things:

- **Masks.** A machine word is the set of its one-bit positions. `a & b` is
  intersection, `a | b` is union, and `x != 0` is non-emptiness. The libc flag
  values are the Linux ones: `FAN_ACCESS` is bit 0, `FAN_MODIFY` bit 1,
  `FAN_CLOSE_WRITE` bit 3, `FAN_CLOSE_NOWRITE` bit 4, `FAN_OPEN` bit 5,
  `FAN_EVENT_ON_CHILD` bit 27 and `FAN_ONDIR` bit 30.
- **Parameters for the outside world.** The outcome of `read` is an input, and so
  are the metadata slots it filled. `fs::read_link` of `/proc/self/fd/N` is a
  function parameter `readLink`, and `fs::canonicalize` is a parameter `canon`.
  The model records each fd that dropping the `File` closes in a `closed`
  sequence, and each line written to standard output in `lines`.
- **Two versions of `handle_fanotify`.** It is a recursive function `Walk` over the
  slots, and also an imperative method `HandleFanotifyLoop`. Its slot loop takes the
  source's steps in the source's order: the guard with its `break`, the version check
  with its early `return`, lowering the counter, the mask buffer, the path with its
  close, the filter loop, and the print. The filter's `continue 'next_metadata` becomes
  a `FilterLoop` method that returns `false` at the first configured path the event's
  path does not start with; the slot loop then moves to the next slot. The method is
  proved to compute the function.
- **The `nread as u32` cast.** It is modelled as truncation modulo 2^32.

The path filter is easy to misread. A natural reading keeps an event whose path lies
under any one of the configured paths. The code (`src/main.rs:270-275`) instead drops
the event unless its path starts with every configured path. The model follows the
code; `Fanotify.FilterRequiresEveryPath` shows the consequence for two configured
directories.

## Model

| member | source | states |
|---|---|---|
| CEnums.Expand | src/c_enum.rs:115-162 | a declaration without a width becomes `repr(u64)`, one with `u32` becomes `repr(u32)`; variant i carries the i-th identifier and that identifier's libc constant |
| CEnums.Values | src/c_enum.rs:100-102 | `values()` lists every variant exactly once, in declaration order |
| CEnums.Render | src/c_enum.rs:89-95 | definition of `as_ref`: a variant renders as its own identifier; characterised by `CEnums.ParseRender` |
| CEnums.FindName | src/c_enum.rs:81-86 | the match finds the first variant, in declaration order, whose identifier equals the input; it finds none exactly when no identifier equals it |
| CEnums.Parse | src/c_enum.rs:81-87 | parsing succeeds only with a variant whose name is exactly the input; it fails exactly when no variant has that name; the error carries the input unchanged |
| CEnums.ParseRender | src/c_enum.rs:81-95 | parsing the `as_ref` name of any variant gives back that variant |
| CEnums.ErrorDebug | src/c_enum.rs:24-40 | the parse error's `Debug` message opens with `invalid value: `, the rejected string and `, options: ` |
| CEnums.ErrorListsOptions | src/c_enum.rs:28-38 | after that header the message names every variant, each at its place in declaration order, with `, ` between neighbours, and ends with the last variant's name |
| CEnums.ErrorDisplay | src/c_enum.rs:42-49 | the error's `Display` is its `Debug` message, which opens with `invalid value: `, then the rejected string, then `, options: ` |
| CEnums.VariantDisplay | src/c_enum.rs:105-109 | the enum's `Display` of any variant is the type name; it agrees with `as_ref` only for a variant named like its type |
| CEnums.FlagAndRaw | src/c_enum.rs:51-62 | definition of `flag & raw`, the `bit_as!` impl that line 111 applies to every `c_enum!` type: the bits the variant's value shares with the raw integer; characterised by `CEnums.BitAndSymmetric` |
| CEnums.RawAndFlag | src/c_enum.rs:65-71 | definition of `raw & flag`, the mirrored impl that `bit_as_assoc!` adds; characterised by `CEnums.BitAndSymmetric` |
| CEnums.BitAndSymmetric | src/c_enum.rs:51-72 | `flag & raw` equals `raw & flag`; a bit is in the result exactly when it is in both operands; the result fits the enum's width |
| Masks.SetFlagsExactly | src/main.rs:245-249 | the flags the mask loop visits are exactly the variants sharing a bit with the mask, each once, in increasing declaration order |
| Masks.MaskBufferFrom | src/main.rs:243-249 | definition of `mask_buf` after the loop over `FanEvents::values()`: `name\|` for every variant sharing a bit with the mask, in declaration order; characterised by `Masks.MaskBufferShape` and `Masks.SetFlagsExactly` |
| Masks.MaskBufferShape | src/main.rs:243-249 | after the loop the buffer is empty when no flag is set; otherwise it is the set flags' names joined with `\|`, plus a trailing `\|` |
| Masks.RenderMaskIsJoin | src/main.rs:243-252 | after the last `\|` is removed, the mask column is exactly the set flags' names joined with `\|`; it is empty when no flag is set |
| Masks.RenderMaskRoundTrip | src/main.rs:243-252 | splitting a non-empty mask column at `\|` gives back the set flags' names, and each name parses back to its flag |
| Masks.UnknownBitsIgnored | src/main.rs:245-249 | bits that no variant uses never change the mask column |
| Masks.RenderMask | src/main.rs:243-252 | definition of the mask column: the buffer loop, then removal of its last character when non-empty; characterised by `Masks.RenderMaskIsJoin` and `Masks.RenderMaskRoundTrip` |
| Masks.FoldMask | src/main.rs:339-342 | the fold succeeds exactly when every name parses; the mask only gains bits; a failure is an `InvalidInput` error |
| Masks.FoldMaskOfNames | src/main.rs:339-342 | folding the names of some flags ORs exactly those flags' values into the mask |
| Masks.FoldMaskFirstError | src/main.rs:339-342 | the first name that names no variant decides the error, whose message is that name's parse error |
| Masks.WatchMask | src/main.rs:337-342 | the watch mask exists exactly when every comma-separated piece of `--events` names a variant; otherwise `main` fails with `InvalidInput` |
| Masks.WatchMaskOfJoin | src/main.rs:337-342 | a comma-separated list of flag names yields the OR of those flags' values, starting from 0 |
| Masks.WatchMaskRejects | src/main.rs:337-342 | an `--events` piece that names no variant, after pieces that all parse, makes `main` fail with `InvalidInput` carrying that piece's parse error |
| FanEvents.DeclarationExpands | src/main.rs:149-159 | the `FanEvents` declaration expands to a `u64` enum of the seven flags, in order, bound to their libc values |
| FanEvents.TableValid | src/main.rs:149-159 | the seven identifiers are distinct, the seven discriminants are distinct, and all fit in 64 bits |
| FanEvents.TableWellNamed | src/main.rs:149-159 | every flag name is non-empty and contains none of `\|`, `,` or a tab |
| Flags.WithDefaultEvents | src/flags.rs:41-48 | a given `--events` is kept; a missing one becomes the default list |
| Flags.DefaultEventsAreAllNames | src/flags.rs:41-42 | the default event list is every `FanEvents` name, once each, comma-separated, in declaration order |
| Flags.DefaultWatchMask | src/flags.rs:41-42 | the default event list parses to the OR of all seven flags |
| Flags.ApplyImplications | src/flags.rs:49-55 | `-f` and `-m` each turn on `-r`, and `-r` without `-f` turns on `-m`; afterwards `-r` holds exactly when `-m` or `-f` does, and nothing else changes |
| Flags.ImplicationsFixedPoints | src/flags.rs:49-55 | the rules change an option set exactly when it breaks "recursive iff mount or filesystem"; applying them twice equals applying them once |
| Flags.CanonicalizeAll | src/flags.rs:57-73 | canonicalising succeeds exactly when every path canonicalises; on success it returns the absolute paths in order, one per input; a failure is `InvalidInput` |
| Flags.CanonicalizeMessage | src/flags.rs:64-66 | definition of the `format!("{:?}: {}", p, e)` message: the quoted path, a colon and the error text; characterised by `Flags.CanonicalizeFirstError` |
| Flags.CanonicalizeFirstError | src/flags.rs:61-73 | the error names the first path, in order, that failed, with that path's own error text |
| Flags.FromArgsWithDefault | src/flags.rs:44-77 | events are defaulted and the implications applied; with a namespace the paths are kept as given; without one the call succeeds exactly when every path canonicalises, returns those canonical paths, and otherwise fails with `InvalidInput` |
| PathMatch.Components | src/main.rs:271 | a path's first component is the root exactly when the path begins with `/` |
| PathMatch.StartsWith | src/main.rs:271 | definition of `Path::starts_with`: the base's components are a prefix of the path's; characterised by `PathMatch.StartsWithSelf`, `PathMatch.StartsWithChild` and `PathMatch.SiblingWithCommonPrefix` |
| PathMatch.StartsWithSelf | src/main.rs:271 | every path starts with itself |
| PathMatch.StartsWithChild | src/main.rs:271 | anything below a non-empty directory starts with that directory |
| PathMatch.SiblingWithCommonPrefix | src/main.rs:271 | the match is by whole components: `/a/bc` does not start with `/a/b` |
| PathMatch.TrailingSeparatorIgnored | src/main.rs:271 | a trailing `/` does not change a path's components |
| Fanotify.HandleFanotify | src/main.rs:215-228 | a read failing with `EAGAIN` or `EINTR` returns `Ok` having printed and closed nothing; any other errno is returned as that error; at most 200 lines are printed and at most 200 fds closed |
| Fanotify.Walk | src/main.rs:230-284 | definition of the slot walk with its byte counter; characterised by `Fanotify.WalkSplit`, `Fanotify.StopIsSilent`, `Fanotify.VersionMismatchFails`, `Fanotify.ResolveFailurePropagates` and `Fanotify.AcceptedRecord`, and computed by `Fanotify.WalkLoop` |
| Fanotify.LengthOk | src/main.rs:231-235 | definition of the loop guard: at least 24 bytes remain, `event_len` is at least 24 and at most the counter truncated to 32 bits; characterised by `Fanotify.StopIsSilent` |
| Fanotify.Resolve | src/main.rs:254-266 | definition of an event's path: `read_link` of a non-negative fd, `-` otherwise; characterised by `Fanotify.NegativeFdRecord` and `Fanotify.NonNegativeFdRecord` |
| Fanotify.Closes | src/main.rs:258-261 | definition of the closes an event causes: its own fd when non-negative, none otherwise; characterised by `Fanotify.WalkClosesOnlyFds` and `Fanotify.NonNegativeFdRecord` |
| Fanotify.Wanted | src/main.rs:268-277 | definition of the filter: with `-r`, no namespace and a real path, the path must start with every configured path; characterised by `Fanotify.FilterKeepsChildren` and `Fanotify.FilterRequiresEveryPath` |
| Fanotify.Line | src/main.rs:279-281 | definition of the printed line; characterised by `Fanotify.LineFields` |
| Fanotify.Emit | src/main.rs:268-282 | definition of an accepted event's output: its line when the filter keeps it, nothing otherwise; characterised by `Fanotify.AcceptedRecord`, `Fanotify.NegativeFdRecord`, `Fanotify.FilterKeepsChildren`, `Fanotify.FilterRequiresEveryPath` and `Fanotify.LineFields` |
| Fanotify.ResolvePath | src/main.rs:254-266 | the source's branch on the fd's sign yields the event's path, `-` for a negative fd |
| Fanotify.EmitRecord | src/main.rs:243-282 | one event's mask loop, filter loop and format as a standalone method, apart from the slot loop that `Fanotify.WalkLoop` runs in the source's order: it yields exactly `Emit`'s output, its line or nothing when the filter drops it |
| Fanotify.WalkLinesBound | src/main.rs:230-282 | a walk prints at most one line and closes at most one fd per slot |
| Fanotify.WalkClosesOnlyFds | src/main.rs:254-266 | only non-negative fds are ever closed |
| Fanotify.WalkSplit | src/main.rs:230-241 | after k accepted slots, the output is theirs followed by the walk of the rest, with the byte counter lowered by each accepted `event_len` |
| Fanotify.StopIsSilent | src/main.rs:231-235 | a failed length check ends the batch with `Ok`; the output is exactly that of the slots before it |
| Fanotify.VersionMismatchFails | src/main.rs:237-238 | a version mismatch returns `EINVAL`; the earlier slots' output stands and nothing after it happens |
| Fanotify.ResolveFailurePropagates | src/main.rs:254-256 | a `read_link` failure is returned as the error, and that slot's fd is not closed |
| Fanotify.AcceptedRecord | src/main.rs:240-282 | an accepted slot appends its line (unless filtered) and its close, and the walk goes on at the next slot with `event_len` fewer bytes |
| Fanotify.NegativeFdRecord | src/main.rs:264-279 | an event without an fd has path `-`, closes nothing, and is printed whatever the filter settings |
| Fanotify.NonNegativeFdRecord | src/main.rs:254-263 | an event with an fd takes its path from `read_link` and closes that fd |
| Fanotify.FilterKeepsChildren | src/main.rs:268-277 | with one configured directory, an event below it is printed |
| Fanotify.FilterRequiresEveryPath | src/main.rs:268-277 | with `/a` and `/b` configured under `-r`, an event on `/a/x` is dropped |
| Fanotify.LineFields | src/main.rs:279-281 | the line is three tab-separated fields (mask, fd, path) and a newline; the fd field reads back as the fd; the pid is not printed |
| Fanotify.RenderMaskLoop | src/main.rs:243-252 | the source's buffer loop, with its trailing `\|` removed, yields the set flags' names joined with `\|` |
| Fanotify.FilterLoop | src/main.rs:268-277 | the loop over the configured paths, returning at the first mismatch, keeps an event exactly when `Wanted` holds |
| Fanotify.WalkLoop | src/main.rs:230-284 | the slot loop, taking the source's steps in its order (`break`, the early returns, the counter lowered before the mask buffer and the path, then the filter skipping to the next slot), computes the recursive walk |
| Fanotify.HandleFanotifyLoop | src/main.rs:210-289 | the whole of `handle_fanotify` as a method, the errno match and then the slot loop, computes `HandleFanotify` |
| Text.Split | src/main.rs:339 | `str::split`: at least one piece, no piece holds the separator, and exactly one piece when the string has no separator; characterised by `Text.SplitJoin` and `Text.JoinSplit` |
| Text.SplitJoin | src/main.rs:339 | splitting a join of separator-free pieces gives the pieces back |
| Text.JoinSplit | src/main.rs:339 | joining the pieces of a split gives the string back |
| Text.IntToDecimal | src/main.rs:279 | `Display` of the `i32` fd: non-empty, starts with `-` exactly for a negative number, digits otherwise; characterised by `Text.IntDecimalRoundTrip` |
| Text.IntDecimalRoundTrip | src/main.rs:279 | the decimal text of any integer, sign included, reads back as that integer |

## Left out

- The `main` event loop: `poll` on standard input and the fanotify fd, `fanotify_init`,
  `fanotify_mark` with its `FAN_MARK_*` flags, `open_namespace_root`, and the
  `libc_wrap!` wrappers. These are system calls; their results enter the model only as
  the `read` outcome and the slots.
- Argument parsing by `structopt` and `cstring_from_os_str`: options arrive already parsed.
  A path with an interior NUL, which that parser rejects, is not represented.
- Logging (`error!`, `debug!`).
- Standard-output failures: the model treats `print!`, `write` and `flush` as always
  succeeding. A short `write` of the path bytes is not modelled.
- The `CString::new(..).unwrap()` after `fs::canonicalize`: a canonical path never holds
  a NUL, so the panic branch is absent.
- Fanotify.Batch: the printed lines and the closed fds are kept as two separate
  sequences, so the model does not state that each event's fd is closed before its line
  is printed. With standard-output failures left out, that order cannot be observed.
- Flags.CanonicalizeMessage: writes the path between plain double quotes; the source's
  `{:?}` of a `CString` also escapes special characters, which is not modelled.
- Masks are sets of bit positions, not 64-bit integers. The model bounds each variant
  value by the enum's width (`FitsRepr`) but does not model integer arithmetic on masks.
- The record's `metadata_len` and pid are carried but never interpreted, as in the source;
  its `reserved` field is not represented, because the source never reads it.
- `src/main.rs:58-147` repeats the enum machinery of `src/c_enum.rs`, always at `u64` and
  without the `Display` and `BitAnd` impls. The model defines that machinery once, as the
  `u64` case of `CEnums.Expand`.
- `src/main.rs:291-325` repeats `Opt::from_args_with_default`; it is modelled once, in
  `Flags`.
- Flags.DEFAULT_EVENTS: the default list is written as the concatenation of its seven
  names and commas rather than as one literal; `Flags.DefaultEventsAreAllNames` states
  what it spells.
