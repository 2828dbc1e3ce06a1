# btrfs-backup: replication planning core

A model, in Dafny, of the sequential core of `btrfs-backup` (`main.go`), a
tool that replicates btrfs snapshots incrementally from the local host to a
remote host. Three pieces decide what gets replicated:

- **The subvolume-listing parser** (`parseSubVolumes`, module `Listing`):
  reads the text printed by `btrfs subvolume list` one `'\n'`-terminated
  line at a time, splits each line on single spaces, demands exactly nine
  tokens, and keeps the ninth without its `'\n'` as the subvolume path. One
  malformed line fails the whole parse with no partial result. Text after
  the last `'\n'` is dropped, because `ReadBytes` returns it together with
  end-of-file. The reader is modelled by the method `ReadBytes` on a text
  and a position. The specification `Parse` is proved equal to a parse over
  the lines of the text (`Lines`). It is also proved to invert the listing
  tool's record format (`Render`).
- **The snapshot filter** (the loop of `getSubVolumes`, module
  `Snapshots`): keeps the paths that start with the prefix and that the
  snapshot pattern accepts, strips the prefix, and preserves order. The
  regular expression is an arbitrary predicate `matches: string -> bool`
  applied to the whole path, prefix included, as `MatchString` is in the
  program. The pattern at main.go:21 is unanchored, so nothing about it is
  assumed.
- **The synchronisation planner** (the loop at the end of `main`, module
  `Planner`): the newest remote snapshot is the anchor. Once the scan of
  the local snapshots reaches it, every later local snapshot is sent as a
  delta against the one before. Each `sendSnapshot` call is one emitted
  `Send(snapshot, parent)`.

The Go helpers the core calls (`strings.Split`, `strings.TrimRight`,
`strings.HasPrefix`, `strings.TrimPrefix`, the search for `'\n'` inside
`ReadBytes`, string `<`) are modelled in module `GoStrings`.

Modelling decisions:

- The cursor `previousSnapshot` uses `""` for "unset". The model uses
  `Option<string>`, and every string the program assigns to the cursor goes
  through `Planner.Mark`, which turns `""` into `None`. The model therefore
  needs no precondition that names are non-empty, and an empty name resets
  the cursor exactly as it does in the program. The lemmas about the usual
  case assume a non-empty anchor. If the anchor were `""`, the program would
  send nothing; `RunBeforeAnchor` covers that case.
- Go compares strings byte-wise on their UTF-8 encoding. That order is the
  code-point order, which is the order `GoStrings.Less` defines on Dafny
  characters.
- The error `parseSubVolumes` returns ("unexpected btrfs output: <line>",
  later wrapped by `execPipe`) is `MalformedListing(line)`.
- The later test file `main_test.go` exercises another version of
  `parseSubVolumes` that skips blank lines and accepts an unterminated
  last line. This model follows `main.go`, where a blank line is an error
  (`BlankLineRejected`) and an unterminated last line is ignored
  (`ParseIgnoresFragment`). Only the test vectors that agree with `main.go`
  appear as example lemmas.

## Model

| member | source | states |
|---|---|---|
| `GoStrings.IndexOf` | main.go:131 | the first '\n' that `ReadBytes` stops at: the character is there and does not occur before it |
| `GoStrings.Split` | main.go:135 | `strings.Split` gives at least one token |
| `GoStrings.SplitPieces` | main.go:135 | no token of `strings.Split` holds the separator |
| `GoStrings.JoinSplit` | main.go:135 | joining the tokens of `Split` with the separator gives back the line |
| `GoStrings.SplitJoin` | main.go:135 | splitting separator-free pieces joined by the separator gives back the pieces |
| `GoStrings.SplitCount` | main.go:135-136 | `Split` gives one token more than the line has separators |
| `GoStrings.TrimRight` | main.go:139 | `strings.TrimRight` returns a prefix that does not end with the cut character, having removed only that character |
| `GoStrings.TrimRightOne` | main.go:139 | on the ninth token of a line (a path plus its '\n'), `TrimRight` gives back exactly the path |
| `GoStrings.TrimPrefix` | main.go:77 | `strings.TrimPrefix` drops the prefix when the string starts with it, and changes nothing otherwise |
| `GoStrings.LessIrreflexive` | main.go:34-35 | the order `sort.Strings` uses puts no string below itself |
| `Listing.LinesTerminated` | main.go:131-133 | every line `ReadBytes('\n')` delivers is non-empty and ends with its only '\n' |
| `Listing.Fragment` | main.go:132-133 | the text left when `ReadBytes` reaches end-of-file holds no '\n' |
| `Listing.LinesCover` | main.go:130-133 | the delivered lines followed by the dropped fragment make up the whole input |
| `Listing.LinesOfConcat` | main.go:130-133 | terminated lines followed by a '\n'-free fragment are read back as exactly those lines and that fragment |
| `Listing.WellFormedSpaces` | main.go:135-136 | a line passes the nine-token check exactly when it holds eight spaces |
| `Listing.ParseIsParseLines` | main.go:127-144 | reading the text line by line is the same as parsing its list of lines |
| `Listing.ParseLinesOk` | main.go:135-139 | a list of lines parses exactly when every line has nine tokens, and then gives one path per line, in order, each the line's ninth token without the '\n' |
| `Listing.ParseLinesErr` | main.go:136-137 | a failed parse of a list of lines reports the first line without nine tokens |
| `Listing.ParseSucceeds` | main.go:130-139 | the parse of a text succeeds exactly when each '\n'-terminated line splits into nine tokens; then it returns one path per line, in input order |
| `Listing.ParseFails` | main.go:135-137 | a failed parse returns only the error, which names the first malformed line, with no partial list |
| `Listing.ParseIgnoresFragment` | main.go:131-133 | appending text without '\n' never changes the result: a final unterminated fragment is silently dropped |
| `Listing.BlankLineRejected` | main.go:135-137 | an empty line "\n" is one token, so a text starting with it fails with that line |
| `Listing.RenderedLine` | main.go:135-139 | a record "ID <id> gen <gen> top level <top> path <path>" with space- and newline-free fields is a well-formed terminated line whose path is the record's |
| `Listing.ParseRenderAll` | main.go:127-144 | round trip: the listing printed for any valid records parses to their paths, in order |
| `Listing.ListingExample` | main_test.go:158-159 | two records of the daily-snapshot listing parse to their two paths, whatever their ids and generations |
| `Listing.ReadBytes` | main.go:131-133 | `ReadBytes('\n')` returns the text up to and including the next '\n', or the rest of the text with end-of-file when there is none |
| `Listing.ParseAdvance` | main.go:131-139 | one pass of the loop on a terminated line: a nine-token line appends its path to the names read so far, and any other line ends the parse with that line as the error |
| `Listing.ParseSubVolumes` | main.go:127-144 | the imperative parser returns exactly `Parse` of the text |
| `Snapshots.Filter` | main.go:74-79 | the filter returns at most as many names as there are volumes |
| `Snapshots.FilterAppend` | main.go:75-79 | the filter distributes over concatenation of the input, so input order is kept |
| `Snapshots.FilterOne` | main.go:76-77 | one volume yields its name without the prefix when it starts with the prefix and matches, and nothing otherwise |
| `Snapshots.FilterMembers` | main.go:76-77 | a name is in the result exactly when some volume that starts with the prefix and matches is the prefix followed by that name |
| `Snapshots.FilterNoPrefix` | main.go:28 | with the empty prefix used for the remote side, the filter returns the matching volumes unchanged, in order |
| `Snapshots.FilterKeepsAll` | main.go:76-77 | with the empty prefix and a pattern matching every volume, the filter returns its input |
| `Snapshots.FilterExample` | main_test.go:136-137 | ["2019-01-10_03-00", "foo", "bar"] with no prefix and a match-all pattern comes back unchanged |
| `Snapshots.FilterPrefixExample` | main.go:22 | under the prefix "snapshot/", an accepted snapshot loses its prefix and a volume outside the prefix is dropped |
| `Snapshots.FilterVolumes` | main.go:74-79 | the filter loop returns exactly `Filter` of the volumes |
| `Snapshots.GetSubVolumes` | main.go:68-82 | `getSubVolumes` returns the parse error unchanged, or the filtered names of the parsed paths |
| `Planner.Mark` | main.go:47-49 | a string assigned to the cursor leaves it unset exactly when the string is "" |
| `Planner.RunBeforeAnchor` | main.go:47-59 | until the anchor has been scanned, or when the anchor is "", the cursor stays unset and nothing is sent |
| `Planner.NoAnchorNoSends` | main.go:46-60 | when the newest remote snapshot is not among the local ones, nothing is sent and no error is reported |
| `Planner.RunFromAnchor` | main.go:49-59 | from the first occurrence of a non-empty anchor on, the cursor is the last scanned snapshot and each later snapshot was sent against its predecessor |
| `Planner.PlanFromAnchor` | main.go:46-60 | with the anchor first at position k, the sends are exactly (L[i+1], L[i]) for i from k to len(L)-2, in ascending order |
| `Planner.SortedPlan` | main.go:46-60 | for sorted lists sharing a non-empty anchor: every send is newer than the anchor and not yet at the remote side, the first is against the anchor, each later one against the previous send, and all come from the local list |
| `Planner.PlanExample` | main_test.go:323-332 | local 1..5 against remote 1..3 sends 4 against 3, then 5 against 4 |
| `Planner.PlanNoOverlapExample` | main.go:46-60 | local ["1","2"] against remote ["9"] sends nothing |
| `Planner.PlanSends` | main.go:46-60 | the planner loop emits exactly the sends `Plan` defines, in order |

## Left out

- `execPipe` (main.go:97-124): starting `btrfs` locally or through `ssh`, the pipe and waiting for the process are I/O. The listing text is an input of `GetSubVolumes`, and errors of the process are not modelled.
- `sendSnapshot` (main.go:63-66) only prints a `btrfs send` command line and returns no error. Each call is one emitted `Send`; the `path.Join` of mount point, prefix and name is not modelled.
- The regular expression engine (`regexp.MatchString`) is an arbitrary predicate parameter.
- `sort.Strings` (main.go:34-35) is not modelled. The planner works on whatever lists it is given, and `SortedPlan` takes sortedness as a precondition.
- `main`'s orchestration, its console output (main.go:37-44) and the `log.Fatal` exits are not modelled. Because `sendSnapshot` never fails, the planner never stops early.
- `parseSubVolumes` treats read errors other than end-of-file as data. A string reader has none, so that case is not modelled.
- The planner's `requires |remote| > 0` reflects the program's `subVolumesRemote[len(subVolumesRemote)-1]`, which panics on an empty list.
- Listing.ListingExample: states the shape of the 22-line test listing for two records with arbitrary ids and generations rather than for the literal 22-line text; `Listing.ParseRenderAll` covers any number of records.
