# git-report core in Dafny

git-report reads the history of configured git repositories into a SQLite
report database and then attributes the work to configured *components*. A
component is a name and a list of `repo:pattern` entries. This project models
the three pieces of `main.go` that do the work:

- **parseGitLog** (module `GitLog`) scans the text of
  `git log --numstat --name-status --pretty=format:%H%x00%an%x00%ae%x00%ai%x00%s%x00`.
  A line that contains a NUL byte is a commit header. Any other non-blank
  line after an accepted header is a file change: three fields are a numstat
  line (type `M`), two fields a name-status line. The inserts become the
  returned sequence of rows.
- **computeComponentContributions** (module `Contributions`) works one
  component at a time. It groups the component's entries by repository,
  scans each repository's commit/file-change join rows, and tallies every row
  whose path matches one of the group's patterns. Each tally is keyed by
  (component id, repository id, author e-mail). The inserts become the
  returned map.
- **matchPath / simpleMatch / min** (module `PathMatch`) rewrite a glob into
  a regex-like text and walk it with a hand-written byte loop. They fall back
  on `filepath.Match` (module `Glob`) and on a segment-wise `**` split.

`GoStrings` models the `strings` and `strconv` helpers the code calls.
`Wrappers` holds `Option` and `Result`.

The code is modelled as written, including behaviour that looks
unintended:

- A binary file's numstat line (`-` and `-` for the counts) still yields a file-change row,
  with 0 additions and 0 deletions (`strconv.Atoi` errors are discarded).
- A rename's numstat line has five fields and yields no row. No change type
  is inferred: three-field lines are always `M`, and two-field lines carry
  git's status letter.
- `commits` is incremented once per matched file row, not once per distinct
  commit, although the column it fills is named `commit_count`
  (`main.go:229`; see Findings).
- Line 498 wraps the rewritten pattern in `^` and `$`, the anchors of a
  regular expression. Neither the byte loop nor `filepath.Match` treats them
  as anchors, so only paths that start with `^` can match (see Findings).
- The header format ends with a separator, so a well-formed header has six
  NUL-separated parts. The code only requires five.

Outside effects become parameters:

- `time.Parse` is the oracle `parseDate`.
- The per-repository join query is `rowsOf`.
- The `SELECT id FROM components` lookup is the map `componentIds`, with
  `UnknownComponent` as its error.
- The path matcher of the aggregator is a parameter. `GoMatcher` is
  `matchPath` itself and `IntendedMatcher` the corrected matcher.

## Model

| member | source | states |
|---|---|---|
| GoStrings.ContainsOccurs | main.go:321 | strings.Contains holds exactly when the substring occurs at some index |
| GoStrings.ReplaceAll | main.go:495-497 | strings.ReplaceAll only writes bytes of the text or of the replacement |
| GoStrings.ReplaceAllAbsent | main.go:495-497 | replacing a string that does not occur leaves the text unchanged |
| GoStrings.ReplaceAllFirst | main.go:495-497 | strings.ReplaceAll replaces the leftmost occurrence and continues right after it: `a + target + b` gives `a + repl` then the replacement of `b`, when `target` starts nowhere inside `a` |
| GoStrings.Split | main.go:326 | strings.Split on one byte yields at least one piece, and no piece contains the separator |
| GoStrings.JoinSplit | main.go:547-548 | joining the pieces of a split with the separator restores the input |
| GoStrings.SplitJoin | main.go:326 | splitting a join of separator-free pieces restores the pieces |
| GoStrings.SplitFirst | main.go:412-417 | SplitN(s, ":", 2) fails exactly when there is no separator; otherwise the input is before + ":" + after, and before has no separator |
| GoStrings.SplitFirstJoin | main.go:412-417 | SplitN undoes joining a separator-free name and any rest with ":" |
| GoStrings.Fields | main.go:357 | strings.Fields yields only non-empty runs of non-space bytes; a line starting with a non-space byte has a first field starting with it; there are no fields exactly when the line is all white space |
| GoStrings.FieldsJoin | main.go:357 | Fields undoes joining words with one white-space byte |
| GoStrings.ParseInt | main.go:363-364 | strconv.Atoi succeeds exactly on a digit string, or a `+`/`-` followed by at least one digit, and then gives the decimal value of the digits, negated only after a `-` |
| GoStrings.ParseItoa | main.go:363-364 | Atoi reads back every decimal that Itoa writes |
| GoStrings.DashIsZero | main.go:363-364 | Atoi of git's binary marker `-` is a syntax error, so its discarded-error value is 0 |
| Glob.ClassChar | main.go:542 | filepath.Match's getEsc consumes one possibly escaped class character and leaves a non-empty rest |
| Glob.ClassRanges | main.go:542 | reading the range list of a class always consumes part of the pattern |
| Glob.ParseClass | main.go:542 | reading a class, negated or not, always consumes part of the pattern |
| Glob.ChunkEnd | main.go:542 | scanChunk's text ends at the end of the pattern or just before a `*` |
| Glob.ScanChunk | main.go:542 | scanChunk splits off the leading stars and a chunk text that does not start with `*`; a non-empty pattern yields a star or some text, so the rest is shorter |
| Glob.MatchChunk | main.go:542 | a chunk that matches consumes a prefix of the name and returns the rest; once failed it never matches |
| Glob.Matches | main.go:542 | a pattern that does not start with `*` matches only when its first chunk matches at the front of the name |
| Glob.SkipScan | main.go:542 | the star loop succeeds only after skipping bytes none of which is `/`, at a place where the chunk matches |
| Glob.CommitToFirstChunk | main.go:542 | when a chunk that is not the last matches in place, filepath.Match commits to it: the result is that of the rest of the pattern on the rest of the name |
| Glob.ChunkIsCommitted | main.go:542 | the commit is final: the pattern `*[^x]/*c` rejects every name `a//t` with `a` not `x`, `a//bc` among them, which a backtracking glob accepts |
| Glob.LeadingLiteral | main.go:542 | a filepath.Match pattern whose first byte is not special only matches names that start with that byte |
| Glob.LiteralChunk | main.go:542 | a chunk without special bytes matches exactly when it is a prefix of the name |
| Glob.LiteralMatchesItself | main.go:542 | a pattern without special bytes matches exactly itself |
| Glob.StarStaysInSegment | main.go:542 | a lone `*` matches exactly the names without `/` |
| PathMatch.RewriteBody | main.go:495-497 | after the three replacements every `*` is preceded by a `]` or a `.`, so none comes first |
| PathMatch.Rewrite | main.go:495-498 | the rewritten pattern is wrapped in a literal `^` and `$` |
| PathMatch.Min | main.go:581-586 | min is at most each argument and equals one of them |
| PathMatch.MatchPath | main.go:494-539 | matchPath is the byte loop or filepath.Match on the rewritten pattern: its empty-path test and the `**` branch of simpleMatch never decide |
| PathMatch.Walk | main.go:501-532 | the byte loop accepts only paths whose first byte equals the pattern's leading `^` |
| PathMatch.StarScan | main.go:508-513 | the `.*` loop succeeds exactly when some suffix of the path from its start index matches the rest of the pattern |
| PathMatch.SimpleMatch | main.go:541-579 | for a pattern without `**`, simpleMatch is filepath.Match |
| PathMatch.DoubleStarParts | main.go:550-576 | the `**` branch succeeds only from a part that is exactly `**` |
| PathMatch.TailScan | main.go:563-570 | the tail loop succeeds exactly when some tail of the path's parts, joined with `/`, matches the parts after `**` |
| PathMatch.SegmentEnd | main.go:516-519 | the `[^/]*` scan stops at the first `/` at or after its start, or at the end of the path |
| PathMatch.SegmentStarsGuarded | main.go:495-496 | after the `*` rewrite every `*` is preceded by a `]` |
| PathMatch.AnyRunStarsGuarded | main.go:497 | the third rewrite keeps every `*` after the first byte behind a `]` or a `.`, and puts no `*` first |
| PathMatch.RewriteOneStar | main.go:495-498 | a single `*` between text free of `*` and placeholder bytes becomes `[^/]*`, and the rest is only wrapped in `^` and `$` |
| PathMatch.RewriteHasNoDoubleStar | main.go:495-498 | the rewritten pattern never contains `**` |
| PathMatch.SimpleMatchIsGlob | main.go:541-579 | on a rewritten pattern the `**` branch of simpleMatch never runs, so simpleMatch is filepath.Match |
| PathMatch.MatchPathNeedsCaret | main.go:494-539 | every path that matchPath accepts starts with `^` |
| PathMatch.ExactPathRejected | main.go:494-539 | a path not starting with `^` is not matched by itself |
| PathMatch.WalkLiteral | main.go:501-532 | on a star-free pattern the byte loop succeeds exactly when the rest of the path equals the rest of the pattern |
| PathMatch.LiteralPatternMatch | main.go:494-539 | a literal pattern matches exactly one path: `^` + pattern + `$` |
| PathMatch.DoubleStarMatchesAll | main.go:495-497 | under the intended semantics, `**` matches every path |
| PathMatch.IntendedStarStaysInSegment | main.go:496 | under the intended semantics, a lone `*` matches exactly the paths without `/` |
| PathMatch.IntendedReflexive | main.go:494-539 | under the intended semantics, every path matches itself |
| PathMatch.IntendedDirectory | main.go:495-497 | under the intended semantics, a star-free prefix followed by `**` matches exactly the paths with that prefix |
| PathMatch.DirectoryPatternAsWritten | main.go:494-539 | `src/a.go` is rejected by matchPath for the pattern of its directory, and accepted as intended |
| GitLog.ParseHeader | main.go:321-343 | only a line with a NUL yields a commit; the commit carries the repository id and NUL-free fields |
| GitLog.ParseChange | main.go:357-379 | a file change carries the current commit's hash and a non-empty, space-free path and type; only numstat lines (type `M`) carry counts; a blank line yields nothing |
| GitLog.ParseFrom | main.go:318-380 | the loop inserts at most one row per line; with no current commit the first row inserted is a commit |
| GitLog.ParseLog | main.go:295-387 | parseGitLog inserts at most one row per line, and its first row is a commit |
| GitLog.ParseGitLog | main.go:295-387 | every file-change row of the whole output follows a commit row with its hash |
| GitLog.StepLine | main.go:318-379 | one line inserts at most one row; only header lines change the current commit or insert commits; an inserted commit becomes current; a file change carries the current commit's hash |
| GitLog.ScanLines | main.go:314-319 | the scanner's lines contain no newline |
| GitLog.ScanTerminated | main.go:314-319 | the scanner restores lines ending in a newline or in a carriage return plus newline |
| GitLog.HeaderRoundTrip | main.go:321-343 | a header written in the pretty format reads back as its commit |
| GitLog.RejectedHeaderKeepsCommit | main.go:326-334 | a header with under five parts or an unparsable date inserts nothing and keeps the previous commit current |
| GitLog.AcceptedHeader | main.go:326-350 | a header inserts a commit exactly when it has five parts and a parsable date; the commit has the header's fields and becomes current |
| GitLog.NoCommitNoChange | main.go:353-355 | before any accepted commit, and on blank lines, non-header lines insert nothing |
| GitLog.NumstatRoundTrip | main.go:362-371 | a numstat line of a white-space-free path reads back as type `M` with its counts |
| GitLog.BinaryCountsBecomeZero | main.go:362-368 | a binary file's `-` counts still insert a row, with 0 and 0 |
| GitLog.NameStatusRoundTrip | main.go:372-378 | a name-status line reads back as a row of that type with zero counts |
| GitLog.OtherFieldCountsDropped | main.go:357-379 | a line with other than two or three fields inserts nothing |
| GitLog.RenameDropped | main.go:357-379 | a rename's numstat line (`a d old => new`) inserts nothing |
| GitLog.ParseAppend | main.go:318-380 | scanning a concatenation is scanning the first part, then the second from the commit the first left current |
| GitLog.NothingBeforeFirstCommit | main.go:353-355 | lines before the first accepted header insert nothing |
| GitLog.OneCommitPerAcceptedHeader | main.go:321-350 | one commit row is inserted per accepted header |
| GitLog.ChangesAttachToLastCommit | main.go:336-379 | every file-change row belongs to the last commit accepted before it, even across rejected headers |
| GitLog.ChangesFollowTheirCommit | main.go:295-387 | every file-change row is preceded by the commit row of its hash |
| Contributions.MatchesAny | main.go:445-451 | the pattern loop matches exactly when some pattern of the group matches |
| Contributions.Count | main.go:453-460 | one matched row bumps a tally exactly as the reference Merge of that single row |
| Contributions.FoldRows | main.go:437-462 | scanning a group keeps existing keys; new keys carry that group's component and repository; every tally counts at least one row |
| Contributions.FoldRowsSpec | main.go:437-462 | after a group's scan, a key is present exactly when it was present or matched rows; its tally equals the reference Merge of those rows (row count, sums, last author) |
| Contributions.PatternOrderIrrelevant | main.go:445-451 | the order of a group's patterns, and repeats among them, change no total |
| Contributions.FoldRowsCommute | main.go:421-464 | scans of two different repositories commute |
| Contributions.GroupFrom | main.go:410-419 | grouping only adds repositories and only appends patterns |
| Contributions.GroupFromSpec | main.go:410-419 | after grouping, a repository holds exactly its entries' patterns in entry order; entries without `:` are skipped |
| Contributions.RepoOrder | main.go:410-421 | the groups visited are exactly the repositories named by some entry, each once, as a range over the map of groups visits them |
| Contributions.GroupStep | main.go:421-464 | one group adds keys only for that component and that repository's id; an unknown repository is skipped |
| Contributions.ProcessGroups | main.go:421-464 | visiting groups keeps every tally at one row or more |
| Contributions.GroupOrderIrrelevant | main.go:421-464 | any visiting order of the repository groups gives the same totals, when distinct names have distinct ids |
| Contributions.DistinctSameElements | main.go:421 | two duplicate-free listings of the same keys are permutations of each other |
| Contributions.AnyMapOrder | main.go:421-464 | every order in which Go's range can visit the groups gives the totals of the model's order, when distinct names have distinct ids |
| Contributions.ComponentStep | main.go:403-464 | one component keeps every tally at one row or more |
| Contributions.UnknownRepositoriesSkipped | main.go:421-425 | a component whose entries name no known repository changes nothing |
| Contributions.AggregateFrom | main.go:403-408 | the component loop succeeds exactly when every name has an id; otherwise it fails with the first unknown name |
| Contributions.ComputeContributions | main.go:389-492 | the result is a success exactly when every component is known, and then every inserted tally counts at least one row |
| Contributions.MergeAppend | main.go:453-460 | merging two batches of rows in turn is merging them together |
| Contributions.ProcessGroupsSpec | main.go:421-464 | visiting a component's groups merges into each key exactly its matched rows from the visited groups, and adds a key exactly when there are some |
| Contributions.AggregateFromSpec | main.go:403-465 | with every component known, the component loop succeeds and merges into each key exactly its matched rows over all components |
| Contributions.ComputeContributionsSpec | main.go:389-492 | on success a key is inserted exactly when some visited group gave it a matched row, and its tally is those rows merged from the zero value |
| Contributions.GroupRowsOfRepository | main.go:421-464 | with distinct repository ids, a key picks up rows only from the group of its own repository |
| Contributions.ComponentRows | main.go:410-464 | a key of a component picks up exactly its repository's rows of its e-mail that match one of the patterns the component's entries give that repository |
| Contributions.RunRowsOfComponent | main.go:403-465 | with distinct component and repository ids, over a whole run a key picks up exactly the rows of its own component and repository |
| Contributions.ContributionOfRepository | main.go:389-492 | with distinct ids, a key is inserted exactly when its repository has a matching row of its e-mail, and its tally is those rows merged from zero: commits = their number, summed counts, last author |
| Contributions.NothingMatchedNothingTallied | main.go:453-461 | when no path matches, nothing is tallied |
| Contributions.OrdinaryPathsNeverTallied | main.go:445-461 | with matchPath itself, repositories whose paths do not start with `^` contribute nothing |
| Contributions.SingleEntry | main.go:410-419 | the single entry `repo:pat` forms one group, `repo`, holding `pat` |
| Contributions.ExampleIsOneScan | main.go:403-464 | the example configuration reduces to one scan of its repository |
| Contributions.OneRowScan | main.go:453-460 | one matched row yields a tally of one commit with its counts and author |
| Contributions.ExampleAsWritten | main.go:445-461 | as written, component `core` with `app:src/**` gets nothing from an edit of `src/a.go` |
| Contributions.ExampleAsIntended | main.go:445-461 | with the intended matcher, the same edit is tallied once under (core, app, author) |
| Contributions.RowsCountedNotCommits | main.go:453-460 | two matched files of one commit give commits = 2 |
| Contributions.SharedCommitOvercounted | main.go:453-460 | a key's commits equal its matched rows, at least its distinct commits, and more as soon as two matched rows share a hash |
| Contributions.FoldRowsDistinct | main.go:453-460 | the corrected scan keeps existing keys, and new keys carry the group's component and repository |
| Contributions.FoldRowsDistinctCountsCommits | main.go:453-460 | with the correction, a key's commits are the distinct hashes of its matched rows |
| Contributions.DistinctCountsOneCommit | main.go:453-460 | with the correction, two files of one commit count as one commit |

## Left out

- Database work is not modelled: transactions, prepared statements, `rows.Scan`, and the errors of any insert. Inserts become returned rows and maps. A failing insert, such as a duplicate commit hash, aborts the Go function but not the model.
- GitLog.StepLine: does not model the abort when an insert fails, because there is no database.
- The counter `commitCount` and the verbose log line of parseGitLog only feed logging and are left out.
- `bufio.Scanner` stops silently at a line over 64 KiB, because the scan error is not checked. GitLog.ScanLines has no length limit.
- `time.Parse` is the oracle `parseDate`. The date layout is not modelled.
- GoStrings.ParseInt: `strconv.Atoi`'s range error is not modelled, so a digit string too long for a Go `int` parses here to its exact value instead of failing.
- GoStrings.ParseItoa: `strconv.Atoi`'s range error is not modelled. Integers are unbounded, so Atoi's clamping and `int` overflow in the sums are absent.
- GoStrings.Fields: only ASCII white space separates fields. Unicode spaces such as U+0085 and U+00A0 do not.
- `filepath.Match` is not part of this repository. Glob.Matches follows Go's own chunk algorithm (scanChunk, matchChunk, getEsc, and the star loop that commits to the first place a chunk matches), on bytes rather than UTF-8 runes. A malformed pattern matches nothing, since the caller discards the error.
- The matcher's `**` branch of simpleMatch (`DoubleStarParts`, `TailScan`) is modelled. PathMatch.SimpleMatchIsGlob shows that it never runs on a rewritten pattern, so no lemma states its own behaviour.
- Go's map iteration order over repository groups (line 421) and over the final tallies (line 483) is unspecified. The model visits groups in first-mention order, each once. Contributions.AnyMapOrder shows that every order Go's range can take gives the same totals when distinct repository names have distinct ids.
- The component id query can fail in ways other than a missing row. Only the missing row is modelled, as `UnknownComponent`.
- GoStrings.ReplaceAllAbsent: ReplaceAll is modelled for a non-empty target only, which is all the matcher uses.

## Findings

| source | as written | input that shows it | evidently intended | confidence | as-written member | corrected member |
|---|---|---|---|---|---|---|
| main.go:494-539 | the rewritten pattern begins with a literal `^`, which both the byte loop and filepath.Match compare as an ordinary byte, so only paths that start with `^` match | matchPath("src/a.go", "src/a.go") and matchPath("src/a.go", "src/**") are both false | `**` matches any run, `*` a run without `/`, other bytes themselves, anchored at both ends | high (not executed) | PathMatch.MatchPathNeedsCaret | PathMatch.IntendedReflexive |
| main.go:445-461 | with real repository paths no file change matches any component, so the contribution table stays empty | component `core` with `app:src/**`, one edit of `src/a.go` in `app` | the edit is tallied under (core, app, its author) | high (not executed) | Contributions.ExampleAsWritten | Contributions.ExampleAsIntended |
| main.go:453-460 | `commits` is incremented once per matched file row | one commit touching `src/a.go` and `src/b.go`, both matched | commit_count is the number of distinct matched commits | high (not executed) | Contributions.SharedCommitOvercounted | Contributions.FoldRowsDistinctCountsCommits |

The corrected matcher is `PathMatch.IntendedMatch`. It plugs into the
aggregator as `Contributions.IntendedMatcher`, since the aggregator takes its
matcher as a parameter. The corrected tally is `Contributions.FoldRowsDistinct`,
which keeps the set of matched hashes per key. `Contributions.ComputeContributions`
itself keeps the code's per-row count.
