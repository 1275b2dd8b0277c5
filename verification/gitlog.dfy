/** parseGitLog: turns the text of
      git log --numstat --name-status --pretty=format:%H%x00%an%x00%ae%x00%ai%x00%s%x00
    into commit rows and file-change rows, in the order they are inserted.
    The input is taken as its lines; database writes become the returned
    rows; time.Parse is the oracle `parseDate`. */
module GitLog {
  import opened Wrappers
  import opened GoStrings

  /** What time.Parse returns for a valid `%ai` date; its layout is not modelled. */
  datatype Time = Time(unixSeconds: int, zoneOffsetSeconds: int)

  datatype Commit = Commit(hash: string, repoId: int, author: string, email: string, date: Time, message: string)

  datatype FileChange = FileChange(commitHash: string, filepath: string, additions: int, deletions: int, changeType: string)

  /** One row inserted by parseGitLog. */
  datatype Row = CommitRow(commit: Commit) | ChangeRow(change: FileChange)

  /** The header separator of the pretty format. */
  const Nul: char := '\0'

  /** A header line: one that contains the separator. */
  predicate IsHeader(line: string) {
    Nul in line
  }

  /** The commit a header line describes, or None when it has fewer than five
      NUL-separated fields or its date does not parse. */
  function ParseHeader(line: string, repoId: int, parseDate: string -> Option<Time>): (r: Option<Commit>)
    ensures r.Some? ==> IsHeader(line)
    ensures r.Some? ==> r.value.repoId == repoId
    ensures r.Some? ==> Nul !in r.value.hash && Nul !in r.value.author && Nul !in r.value.email && Nul !in r.value.message
  {
    var parts := Split(line, Nul);
    if Nul !in line then SplitWhole(line, Nul); None
    else if |parts| < 5 then None
    else match parseDate(parts[3])
      case None => None
      case Some(date) => Some(Commit(parts[0], repoId, parts[1], parts[2], date, parts[4]))
  }

  /** The file change a non-header line of commit `hash` describes: three
      fields are a numstat line (counts through Atoi, type "M"), two fields a
      name-status line (type, path, no counts); anything else is dropped. */
  function ParseChange(hash: string, line: string): (r: Option<FileChange>)
    ensures r.Some? ==> r.value.commitHash == hash && IsWord(r.value.filepath) && IsWord(r.value.changeType)
    ensures r.Some? && r.value.changeType != "M" ==> r.value.additions == 0 && r.value.deletions == 0
    ensures (forall k :: 0 <= k < |line| ==> IsSpace(line[k])) ==> r.None?
  {
    var f := Fields(line);
    if |f| == 3 then Some(FileChange(hash, f[2], Atoi(f[0]), Atoi(f[1]), "M"))
    else if |f| == 2 then Some(FileChange(hash, f[1], 0, 0, f[0]))
    else None
  }

  /** The state of the scan after a line, and what that line inserted. */
  datatype Step = Step(current: Option<Commit>, emitted: seq<Row>)

  /** One iteration of the scanning loop, with `current` the last accepted commit. */
  function StepLine(current: Option<Commit>, line: string, repoId: int, parseDate: string -> Option<Time>): (s: Step)
    ensures |s.emitted| <= 1
    ensures !IsHeader(line) ==> s.current == current
    ensures forall k :: 0 <= k < |s.emitted| ==> (s.emitted[k].CommitRow? <==> IsHeader(line))
    ensures forall k :: 0 <= k < |s.emitted| && s.emitted[k].CommitRow? ==> s.current == Some(s.emitted[k].commit)
    ensures forall k :: 0 <= k < |s.emitted| && s.emitted[k].ChangeRow? ==>
      current.Some? && s.emitted[k].change.commitHash == current.value.hash
  {
    if IsHeader(line) then
      match ParseHeader(line, repoId, parseDate)
      case None => Step(current, [])
      case Some(c) => Step(Some(c), [CommitRow(c)])
    else if current.None? || line == "" then Step(current, [])
    else match ParseChange(current.value.hash, line)
      case None => Step(current, [])
      case Some(fc) => Step(current, [ChangeRow(fc)])
  }

  /** The rows inserted for `lines` when the last accepted commit is `current`. */
  function ParseFrom(current: Option<Commit>, lines: seq<string>, repoId: int, parseDate: string -> Option<Time>): (rows: seq<Row>)
    ensures |rows| <= |lines|
    ensures current.None? && |rows| > 0 ==> rows[0].CommitRow?
    decreases |lines|
  {
    if |lines| == 0 then []
    else
      var s := StepLine(current, lines[0], repoId, parseDate);
      s.emitted + ParseFrom(s.current, lines[1..], repoId, parseDate)
  }

  /** The last accepted commit after `lines`. */
  function CurrentAfter(current: Option<Commit>, lines: seq<string>, repoId: int, parseDate: string -> Option<Time>): Option<Commit>
    decreases |lines|
  {
    if |lines| == 0 then current
    else CurrentAfter(StepLine(current, lines[0], repoId, parseDate).current, lines[1..], repoId, parseDate)
  }

  /** parseGitLog: the rows inserted for the whole output, given as its lines. */
  function ParseLog(lines: seq<string>, repoId: int, parseDate: string -> Option<Time>): (rows: seq<Row>)
    ensures |rows| <= |lines|
    ensures |rows| > 0 ==> rows[0].CommitRow?
  {
    ParseFrom(None, lines, repoId, parseDate)
  }

  // ------------------------------------------------------------ the scanner

  /** A line without its carriage return, as bufio.ScanLines drops it. */
  function DropCR(line: string): (r: string)
    ensures r <= line
  {
    if |line| > 0 && line[|line| - 1] == '\r' then line[..|line| - 1] else line
  }

  /** The lines bufio.Scanner yields: the text between newlines, without a
      trailing carriage return, and no empty token after a final newline. */
  function ScanLines(output: string): (lines: seq<string>)
    ensures forall k :: 0 <= k < |lines| ==> '\n' !in lines[k]
  {
    var parts := Split(output, '\n');
    var pieces := if parts[|parts| - 1] == "" then parts[..|parts| - 1] else parts;
    seq(|pieces|, k requires 0 <= k < |pieces| => DropCR(pieces[k]))
  }

  /** parseGitLog on the whole output text. */
  function ParseGitLog(output: string, repoId: int, parseDate: string -> Option<Time>): (rows: seq<Row>)
    ensures forall k :: 0 <= k < |rows| && rows[k].ChangeRow? ==>
      exists m :: 0 <= m < k && rows[m].CommitRow? && rows[m].commit.hash == rows[k].change.commitHash
  {
    ChangesFollowTheirCommit(ScanLines(output), repoId, parseDate);
    ParseLog(ScanLines(output), repoId, parseDate)
  }

  /** Lines each followed by a newline, as git writes them. */
  function Terminated(lines: seq<string>): string
    decreases |lines|
  {
    if |lines| == 0 then "" else lines[0] + "\n" + Terminated(lines[1..])
  }

  lemma {:induction false} SplitTerminated(lines: seq<string>)
    requires forall k :: 0 <= k < |lines| ==> '\n' !in lines[k]
    ensures Split(Terminated(lines), '\n') == lines + [""]
    decreases |lines|
  {
    if |lines| > 0 {
      SplitTerminated(lines[1..]);
      SplitHead(lines[0], '\n', Terminated(lines[1..]));
      assert [lines[0]] + (lines[1..] + [""]) == lines + [""];
    }
  }

  /** The scanner gives back newline-terminated lines, whether they end with
      a newline or with a carriage return and a newline. */
  lemma ScanTerminated(lines: seq<string>, crlf: bool)
    requires forall k :: 0 <= k < |lines| ==> '\n' !in lines[k] && '\r' !in lines[k]
    ensures var written := if crlf then seq(|lines|, k requires 0 <= k < |lines| => lines[k] + "\r") else lines;
      ScanLines(Terminated(written)) == lines
  {
    var written := if crlf then seq(|lines|, k requires 0 <= k < |lines| => lines[k] + "\r") else lines;
    forall k | 0 <= k < |written|
      ensures '\n' !in written[k]
    {
      if crlf {
        assert forall c :: c in written[k] ==> c in lines[k] || c == '\r';
      }
    }
    SplitTerminated(written);
    var parts := Split(Terminated(written), '\n');
    assert parts[..|parts| - 1] == written;
    forall k | 0 <= k < |lines|
      ensures DropCR(written[k]) == lines[k]
    {
      if crlf {
        assert written[k][..|written[k]| - 1] == lines[k];
      } else if |lines[k]| > 0 {
        assert lines[k][|lines[k]| - 1] in lines[k];
      }
    }
  }

  // ------------------------------------------------------- one line at a time

  /** The header line git writes for a commit with the format above
      (trailing separator included). */
  function FormatHeader(hash: string, author: string, email: string, date: string, subject: string): string {
    Join([hash, author, email, date, subject, ""], [Nul])
  }

  /** A header line reads back as the commit it was written for. */
  lemma HeaderRoundTrip(hash: string, author: string, email: string, date: string, subject: string,
                        repoId: int, parseDate: string -> Option<Time>, when: Time)
    requires Nul !in hash && Nul !in author && Nul !in email && Nul !in date && Nul !in subject
    requires parseDate(date) == Some(when)
    ensures IsHeader(FormatHeader(hash, author, email, date, subject))
    ensures ParseHeader(FormatHeader(hash, author, email, date, subject), repoId, parseDate)
      == Some(Commit(hash, repoId, author, email, when, subject))
  {
    var parts := [hash, author, email, date, subject, ""];
    SplitJoin(parts, Nul);
    var line := FormatHeader(hash, author, email, date, subject);
    assert line == hash + [Nul] + Join(parts[1..], [Nul]);
    assert line[|hash|] == Nul;
  }

  /** A header is skipped, and the last accepted commit kept, when it has
      fewer than five fields or an unparsable date. */
  lemma RejectedHeaderKeepsCommit(current: Option<Commit>, line: string, repoId: int, parseDate: string -> Option<Time>)
    requires IsHeader(line)
    requires |Split(line, Nul)| < 5 || parseDate(Split(line, Nul)[3]).None?
    ensures StepLine(current, line, repoId, parseDate) == Step(current, [])
  {
  }

  /** A header emits a commit exactly when it has five fields and a date that
      parses; the commit then becomes the current one. */
  lemma AcceptedHeader(current: Option<Commit>, line: string, repoId: int, parseDate: string -> Option<Time>)
    requires IsHeader(line)
    ensures var s := StepLine(current, line, repoId, parseDate);
      var parts := Split(line, Nul);
      (|s.emitted| == 1) <==> (|parts| >= 5 && parseDate(parts[3]).Some?)
    ensures var s := StepLine(current, line, repoId, parseDate);
      var parts := Split(line, Nul);
      |s.emitted| == 1 ==>
        && s.emitted[0] == CommitRow(Commit(parts[0], repoId, parts[1], parts[2], parseDate(parts[3]).value, parts[4]))
        && s.current == Some(s.emitted[0].commit)
  {
  }

  /** Without an accepted commit, and on a blank line, nothing but a header
      emits anything. */
  lemma NoCommitNoChange(current: Option<Commit>, line: string, repoId: int, parseDate: string -> Option<Time>)
    requires !IsHeader(line)
    requires current.None? || line == ""
    ensures StepLine(current, line, repoId, parseDate) == Step(current, [])
  {
  }

  /** The numstat line git writes for a text file. */
  function FormatNumstat(additions: nat, deletions: nat, path: string): string {
    Join([Itoa(additions), Itoa(deletions), path], "\t")
  }

  /** A numstat line of a path without white space reads back as a
      modification with its counts. */
  lemma NumstatRoundTrip(hash: string, additions: nat, deletions: nat, path: string)
    requires IsWord(path)
    ensures ParseChange(hash, FormatNumstat(additions, deletions, path))
      == Some(FileChange(hash, path, additions, deletions, "M"))
  {
    IsWordDigits(additions);
    IsWordDigits(deletions);
    FieldsJoin([Itoa(additions), Itoa(deletions), path], '\t');
    ParseItoa(additions);
    ParseItoa(deletions);
  }

  /** The digits of a count are one field. */
  lemma IsWordDigits(n: nat)
    ensures IsWord(Itoa(n))
  {
    var s := Itoa(n);
    forall k | 0 <= k < |s|
      ensures !IsSpace(s[k])
    {
      assert IsDigit(s[k]);
    }
  }

  /** A binary file's numstat line (`-` counts) still emits a row, with
      zero additions and deletions. */
  lemma BinaryCountsBecomeZero(hash: string, path: string)
    requires IsWord(path)
    ensures ParseChange(hash, Join(["-", "-", path], "\t")) == Some(FileChange(hash, path, 0, 0, "M"))
  {
    FieldsJoin(["-", "-", path], '\t');
    DashIsZero();
  }

  /** A name-status line reads back as a zero-count change of that type. */
  lemma NameStatusRoundTrip(hash: string, status: string, path: string)
    requires IsWord(status) && IsWord(path)
    ensures ParseChange(hash, Join([status, path], "\t")) == Some(FileChange(hash, path, 0, 0, status))
  {
    FieldsJoin([status, path], '\t');
  }

  /** A line of one field, or of four or more, emits nothing: a rename
      `a	d	old => new` has five fields and is dropped, and so is a numstat line
      whose path contains white space. */
  lemma OtherFieldCountsDropped(hash: string, line: string)
    requires |Fields(line)| != 2 && |Fields(line)| != 3
    ensures ParseChange(hash, line) == None
  {
  }

  /** The numstat line of a rename has five fields and is dropped. */
  lemma RenameDropped(hash: string, additions: nat, deletions: nat, oldPath: string, newPath: string)
    requires IsWord(oldPath) && IsWord(newPath)
    ensures ParseChange(hash, Join([Itoa(additions), Itoa(deletions), oldPath], "\t") + " => " + newPath) == None
  {
    var a, d := Itoa(additions), Itoa(deletions);
    IsWordDigits(additions);
    IsWordDigits(deletions);
    var t3 := "=>" + " " + newPath;
    var t2 := oldPath + " " + t3;
    var t1 := d + "\t" + t2;
    assert Join([a, d, oldPath], "\t") == a + "\t" + (d + "\t" + oldPath) by {
      assert [a, d, oldPath][1..] == [d, oldPath];
      assert [d, oldPath][1..] == [oldPath];
      assert Join([oldPath], "\t") == oldPath;
      assert Join([d, oldPath], "\t") == d + "\t" + oldPath;
    }
    assert Join([a, d, oldPath], "\t") + " => " + newPath == a + "\t" + t1;
    FieldsWord(newPath, "");
    assert newPath + "" == newPath;
    FieldsAfterWord("=>", ' ', newPath);
    FieldsAfterWord(oldPath, ' ', t3);
    FieldsAfterWord(d, '\t', t2);
    FieldsAfterWord(a, '\t', t1);
  }

  /** A word and one white-space byte split off as one field. */
  lemma FieldsAfterWord(w: string, sp: char, t: string)
    requires IsWord(w) && IsSpace(sp)
    ensures Fields(w + [sp] + t) == [w] + Fields(t)
  {
    assert w + [sp] + t == w + ([sp] + t);
    FieldsWord(w, [sp] + t);
    assert ([sp] + t)[1..] == t;
  }

  // ------------------------------------------------------ the whole output

  /** The rows of a concatenation are the rows of the first part followed by
      those of the second, scanned from where the first left off. */
  lemma {:induction false} ParseAppend(current: Option<Commit>, a: seq<string>, b: seq<string>, repoId: int, parseDate: string -> Option<Time>)
    ensures ParseFrom(current, a + b, repoId, parseDate)
      == ParseFrom(current, a, repoId, parseDate) + ParseFrom(CurrentAfter(current, a, repoId, parseDate), b, repoId, parseDate)
    decreases |a|
  {
    if |a| > 0 {
      var s := StepLine(current, a[0], repoId, parseDate);
      assert (a + b)[0] == a[0];
      assert (a + b)[1..] == a[1..] + b;
      ParseAppend(s.current, a[1..], b, repoId, parseDate);
    } else {
      assert a + b == b;
    }
  }

  /** A header line that the parser accepts. */
  predicate Accepted(line: string, repoId: int, parseDate: string -> Option<Time>) {
    IsHeader(line) && ParseHeader(line, repoId, parseDate).Some?
  }

  /** Lines before the first accepted header emit nothing. */
  lemma {:induction false} NothingBeforeFirstCommit(lines: seq<string>, repoId: int, parseDate: string -> Option<Time>)
    requires forall k :: 0 <= k < |lines| ==> !Accepted(lines[k], repoId, parseDate)
    ensures ParseLog(lines, repoId, parseDate) == []
    ensures CurrentAfter(None, lines, repoId, parseDate) == None
    decreases |lines|
  {
    if |lines| > 0 {
      NothingBeforeFirstCommit(lines[1..], repoId, parseDate);
    }
  }

  /** The number of commit rows. */
  function CommitCount(rows: seq<Row>): nat
    decreases |rows|
  {
    if |rows| == 0 then 0 else (if rows[0].CommitRow? then 1 else 0) + CommitCount(rows[1..])
  }

  /** The number of accepted headers. */
  function AcceptedCount(lines: seq<string>, repoId: int, parseDate: string -> Option<Time>): nat
    decreases |lines|
  {
    if |lines| == 0 then 0
    else (if Accepted(lines[0], repoId, parseDate) then 1 else 0) + AcceptedCount(lines[1..], repoId, parseDate)
  }

  lemma {:induction false} CommitCountAppend(a: seq<Row>, b: seq<Row>)
    ensures CommitCount(a + b) == CommitCount(a) + CommitCount(b)
    decreases |a|
  {
    if |a| > 0 {
      assert (a + b)[1..] == a[1..] + b;
      CommitCountAppend(a[1..], b);
    } else {
      assert a + b == b;
    }
  }

  /** One commit row per accepted header, whatever the commit being scanned. */
  lemma {:induction false} OneCommitPerAcceptedHeader(current: Option<Commit>, lines: seq<string>, repoId: int, parseDate: string -> Option<Time>)
    ensures CommitCount(ParseFrom(current, lines, repoId, parseDate)) == AcceptedCount(lines, repoId, parseDate)
    decreases |lines|
  {
    if |lines| > 0 {
      var s := StepLine(current, lines[0], repoId, parseDate);
      OneCommitPerAcceptedHeader(s.current, lines[1..], repoId, parseDate);
      CommitCountAppend(s.emitted, ParseFrom(s.current, lines[1..], repoId, parseDate));
      assert CommitCount(s.emitted) == if Accepted(lines[0], repoId, parseDate) then 1 else 0 by {
        if |s.emitted| == 1 {
          assert s.emitted[1..] == [];
        }
      }
    }
  }

  /** Every change row belongs to the nearest commit row before it, or to
      `last` when there is none. */
  predicate AttachedTo(rows: seq<Row>, last: Option<string>)
    decreases |rows|
  {
    if |rows| == 0 then true
    else match rows[0]
      case CommitRow(c) => AttachedTo(rows[1..], Some(c.hash))
      case ChangeRow(fc) => last == Some(fc.commitHash) && AttachedTo(rows[1..], last)
  }

  /** The hash of the commit being scanned, if any. */
  function HashOf(current: Option<Commit>): Option<string> {
    match current
    case None => None
    case Some(c) => Some(c.hash)
  }

  /** File changes attach to the last accepted commit: a rejected header in
      between does not detach them. */
  lemma {:induction false} ChangesAttachToLastCommit(current: Option<Commit>, lines: seq<string>, repoId: int, parseDate: string -> Option<Time>)
    ensures AttachedTo(ParseFrom(current, lines, repoId, parseDate), HashOf(current))
    decreases |lines|
  {
    if |lines| > 0 {
      var s := StepLine(current, lines[0], repoId, parseDate);
      var rest := ParseFrom(s.current, lines[1..], repoId, parseDate);
      ChangesAttachToLastCommit(s.current, lines[1..], repoId, parseDate);
      if |s.emitted| == 1 {
        assert (s.emitted + rest)[1..] == rest;
      } else {
        assert s.emitted + rest == rest;
      }
    }
  }

  /** Attached rows starting with no commit: every change row has a commit
      row with its hash somewhere before it. */
  lemma {:induction false} AttachedHasEarlierCommit(rows: seq<Row>, last: Option<string>)
    requires AttachedTo(rows, last)
    ensures forall k :: 0 <= k < |rows| && rows[k].ChangeRow? ==>
      (last == Some(rows[k].change.commitHash) ||
       exists m :: 0 <= m < k && rows[m].CommitRow? && rows[m].commit.hash == rows[k].change.commitHash)
    decreases |rows|
  {
    if |rows| > 0 {
      var next := if rows[0].CommitRow? then Some(rows[0].commit.hash) else last;
      AttachedHasEarlierCommit(rows[1..], next);
      forall k | 0 < k < |rows| && rows[k].ChangeRow?
        ensures last == Some(rows[k].change.commitHash) ||
          exists m :: 0 <= m < k && rows[m].CommitRow? && rows[m].commit.hash == rows[k].change.commitHash
      {
        assert rows[1..][k - 1] == rows[k];
        if next != last {
          if next == Some(rows[k].change.commitHash) {
            assert rows[0].CommitRow? && rows[0].commit.hash == rows[k].change.commitHash;
          }
        }
        if exists m :: 0 <= m < k - 1 && rows[1..][m].CommitRow? && rows[1..][m].commit.hash == rows[k].change.commitHash {
          var m :| 0 <= m < k - 1 && rows[1..][m].CommitRow? && rows[1..][m].commit.hash == rows[k].change.commitHash;
          assert rows[m + 1] == rows[1..][m];
        }
      }
    }
  }

  /** Every file-change row of parseGitLog refers to a commit row emitted
      before it. */
  lemma ChangesFollowTheirCommit(lines: seq<string>, repoId: int, parseDate: string -> Option<Time>)
    ensures var rows := ParseLog(lines, repoId, parseDate);
      forall k :: 0 <= k < |rows| && rows[k].ChangeRow? ==>
        exists m :: 0 <= m < k && rows[m].CommitRow? && rows[m].commit.hash == rows[k].change.commitHash
  {
    ChangesAttachToLastCommit(None, lines, repoId, parseDate);
    AttachedHasEarlierCommit(ParseLog(lines, repoId, parseDate), None);
  }
}
