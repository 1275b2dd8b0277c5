/** Go's `filepath.Match(pattern, name)` with its error discarded, as
    `simpleMatch` calls it. The function is not part of the repository; it is
    modelled here after Go's own algorithm, on bytes. The pattern is cut into
    chunks, each a run of stars followed by star-free text:
      `*`        any run of bytes other than `/`
      `?`        one byte other than `/`
      `[...]`    one byte in (or, with a leading `^`, not in) a set of
                 characters and `lo-hi` ranges; `\` escapes inside it
      `\c`       the byte `c` itself
      other      the byte itself.
    A chunk is matched at the leftmost place its star allows and that choice
    is never revisited, so this is not a backtracking glob. A malformed
    pattern (an unterminated or empty class, a trailing `\`) matches
    nothing, as Go reports ErrBadPattern and the caller drops it. */
module Glob {
  import opened Wrappers

  // ------------------------------------------------------------- classes

  /** A parsed `[...]` class. */
  datatype Class = Class(negated: bool, ranges: seq<(char, char)>)

  /** Go's getEsc: one possibly escaped class character. It is malformed
      when missing, when it is `-` or `]`, or when nothing follows it. */
  function ClassChar(p: string): (r: Option<(char, string)>)
    ensures r.Some? ==> 0 < |r.value.1| < |p|
  {
    if |p| == 0 || p[0] == '-' || p[0] == ']' then None
    else if p[0] == '\\' then
      if |p| < 3 then None else Some((p[1], p[2..]))
    else if |p| < 2 then None
    else Some((p[0], p[1..]))
  }

  /** The ranges of a class up to and including its closing `]`, which only
      closes the class after at least one range; `count` ranges are read. */
  function ClassRanges(p: string, count: nat): (r: Option<(seq<(char, char)>, string)>)
    ensures r.Some? ==> |r.value.1| < |p|
    decreases |p|
  {
    if |p| > 0 && p[0] == ']' && count > 0 then Some(([], p[1..]))
    else match ClassChar(p)
      case None => None
      case Some((lo, rest)) =>
        if rest[0] == '-' then
          match ClassChar(rest[1..])
          case None => None
          case Some((hi, rest2)) =>
            match ClassRanges(rest2, count + 1)
            case None => None
            case Some((more, tail)) => Some(([(lo, hi)] + more, tail))
        else
          match ClassRanges(rest, count + 1)
          case None => None
          case Some((more, tail)) => Some(([(lo, lo)] + more, tail))
  }

  /** The class that follows an opening `[`, and the pattern after it. */
  function ParseClass(p: string): (r: Option<(Class, string)>)
    ensures r.Some? ==> |r.value.1| < |p|
  {
    var negated := |p| > 0 && p[0] == '^';
    var body := if negated then p[1..] else p;
    match ClassRanges(body, 0)
    case None => None
    case Some((ranges, rest)) => Some((Class(negated, ranges), rest))
  }

  /** The byte `c` is accepted by the class. */
  predicate InClass(cls: Class, c: char) {
    (exists k :: 0 <= k < |cls.ranges| && cls.ranges[k].0 <= c <= cls.ranges[k].1) != cls.negated
  }

  /** The pattern syntax above is one of these bytes. */
  predicate IsMeta(c: char) {
    c == '*' || c == '?' || c == '[' || c == '\\'
  }

  // -------------------------------------------------------------- chunks

  /** Go's scanChunk: the leading stars of a pattern, the star-free text
      after them (a `*` inside a class or after `\` does not end it), and
      the rest of the pattern. */
  datatype Chunk = Chunk(star: bool, text: string, rest: string)

  /** The index where the chunk text that starts at 0 ends, scanning from
      `i` with `inClass` telling whether a `[` is still open. */
  function ChunkEnd(p: string, i: nat, inClass: bool): (j: nat)
    requires i <= |p|
    ensures i <= j <= |p|
    ensures j < |p| ==> p[j] == '*'
    decreases |p| - i
  {
    if i == |p| then i
    else if p[i] == '\\' then (if i + 1 < |p| then ChunkEnd(p, i + 2, inClass) else |p|)
    else if p[i] == '[' then ChunkEnd(p, i + 1, true)
    else if p[i] == ']' then ChunkEnd(p, i + 1, false)
    else if p[i] == '*' && !inClass then i
    else ChunkEnd(p, i + 1, inClass)
  }

  /** The number of stars a pattern starts with. */
  function LeadingStars(p: string): (n: nat)
    ensures n <= |p|
    ensures forall k :: 0 <= k < n ==> p[k] == '*'
    ensures n < |p| ==> p[n] != '*'
    decreases |p|
  {
    if |p| > 0 && p[0] == '*' then
      var n := 1 + LeadingStars(p[1..]);
      assert forall k :: 1 <= k < n ==> p[1..][k - 1] == p[k];
      n
    else 0
  }

  /** Go's scanChunk. */
  function ScanChunk(p: string): (c: Chunk)
    ensures c.star <==> |p| > 0 && p[0] == '*'
    ensures (if c.star then 1 else 0) + |c.text| + |c.rest| <= |p|
    ensures |p| > 0 ==> c.star || |c.text| > 0
    ensures |c.text| > 0 ==> c.text[0] != '*'
  {
    var n := LeadingStars(p);
    var body := p[n..];
    var j := ChunkEnd(body, 0, false);
    assert |body| > 0 ==> body[0] != '*';
    Chunk(n > 0, body[..j], body[j..])
  }

  /** What Go's matchChunk returns: the unread rest of the name, a plain
      mismatch, or a malformed chunk. */
  datatype ChunkResult = ChunkRest(rest: string) | ChunkFail | ChunkBad

  /** Go's matchChunk. After a mismatch (`failed`) it stops reading the name
      but keeps reading the chunk, so a malformed chunk is reported either
      way. */
  function MatchChunk(chunk: string, s: string, failed: bool): (r: ChunkResult)
    ensures r.ChunkRest? ==> !failed && |r.rest| <= |s| && s[|s| - |r.rest|..] == r.rest
    decreases |chunk|
  {
    if |chunk| == 0 then (if failed then ChunkFail else ChunkRest(s))
    else
      var failed := failed || |s| == 0;
      if chunk[0] == '[' then
        match ParseClass(chunk[1..])
        case None => ChunkBad
        case Some((cls, rest)) =>
          if failed then MatchChunk(rest, s, true) else MatchChunk(rest, s[1..], !InClass(cls, s[0]))
      else if chunk[0] == '?' then
        if failed then MatchChunk(chunk[1..], s, true) else MatchChunk(chunk[1..], s[1..], s[0] == '/')
      else if chunk[0] == '\\' && |chunk| == 1 then ChunkBad
      else
        var lit := if chunk[0] == '\\' then chunk[1] else chunk[0];
        var after := if chunk[0] == '\\' then chunk[2..] else chunk[1..];
        if failed then MatchChunk(after, s, true) else MatchChunk(after, s[1..], s[0] != lit)
  }

  // ------------------------------------------------------------- matching

  /** filepath.Match(pattern, name), the error read as no match. */
  function Matches(pattern: string, name: string): (r: bool)
    ensures r && |pattern| > 0 && pattern[0] != '*' ==> MatchChunk(ScanChunk(pattern).text, name, false).ChunkRest?
    decreases |pattern|, |name| + 1
  {
    if |pattern| == 0 then |name| == 0
    else
      var c := ScanChunk(pattern);
      if c.star && |c.text| == 0 then '/' !in name
      else
        var r := MatchChunk(c.text, name, false);
        if r.ChunkRest? && (|r.rest| == 0 || |c.rest| > 0) then Matches(c.rest, r.rest)
        else if r.ChunkBad? then false
        else c.star && SkipScan(pattern, name, 0)
  }

  /** The star of the first chunk takes the bytes `i..m` of the name, none of
      them a `/`, and the chunk then matches right after them. */
  ghost predicate StarTakes(pattern: string, name: string, i: nat, m: nat) {
    && i <= m < |name|
    && (forall k :: i <= k <= m ==> name[k] != '/')
    && MatchChunk(ScanChunk(pattern).text, name[m + 1..], false).ChunkRest?
  }

  lemma StarTakesExtend(pattern: string, name: string, i: nat, m: nat)
    requires i < |name| && name[i] != '/'
    requires StarTakes(pattern, name, i + 1, m)
    ensures StarTakes(pattern, name, i, m)
  {
    forall k | i <= k <= m
      ensures name[k] != '/'
    {
      if k > i {
        assert i + 1 <= k <= m;
      }
    }
  }

  /** The star loop of filepath.Match: the chunk is tried after skipping
      `i + 1` bytes, never skipping a `/`; the first place where it matches
      is kept (for the last chunk, the first that uses up the name). */
  function SkipScan(pattern: string, name: string, i: nat): (r: bool)
    requires |pattern| > 0
    ensures r ==> exists m :: StarTakes(pattern, name, i, m)
    decreases |pattern|, |name| - i
  {
    if i >= |name| || name[i] == '/' then false
    else
      var c := ScanChunk(pattern);
      var later := SkipScan(pattern, name, i + 1);
      assert later ==> exists m :: StarTakes(pattern, name, i, m) by {
        if later {
          var m :| StarTakes(pattern, name, i + 1, m);
          StarTakesExtend(pattern, name, i, m);
        }
      }
      match MatchChunk(c.text, name[i + 1..], false)
      case ChunkRest(t) =>
        if |c.rest| == 0 && |t| > 0 then later
        else
          assert StarTakes(pattern, name, i, i);
          Matches(c.rest, t)
      case ChunkFail => later
      case ChunkBad => false
  }

  // ---------------------------------------------------------------- lemmas

  /** A pattern that starts with an ordinary byte only matches names that
      start with that same byte. */
  lemma LeadingLiteral(pattern: string, name: string)
    requires |pattern| > 0 && !IsMeta(pattern[0])
    requires Matches(pattern, name)
    ensures |name| > 0 && name[0] == pattern[0]
  {
    var n := LeadingStars(pattern);
    assert n == 0;
    var c := ScanChunk(pattern);
    assert c.text[0] == pattern[0];
  }

  /** A chunk without special bytes reads exactly itself off the front of
      the name. */
  lemma {:induction false} LiteralChunk(chunk: string, s: string)
    requires forall k :: 0 <= k < |chunk| ==> !IsMeta(chunk[k])
    ensures MatchChunk(chunk, s, false) == if |chunk| <= |s| && s[..|chunk|] == chunk then ChunkRest(s[|chunk|..]) else ChunkFail
    decreases |chunk|
  {
    if |chunk| > 0 {
      var tail := chunk[1..];
      assert forall k :: 0 <= k < |tail| ==> !IsMeta(tail[k]) by {
        assert forall k :: 0 <= k < |tail| ==> tail[k] == chunk[k + 1];
      }
      LiteralStep(chunk, s);
      if |s| > 0 && s[0] == chunk[0] {
        LiteralChunk(tail, s[1..]);
        PrefixStep(chunk, s);
      } else {
        LiteralFailed(tail, if |s| == 0 then s else s[1..]);
      }
    }
  }

  /** One literal byte of a chunk: compare it, then go on with the rest. */
  lemma LiteralStep(chunk: string, s: string)
    requires |chunk| > 0 && !IsMeta(chunk[0])
    ensures MatchChunk(chunk, s, false)
         == if |s| > 0 && s[0] == chunk[0] then MatchChunk(chunk[1..], s[1..], false)
            else MatchChunk(chunk[1..], if |s| == 0 then s else s[1..], true)
  {
  }

  /** A prefix test, one byte at a time. */
  lemma PrefixStep(chunk: string, s: string)
    requires |chunk| > 0 && |s| > 0 && s[0] == chunk[0]
    ensures (|chunk| <= |s| && s[..|chunk|] == chunk) <==> (|chunk| - 1 <= |s| - 1 && s[1..][..|chunk| - 1] == chunk[1..])
    ensures |chunk| <= |s| ==> s[1..][|chunk| - 1..] == s[|chunk|..]
  {
    if |chunk| <= |s| {
      assert s[..|chunk|] == [s[0]] + s[1..][..|chunk| - 1];
      assert chunk == [chunk[0]] + chunk[1..];
    }
  }

  /** A failed chunk without special bytes is a plain mismatch. */
  lemma {:induction false} LiteralFailed(chunk: string, s: string)
    requires forall k :: 0 <= k < |chunk| ==> !IsMeta(chunk[k])
    ensures MatchChunk(chunk, s, true) == ChunkFail
    decreases |chunk|
  {
    if |chunk| > 0 {
      LiteralFailed(chunk[1..], s);
    }
  }

  /** A pattern without special bytes matches exactly itself. */
  lemma LiteralMatchesItself(pattern: string, name: string)
    requires forall k :: 0 <= k < |pattern| ==> !IsMeta(pattern[k])
    ensures Matches(pattern, name) <==> name == pattern
  {
    if |pattern| > 0 {
      var c := ScanChunk(pattern);
      assert LeadingStars(pattern) == 0;
      assert ChunkEnd(pattern, 0, false) == |pattern|;
      assert c.text == pattern && c.rest == [];
      LiteralChunk(pattern, name);
      if |pattern| <= |name| && name[..|pattern|] == pattern && name[|pattern|..] == [] {
        assert name == name[..|pattern|] + name[|pattern|..];
      }
    }
  }

  /** A lone `*` matches exactly the names without a `/`. */
  lemma StarStaysInSegment(name: string)
    ensures Matches("*", name) <==> '/' !in name
  {
    assert "*"[1..] == "";
    assert LeadingStars("*") == 1;
  }

  /** A class of one ordinary character is that character alone. */
  lemma OneCharClass(c: char, t: string)
    requires c != '-' && c != ']' && c != '\\' && c != '^' && |t| > 0
    ensures ParseClass([c, ']'] + t) == Some((Class(false, [(c, c)]), t))
    ensures ParseClass(['^', c, ']'] + t) == Some((Class(true, [(c, c)]), t))
  {
    var p := [c, ']'] + t;
    assert p[1..] == [']'] + t && ([']'] + t)[1..] == t;
    assert ClassRanges([']'] + t, 1) == Some(([], t));
    assert ClassChar(p) == Some((c, [']'] + t));
    assert [(c, c)] + [] == [(c, c)];
    assert ClassRanges(p, 0) == Some(([(c, c)], t));
    assert (['^'] + p)[1..] == p;
    assert ['^', c, ']'] + t == ['^'] + p;
  }

  /** `*c` does not match a name that starts with `/`. */
  lemma StarThenLiteralStopsAtSlash(c: char, t: string)
    requires !IsMeta(c) && c != '/'
    ensures !Matches(['*', c], ['/'] + t)
  {
    var q := ['*', c];
    assert LeadingStars(q[1..]) == 0;
    assert LeadingStars(q) == 1;
    assert q[1..] == [c];
    assert ChunkEnd([c], 0, false) == 1;
    assert ScanChunk(q) == Chunk(true, [c], []);
    assert MatchChunk([c], ['/'] + t, false) == ChunkFail by {
      LiteralFailed([], t);
    }
  }

  /** An ordinary byte: not special to filepath.Match, nor to a class. */
  predicate Ordinary(c: char) {
    !IsMeta(c) && c != ']' && c != '-' && c != '^' && c != '/'
  }

  /** The pattern of the example below: a star, the class of all bytes but
      `x`, a slash, a star and `c`. */
  function CommitPattern(x: char, c: char): string {
    ['*', '[', '^', x, ']', '/', '*', c]
  }

  /** The first chunk of that pattern takes `a/` of `a//t` on its first try,
      leaving the chunk `c` after a star. */
  lemma FirstChunkTakesPrefix(x: char, c: char, a: char, t: string)
    requires Ordinary(x) && a != x
    ensures ScanChunk(CommitPattern(x, c)) == Chunk(true, ['[', '^', x, ']', '/'], ['*', c])
    ensures MatchChunk(['[', '^', x, ']', '/'], [a, '/', '/'] + t, false) == ChunkRest(['/'] + t)
  {
    var p := CommitPattern(x, c);
    var body := p[1..];
    assert body == ['[', '^', x, ']', '/', '*', c];
    assert LeadingStars(body) == 0;
    assert LeadingStars(p) == 1;
    assert ChunkEnd(body, 5, false) == 5;
    assert ChunkEnd(body, 4, false) == 5;
    assert ChunkEnd(body, 3, true) == 5;
    assert ChunkEnd(body, 2, true) == 5;
    assert ChunkEnd(body, 1, true) == 5;
    assert ChunkEnd(body, 0, false) == 5;
    assert body[..5] == ['[', '^', x, ']', '/'] && body[5..] == ['*', c];
    var chunk := ['[', '^', x, ']', '/'];
    var name := [a, '/', '/'] + t;
    OneCharClass(x, "/");
    assert chunk[1..] == ['^', x, ']'] + "/";
    assert InClass(Class(true, [(x, x)]), a);
    assert name[1..] == ['/', '/'] + t;
    assert MatchChunk("/", ['/', '/'] + t, false) == ChunkRest(['/'] + t) by {
      assert (['/', '/'] + t)[1..] == ['/'] + t;
      assert "/"[1..] == [];
    }
  }

  /** A chunk is committed at its leftmost match. The first chunk of
      CommitPattern takes `a/` of `a//t`, and the last star may not skip the
      second `/`. A backtracking glob would let the class take the first `/`
      instead, and would accept `a//bc` with `x` and `c` as themselves. */
  lemma ChunkIsCommitted(x: char, c: char, a: char, t: string)
    requires Ordinary(x) && Ordinary(c) && a != x
    ensures !Matches(CommitPattern(x, c), [a, '/', '/'] + t)
  {
    FirstChunkTakesPrefix(x, c, a, t);
    CommitToFirstChunk(CommitPattern(x, c), [a, '/', '/'] + t);
    StarThenLiteralStopsAtSlash(c, t);
  }

  /** When a chunk that is not the last matches where it stands, the rest
      of the pattern must match the rest of the name: the star loop is not
      tried. */
  lemma CommitToFirstChunk(pattern: string, name: string)
    requires |pattern| > 0
    requires var c := ScanChunk(pattern);
      |c.text| > 0 && |c.rest| > 0 && MatchChunk(c.text, name, false).ChunkRest?
    ensures var c := ScanChunk(pattern);
      Matches(pattern, name) == Matches(c.rest, MatchChunk(c.text, name, false).rest)
  {
  }
}
