/** The component path matcher: `matchPath`, `simpleMatch` and `min`.

    matchPath rewrites the glob into something regex-like (`**` to `.*`, a
    lone `*` to `[^/]*`, then `^…$` around it) and walks the result with a
    hand-written byte loop that recurses on the rest of the path at `.*` and
    `[^/]*`; if that fails it asks simpleMatch, which hands the same
    rewritten text to filepath.Match and, for text containing `**`, tries a
    segment-wise split. Both see a pattern whose first byte is a literal `^`,
    so neither accepts a path that does not itself start with `^`. */
module PathMatch {
  import opened GoStrings
  import Glob

  /** The UTF-8 bytes of "§§", the placeholder the rewrite uses for `**`. */
  const Placeholder: string := "\U{C2}\U{A7}\U{C2}\U{A7}"
  /** What a lone `*` is rewritten to. */
  const SegmentStar: string := "[^/]*"
  /** What `**` is rewritten to. */
  const AnyRun: string := ".*"

  /** The three ReplaceAll calls of matchPath, before the anchors are added.
      Every `*` of the result is preceded by a `]` (of a `[^/]*`) or a `.`
      (of a `.*`). */
  function RewriteBody(pattern: string): (r: string)
    ensures forall k :: 0 <= k < |r| && r[k] == '*' ==> k >= 1 && (r[k - 1] == ']' || r[k - 1] == '.')
  {
    var s1 := ReplaceAll(pattern, "**", Placeholder);
    var s2 := ReplaceAll(s1, "*", SegmentStar);
    SegmentStarsGuarded(s1);
    AnyRunStarsGuarded(s2);
    ReplaceAll(s2, Placeholder, AnyRun)
  }

  /** The pattern matchPath actually walks: anchored at both ends. */
  function Rewrite(pattern: string): (p: string)
    ensures |p| >= 2 && p[0] == '^' && p[|p| - 1] == '$'
  {
    "^" + RewriteBody(pattern) + "$"
  }

  /** Go's `min` helper. */
  function Min(a: int, b: int): (r: int)
    ensures r <= a && r <= b
    ensures r == a || r == b
  {
    if a < b then a else b
  }

  /** The index of the first `/` at or after `i`, or the end of the path: where
      the `[^/]*` branch resumes. */
  function SegmentEnd(path: string, i: nat): (j: nat)
    requires i <= |path|
    ensures i <= j <= |path|
    ensures j == |path| || path[j] == '/'
    ensures forall k :: i <= k < j ==> path[k] != '/'
    decreases |path| - i
  {
    if i == |path| || path[i] == '/' then i else SegmentEnd(path, i + 1)
  }

  /** matchPath(path, pattern). Every recursive call is on a strictly shorter
      suffix of the path, which is what the first component of each
      `decreases` clause below records. */
  function MatchPath(path: string, pattern: string): (r: bool)
    ensures r <==> Walk(path, Rewrite(pattern), 0) || Glob.Matches(Rewrite(pattern), path)
    decreases |path|, 2
  {
    var p := Rewrite(pattern);
    SimpleMatchIsGlob(path, pattern);
    Walk(path, p, 0) || (|path| == 0 && |p| == 0) || SimpleMatch(path, p)
  }

  /** The byte loop of matchPath from index `i` with `matched` still false:
      the value `matched` has when the loop is left. */
  function Walk(path: string, p: string, i: nat): (r: bool)
    requires i <= |path| && |p| > 0 && p[0] == '^'
    ensures r && i == 0 ==> |path| > 0 && path[0] == '^'
    decreases |path|, 1, |path| - i
  {
    if !(i < |path| && i < |p|) then false
    else if i < |p| - 1 && p[i] == '.' && p[i + 1] == '*' then
      if i == |p| - 2 then true else StarScan(path, p[i + 2..], i)
    else if i < |p| - 6 && p[i..i + 5] == SegmentStar then
      assert p[i] == p[i..i + 5][0];
      MatchPath(path[SegmentEnd(path, i)..], p[i + 5..])
    else if path[i] == p[i] then
      (i + 1 == |path| && i + 1 == |p|) || Walk(path, p, i + 1)
    else false
  }

  /** The inner `for j := i; j <= len(path); j++` loop of the `.*` branch. */
  function StarScan(path: string, rest: string, j: nat): (r: bool)
    requires 1 <= j
    ensures r <==> exists m :: j <= m <= |path| && MatchPath(path[m..], rest)
    decreases |path|, 0, |path| + 1 - j
  {
    if j > |path| then false
    else MatchPath(path[j..], rest) || StarScan(path, rest, j + 1)
  }

  /** simpleMatch(path, pattern). */
  function SimpleMatch(path: string, pattern: string): (r: bool)
    ensures !Contains(pattern, "**") ==> (r <==> Glob.Matches(pattern, path))
  {
    Glob.Matches(pattern, path)
    || (Contains(pattern, "**") && DoubleStarParts(Split(pattern, '/'), Split(path, '/'), 0))
  }

  /** The loop of simpleMatch over the `/`-separated parts of the pattern,
      from part `i` on, looking for a part that is exactly `**`. */
  function DoubleStarParts(parts: seq<string>, pathParts: seq<string>, i: nat): (r: bool)
    ensures r ==> exists k :: i <= k < |parts| && parts[k] == "**"
    decreases |parts| - i
  {
    if i >= |parts| then false
    else if parts[i] != "**" then DoubleStarParts(parts, pathParts, i + 1)
    else
      var before := Join(parts[..i], "/");
      var after := Join(parts[i + 1..], "/");
      if before != "" && !Glob.Matches(before, Join(pathParts[..Min(i, |pathParts|)], "/")) then false
      else if after == "" then true
      else TailScan(after, pathParts, i) || DoubleStarParts(parts, pathParts, i + 1)
  }

  /** The inner loop trying `after` against every tail of the path's parts. */
  function TailScan(after: string, pathParts: seq<string>, j: nat): (r: bool)
    ensures r <==> exists m :: j <= m <= |pathParts| && Glob.Matches(after, Join(pathParts[m..], "/"))
    decreases |pathParts| + 1 - j
  {
    if j > |pathParts| then false
    else Glob.Matches(after, Join(pathParts[j..], "/")) || TailScan(after, pathParts, j + 1)
  }

  // --------------------------------------------------- the rewritten pattern

  /** Every `*` after the first byte follows a `]` or a `.`. */
  ghost predicate StarsAfterBracketOrDot(s: string) {
    forall k :: 1 <= k < |s| && s[k] == '*' ==> s[k - 1] == ']' || s[k - 1] == '.'
  }

  /** Every `*` follows a `]`. */
  ghost predicate StarsAfterBracket(s: string) {
    forall k :: 0 <= k < |s| && s[k] == '*' ==> k >= 1 && s[k - 1] == ']'
  }

  /** After the `*` rewrite every `*` closes a `[^/]*`. */
  lemma {:induction false} SegmentStarsGuarded(s: string)
    ensures StarsAfterBracket(ReplaceAll(s, "*", SegmentStar))
    decreases |s|
  {
    if |s| >= 1 {
      SegmentStarsGuarded(s[1..]);
      var rest := ReplaceAll(s[1..], "*", SegmentStar);
      var r := ReplaceAll(s, "*", SegmentStar);
      var n := if s[..1] == "*" then 5 else 1;
      assert r == r[..n] + rest;
      assert n == 5 ==> r[..n] == SegmentStar;
      assert n == 1 ==> r[..n] == [s[0]] && s[0] != '*';
      forall k | 0 <= k < |r| && r[k] == '*'
        ensures k >= 1 && r[k - 1] == ']'
      {
        if k >= n {
          assert r[k] == rest[k - n];
          if k - n >= 1 {
            assert r[k - 1] == rest[k - n - 1];
          }
        } else {
          assert r[k] == r[..n][k];
          assert r[3] == r[..n][3];
        }
      }
    }
  }

  /** Replacing the placeholder by `.*` keeps every inner `*` behind a `]`
      or a `.`, and puts no `*` first unless one was first already. */
  lemma {:induction false} AnyRunStarsGuarded(s: string)
    requires StarsAfterBracketOrDot(s)
    ensures StarsAfterBracketOrDot(ReplaceAll(s, Placeholder, AnyRun))
    ensures var r := ReplaceAll(s, Placeholder, AnyRun);
      |r| > 0 && r[0] == '*' ==> |s| > 0 && s[0] == '*'
    decreases |s|
  {
    if |s| >= |Placeholder| {
      if s[..|Placeholder|] == Placeholder {
        var t := s[|Placeholder|..];
        assert StarsAfterBracketOrDot(t) by {
          forall k | 1 <= k < |t| && t[k] == '*'
            ensures t[k - 1] == ']' || t[k - 1] == '.'
          {
            assert s[k + 4] == t[k];
          }
        }
        AnyRunStarsGuarded(t);
        var rt := ReplaceAll(t, Placeholder, AnyRun);
        var r := ReplaceAll(s, Placeholder, AnyRun);
        assert r == AnyRun + rt;
        assert s[3] == s[..|Placeholder|][3] == '\U{A7}';
        forall k | 1 <= k < |r| && r[k] == '*'
          ensures r[k - 1] == ']' || r[k - 1] == '.'
        {
          if k >= 2 {
            assert r[k] == rt[k - 2];
            if k > 2 {
              assert r[k - 1] == rt[k - 3];
            }
          }
        }
      } else {
        var t := s[1..];
        assert StarsAfterBracketOrDot(t) by {
          forall k | 1 <= k < |t| && t[k] == '*'
            ensures t[k - 1] == ']' || t[k - 1] == '.'
          {
            assert s[k + 1] == t[k];
          }
        }
        AnyRunStarsGuarded(t);
      }
    }
  }

  /** No two adjacent `*` bytes. */
  ghost predicate NoDoubleStar(s: string) {
    forall k :: 0 <= k < |s| - 1 ==> !(s[k] == '*' && s[k + 1] == '*')
  }

  /** The rewritten pattern never contains `**`: the rewrite turns every `*`
      into part of `[^/]*` or `.*`, and neither can be followed by a `*`. */
  lemma RewriteHasNoDoubleStar(pattern: string)
    ensures !Contains(Rewrite(pattern), "**")
  {
    var s1 := ReplaceAll(pattern, "**", Placeholder);
    var s2 := ReplaceAll(s1, "*", SegmentStar);
    var s3 := ReplaceAll(s2, Placeholder, AnyRun);
    SegmentStarsGuarded(s1);
    assert StarsAfterBracketOrDot(s2) by {
      assert StarsAfterBracket(s2);
    }
    AnyRunStarsGuarded(s2);
    var p := Rewrite(pattern);
    assert p == "^" + s3 + "$";
    assert NoDoubleStar(p) by {
      forall k | 0 <= k < |p| - 1 && p[k + 1] == '*'
        ensures p[k] != '*'
      {
        assert p[k + 1] == s3[k];
      }
    }
    forall k: nat
      ensures !OccursAt(p, "**", k)
    {
      if k + 2 <= |p| {
        assert p[k..k + 2][0] == p[k] && p[k..k + 2][1] == p[k + 1];
      }
    }
    ContainsOccurs(p, "**");
  }

  /** A string none of whose bytes is `*` or the first byte of the placeholder. */
  ghost predicate Plain(s: string) {
    forall k :: 0 <= k < |s| ==> s[k] != '*' && s[k] != Placeholder[0]
  }

  /** A byte that `s` does not hold cannot start an occurrence in `s`. */
  lemma NotContainsMissing(s: string, sub: string)
    requires |sub| > 0
    requires forall k :: 0 <= k < |s| ==> s[k] != sub[0]
    ensures !Contains(s, sub)
  {
    forall k: nat
      ensures !OccursAt(s, sub, k)
    {
      if k + |sub| <= |s| {
        assert s[k..k + |sub|][0] == s[k];
      }
    }
    ContainsOccurs(s, sub);
  }

  /** A single `*` between plain text is rewritten to `[^/]*` and nothing
      else changes: the `**` and placeholder passes leave such a pattern alone. */
  lemma RewriteOneStar(a: string, b: string)
    requires Plain(a) && Plain(b)
    ensures Rewrite(a + "*" + b) == "^" + a + SegmentStar + b + "$"
  {
    var pattern := a + "*" + b;
    OneStarNoDoubleStar(a, b);
    ReplaceAllAbsent(pattern, "**", Placeholder);
    OneStarRewritten(a, b);
    OneStarNoPlaceholder(a, b);
    ReplaceAllAbsent(a + SegmentStar + b, Placeholder, AnyRun);
  }

  /** One `*` between plain text is never part of a `**`. */
  lemma OneStarNoDoubleStar(a: string, b: string)
    requires Plain(a) && Plain(b)
    ensures !Contains(a + "*" + b, "**")
  {
    var pattern := a + "*" + b;
    forall k: nat
      ensures !OccursAt(pattern, "**", k)
    {
      if k + 2 <= |pattern| {
        assert pattern[k..k + 2][0] == pattern[k] && pattern[k..k + 2][1] == pattern[k + 1];
        assert pattern[k] == '*' ==> k == |a|;
        assert pattern[k + 1] == '*' ==> k + 1 == |a|;
      }
    }
    ContainsOccurs(pattern, "**");
  }

  /** The `*` pass turns exactly that star into `[^/]*`. */
  lemma OneStarRewritten(a: string, b: string)
    requires Plain(a) && Plain(b)
    ensures ReplaceAll(a + "*" + b, "*", SegmentStar) == a + SegmentStar + b
  {
    NotContainsMissing(a, "*");
    assert a + "*"[..0] == a;
    ReplaceAllFirst(a, "*", b, SegmentStar);
    NotContainsMissing(b, "*");
    ReplaceAllAbsent(b, "*", SegmentStar);
  }

  /** The result holds no placeholder, so the last pass changes nothing. */
  lemma OneStarNoPlaceholder(a: string, b: string)
    requires Plain(a) && Plain(b)
    ensures !Contains(a + SegmentStar + b, Placeholder)
  {
    var s2 := a + SegmentStar + b;
    forall k | 0 <= k < |s2|
      ensures s2[k] != Placeholder[0]
    {
      if k < |a| {
        assert s2[k] == a[k];
      } else if k >= |a| + 5 {
        assert s2[k] == b[k - |a| - 5];
      } else {
        assert s2[k] == SegmentStar[k - |a|];
      }
    }
    NotContainsMissing(s2, Placeholder);
  }

  /** On a rewritten pattern simpleMatch is just filepath.Match: its `**`
      branch is unreachable from matchPath. */
  lemma SimpleMatchIsGlob(path: string, pattern: string)
    ensures SimpleMatch(path, Rewrite(pattern)) == Glob.Matches(Rewrite(pattern), path)
  {
    RewriteHasNoDoubleStar(pattern);
  }

  // ------------------------------------------------------------ properties

  /** matchPath accepts no path whose first byte is not `^`: the byte loop
      compares the leading `^` of the rewritten pattern literally, and so
      does filepath.Match. */
  lemma MatchPathNeedsCaret(path: string, pattern: string)
    requires MatchPath(path, pattern)
    ensures |path| > 0 && path[0] == '^'
  {
    var p := Rewrite(pattern);
    if !Walk(path, p, 0) {
      SimpleMatchIsGlob(path, pattern);
      Glob.LeadingLiteral(p, path);
    }
  }

  /** In particular a path is not matched by itself unless it starts with `^`. */
  lemma ExactPathRejected(path: string)
    requires |path| == 0 || path[0] != '^'
    ensures !MatchPath(path, path)
  {
    if MatchPath(path, path) {
      MatchPathNeedsCaret(path, path);
    }
  }

  /** A pattern with no `*`, no other glob byte and no placeholder bytes. */
  ghost predicate IsLiteral(pattern: string) {
    && (forall k :: 0 <= k < |pattern| ==> !Glob.IsMeta(pattern[k]))
    && !Contains(pattern, Placeholder)
  }

  /** A star-free pattern is walked byte by byte: the loop succeeds exactly
      when the rest of the path equals the rest of the pattern. */
  lemma {:induction false} WalkLiteral(path: string, p: string, i: nat)
    requires i <= |path| && |p| > 0 && p[0] == '^'
    requires forall k :: 0 <= k < |p| ==> p[k] != '*'
    ensures Walk(path, p, i) <==> i < |path| && |path| == |p| && path[i..] == p[i..]
    decreases |path| - i
  {
    if i < |path| && i < |p| {
      assert Walk(path, p, i) == (path[i] == p[i] && ((i + 1 == |path| && i + 1 == |p|) || Walk(path, p, i + 1))) by {
        if i < |p| - 6 {
          assert p[i..i + 5][4] == p[i + 4];
        }
      }
      if i + 1 < |path| {
        WalkLiteral(path, p, i + 1);
      }
      SuffixStep(path, p, i);
    }
  }

  /** Two suffixes from `i` are equal exactly when their first bytes and the
      suffixes after them are. */
  lemma SuffixStep(path: string, p: string, i: nat)
    requires i < |path| && i < |p|
    ensures (|path| == |p| && path[i..] == p[i..]) <==> (path[i] == p[i] && |path| == |p| && path[i + 1..] == p[i + 1..])
  {
    assert path[i..] == [path[i]] + path[i + 1..];
    assert p[i..] == [p[i]] + p[i + 1..];
  }

  /** For a literal pattern matchPath holds of exactly one path: the pattern
      itself wrapped in `^` and `$`. */
  lemma LiteralPatternMatch(path: string, pattern: string)
    requires IsLiteral(pattern)
    ensures MatchPath(path, pattern) <==> path == "^" + pattern + "$"
  {
    assert !Contains(pattern, "**") by {
      forall k: nat
        ensures !OccursAt(pattern, "**", k)
      {
        if k + 2 <= |pattern| {
          assert pattern[k..k + 2][0] == pattern[k];
        }
      }
      ContainsOccurs(pattern, "**");
    }
    assert !Contains(pattern, "*") by {
      forall k: nat
        ensures !OccursAt(pattern, "*", k)
      {
        if k + 1 <= |pattern| {
          assert pattern[k..k + 1][0] == pattern[k];
        }
      }
      ContainsOccurs(pattern, "*");
    }
    ReplaceAllAbsent(pattern, "**", Placeholder);
    ReplaceAllAbsent(pattern, "*", SegmentStar);
    ReplaceAllAbsent(pattern, Placeholder, AnyRun);
    var p := Rewrite(pattern);
    assert p == "^" + pattern + "$";
    assert forall k :: 0 <= k < |p| ==> !Glob.IsMeta(p[k]) by {
      forall k | 0 <= k < |p|
        ensures !Glob.IsMeta(p[k])
      {
        if 0 < k < |p| - 1 {
          assert p[k] == pattern[k - 1];
        }
      }
    }
    WalkLiteral(path, p, 0);
    Glob.LiteralMatchesItself(p, path);
    SimpleMatchIsGlob(path, pattern);
  }

  // --------------------------------------------- the matcher as intended

  /** The glob semantics the component configuration describes: `**` matches
      any run of bytes, `/` included; `*` a run of bytes without `/`; every
      other byte itself. Unlike matchPath, nothing is anchored with a literal
      `^`, so a path is compared as written. */
  function IntendedMatch(path: string, pattern: string): bool
    decreases |pattern|, |path|
  {
    if |pattern| == 0 then |path| == 0
    else if |pattern| >= 2 && pattern[0] == '*' && pattern[1] == '*' then
      IntendedMatch(path, pattern[2..]) || (|path| > 0 && IntendedMatch(path[1..], pattern))
    else if pattern[0] == '*' then
      IntendedMatch(path, pattern[1..]) || (|path| > 0 && path[0] != '/' && IntendedMatch(path[1..], pattern))
    else
      |path| > 0 && path[0] == pattern[0] && IntendedMatch(path[1..], pattern[1..])
  }

  /** `**` matches every path. */
  lemma {:induction false} DoubleStarMatchesAll(path: string)
    ensures IntendedMatch(path, "**")
    decreases |path|
  {
    assert "**"[2..] == "";
    if |path| > 0 {
      DoubleStarMatchesAll(path[1..]);
    }
  }

  /** A lone `*` matches exactly the paths without a `/`. */
  lemma {:induction false} IntendedStarStaysInSegment(path: string)
    ensures IntendedMatch(path, "*") <==> '/' !in path
    decreases |path|
  {
    assert "*"[1..] == "";
    if |path| > 0 {
      IntendedStarStaysInSegment(path[1..]);
      assert path == [path[0]] + path[1..];
    }
  }

  /** Every path is matched by itself, the case matchPath gets wrong. */
  lemma {:induction false} IntendedReflexive(path: string)
    ensures IntendedMatch(path, path)
    decreases |path|
  {
    if |path| >= 2 && path[0] == '*' && path[1] == '*' {
      IntendedReflexive(path[2..]);
      assert path[1..][1..] == path[2..];
      assert IntendedMatch(path[1..][1..], path[2..]);
      assert IntendedMatch(path[1..][1..], path);
      assert IntendedMatch(path[1..], path);
    } else if |path| > 0 && path[0] == '*' {
      IntendedReflexive(path[1..]);
      assert IntendedMatch(path[1..], path);
    } else if |path| > 0 {
      IntendedReflexive(path[1..]);
    }
  }

  /** A star-free prefix followed by `**` matches exactly the paths that
      start with that prefix: everything below a directory, and nothing in a
      sibling whose name merely extends it. */
  lemma {:induction false} IntendedDirectory(dir: string, path: string)
    requires '*' !in dir
    ensures IntendedMatch(path, dir + "**") <==> HasPrefix(path, dir)
    decreases |dir|
  {
    if |dir| == 0 {
      assert dir + "**" == "**";
      DoubleStarMatchesAll(path);
    } else {
      assert (dir + "**")[0] == dir[0];
      assert (dir + "**")[1..] == dir[1..] + "**";
      if |path| > 0 {
        IntendedDirectory(dir[1..], path[1..]);
        if |dir| <= |path| {
          assert path[..|dir|] == [path[0]] + path[1..][..|dir| - 1];
          assert dir == [dir[0]] + dir[1..];
        }
      }
    }
  }

  /** The same configuration line as written and as intended: the directory
      pattern "src" + "/" + "**" does not match `src/a.go` under matchPath, and
      does under the correction. */
  lemma DirectoryPatternAsWritten()
    ensures !MatchPath("src/a.go", "src/**")
    ensures IntendedMatch("src/a.go", "src/**")
  {
    if MatchPath("src/a.go", "src/**") {
      MatchPathNeedsCaret("src/a.go", "src/**");
    }
    IntendedDirectory("src/", "src/a.go");
    assert "src/a.go"[..4] == "src/";
    assert "src/" + "**" == "src/**";
  }
}
