/** computeComponentContributions: for every component, group its
    `repo:pattern` entries by repository, scan the repository's
    commit/file-change rows, and tally the rows whose path matches one of the
    group's patterns under (component id, repository id, author e-mail).

    The matcher is a parameter, so nothing here depends on how paths are
    matched. The `SELECT id FROM components` lookup is the map
    `componentIds`, the join query is `rowsOf`, and the final inserts are the
    returned map. */
module Contributions {
  import opened Wrappers
  import opened GoStrings
  import PathMatch

  /** One row of the commits/file_changes join for a repository. */
  datatype JoinRow = JoinRow(hash: string, author: string, email: string, additions: int, deletions: int, filepath: string)

  /** A configured component: its name and its `repo:pattern` entries. */
  datatype Component = Component(name: string, paths: seq<string>)

  /** The aggregation key. */
  datatype Key = Key(componentId: int, repoId: int, email: string)

  /** The running totals of one key; `commits` is bumped once per matched row. */
  datatype Tally = Tally(author: string, commits: int, additions: int, deletions: int)

  type Tallies = map<Key, Tally>

  /** A component name with no row in the components table. */
  datatype AggError = UnknownComponent(name: string)

  /** The path matcher's signature: (path, pattern) to matched. */
  type Matcher = (string, string) -> bool

  /** Go's zero value for a missing map entry. */
  const Zero: Tally := Tally("", 0, 0, 0)

  function Lookup(m: Tallies, k: Key): Tally {
    if k in m then m[k] else Zero
  }

  /** Every emitted tally counts at least one row. */
  ghost predicate Positive(m: Tallies) {
    forall k :: k in m ==> m[k].commits >= 1
  }

  /** The tally after one more matched row. */
  function Count(t: Tally, row: JoinRow): (r: Tally)
    ensures r == Merge(t, [row])
  {
    assert [row][1..] == [];
    assert SumAdditions([row]) == row.additions;
    assert SumDeletions([row]) == row.deletions;
    Tally(row.author, t.commits + 1, t.additions + row.additions, t.deletions + row.deletions)
  }

  /** The pattern loop with its `break`: does any pattern match the path? */
  function MatchesAny(path: string, pats: seq<string>, matches: Matcher): (r: bool)
    ensures r <==> exists k :: 0 <= k < |pats| && matches(path, pats[k])
    decreases |pats|
  {
    if |pats| == 0 then false
    else if matches(path, pats[0]) then true
    else
      var r := MatchesAny(path, pats[1..], matches);
      assert forall k :: 1 <= k < |pats| ==> pats[1..][k - 1] == pats[k];
      r
  }

  /** The scan of one repository's rows for one (component, repository) group. */
  function FoldRows(acc: Tallies, componentId: int, repoId: int, pats: seq<string>, rows: seq<JoinRow>, matches: Matcher): (r: Tallies)
    ensures acc.Keys <= r.Keys
    ensures forall k :: k in r && k !in acc ==> k.componentId == componentId && k.repoId == repoId
    ensures Positive(acc) ==> Positive(r)
    decreases |rows|
  {
    if |rows| == 0 then acc
    else
      var row := rows[0];
      var key := Key(componentId, repoId, row.email);
      var acc' := if MatchesAny(row.filepath, pats, matches) then acc[key := Count(Lookup(acc, key), row)] else acc;
      FoldRows(acc', componentId, repoId, pats, rows[1..], matches)
  }

  // ------------------------------------------------- reference definition

  /** The rows of `email` whose path matches one of the patterns, in order. */
  function Matched(rows: seq<JoinRow>, pats: seq<string>, email: string, matches: Matcher): seq<JoinRow>
    decreases |rows|
  {
    if |rows| == 0 then []
    else
      var head := if rows[0].email == email && MatchesAny(rows[0].filepath, pats, matches) then [rows[0]] else [];
      head + Matched(rows[1..], pats, email, matches)
  }

  function SumAdditions(ms: seq<JoinRow>): int
    decreases |ms|
  {
    if |ms| == 0 then 0 else ms[0].additions + SumAdditions(ms[1..])
  }

  function SumDeletions(ms: seq<JoinRow>): int
    decreases |ms|
  {
    if |ms| == 0 then 0 else ms[0].deletions + SumDeletions(ms[1..])
  }

  /** A tally extended by a batch of matched rows, stated directly: one
      commit per row, the sums of the counts, the author of the last row. */
  function Merge(t: Tally, ms: seq<JoinRow>): Tally {
    if |ms| == 0 then t
    else Tally(ms[|ms| - 1].author, t.commits + |ms|, t.additions + SumAdditions(ms), t.deletions + SumDeletions(ms))
  }

  /** The rows a key picks up from one group's scan. */
  function Picked(k: Key, componentId: int, repoId: int, pats: seq<string>, rows: seq<JoinRow>, matches: Matcher): seq<JoinRow> {
    if k.componentId == componentId && k.repoId == repoId then Matched(rows, pats, k.email, matches) else []
  }

  lemma MergeCount(t: Tally, row: JoinRow, ms: seq<JoinRow>)
    ensures Merge(Count(t, row), ms) == Merge(t, [row] + ms)
  {
    assert ([row] + ms)[1..] == ms;
    if |ms| > 0 {
      assert ([row] + ms)[|ms|] == ms[|ms| - 1];
    }
  }

  /** What the scan of one group does to each key: a key of this component
      and repository gets one commit per matched row of its e-mail, the sums
      of their counts and the author of the last of them, and is present
      afterwards exactly when it was before or some row matched; every other
      key is left alone. */
  lemma {:induction false} FoldRowsSpec(acc: Tallies, componentId: int, repoId: int, pats: seq<string>, rows: seq<JoinRow>, matches: Matcher, k: Key)
    ensures var r := FoldRows(acc, componentId, repoId, pats, rows, matches);
      var ms := Picked(k, componentId, repoId, pats, rows, matches);
      && (k in r <==> k in acc || |ms| > 0)
      && Lookup(r, k) == Merge(Lookup(acc, k), ms)
    decreases |rows|
  {
    if |rows| > 0 {
      var row := rows[0];
      var key := Key(componentId, repoId, row.email);
      var hit := MatchesAny(row.filepath, pats, matches);
      var acc' := if hit then acc[key := Count(Lookup(acc, key), row)] else acc;
      FoldRowsSpec(acc', componentId, repoId, pats, rows[1..], matches, k);
      var ms' := Picked(k, componentId, repoId, pats, rows[1..], matches);
      if hit && k == key {
        assert Picked(k, componentId, repoId, pats, rows, matches) == [row] + ms';
        MergeCount(Lookup(acc, k), row, ms');
      } else {
        assert k.componentId == componentId && k.repoId == repoId ==> k.email != row.email || !hit;
        assert Picked(k, componentId, repoId, pats, rows, matches) == [] + ms' == ms';
        assert k in acc' <==> k in acc;
        assert Lookup(acc', k) == Lookup(acc, k);
      }
    }
  }

  /** The order of a group's patterns, and repeats among them, change no total. */
  lemma {:induction false} PatternOrderIrrelevant(acc: Tallies, componentId: int, repoId: int, pats: seq<string>, pats': seq<string>, rows: seq<JoinRow>, matches: Matcher)
    requires forall p :: p in pats <==> p in pats'
    ensures FoldRows(acc, componentId, repoId, pats, rows, matches) == FoldRows(acc, componentId, repoId, pats', rows, matches)
    decreases |rows|
  {
    if |rows| > 0 {
      var path := rows[0].filepath;
      assert MatchesAny(path, pats, matches) == MatchesAny(path, pats', matches) by {
        if MatchesAny(path, pats, matches) {
          var k :| 0 <= k < |pats| && matches(path, pats[k]);
          assert pats[k] in pats';
        }
        if MatchesAny(path, pats', matches) {
          var k :| 0 <= k < |pats'| && matches(path, pats'[k]);
          assert pats'[k] in pats;
        }
      }
      var key := Key(componentId, repoId, rows[0].email);
      var acc' := if MatchesAny(path, pats, matches) then acc[key := Count(Lookup(acc, key), rows[0])] else acc;
      PatternOrderIrrelevant(acc', componentId, repoId, pats, pats', rows[1..], matches);
    }
  }

  /** Scans of two different repositories touch disjoint keys, so they commute. */
  lemma FoldRowsCommute(acc: Tallies, c1: int, r1: int, pats1: seq<string>, rows1: seq<JoinRow>,
                        c2: int, r2: int, pats2: seq<string>, rows2: seq<JoinRow>, matches: Matcher)
    requires r1 != r2
    ensures FoldRows(FoldRows(acc, c1, r1, pats1, rows1, matches), c2, r2, pats2, rows2, matches)
         == FoldRows(FoldRows(acc, c2, r2, pats2, rows2, matches), c1, r1, pats1, rows1, matches)
  {
    var a1 := FoldRows(acc, c1, r1, pats1, rows1, matches);
    var a2 := FoldRows(acc, c2, r2, pats2, rows2, matches);
    var left := FoldRows(a1, c2, r2, pats2, rows2, matches);
    var right := FoldRows(a2, c1, r1, pats1, rows1, matches);
    forall k
      ensures (k in left <==> k in right) && Lookup(left, k) == Lookup(right, k)
    {
      FoldRowsSpec(acc, c1, r1, pats1, rows1, matches, k);
      FoldRowsSpec(a1, c2, r2, pats2, rows2, matches, k);
      FoldRowsSpec(acc, c2, r2, pats2, rows2, matches, k);
      FoldRowsSpec(a2, c1, r1, pats1, rows1, matches, k);
    }
    assert left.Keys == right.Keys;
    assert forall k :: k in left ==> left[k] == Lookup(left, k) == Lookup(right, k) == right[k];
  }

  // ---------------------------------------------------- grouping by repository

  /** The grouping loop: each `repo:pattern` entry, split at its first `:`,
      appends the pattern to its repository's list; an entry without `:` is
      skipped. */
  function GroupFrom(groups: map<string, seq<string>>, paths: seq<string>): (g: map<string, seq<string>>)
    ensures groups.Keys <= g.Keys
    ensures forall n :: n in groups ==> groups[n] <= g[n]
    decreases |paths|
  {
    if |paths| == 0 then groups
    else match SplitFirst(paths[0], ':')
      case None => GroupFrom(groups, paths[1..])
      case Some((repo, pat)) =>
        GroupFrom(groups[repo := (if repo in groups then groups[repo] else []) + [pat]], paths[1..])
  }

  /** The patterns the entries give to `repo`, in order: reference for GroupFrom. */
  function PatternsFor(paths: seq<string>, repo: string): seq<string>
    decreases |paths|
  {
    if |paths| == 0 then []
    else
      var head := match SplitFirst(paths[0], ':')
        case Some((name, pat)) => if name == repo then [pat] else []
        case None => [];
      head + PatternsFor(paths[1..], repo)
  }

  /** After grouping, every repository holds exactly the patterns its
      entries name, in entry order, and is a key exactly when some entry
      names it. */
  lemma {:induction false} GroupFromSpec(groups: map<string, seq<string>>, paths: seq<string>, repo: string)
    ensures var g := GroupFrom(groups, paths);
      && (repo in g <==> repo in groups || |PatternsFor(paths, repo)| > 0)
      && (repo in g ==> g[repo] == (if repo in groups then groups[repo] else []) + PatternsFor(paths, repo))
    decreases |paths|
  {
    if |paths| > 0 {
      match SplitFirst(paths[0], ':')
      case None =>
        GroupFromSpec(groups, paths[1..], repo);
      case Some((name, pat)) =>
        var groups' := groups[name := (if name in groups then groups[name] else []) + [pat]];
        GroupFromSpec(groups', paths[1..], repo);
        if name == repo {
          assert PatternsFor(paths, repo) == [pat] + PatternsFor(paths[1..], repo);
        } else {
          assert PatternsFor(paths, repo) == [] + PatternsFor(paths[1..], repo);
        }
    }
  }

  /** No element occurs twice, as in the keys of a Go map. */
  ghost predicate Distinct<T>(s: seq<T>) {
    forall i, j :: 0 <= i < j < |s| ==> s[i] != s[j]
  }

  /** The repository names in the order they first appear: the order in which
      the model visits the groups. Like a range over the map of groups, it
      lists each group once. */
  function RepoOrder(seen: seq<string>, paths: seq<string>): (order: seq<string>)
    requires Distinct(seen)
    ensures Distinct(order)
    ensures forall n :: n in order <==> n in seen || |PatternsFor(paths, n)| > 0
    decreases |paths|
  {
    if |paths| == 0 then seen
    else match SplitFirst(paths[0], ':')
      case None => RepoOrder(seen, paths[1..])
      case Some((repo, pat)) =>
        var seen' := if repo in seen then seen else seen + [repo];
        assert Distinct(seen') by {
          if repo !in seen {
            forall i, j | 0 <= i < j < |seen'| ensures seen'[i] != seen'[j] {
              if j == |seen| { assert seen'[i] == seen[i]; }
            }
          }
        }
        var order := RepoOrder(seen', paths[1..]);
        assert forall n :: |PatternsFor(paths, n)| == (if n == repo then 1 else 0) + |PatternsFor(paths[1..], n)|;
        order
  }

  // ----------------------------------------------------------- components

  /** One group of the component's loop; a repository name missing from
      `repoIds` is skipped without error. */
  function GroupStep(acc: Tallies, componentId: int, name: string, groups: map<string, seq<string>>,
                     repoIds: map<string, int>, rowsOf: int -> seq<JoinRow>, matches: Matcher): (r: Tallies)
    ensures name !in repoIds ==> r == acc
    ensures acc.Keys <= r.Keys
    ensures forall k :: k in r && k !in acc ==> k.componentId == componentId && name in repoIds && k.repoId == repoIds[name]
  {
    if name in repoIds && name in groups then
      FoldRows(acc, componentId, repoIds[name], groups[name], rowsOf(repoIds[name]), matches)
    else acc
  }

  /** The groups of one component visited in `order`. */
  function ProcessGroups(acc: Tallies, componentId: int, order: seq<string>, groups: map<string, seq<string>>,
                         repoIds: map<string, int>, rowsOf: int -> seq<JoinRow>, matches: Matcher): (r: Tallies)
    ensures Positive(acc) ==> Positive(r)
    decreases |order|
  {
    if |order| == 0 then acc
    else ProcessGroups(GroupStep(acc, componentId, order[0], groups, repoIds, rowsOf, matches),
                       componentId, order[1..], groups, repoIds, rowsOf, matches)
  }

  /** Distinct repository names have distinct ids. */
  ghost predicate Injective(repoIds: map<string, int>) {
    forall a, b :: a in repoIds && b in repoIds && a != b ==> repoIds[a] != repoIds[b]
  }

  lemma GroupStepsCommute(acc: Tallies, componentId: int, a: string, b: string, groups: map<string, seq<string>>,
                          repoIds: map<string, int>, rowsOf: int -> seq<JoinRow>, matches: Matcher)
    requires Injective(repoIds)
    ensures GroupStep(GroupStep(acc, componentId, a, groups, repoIds, rowsOf, matches), componentId, b, groups, repoIds, rowsOf, matches)
         == GroupStep(GroupStep(acc, componentId, b, groups, repoIds, rowsOf, matches), componentId, a, groups, repoIds, rowsOf, matches)
  {
    if a != b && a in repoIds && a in groups && b in repoIds && b in groups {
      FoldRowsCommute(acc, componentId, repoIds[a], groups[a], rowsOf(repoIds[a]),
                      componentId, repoIds[b], groups[b], rowsOf(repoIds[b]), matches);
    }
  }

  lemma {:induction false} MoveToFront(acc: Tallies, componentId: int, front: seq<string>, x: string, back: seq<string>,
                                       groups: map<string, seq<string>>, repoIds: map<string, int>,
                                       rowsOf: int -> seq<JoinRow>, matches: Matcher)
    requires Injective(repoIds)
    ensures ProcessGroups(acc, componentId, front + [x] + back, groups, repoIds, rowsOf, matches)
         == ProcessGroups(GroupStep(acc, componentId, x, groups, repoIds, rowsOf, matches), componentId, front + back, groups, repoIds, rowsOf, matches)
    decreases |front|
  {
    if |front| == 0 {
      assert front + [x] + back == [x] + back;
      assert ([x] + back)[1..] == back;
      assert front + back == back;
    } else {
      var a := front[0];
      var acc1 := GroupStep(acc, componentId, a, groups, repoIds, rowsOf, matches);
      assert (front + [x] + back)[1..] == front[1..] + [x] + back;
      assert (front + back)[1..] == front[1..] + back;
      MoveToFront(acc1, componentId, front[1..], x, back, groups, repoIds, rowsOf, matches);
      GroupStepsCommute(acc, componentId, a, x, groups, repoIds, rowsOf, matches);
    }
  }

  /** Go visits the repository groups in random map order; with distinct ids
      for distinct repository names, every visiting order gives the same
      totals. */
  lemma {:induction false} GroupOrderIrrelevant(acc: Tallies, componentId: int, order: seq<string>, order': seq<string>,
                                                groups: map<string, seq<string>>, repoIds: map<string, int>,
                                                rowsOf: int -> seq<JoinRow>, matches: Matcher)
    requires Injective(repoIds)
    requires multiset(order) == multiset(order')
    ensures ProcessGroups(acc, componentId, order, groups, repoIds, rowsOf, matches)
         == ProcessGroups(acc, componentId, order', groups, repoIds, rowsOf, matches)
    decreases |order|
  {
    if |order| == 0 {
      assert |order'| == |multiset(order')| == 0;
    } else {
      var x := order[0];
      assert x in multiset(order');
      var i :| 0 <= i < |order'| && order'[i] == x;
      var front, back := order'[..i], order'[i + 1..];
      assert order' == front + [x] + back;
      assert order == [x] + order[1..];
      assert multiset(order[1..]) == multiset(front + back) by {
        calc {
          multiset([x]) + multiset(order[1..]);
          multiset([x] + order[1..]);
          multiset(order');
          multiset(front + [x] + back);
          multiset(front) + multiset([x]) + multiset(back);
          multiset([x]) + multiset(front + back);
        }
        assert multiset(order[1..]) == (multiset([x]) + multiset(order[1..])) - multiset([x]);
        assert multiset(front + back) == (multiset([x]) + multiset(front + back)) - multiset([x]);
      }
      var acc1 := GroupStep(acc, componentId, x, groups, repoIds, rowsOf, matches);
      GroupOrderIrrelevant(acc1, componentId, order[1..], front + back, groups, repoIds, rowsOf, matches);
      MoveToFront(acc, componentId, front, x, back, groups, repoIds, rowsOf, matches);
    }
  }

  /** In a duplicate-free sequence every element occurs once. */
  lemma {:induction false} DistinctCount<T>(s: seq<T>, x: T)
    requires Distinct(s)
    ensures multiset(s)[x] == if x in s then 1 else 0
    decreases |s|
  {
    if |s| > 0 {
      assert s == [s[0]] + s[1..];
      assert Distinct(s[1..]) by {
        forall i, j | 0 <= i < j < |s[1..]| ensures s[1..][i] != s[1..][j] {
          assert s[1..][i] == s[i + 1] && s[1..][j] == s[j + 1];
        }
      }
      assert s[0] !in s[1..] by {
        forall k | 0 <= k < |s[1..]| ensures s[1..][k] != s[0] {
          assert s[1..][k] == s[k + 1];
        }
      }
      DistinctCount(s[1..], x);
    }
  }

  /** Two duplicate-free listings of the same elements are permutations of
      each other. */
  lemma DistinctSameElements<T>(a: seq<T>, b: seq<T>)
    requires Distinct(a) && Distinct(b)
    requires forall x :: x in a <==> x in b
    ensures multiset(a) == multiset(b)
  {
    forall x
      ensures multiset(a)[x] == multiset(b)[x]
    {
      DistinctCount(a, x);
      DistinctCount(b, x);
    }
  }

  /** One component: group its entries, then visit the groups. */
  function ComponentStep(acc: Tallies, componentId: int, comp: Component,
                         repoIds: map<string, int>, rowsOf: int -> seq<JoinRow>, matches: Matcher): (r: Tallies)
    ensures Positive(acc) ==> Positive(r)
  {
    ProcessGroups(acc, componentId, RepoOrder([], comp.paths), GroupFrom(map[], comp.paths), repoIds, rowsOf, matches)
  }

  /** Go ranges over the map of groups, meeting every key once in an order
      of its choosing. Every such order gives the totals of ComponentStep,
      when distinct repository names have distinct ids. */
  lemma AnyMapOrder(acc: Tallies, componentId: int, comp: Component, order: seq<string>,
                    repoIds: map<string, int>, rowsOf: int -> seq<JoinRow>, matches: Matcher)
    requires Injective(repoIds)
    requires Distinct(order)
    requires forall n :: n in order <==> n in GroupFrom(map[], comp.paths)
    ensures ProcessGroups(acc, componentId, order, GroupFrom(map[], comp.paths), repoIds, rowsOf, matches)
         == ComponentStep(acc, componentId, comp, repoIds, rowsOf, matches)
  {
    var canon := RepoOrder([], comp.paths);
    forall n
      ensures n in order <==> n in canon
    {
      GroupFromSpec(map[], comp.paths, n);
    }
    DistinctSameElements(order, canon);
    GroupOrderIrrelevant(acc, componentId, order, canon, GroupFrom(map[], comp.paths), repoIds, rowsOf, matches);
  }

  /** A component whose entries name no known repository adds nothing. */
  lemma UnknownRepositoriesSkipped(acc: Tallies, componentId: int, comp: Component,
                                   repoIds: map<string, int>, rowsOf: int -> seq<JoinRow>, matches: Matcher)
    requires forall n :: n in repoIds ==> |PatternsFor(comp.paths, n)| == 0
    ensures ComponentStep(acc, componentId, comp, repoIds, rowsOf, matches) == acc
  {
    var order := RepoOrder([], comp.paths);
    SkipAll(acc, componentId, order, GroupFrom(map[], comp.paths), repoIds, rowsOf, matches);
  }

  lemma {:induction false} SkipAll(acc: Tallies, componentId: int, order: seq<string>, groups: map<string, seq<string>>,
                                   repoIds: map<string, int>, rowsOf: int -> seq<JoinRow>, matches: Matcher)
    requires forall k :: 0 <= k < |order| ==> order[k] !in repoIds
    ensures ProcessGroups(acc, componentId, order, groups, repoIds, rowsOf, matches) == acc
    decreases |order|
  {
    if |order| > 0 {
      SkipAll(acc, componentId, order[1..], groups, repoIds, rowsOf, matches);
    }
  }

  /** Every one of these components has an id. */
  ghost predicate Known(components: seq<Component>, componentIds: map<string, int>) {
    forall j :: 0 <= j < |components| ==> components[j].name in componentIds
  }

  /** The outer loop over components from `acc`; the first component without
      an id aborts with an error. */
  function AggregateFrom(acc: Tallies, components: seq<Component>, componentIds: map<string, int>,
                         repoIds: map<string, int>, rowsOf: int -> seq<JoinRow>, matches: Matcher): (r: Result<Tallies, AggError>)
    ensures r.Success? <==> forall k :: 0 <= k < |components| ==> components[k].name in componentIds
    ensures r.Failure? ==> r.error.name !in componentIds
    ensures r.Failure? ==> exists k :: 0 <= k < |components| && components[k].name == r.error.name && Known(components[..k], componentIds)
    ensures r.Success? && Positive(acc) ==> Positive(r.value)
    decreases |components|
  {
    if |components| == 0 then Success(acc)
    else
      var comp := components[0];
      if comp.name !in componentIds then Failure(UnknownComponent(comp.name))
      else
        var r := AggregateFrom(ComponentStep(acc, componentIds[comp.name], comp, repoIds, rowsOf, matches),
                               components[1..], componentIds, repoIds, rowsOf, matches);
        assert forall k :: 1 <= k < |components| ==> components[1..][k - 1] == components[k];
        r
  }

  /** computeComponentContributions: the tallies to insert, one per key with
      at least one matched row, or the error of the first unknown component. */
  function ComputeContributions(components: seq<Component>, componentIds: map<string, int>,
                                repoIds: map<string, int>, rowsOf: int -> seq<JoinRow>, matches: Matcher): (r: Result<Tallies, AggError>)
    ensures r.Success? <==> forall k :: 0 <= k < |components| ==> components[k].name in componentIds
    ensures r.Success? ==> Positive(r.value)
  {
    AggregateFrom(map[], components, componentIds, repoIds, rowsOf, matches)
  }

  // ------------------------------------------------- whole-run reference

  /** The rows key `k` picks up while the groups are visited in `order`. */
  function GroupRows(k: Key, componentId: int, order: seq<string>, groups: map<string, seq<string>>,
                     repoIds: map<string, int>, rowsOf: int -> seq<JoinRow>, matches: Matcher): seq<JoinRow>
    decreases |order|
  {
    if |order| == 0 then []
    else
      var n := order[0];
      var head := if n in repoIds && n in groups then Picked(k, componentId, repoIds[n], groups[n], rowsOf(repoIds[n]), matches) else [];
      head + GroupRows(k, componentId, order[1..], groups, repoIds, rowsOf, matches)
  }

  /** The rows key `k` picks up over a whole run of known components. */
  function RunRows(k: Key, components: seq<Component>, componentIds: map<string, int>,
                   repoIds: map<string, int>, rowsOf: int -> seq<JoinRow>, matches: Matcher): seq<JoinRow>
    requires Known(components, componentIds)
    decreases |components|
  {
    if |components| == 0 then []
    else
      var comp := components[0];
      assert forall j :: 1 <= j < |components| ==> components[1..][j - 1] == components[j];
      GroupRows(k, componentIds[comp.name], RepoOrder([], comp.paths), GroupFrom(map[], comp.paths), repoIds, rowsOf, matches)
      + RunRows(k, components[1..], componentIds, repoIds, rowsOf, matches)
  }

  lemma {:induction false} SumsAppend(a: seq<JoinRow>, b: seq<JoinRow>)
    ensures SumAdditions(a + b) == SumAdditions(a) + SumAdditions(b)
    ensures SumDeletions(a + b) == SumDeletions(a) + SumDeletions(b)
    decreases |a|
  {
    if |a| == 0 {
      assert a + b == b;
    } else {
      assert (a + b)[1..] == a[1..] + b;
      SumsAppend(a[1..], b);
    }
  }

  /** Merging two batches one after the other is merging their concatenation. */
  lemma MergeAppend(t: Tally, a: seq<JoinRow>, b: seq<JoinRow>)
    ensures Merge(Merge(t, a), b) == Merge(t, a + b)
  {
    SumsAppend(a, b);
    if |b| == 0 {
      assert a + b == a;
    } else {
      assert (a + b)[|a + b| - 1] == b[|b| - 1];
    }
  }

  /** What visiting a component's groups does to each key: it merges in the
      key's rows from every visited group, in visiting order. */
  lemma {:induction false} ProcessGroupsSpec(acc: Tallies, componentId: int, order: seq<string>, groups: map<string, seq<string>>,
                                             repoIds: map<string, int>, rowsOf: int -> seq<JoinRow>, matches: Matcher, k: Key)
    ensures var r := ProcessGroups(acc, componentId, order, groups, repoIds, rowsOf, matches);
      var ms := GroupRows(k, componentId, order, groups, repoIds, rowsOf, matches);
      && (k in r <==> k in acc || |ms| > 0)
      && Lookup(r, k) == Merge(Lookup(acc, k), ms)
    decreases |order|
  {
    if |order| > 0 {
      var n := order[0];
      var acc1 := GroupStep(acc, componentId, n, groups, repoIds, rowsOf, matches);
      var head := if n in repoIds && n in groups then Picked(k, componentId, repoIds[n], groups[n], rowsOf(repoIds[n]), matches) else [];
      var tail := GroupRows(k, componentId, order[1..], groups, repoIds, rowsOf, matches);
      if n in repoIds && n in groups {
        FoldRowsSpec(acc, componentId, repoIds[n], groups[n], rowsOf(repoIds[n]), matches, k);
      } else {
        assert Lookup(acc1, k) == Merge(Lookup(acc, k), head);
      }
      ProcessGroupsSpec(acc1, componentId, order[1..], groups, repoIds, rowsOf, matches, k);
      MergeAppend(Lookup(acc, k), head, tail);
    }
  }

  /** What the component loop does to each key, when every component is known. */
  lemma {:induction false} AggregateFromSpec(acc: Tallies, components: seq<Component>, componentIds: map<string, int>,
                                             repoIds: map<string, int>, rowsOf: int -> seq<JoinRow>, matches: Matcher, k: Key)
    requires Known(components, componentIds)
    ensures var r := AggregateFrom(acc, components, componentIds, repoIds, rowsOf, matches);
      var ms := RunRows(k, components, componentIds, repoIds, rowsOf, matches);
      && r.Success?
      && (k in r.value <==> k in acc || |ms| > 0)
      && Lookup(r.value, k) == Merge(Lookup(acc, k), ms)
    decreases |components|
  {
    if |components| > 0 {
      var comp := components[0];
      var cid := componentIds[comp.name];
      var order := RepoOrder([], comp.paths);
      var groups := GroupFrom(map[], comp.paths);
      var acc1 := ComponentStep(acc, cid, comp, repoIds, rowsOf, matches);
      ProcessGroupsSpec(acc, cid, order, groups, repoIds, rowsOf, matches, k);
      assert Known(components[1..], componentIds) by {
        assert forall j :: 1 <= j < |components| ==> components[1..][j - 1] == components[j];
      }
      AggregateFromSpec(acc1, components[1..], componentIds, repoIds, rowsOf, matches, k);
      MergeAppend(Lookup(acc, k), GroupRows(k, cid, order, groups, repoIds, rowsOf, matches),
                  RunRows(k, components[1..], componentIds, repoIds, rowsOf, matches));
    }
  }

  /** The whole computation, key by key: on success a key is inserted exactly
      when some visited group gave it a matched row, and its tally is those
      rows merged from Go's zero value (one commit per row, summed counts, the
      last row's author). */
  lemma ComputeContributionsSpec(components: seq<Component>, componentIds: map<string, int>,
                                 repoIds: map<string, int>, rowsOf: int -> seq<JoinRow>, matches: Matcher, k: Key)
    ensures var r := ComputeContributions(components, componentIds, repoIds, rowsOf, matches);
      r.Success? ==>
        var ms := RunRows(k, components, componentIds, repoIds, rowsOf, matches);
        && (k in r.value <==> |ms| > 0)
        && (k in r.value ==> r.value[k] == Merge(Zero, ms))
  {
    if Known(components, componentIds) {
      AggregateFromSpec(map[], components, componentIds, repoIds, rowsOf, matches, k);
    }
  }

  /** With distinct ids for distinct repository names, a key of component
      `componentId` picks up rows from the one group of its repository only:
      that repository's rows of the key's e-mail matching the group's
      patterns, or nothing when no visited group has the key's repository. */
  lemma {:induction false} GroupRowsOfRepository(k: Key, componentId: int, order: seq<string>, groups: map<string, seq<string>>,
                                                 repoIds: map<string, int>, rowsOf: int -> seq<JoinRow>, matches: Matcher)
    requires Injective(repoIds) && Distinct(order)
    requires k.componentId == componentId
    ensures forall n :: n in order && n in repoIds && n in groups && repoIds[n] == k.repoId ==>
      GroupRows(k, componentId, order, groups, repoIds, rowsOf, matches) == Matched(rowsOf(k.repoId), groups[n], k.email, matches)
    ensures (forall n :: n in order && n in repoIds && n in groups ==> repoIds[n] != k.repoId) ==>
      GroupRows(k, componentId, order, groups, repoIds, rowsOf, matches) == []
    decreases |order|
  {
    if |order| > 0 {
      var n0 := order[0];
      var rest := order[1..];
      assert Distinct(rest) by {
        forall i, j | 0 <= i < j < |rest| ensures rest[i] != rest[j] {
          assert rest[i] == order[i + 1] && rest[j] == order[j + 1];
        }
      }
      assert n0 !in rest by {
        forall i | 0 <= i < |rest| ensures rest[i] != n0 {
          assert rest[i] == order[i + 1];
        }
      }
      assert forall n :: n in order ==> n == n0 || n in rest;
      GroupRowsOfRepository(k, componentId, rest, groups, repoIds, rowsOf, matches);
      if n0 in repoIds && n0 in groups && repoIds[n0] == k.repoId {
        assert forall n :: n in rest && n in repoIds && n in groups ==> repoIds[n] != k.repoId;
      }
    }
  }

  /** One component, key by key: with distinct ids for distinct repository
      names, a key of the component picks up exactly the rows of its
      repository that match one of the patterns the component's entries give
      that repository. */
  lemma ComponentRows(k: Key, componentId: int, comp: Component, name: string,
                      repoIds: map<string, int>, rowsOf: int -> seq<JoinRow>, matches: Matcher)
    requires Injective(repoIds)
    requires k.componentId == componentId && name in repoIds && repoIds[name] == k.repoId
    ensures GroupRows(k, componentId, RepoOrder([], comp.paths), GroupFrom(map[], comp.paths), repoIds, rowsOf, matches)
         == Matched(rowsOf(k.repoId), PatternsFor(comp.paths, name), k.email, matches)
  {
    var order := RepoOrder([], comp.paths);
    var groups := GroupFrom(map[], comp.paths);
    GroupFromSpec(map[], comp.paths, name);
    GroupRowsOfRepository(k, componentId, order, groups, repoIds, rowsOf, matches);
    assert name in order <==> name in groups;
    if name in groups {
      assert groups[name] == [] + PatternsFor(comp.paths, name) == PatternsFor(comp.paths, name);
    } else {
      assert PatternsFor(comp.paths, name) == [];
      assert forall n :: n in order && n in repoIds && n in groups ==> repoIds[n] != k.repoId;
      NothingMatchedFromNoPatterns(rowsOf(k.repoId), k.email, matches);
    }
  }

  /** A key of another component picks up nothing from this one. */
  lemma {:induction false} GroupRowsOtherComponent(k: Key, componentId: int, order: seq<string>, groups: map<string, seq<string>>,
                                                   repoIds: map<string, int>, rowsOf: int -> seq<JoinRow>, matches: Matcher)
    requires k.componentId != componentId
    ensures GroupRows(k, componentId, order, groups, repoIds, rowsOf, matches) == []
    decreases |order|
  {
    if |order| > 0 {
      GroupRowsOtherComponent(k, componentId, order[1..], groups, repoIds, rowsOf, matches);
    }
  }

  /** Distinct components have distinct ids. */
  ghost predicate DistinctIds(components: seq<Component>, componentIds: map<string, int>)
    requires Known(components, componentIds)
  {
    forall i, j :: 0 <= i < j < |components| ==> componentIds[components[i].name] != componentIds[components[j].name]
  }

  /** A whole run, key by key: when components and repositories have distinct
      ids, a key of component `i` and repository `name` picks up exactly the
      rows of that repository with the key's e-mail whose path matches one of
      the patterns component `i` gives `name`. */
  lemma {:induction false} RunRowsOfComponent(k: Key, components: seq<Component>, componentIds: map<string, int>, i: nat, name: string,
                                              repoIds: map<string, int>, rowsOf: int -> seq<JoinRow>, matches: Matcher)
    requires Known(components, componentIds) && DistinctIds(components, componentIds) && Injective(repoIds)
    requires i < |components| && k.componentId == componentIds[components[i].name]
    requires name in repoIds && repoIds[name] == k.repoId
    ensures RunRows(k, components, componentIds, repoIds, rowsOf, matches)
         == Matched(rowsOf(k.repoId), PatternsFor(components[i].paths, name), k.email, matches)
    decreases |components|
  {
    var comp := components[0];
    var rest := components[1..];
    assert forall j :: 1 <= j < |components| ==> rest[j - 1] == components[j];
    assert Known(rest, componentIds);
    var head := GroupRows(k, componentIds[comp.name], RepoOrder([], comp.paths), GroupFrom(map[], comp.paths), repoIds, rowsOf, matches);
    if i == 0 {
      ComponentRows(k, componentIds[comp.name], comp, name, repoIds, rowsOf, matches);
      RunRowsOtherComponents(k, rest, componentIds, repoIds, rowsOf, matches);
    } else {
      GroupRowsOtherComponent(k, componentIds[comp.name], RepoOrder([], comp.paths), GroupFrom(map[], comp.paths), repoIds, rowsOf, matches);
      RunRowsOfComponent(k, rest, componentIds, i - 1, name, repoIds, rowsOf, matches);
    }
  }

  lemma {:induction false} RunRowsOtherComponents(k: Key, components: seq<Component>, componentIds: map<string, int>,
                                                  repoIds: map<string, int>, rowsOf: int -> seq<JoinRow>, matches: Matcher)
    requires Known(components, componentIds)
    requires forall j :: 0 <= j < |components| ==> componentIds[components[j].name] != k.componentId
    ensures RunRows(k, components, componentIds, repoIds, rowsOf, matches) == []
    decreases |components|
  {
    if |components| > 0 {
      var comp := components[0];
      assert forall j :: 1 <= j < |components| ==> components[1..][j - 1] == components[j];
      GroupRowsOtherComponent(k, componentIds[comp.name], RepoOrder([], comp.paths), GroupFrom(map[], comp.paths), repoIds, rowsOf, matches);
      RunRowsOtherComponents(k, components[1..], componentIds, repoIds, rowsOf, matches);
    }
  }

  /** computeComponentContributions for a key of a configured component and
      repository, when ids are distinct: the key is inserted exactly when the
      repository has a row of the key's e-mail matching one of the
      component's patterns for it, and its tally merges exactly those rows. */
  lemma ContributionOfRepository(k: Key, components: seq<Component>, componentIds: map<string, int>, i: nat, name: string,
                                 repoIds: map<string, int>, rowsOf: int -> seq<JoinRow>, matches: Matcher)
    requires Known(components, componentIds) && DistinctIds(components, componentIds) && Injective(repoIds)
    requires i < |components| && k.componentId == componentIds[components[i].name]
    requires name in repoIds && repoIds[name] == k.repoId
    ensures var r := ComputeContributions(components, componentIds, repoIds, rowsOf, matches);
      var ms := Matched(rowsOf(k.repoId), PatternsFor(components[i].paths, name), k.email, matches);
      && r.Success?
      && (k in r.value <==> |ms| > 0)
      && (k in r.value ==> r.value[k] == Merge(Zero, ms))
  {
    ComputeContributionsSpec(components, componentIds, repoIds, rowsOf, matches, k);
    RunRowsOfComponent(k, components, componentIds, i, name, repoIds, rowsOf, matches);
  }

  /** No pattern, no matched row. */
  lemma {:induction false} NothingMatchedFromNoPatterns(rows: seq<JoinRow>, email: string, matches: Matcher)
    ensures Matched(rows, [], email, matches) == []
    decreases |rows|
  {
    if |rows| > 0 {
      NothingMatchedFromNoPatterns(rows[1..], email, matches);
    }
  }

  // ---------------------------------------------------- with matchPath itself

  /** matchPath as the aggregator calls it. */
  const GoMatcher: Matcher := (path, pattern) => PathMatch.MatchPath(path, pattern)

  /** No row of any repository matches any pattern. */
  ghost predicate NeverMatches(rowsOf: int -> seq<JoinRow>, matches: Matcher) {
    forall id, k, p :: 0 <= k < |rowsOf(id)| ==> !matches(rowsOf(id)[k].filepath, p)
  }

  lemma {:induction false} UnmatchedRowsAddNothing(acc: Tallies, componentId: int, repoId: int, pats: seq<string>,
                                                   rows: seq<JoinRow>, matches: Matcher)
    requires forall k, p :: 0 <= k < |rows| ==> !matches(rows[k].filepath, p)
    ensures FoldRows(acc, componentId, repoId, pats, rows, matches) == acc
    decreases |rows|
  {
    if |rows| > 0 {
      assert !MatchesAny(rows[0].filepath, pats, matches);
      assert forall k :: 1 <= k < |rows| ==> rows[1..][k - 1] == rows[k];
      UnmatchedRowsAddNothing(acc, componentId, repoId, pats, rows[1..], matches);
    }
  }

  lemma {:induction false} UnmatchedGroupsAddNothing(acc: Tallies, componentId: int, order: seq<string>, groups: map<string, seq<string>>,
                                                     repoIds: map<string, int>, rowsOf: int -> seq<JoinRow>, matches: Matcher)
    requires NeverMatches(rowsOf, matches)
    ensures ProcessGroups(acc, componentId, order, groups, repoIds, rowsOf, matches) == acc
    decreases |order|
  {
    if |order| > 0 {
      var name := order[0];
      if name in repoIds && name in groups {
        var id := repoIds[name];
        UnmatchedRowsAddNothing(acc, componentId, id, groups[name], rowsOf(id), matches);
      }
      UnmatchedGroupsAddNothing(acc, componentId, order[1..], groups, repoIds, rowsOf, matches);
    }
  }

  /** When no path matches, the run inserts nothing. */
  lemma {:induction false} NothingMatchedNothingTallied(acc: Tallies, components: seq<Component>, componentIds: map<string, int>,
                                                        repoIds: map<string, int>, rowsOf: int -> seq<JoinRow>, matches: Matcher)
    requires NeverMatches(rowsOf, matches)
    ensures var r := AggregateFrom(acc, components, componentIds, repoIds, rowsOf, matches);
      r.Success? ==> r.value == acc
    decreases |components|
  {
    if |components| > 0 && components[0].name in componentIds {
      var comp := components[0];
      UnmatchedGroupsAddNothing(acc, componentIds[comp.name], RepoOrder([], comp.paths), GroupFrom(map[], comp.paths),
                                repoIds, rowsOf, matches);
      NothingMatchedNothingTallied(acc, components[1..], componentIds, repoIds, rowsOf, matches);
    }
  }

  /** Since matchPath only accepts paths that start with `^`, a repository
      whose file paths are ordinary relative paths contributes nothing: with
      every component known the result is empty. */
  lemma OrdinaryPathsNeverTallied(components: seq<Component>, componentIds: map<string, int>,
                                  repoIds: map<string, int>, rowsOf: int -> seq<JoinRow>)
    requires forall id, k :: 0 <= k < |rowsOf(id)| ==> |rowsOf(id)[k].filepath| == 0 || rowsOf(id)[k].filepath[0] != '^'
    ensures var r := ComputeContributions(components, componentIds, repoIds, rowsOf, GoMatcher);
      r.Success? ==> r.value == map[]
  {
    forall id, k, p | 0 <= k < |rowsOf(id)|
      ensures !GoMatcher(rowsOf(id)[k].filepath, p)
    {
      if PathMatch.MatchPath(rowsOf(id)[k].filepath, p) {
        PathMatch.MatchPathNeedsCaret(rowsOf(id)[k].filepath, p);
      }
    }
    NothingMatchedNothingTallied(map[], components, componentIds, repoIds, rowsOf, GoMatcher);
  }

  /** The matcher as intended, for comparison. */
  const IntendedMatcher: Matcher := (path, pattern) => PathMatch.IntendedMatch(path, pattern)

  /** The join rows of the example below: one edit of `src/a.go` in repository 7. */
  function ExampleRows(id: int): seq<JoinRow> {
    if id == 7 then [JoinRow("c0ffee", "Ann", "ann@example.com", 10, 2, "src/a.go")] else []
  }

  /** Component `core` gives repository `app` the directory pattern of `src`. */
  const ExampleComponents: seq<Component> := [Component("core", ["app" + [':'] + "src/**"])]

  /** A component with the single entry `repo:pat` has one group, `repo`,
      holding `pat`. */
  lemma SingleEntry(repo: string, pat: string)
    requires ':' !in repo
    ensures var g := GroupFrom(map[], [repo + [':'] + pat]);
      repo in g && g[repo] == [pat]
    ensures RepoOrder([], [repo + [':'] + pat]) == [repo]
  {
    SplitFirstJoin(repo, ':', pat);
    var paths := [repo + [':'] + pat];
    assert paths[1..] == [];
    assert [] + [pat] == [pat];
    assert [] + [repo] == [repo];
  }

  /** The example reduces to one scan of repository 7 with that pattern,
      whatever the matcher. */
  lemma ExampleIsOneScan(matches: Matcher)
    ensures ComputeContributions(ExampleComponents, map["core" := 1], map["app" := 7], ExampleRows, matches)
         == Success(FoldRows(map[], 1, 7, ["src/**"], ExampleRows(7), matches))
  {
    var comp := ExampleComponents[0];
    assert comp.paths == ["app" + [':'] + "src/**"];
    SingleEntry("app", "src/**");
    var groups := GroupFrom(map[], comp.paths);
    var scan := FoldRows(map[], 1, 7, ["src/**"], ExampleRows(7), matches);
    assert GroupStep(map[], 1, "app", groups, map["app" := 7], ExampleRows, matches) == scan;
    assert ["app"][1..] == [];
    assert ProcessGroups(map[], 1, ["app"], groups, map["app" := 7], ExampleRows, matches) == scan;
    var step := ComponentStep(map[], 1, comp, map["app" := 7], ExampleRows, matches);
    assert step == scan;
    var ids := map["core" := 1];
    assert comp.name in ids && ids[comp.name] == 1;
    assert ExampleComponents[1..] == [];
    assert AggregateFrom(step, [], ids, map["app" := 7], ExampleRows, matches) == Success(step);
    assert AggregateFrom(map[], ExampleComponents, ids, map["app" := 7], ExampleRows, matches)
        == AggregateFrom(step, ExampleComponents[1..], ids, map["app" := 7], ExampleRows, matches);
  }

  /** As written, `src/a.go` is not tallied for the component. */
  lemma ExampleAsWritten()
    ensures ComputeContributions(ExampleComponents, map["core" := 1], map["app" := 7], ExampleRows, GoMatcher) == Success(map[])
  {
    ExampleIsOneScan(GoMatcher);
    PathMatch.DirectoryPatternAsWritten();
    assert !GoMatcher("src/a.go", "src/**");
  }

  /** One row scanned from nothing: a tally of that row alone, or nothing. */
  lemma OneRowScan(componentId: int, repoId: int, pats: seq<string>, row: JoinRow, matches: Matcher)
    ensures FoldRows(map[], componentId, repoId, pats, [row], matches)
         == if MatchesAny(row.filepath, pats, matches)
            then map[Key(componentId, repoId, row.email) := Tally(row.author, 1, row.additions, row.deletions)]
            else map[]
  {
    assert [row][1..] == [];
    assert SumAdditions([row]) == row.additions;
    assert SumDeletions([row]) == row.deletions;
  }

  /** As intended, the edit is tallied under (core, app, its author). */
  lemma ExampleAsIntended()
    ensures ComputeContributions(ExampleComponents, map["core" := 1], map["app" := 7], ExampleRows, IntendedMatcher)
         == Success(map[Key(1, 7, "ann@example.com") := Tally("Ann", 1, 10, 2)])
  {
    ExampleIsOneScan(IntendedMatcher);
    PathMatch.DirectoryPatternAsWritten();
    var row := ExampleRows(7)[0];
    assert ExampleRows(7) == [row];
    assert MatchesAny(row.filepath, ["src/**"], IntendedMatcher) by {
      assert IntendedMatcher(row.filepath, ["src/**"][0]);
    }
    OneRowScan(1, 7, ["src/**"], row, IntendedMatcher);
  }

  // ------------------------------------------ commits per row, not per commit

  /** The hashes of a batch of rows. */
  function HashesOf(ms: seq<JoinRow>): set<string>
    decreases |ms|
  {
    if |ms| == 0 then {} else {ms[0].hash} + HashesOf(ms[1..])
  }

  /** As written, two matched file rows of one commit count as two commits. */
  lemma RowsCountedNotCommits()
    ensures var rows := [JoinRow("c0ffee", "Ann", "ann@example.com", 10, 2, "src/a.go"),
                         JoinRow("c0ffee", "Ann", "ann@example.com", 0, 5, "src/b.go")];
      var t := FoldRows(map[], 1, 1, ["src/**"], rows, (path, pat) => true);
      && |HashesOf(rows)| == 1
      && Key(1, 1, "ann@example.com") in t
      && t[Key(1, 1, "ann@example.com")] == Tally("Ann", 2, 10, 7)
  {
    var rows := [JoinRow("c0ffee", "Ann", "ann@example.com", 10, 2, "src/a.go"),
                 JoinRow("c0ffee", "Ann", "ann@example.com", 0, 5, "src/b.go")];
    assert rows[1..][1..] == [];
  }

  /** There are never more distinct hashes than rows, and strictly fewer
      when two rows share a hash. */
  lemma {:induction false} HashesOfSize(ms: seq<JoinRow>)
    ensures |HashesOf(ms)| <= |ms|
    ensures (exists i, j :: 0 <= i < j < |ms| && ms[i].hash == ms[j].hash) ==> |HashesOf(ms)| < |ms|
    decreases |ms|
  {
    if |ms| > 0 {
      HashesOfSize(ms[1..]);
      if exists i, j :: 0 <= i < j < |ms| && ms[i].hash == ms[j].hash {
        var i, j :| 0 <= i < j < |ms| && ms[i].hash == ms[j].hash;
        if i == 0 {
          assert ms[1..][j - 1] == ms[j];
          assert ms[0].hash in HashesOf(ms[1..]) by {
            HashInHashesOf(ms[1..], j - 1);
          }
          assert HashesOf(ms) == HashesOf(ms[1..]);
        } else {
          assert ms[1..][i - 1] == ms[i] && ms[1..][j - 1] == ms[j];
        }
      }
    }
  }

  lemma {:induction false} HashInHashesOf(ms: seq<JoinRow>, i: nat)
    requires i < |ms|
    ensures ms[i].hash in HashesOf(ms)
    decreases i
  {
    if i > 0 {
      HashInHashesOf(ms[1..], i - 1);
      assert ms[1..][i - 1] == ms[i];
    }
  }

  /** As written, a key's commit count is its number of matched rows, which
      exceeds its number of distinct commits as soon as one commit has two
      matched files. */
  lemma SharedCommitOvercounted(componentId: int, repoId: int, pats: seq<string>, rows: seq<JoinRow>, matches: Matcher, k: Key)
    ensures var ms := Picked(k, componentId, repoId, pats, rows, matches);
      Lookup(FoldRows(map[], componentId, repoId, pats, rows, matches), k).commits == |ms| >= |HashesOf(ms)|
    ensures var ms := Picked(k, componentId, repoId, pats, rows, matches);
      (exists i, j :: 0 <= i < j < |ms| && ms[i].hash == ms[j].hash) ==>
        Lookup(FoldRows(map[], componentId, repoId, pats, rows, matches), k).commits > |HashesOf(ms)|
  {
    FoldRowsSpec(map[], componentId, repoId, pats, rows, matches, k);
    HashesOfSize(Picked(k, componentId, repoId, pats, rows, matches));
  }

  /** The totals of a key as the schema intends them: commit_count is the
      number of distinct hashes matched. */
  datatype DistinctTally = DistinctTally(author: string, hashes: set<string>, additions: int, deletions: int)

  function LookupDistinct(m: map<Key, DistinctTally>, k: Key): DistinctTally {
    if k in m then m[k] else DistinctTally("", {}, 0, 0)
  }

  /** Adds one matched row to a key's distinct totals. */
  function CountDistinct(t: DistinctTally, row: JoinRow): DistinctTally {
    DistinctTally(row.author, t.hashes + {row.hash}, t.additions + row.additions, t.deletions + row.deletions)
  }

  /** The scan of one group keeping a set of hashes per key. */
  function FoldRowsDistinct(acc: map<Key, DistinctTally>, componentId: int, repoId: int, pats: seq<string>,
                            rows: seq<JoinRow>, matches: Matcher): (r: map<Key, DistinctTally>)
    ensures forall k :: k in acc ==> k in r
    ensures forall k :: k in r && k !in acc ==> k.componentId == componentId && k.repoId == repoId
    decreases |rows|
  {
    if |rows| == 0 then acc
    else
      var row := rows[0];
      var key := Key(componentId, repoId, row.email);
      var acc' := if MatchesAny(row.filepath, pats, matches) then acc[key := CountDistinct(LookupDistinct(acc, key), row)] else acc;
      FoldRowsDistinct(acc', componentId, repoId, pats, rows[1..], matches)
  }

  /** With the correction a key's commit count is the number of distinct
      commits among its matched rows. */
  lemma {:induction false} FoldRowsDistinctCountsCommits(acc: map<Key, DistinctTally>, componentId: int, repoId: int,
                                                         pats: seq<string>, rows: seq<JoinRow>, matches: Matcher, k: Key)
    ensures LookupDistinct(FoldRowsDistinct(acc, componentId, repoId, pats, rows, matches), k).hashes
         == LookupDistinct(acc, k).hashes + HashesOf(Picked(k, componentId, repoId, pats, rows, matches))
    decreases |rows|
  {
    if |rows| > 0 {
      var row := rows[0];
      var key := Key(componentId, repoId, row.email);
      var hit := MatchesAny(row.filepath, pats, matches);
      var acc' := if hit then acc[key := CountDistinct(LookupDistinct(acc, key), row)] else acc;
      FoldRowsDistinctCountsCommits(acc', componentId, repoId, pats, rows[1..], matches, k);
      var ms' := Picked(k, componentId, repoId, pats, rows[1..], matches);
      if hit && k == key {
        assert Picked(k, componentId, repoId, pats, rows, matches) == [row] + ms';
        assert ([row] + ms')[1..] == ms';
      } else {
        assert k.componentId == componentId && k.repoId == repoId ==> k.email != row.email || !hit;
        assert Picked(k, componentId, repoId, pats, rows, matches) == [] + ms' == ms';
        assert LookupDistinct(acc', k) == LookupDistinct(acc, k);
      }
    }
  }

  /** The corrected scan counts the example above as one commit. */
  lemma DistinctCountsOneCommit()
    ensures var rows := [JoinRow("c0ffee", "Ann", "ann@example.com", 10, 2, "src/a.go"),
                         JoinRow("c0ffee", "Ann", "ann@example.com", 0, 5, "src/b.go")];
      var t := FoldRowsDistinct(map[], 1, 1, ["src/**"], rows, (path, pat) => true);
      Key(1, 1, "ann@example.com") in t && |t[Key(1, 1, "ann@example.com")].hashes| == 1
  {
  }
}
