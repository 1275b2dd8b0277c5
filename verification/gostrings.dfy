/** The helpers of Go's `strings` and `strconv` packages that the report
    generator calls, on byte strings: a Dafny `char` stands for one byte of a
    Go string. Lemmas below relate each helper to an inverse or to a
    characterisation of its own, where the model relies on one. */
module GoStrings {
  import opened Wrappers

  // ------------------------------------------------------------ searching

  /** strings.HasPrefix */
  predicate HasPrefix(s: string, prefix: string) {
    |prefix| <= |s| && s[..|prefix|] == prefix
  }

  /** strings.Contains: some suffix of `s` starts with `sub`. */
  predicate Contains(s: string, sub: string)
    decreases |s|
  {
    HasPrefix(s, sub) || (|s| > 0 && Contains(s[1..], sub))
  }

  /** `sub` occurs in `s` starting at index `k`. */
  predicate OccursAt(s: string, sub: string, k: nat) {
    k + |sub| <= |s| && s[k..k + |sub|] == sub
  }

  /** Contains means an occurrence at some index, in both directions. */
  lemma {:induction false} ContainsOccurs(s: string, sub: string)
    ensures Contains(s, sub) <==> exists k: nat :: OccursAt(s, sub, k)
    decreases |s|
  {
    if Contains(s, sub) {
      if HasPrefix(s, sub) {
        assert OccursAt(s, sub, 0);
      } else {
        ContainsOccurs(s[1..], sub);
        var k: nat :| OccursAt(s[1..], sub, k);
        assert s[1..][k..k + |sub|] == s[k + 1..k + 1 + |sub|];
        assert OccursAt(s, sub, k + 1);
      }
    }
    if exists k: nat :: OccursAt(s, sub, k) {
      var k: nat :| OccursAt(s, sub, k);
      if k == 0 {
        assert HasPrefix(s, sub);
      } else {
        assert s[1..][k - 1..k - 1 + |sub|] == s[k..k + |sub|];
        assert OccursAt(s[1..], sub, k - 1);
        ContainsOccurs(s[1..], sub);
      }
    }
  }

  // ------------------------------------------------------------ replacing

  /** strings.ReplaceAll for a non-empty `target`: every leftmost,
      non-overlapping occurrence of `target` is replaced by `repl`. */
  function ReplaceAll(s: string, target: string, repl: string): (r: string)
    requires |target| > 0
    ensures forall c :: c in r ==> c in s || c in repl
    decreases |s|
  {
    if |s| < |target| then s
    else if s[..|target|] == target then repl + ReplaceAll(s[|target|..], target, repl)
    else [s[0]] + ReplaceAll(s[1..], target, repl)
  }

  /** Replacing a string that does not occur changes nothing. */
  lemma {:induction false} ReplaceAllAbsent(s: string, target: string, repl: string)
    requires |target| > 0
    requires !Contains(s, target)
    ensures ReplaceAll(s, target, repl) == s
    decreases |s|
  {
    if |s| >= |target| {
      assert !HasPrefix(s, target);
      ReplaceAllAbsent(s[1..], target, repl);
      assert [s[0]] + s[1..] == s;
    }
  }

  /** The first occurrence is replaced and the scan resumes right after it:
      when `target` starts nowhere inside `a`, the text `a + target + b`
      becomes `a + repl` followed by the replacement of `b`. With
      ReplaceAllAbsent this fixes the result for every text. */
  lemma {:induction false} ReplaceAllFirst(a: string, target: string, b: string, repl: string)
    requires |target| > 0
    requires !Contains(a + target[..|target| - 1], target)
    ensures ReplaceAll(a + target + b, target, repl) == a + repl + ReplaceAll(b, target, repl)
    decreases |a|
  {
    if |a| == 0 {
      ReplaceAllHit(target, b, repl);
    } else {
      NoEarlierOccurrence(a, target, b);
      ReplaceAllFirst(a[1..], target, b, repl);
      ReplaceAllMiss(a, target, b, repl);
      ConsAppend(a, repl, ReplaceAll(b, target, repl));
    }
  }

  /** Putting the first byte back in front of the tail. */
  lemma ConsAppend(a: string, x: string, y: string)
    requires |a| > 0
    ensures [a[0]] + (a[1..] + x + y) == a + x + y
  {
    assert a == [a[0]] + a[1..];
  }

  /** A text that starts with `target` has it replaced first. */
  lemma ReplaceAllHit(target: string, b: string, repl: string)
    requires |target| > 0
    ensures ReplaceAll(target + b, target, repl) == repl + ReplaceAll(b, target, repl)
  {
    var s := target + b;
    assert s[..|target|] == target;
    assert s[|target|..] == b;
  }

  /** A text `a + target + b` that `target` does not start keeps its first byte. */
  lemma ReplaceAllMiss(a: string, target: string, b: string, repl: string)
    requires |a| > 0 && |target| > 0
    requires !HasPrefix(a + target + b, target)
    ensures ReplaceAll(a + target + b, target, repl) == [a[0]] + ReplaceAll(a[1..] + target + b, target, repl)
  {
    assert (a + target + b)[1..] == a[1..] + target + b;
  }

  /** When `target` starts nowhere inside a non-empty `a`, it does not start
      `a + target + b`, nor anywhere inside `a[1..]`. */
  lemma NoEarlierOccurrence(a: string, target: string, b: string)
    requires |a| > 0 && |target| > 0
    requires !Contains(a + target[..|target| - 1], target)
    ensures !HasPrefix(a + target + b, target)
    ensures !Contains(a[1..] + target[..|target| - 1], target)
  {
    var front := a + target[..|target| - 1];
    assert front[1..] == a[1..] + target[..|target| - 1];
    assert (a + target + b)[..|target|] == front[..|target|];
  }

  // ------------------------------------------------------ splitting, joining

  /** strings.Split on a one-byte separator: the pieces between separators,
      including empty ones; never an empty list. */
  function Split(s: string, sep: char): (parts: seq<string>)
    ensures |parts| >= 1
    ensures forall k :: 0 <= k < |parts| ==> sep !in parts[k]
    decreases |s|
  {
    if |s| == 0 then [""]
    else
      var rest := Split(s[1..], sep);
      if s[0] == sep then [""] + rest
      else [[s[0]] + rest[0]] + rest[1..]
  }

  /** strings.Join */
  function Join(parts: seq<string>, sep: string): string
    decreases |parts|
  {
    if |parts| == 0 then ""
    else if |parts| == 1 then parts[0]
    else parts[0] + sep + Join(parts[1..], sep)
  }

  /** Joining the pieces of a split with the separator gives the input back. */
  lemma {:induction false} JoinSplit(s: string, sep: char)
    ensures Join(Split(s, sep), [sep]) == s
    decreases |s|
  {
    if |s| > 0 {
      var rest := Split(s[1..], sep);
      JoinSplit(s[1..], sep);
      if s[0] == sep {
        assert Split(s, sep) == [""] + rest;
        assert ([""] + rest)[1..] == rest;
        assert s == [sep] + s[1..];
      } else {
        var parts := Split(s, sep);
        assert parts == [[s[0]] + rest[0]] + rest[1..];
        if |rest| == 1 {
          assert s == [s[0]] + s[1..];
        } else {
          assert parts[1..] == rest[1..];
          assert Join(rest, [sep]) == rest[0] + [sep] + Join(rest[1..], [sep]);
          assert s == [s[0]] + s[1..];
        }
      }
    }
  }

  /** A separator-free string splits into itself. */
  lemma {:induction false} SplitWhole(p: string, sep: char)
    requires sep !in p
    ensures Split(p, sep) == [p]
    decreases |p|
  {
    if |p| > 0 {
      SplitWhole(p[1..], sep);
      assert [p[0]] + p[1..] == p;
    }
  }

  /** A separator-free head followed by a separator splits off as one piece. */
  lemma {:induction false} SplitHead(p: string, sep: char, t: string)
    requires sep !in p
    ensures Split(p + [sep] + t, sep) == [p] + Split(t, sep)
    decreases |p|
  {
    if |p| == 0 {
      assert p + [sep] + t == [sep] + t;
      assert ([sep] + t)[1..] == t;
    } else {
      var s := p + [sep] + t;
      assert s[1..] == p[1..] + [sep] + t;
      SplitHead(p[1..], sep, t);
      assert [p[0]] + p[1..] == p;
    }
  }

  /** Splitting a join of separator-free pieces gives the pieces back. */
  lemma {:induction false} SplitJoin(parts: seq<string>, sep: char)
    requires |parts| >= 1
    requires forall k :: 0 <= k < |parts| ==> sep !in parts[k]
    ensures Split(Join(parts, [sep]), sep) == parts
    decreases |parts|
  {
    if |parts| == 1 {
      SplitWhole(parts[0], sep);
    } else {
      SplitJoin(parts[1..], sep);
      SplitHead(parts[0], sep, Join(parts[1..], [sep]));
      assert [parts[0]] + parts[1..] == parts;
    }
  }

  /** strings.SplitN(s, [sep], 2): the text before and after the first
      separator, or None when there is no separator (a one-piece result). */
  function SplitFirst(s: string, sep: char): (r: Option<(string, string)>)
    ensures r.None? <==> sep !in s
    ensures r.Some? ==> sep !in r.value.0 && s == r.value.0 + [sep] + r.value.1
    decreases |s|
  {
    if |s| == 0 then None
    else if s[0] == sep then Some(("", s[1..]))
    else match SplitFirst(s[1..], sep)
      case None => None
      case Some((before, after)) => Some(([s[0]] + before, after))
  }

  /** SplitFirst undoes joining two strings with a separator that the first
      does not contain. */
  lemma {:induction false} SplitFirstJoin(a: string, sep: char, b: string)
    requires sep !in a
    ensures SplitFirst(a + [sep] + b, sep) == Some((a, b))
    decreases |a|
  {
    var s := a + [sep] + b;
    if |a| == 0 {
      assert s == [sep] + b;
    } else {
      assert s[1..] == a[1..] + [sep] + b;
      SplitFirstJoin(a[1..], sep, b);
      assert [a[0]] + a[1..] == a;
    }
  }

  // ------------------------------------------------------------- fields

  /** The ASCII white space of unicode.IsSpace. */
  predicate IsSpace(c: char) {
    c == ' ' || c == '\t' || c == '\n' || c == '\r' || c == '\U{B}' || c == '\U{C}'
  }

  /** A non-empty run of non-space bytes: what strings.Fields returns. */
  predicate IsWord(w: string) {
    |w| > 0 && forall k :: 0 <= k < |w| ==> !IsSpace(w[k])
  }

  /** strings.Fields: the maximal runs of non-space bytes, in order. */
  function Fields(s: string): (fs: seq<string>)
    ensures forall k :: 0 <= k < |fs| ==> IsWord(fs[k])
    ensures |s| > 0 && !IsSpace(s[0]) ==> |fs| > 0 && |fs[0]| > 0 && fs[0][0] == s[0]
    ensures |fs| == 0 <==> forall k :: 0 <= k < |s| ==> IsSpace(s[k])
    decreases |s|
  {
    if |s| == 0 then []
    else
      var rest := Fields(s[1..]);
      assert forall k :: 1 <= k < |s| ==> s[1..][k - 1] == s[k];
      if IsSpace(s[0]) then rest
      else if |s| > 1 && !IsSpace(s[1]) then [[s[0]] + rest[0]] + rest[1..]
      else [[s[0]]] + rest
  }

  /** A word followed by nothing or by white space is a field of its own. */
  lemma {:induction false} FieldsWord(w: string, t: string)
    requires IsWord(w)
    requires |t| == 0 || IsSpace(t[0])
    ensures Fields(w + t) == [w] + Fields(t)
    decreases |w|
  {
    var s := w + t;
    assert s[1..] == w[1..] + t;
    if |w| > 1 {
      FieldsWord(w[1..], t);
      assert [w[0]] + w[1..] == w;
    } else {
      assert w[1..] + t == t;
      assert [s[0]] == w;
      assert |s| > 1 ==> s[1] == t[0];
    }
  }

  /** Fields undoes a join of words with one white-space byte. */
  lemma {:induction false} FieldsJoin(ws: seq<string>, sp: char)
    requires IsSpace(sp)
    requires forall k :: 0 <= k < |ws| ==> IsWord(ws[k])
    ensures Fields(Join(ws, [sp])) == ws
    decreases |ws|
  {
    if |ws| == 1 {
      FieldsWord(ws[0], "");
      assert ws[0] + "" == ws[0];
    } else if |ws| > 1 {
      var t := Join(ws[1..], [sp]);
      FieldsJoin(ws[1..], sp);
      assert ws[0] + [sp] + t == ws[0] + ([sp] + t);
      FieldsWord(ws[0], [sp] + t);
      assert ([sp] + t)[1..] == t;
      assert [ws[0]] + ws[1..] == ws;
    }
  }

  // ------------------------------------------------------------- integers

  predicate IsDigit(c: char) {
    '0' <= c <= '9'
  }

  predicate AllDigits(s: string) {
    forall k :: 0 <= k < |s| ==> IsDigit(s[k])
  }

  /** The value of a string of decimal digits, most significant first. */
  function DecimalValue(s: string): nat
    requires AllDigits(s)
    decreases |s|
  {
    if |s| == 0 then 0
    else DecimalValue(s[..|s| - 1]) * 10 + ((s[|s| - 1] as int) - ('0' as int))
  }

  /** strconv.Atoi's value: an optional sign then one or more decimal digits;
      None is its syntax error. Go's overflow error is not modelled. */
  function ParseInt(s: string): (r: Option<int>)
    ensures r.Some? <==> |s| > 0 && (IsDigit(s[0]) || ((s[0] == '+' || s[0] == '-') && |s| >= 2))
                         && forall k :: 1 <= k < |s| ==> IsDigit(s[k])
    ensures r.Some? && r.value < 0 ==> s[0] == '-'
    ensures r.Some? ==> r.value == (if s[0] == '-' then -1 else 1) * DecimalValue(if IsDigit(s[0]) then s else s[1..])
  {
    var digits := if |s| > 0 && (s[0] == '+' || s[0] == '-') then s[1..] else s;
    if |digits| > 0 && AllDigits(digits) then
      Some(if |s| > 0 && s[0] == '-' then -(DecimalValue(digits) as int) else DecimalValue(digits))
    else None
  }

  /** strconv.Atoi with its error discarded: on a syntax error Go returns 0. */
  function Atoi(s: string): int {
    ParseInt(s).GetOr(0)
  }

  /** The decimal digits of a natural number, without leading zeros. */
  function Digits(n: nat): (s: string)
    ensures |s| > 0 && AllDigits(s)
    ensures DecimalValue(s) == n
    decreases n
  {
    var last := [(('0' as int) + n % 10) as char];
    if n < 10 then last
    else
      var s := Digits(n / 10) + last;
      assert s[..|s| - 1] == Digits(n / 10);
      s
  }

  /** strconv.Itoa */
  function Itoa(n: int): string {
    if n < 0 then "-" + Digits(-n) else Digits(n)
  }

  /** Atoi reads back what Itoa writes. */
  lemma ParseItoa(n: int)
    ensures ParseInt(Itoa(n)) == Some(n)
    ensures Atoi(Itoa(n)) == n
  {
    if n < 0 {
      assert ("-" + Digits(-n))[1..] == Digits(-n);
    }
  }

  /** A count that is not a number, like git's `-` for a binary file, reads as 0. */
  lemma DashIsZero()
    ensures ParseInt("-") == None
    ensures Atoi("-") == 0
  {
  }
}
