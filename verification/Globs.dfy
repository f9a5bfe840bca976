/** Glob matching over path segments. `**` takes zero or more whole segments; any
    other pattern segment takes one segment, by a per-segment test that is a
    parameter here. */
module Globs {
  import opened Ordering
  import opened Text

  type SegmentTest = (string, string) -> bool

  const ANY := "**"

  // ---- what a glob means

  /** Pattern segment `j` takes the path segments from `cuts[j]` to `cuts[j + 1]`. */
  ghost predicate Takes(seg: SegmentTest, parts: seq<string>, pattern: seq<string>, cuts: seq<nat>, j: nat)
    requires j < |pattern| && |cuts| == |pattern| + 1
  {
    && cuts[j] <= cuts[j + 1] <= |parts|
    && (pattern[j] != ANY ==> cuts[j + 1] == cuts[j] + 1 && seg(parts[cuts[j]], pattern[j]))
  }

  ghost predicate Cuts(seg: SegmentTest, parts: seq<string>, pattern: seq<string>, cuts: seq<nat>) {
    && |cuts| == |pattern| + 1
    && cuts[0] == 0 && cuts[|pattern|] == |parts|
    && forall j :: 0 <= j < |pattern| ==> Takes(seg, parts, pattern, cuts, j)
  }

  ghost predicate Means(seg: SegmentTest, parts: seq<string>, pattern: seq<string>) {
    exists cuts: seq<nat> :: Cuts(seg, parts, pattern, cuts)
  }

  /** The same from the back, by recursion. */
  ghost predicate MatchesBack(seg: SegmentTest, parts: seq<string>, pattern: seq<string>)
    decreases |pattern|, 0
  {
    if pattern == [] then parts == []
    else
      var last, rest := pattern[|pattern| - 1], pattern[..|pattern| - 1];
      if last == ANY then MatchesFront(seg, parts, rest)
      else parts != [] && seg(parts[|parts| - 1], last) && MatchesBack(seg, parts[..|parts| - 1], rest)
  }

  /** Some front of the path matches. */
  ghost predicate MatchesFront(seg: SegmentTest, parts: seq<string>, pattern: seq<string>)
    decreases |pattern|, 1
  {
    exists k :: 0 <= k <= |parts| && MatchesBack(seg, parts[..k], pattern)
  }

  lemma {:induction false} BackMeans(seg: SegmentTest, parts: seq<string>, pattern: seq<string>)
    ensures MatchesBack(seg, parts, pattern) ==> Means(seg, parts, pattern)
    decreases |pattern|
  {
    if MatchesBack(seg, parts, pattern) {
      if pattern == [] {
        assert Cuts(seg, parts, pattern, [0]);
      } else {
        var n := |pattern| - 1;
        var k: nat := |parts|;
        if pattern[n] == ANY {
          assert MatchesFront(seg, parts, pattern[..n]);
          k :| 0 <= k <= |parts| && MatchesBack(seg, parts[..k], pattern[..n]);
        } else {
          k := |parts| - 1;
        }
        BackMeans(seg, parts[..k], pattern[..n]);
        var cuts: seq<nat> :| Cuts(seg, parts[..k], pattern[..n], cuts);
        var cuts': seq<nat> := cuts + [|parts|];
        forall j | 0 <= j < |pattern|
          ensures Takes(seg, parts, pattern, cuts', j)
        {
          if j < n {
            assert Takes(seg, parts[..k], pattern[..n], cuts, j);
          }
        }
        assert Cuts(seg, parts, pattern, cuts');
      }
    }
  }

  lemma {:induction false} MeansBack(seg: SegmentTest, parts: seq<string>, pattern: seq<string>, cuts: seq<nat>)
    requires Cuts(seg, parts, pattern, cuts)
    ensures MatchesBack(seg, parts, pattern)
    decreases |pattern|
  {
    if pattern != [] {
      var n := |pattern| - 1;
      var k, cuts' := cuts[n], cuts[..n + 1];
      assert Takes(seg, parts, pattern, cuts, n);
      CutsRise(seg, parts, pattern, cuts, n);
      forall j | 0 <= j < n
        ensures Takes(seg, parts[..k], pattern[..n], cuts', j)
      {
        assert Takes(seg, parts, pattern, cuts, j);
        CutsRise(seg, parts, pattern, cuts, j + 1);
      }
      MeansBack(seg, parts[..k], pattern[..n], cuts');
    }
  }

  lemma {:induction false} CutsRise(seg: SegmentTest, parts: seq<string>, pattern: seq<string>, cuts: seq<nat>, j: nat)
    requires Cuts(seg, parts, pattern, cuts) && j <= |pattern|
    ensures forall i :: j <= i <= |pattern| ==> cuts[j] <= cuts[i]
    decreases |pattern| - j
  {
    if j < |pattern| {
      assert Takes(seg, parts, pattern, cuts, j);
      CutsRise(seg, parts, pattern, cuts, j + 1);
    }
  }

  // ---- collapsing runs of `**`

  function Collapse(pattern: seq<string>): seq<string> {
    if pattern == [] then []
    else
      var c, last := Collapse(pattern[..|pattern| - 1]), pattern[|pattern| - 1];
      if last == ANY && c != [] && c[|c| - 1] == ANY then c else c + [last]
  }

  lemma {:induction false} CollapseLast(pattern: seq<string>)
    ensures pattern == [] <==> Collapse(pattern) == []
    ensures pattern != [] ==> Collapse(pattern)[|Collapse(pattern)| - 1] == pattern[|pattern| - 1]
  {
    if pattern != [] {
      CollapseLast(pattern[..|pattern| - 1]);
    }
  }

  lemma {:induction false} CollapseMatches(seg: SegmentTest, parts: seq<string>, pattern: seq<string>)
    ensures MatchesBack(seg, parts, Collapse(pattern)) <==> MatchesBack(seg, parts, pattern)
    decreases |pattern|
  {
    if pattern != [] {
      var rest, last := pattern[..|pattern| - 1], pattern[|pattern| - 1];
      var c := Collapse(rest);
      CollapseLast(rest);
      forall k | 0 <= k <= |parts|
        ensures MatchesBack(seg, parts[..k], c) <==> MatchesBack(seg, parts[..k], rest)
      {
        CollapseMatches(seg, parts[..k], rest);
      }
      assert MatchesFront(seg, parts, c) <==> MatchesFront(seg, parts, rest);
      if last == ANY && c != [] && c[|c| - 1] == ANY {
        AnyTwice(seg, parts, c);
      } else {
        assert (c + [last])[..|c|] == c;
      }
    }
  }

  /** A `**` after a `**` adds nothing. */
  lemma AnyTwice(seg: SegmentTest, parts: seq<string>, c: seq<string>)
    requires c != [] && c[|c| - 1] == ANY
    ensures MatchesBack(seg, parts, c) <==> MatchesFront(seg, parts, c)
  {
    assert parts[..|parts|] == parts;
    if MatchesFront(seg, parts, c) {
      var k :| 0 <= k <= |parts| && MatchesBack(seg, parts[..k], c);
      assert MatchesFront(seg, parts[..k], c[..|c| - 1]);
      FrontOfFront(seg, parts, k, c[..|c| - 1]);
    }
  }

  lemma FrontOfFront(seg: SegmentTest, parts: seq<string>, k: nat, pattern: seq<string>)
    requires k <= |parts| && MatchesFront(seg, parts[..k], pattern)
    ensures MatchesFront(seg, parts, pattern)
  {
    var l :| 0 <= l <= k && MatchesBack(seg, parts[..k][..l], pattern);
    TakeTake(parts, k, l);
  }

  /** Collapsing does not change what a pattern means. */
  lemma CollapseMeans(seg: SegmentTest, parts: seq<string>, pattern: seq<string>)
    ensures Means(seg, parts, Collapse(pattern)) <==> Means(seg, parts, pattern)
  {
    MeansIsBack(seg, parts, pattern);
    MeansIsBack(seg, parts, Collapse(pattern));
    CollapseMatches(seg, parts, pattern);
  }

  lemma MeansIsBack(seg: SegmentTest, parts: seq<string>, pattern: seq<string>)
    ensures Means(seg, parts, pattern) <==> MatchesBack(seg, parts, pattern)
  {
    BackMeans(seg, parts, pattern);
    if Means(seg, parts, pattern) {
      var cuts: seq<nat> :| Cuts(seg, parts, pattern, cuts);
      MeansBack(seg, parts, pattern, cuts);
    }
  }

  // ---- the recursive matcher, from the front

  ghost predicate MatchAt(seg: SegmentTest, parts: seq<string>, pattern: seq<string>, i: nat, j: nat)
    requires i <= |parts| && j <= |pattern|
    decreases |pattern| - j, 0
  {
    if j == |pattern| then i == |parts|
    else if pattern[j] == ANY then MatchAtSome(seg, parts, pattern, i, j + 1)
    else i < |parts| && seg(parts[i], pattern[j]) && MatchAt(seg, parts, pattern, i + 1, j + 1)
  }

  ghost predicate MatchAtSome(seg: SegmentTest, parts: seq<string>, pattern: seq<string>, i: nat, j: nat)
    requires i <= |parts| && j <= |pattern|
    decreases |pattern| - j, 1
  {
    exists k: nat :: i <= k <= |parts| && MatchAt(seg, parts, pattern, k, j)
  }

  /** Cuts for the pattern from `j` on and the path from `i` on. */
  ghost predicate CutsFrom(seg: SegmentTest, parts: seq<string>, pattern: seq<string>, cuts: seq<nat>, i: nat, j: nat) {
    && j <= |pattern| && |cuts| == |pattern| + 1
    && cuts[j] == i && cuts[|pattern|] == |parts|
    && forall l :: j <= l < |pattern| ==> Takes(seg, parts, pattern, cuts, l)
  }

  lemma {:induction false} FrontCuts(seg: SegmentTest, parts: seq<string>, pattern: seq<string>, i: nat, j: nat)
    requires i <= |parts| && j <= |pattern| && MatchAt(seg, parts, pattern, i, j)
    ensures exists cuts: seq<nat> :: CutsFrom(seg, parts, pattern, cuts, i, j)
    decreases |pattern| - j
  {
    if j == |pattern| {
      assert CutsFrom(seg, parts, pattern, seq<nat>(|pattern| + 1, _ => i), i, j);
    } else {
      var k := i + 1;
      if pattern[j] == ANY {
        assert MatchAtSome(seg, parts, pattern, i, j + 1);
        k :| i <= k <= |parts| && MatchAt(seg, parts, pattern, k, j + 1);
      }
      FrontCuts(seg, parts, pattern, k, j + 1);
      var cuts: seq<nat> :| CutsFrom(seg, parts, pattern, cuts, k, j + 1);
      var cuts': seq<nat> := cuts[j := i];
      forall l | j <= l < |pattern|
        ensures Takes(seg, parts, pattern, cuts', l)
      {
        assert l == j || Takes(seg, parts, pattern, cuts, l);
      }
      assert CutsFrom(seg, parts, pattern, cuts', i, j);
    }
  }

  lemma {:induction false} CutsFront(seg: SegmentTest, parts: seq<string>, pattern: seq<string>, cuts: seq<nat>,
                                     i: nat, j: nat)
    requires i <= |parts| && CutsFrom(seg, parts, pattern, cuts, i, j)
    ensures MatchAt(seg, parts, pattern, i, j)
    decreases |pattern| - j
  {
    if j < |pattern| {
      assert Takes(seg, parts, pattern, cuts, j);
      CutsFront(seg, parts, pattern, cuts, cuts[j + 1], j + 1);
    }
  }

  lemma MatchAtMeans(seg: SegmentTest, parts: seq<string>, pattern: seq<string>)
    ensures MatchAt(seg, parts, pattern, 0, 0) <==> Means(seg, parts, pattern)
  {
    if MatchAt(seg, parts, pattern, 0, 0) {
      FrontCuts(seg, parts, pattern, 0, 0);
      var cuts: seq<nat> :| CutsFrom(seg, parts, pattern, cuts, 0, 0);
      assert Cuts(seg, parts, pattern, cuts);
    }
    if Means(seg, parts, pattern) {
      var cuts: seq<nat> :| Cuts(seg, parts, pattern, cuts);
      assert CutsFrom(seg, parts, pattern, cuts, 0, 0);
      CutsFront(seg, parts, pattern, cuts, 0, 0);
    }
  }

  // ---- the work left to do

  /** A path index and a pattern index. */
  datatype Cell = Cell(i: nat, j: nat)

  type Memo = map<Cell, bool>

  /** The calls the body of cell `(i, j)` can make. */
  function Fan(pattern: seq<string>, n: nat, i: nat, j: nat): nat
    requires i <= n && j < |pattern|
  {
    if pattern[j] == ANY then n + 1 - i else 1
  }

  /** Calls still to be made from the cells `(0..i, j)` missing from the memo. */
  function RowWork(pattern: seq<string>, n: nat, memo: Memo, i: nat, j: nat): nat
    requires i <= n + 1 && j < |pattern|
  {
    if i == 0 then 0
    else RowWork(pattern, n, memo, i - 1, j) + if Cell(i - 1, j) in memo then 0 else Fan(pattern, n, i - 1, j)
  }

  function Work(pattern: seq<string>, n: nat, memo: Memo, j: nat): nat
    requires j <= |pattern|
  {
    if j == 0 then 0 else Work(pattern, n, memo, j - 1) + RowWork(pattern, n, memo, n + 1, j - 1)
  }

  lemma {:induction false} RowWorkAfter(pattern: seq<string>, n: nat, memo: Memo, i: nat, j: nat, key: Cell, b: bool)
    requires i <= n + 1 && j < |pattern| && key !in memo && key.i <= n
    ensures RowWork(pattern, n, memo[key := b], i, j)
            + (if key.j == j && key.i < i then Fan(pattern, n, key.i, j) else 0)
         == RowWork(pattern, n, memo, i, j)
    decreases i
  {
    if i > 0 {
      RowWorkAfter(pattern, n, memo, i - 1, j, key, b);
    }
  }

  lemma {:induction false} WorkAfter(pattern: seq<string>, n: nat, memo: Memo, j: nat, key: Cell, b: bool)
    requires j <= |pattern| && key !in memo && key.i <= n
    ensures Work(pattern, n, memo[key := b], j) + (if key.j < j then Fan(pattern, n, key.i, key.j) else 0)
         == Work(pattern, n, memo, j)
  {
    if j > 0 {
      WorkAfter(pattern, n, memo, j - 1, key, b);
      RowWorkAfter(pattern, n, memo, n + 1, j - 1, key, b);
    }
  }

  lemma {:induction false} RowWorkBound(pattern: seq<string>, n: nat, i: nat, j: nat)
    requires i <= n + 1 && j < |pattern|
    ensures 2 * RowWork(pattern, n, map[], i, j) <= i * (2 * n + 3 - i)
  {
    if i > 0 {
      RowWorkBound(pattern, n, i - 1, j);
      assert i * (2 * n + 3 - i) == (i - 1) * (2 * n + 3 - (i - 1)) + 2 * (n + 2 - i);
    }
  }

  /** Quadratic in the path and linear in the pattern, however many `**` it has. */
  lemma {:induction false} WorkBound(pattern: seq<string>, n: nat, j: nat)
    requires j <= |pattern|
    ensures 2 * Work(pattern, n, map[], j) <= j * ((n + 1) * (n + 2))
  {
    if j > 0 {
      WorkBound(pattern, n, j - 1);
      RowWorkBound(pattern, n, n + 1, j - 1);
      assert (n + 1) * (2 * n + 3 - (n + 1)) == (n + 1) * (n + 2);
      assert j * ((n + 1) * (n + 2)) == (j - 1) * ((n + 1) * (n + 2)) + (n + 1) * (n + 2);
    }
  }

  // ---- the memoised matcher

  function Count(bodies: map<Cell, nat>, key: Cell): nat {
    if key in bodies then bodies[key] else 0
  }

  /** Every memo entry is what the specification says. */
  ghost predicate Correct(seg: SegmentTest, parts: seq<string>, collapsed: seq<string>, memo: Memo) {
    forall key :: key in memo ==>
      key.i <= |parts| && key.j <= |collapsed| && memo[key] == MatchAt(seg, parts, collapsed, key.i, key.j)
  }

  /** From row `j` on, a cell's body has run once if it is in the memo and not at all
      if it is not. */
  ghost predicate RunOnce(memo: Memo, bodies: map<Cell, nat>, j: nat) {
    forall key: Cell :: key.j >= j ==> Count(bodies, key) == if key in memo then 1 else 0
  }

  /** Entries stay, and rows before `j` are left alone. */
  ghost predicate RowsKept(memo: Memo, bodies: map<Cell, nat>, memo': Memo, bodies': map<Cell, nat>, j: nat) {
    && (forall key :: key in memo ==> key in memo' && memo'[key] == memo[key])
    && (forall key :: key in memo' && key.j < j ==> key in memo)
    && (forall key: Cell :: key.j < j ==> Count(bodies', key) == Count(bodies, key))
  }

  lemma RowsKeptTransitive(m0: Memo, b0: map<Cell, nat>, m1: Memo, b1: map<Cell, nat>,
                           m2: Memo, b2: map<Cell, nat>, j: nat)
    requires RowsKept(m0, b0, m1, b1, j) && RowsKept(m1, b1, m2, b2, j)
    ensures RowsKept(m0, b0, m2, b2, j)
  {
  }

  /** Storing a cell's result after its body has run. */
  lemma CellDone(seg: SegmentTest, parts: seq<string>, collapsed: seq<string>, key: Cell, r: bool,
                 m: Memo, b: map<Cell, nat>, m': Memo, b': map<Cell, nat>)
    requires key.i <= |parts| && key.j <= |collapsed| && r == MatchAt(seg, parts, collapsed, key.i, key.j)
    requires key !in m && RunOnce(m, b, key.j)
    requires Correct(seg, parts, collapsed, m') && RunOnce(m', b', key.j + 1)
    requires RowsKept(m, b[key := Count(b, key) + 1], m', b', key.j + 1)
    ensures key !in m'
    ensures Correct(seg, parts, collapsed, m'[key := r]) && RunOnce(m'[key := r], b', key.j)
    ensures RowsKept(m, b, m'[key := r], b', key.j)
  {
  }

  class Matcher {
    const seg: SegmentTest
    const parts: seq<string>
    const collapsed: seq<string>
    var memo: Memo
    /** Calls of `Match` so far, and how often each cell's body has run. */
    ghost var calls: nat
    ghost var bodies: map<Cell, nat>

    constructor (seg: SegmentTest, parts: seq<string>, pattern: seq<string>)
      ensures this.seg == seg && this.parts == parts && collapsed == Collapse(pattern)
      ensures memo == map[] && calls == 0 && bodies == map[]
    {
      this.seg, this.parts := seg, parts;
      var c: seq<string> := [];
      for i := 0 to |pattern|
        invariant c == Collapse(pattern[..i])
      {
        assert pattern[..i + 1][..i] == pattern[..i];
        if pattern[i] == ANY && c != [] && c[|c| - 1] == ANY {
          continue;
        }
        c := c + [pattern[i]];
      }
      assert pattern[..|pattern|] == pattern;
      collapsed := c;
      memo, calls, bodies := map[], 0, map[];
    }

    ghost predicate MemoCorrect()
      reads this
    {
      Correct(seg, parts, collapsed, memo)
    }

    ghost function Left(): nat
      reads this
    {
      Work(collapsed, |parts|, memo, |collapsed|)
    }

    method Match(i: nat, j: nat) returns (r: bool)
      requires i <= |parts| && j <= |collapsed| && MemoCorrect() && RunOnce(memo, bodies, j)
      modifies this
      ensures MemoCorrect() && RunOnce(memo, bodies, j) && RowsKept(old(memo), old(bodies), memo, bodies, j)
      ensures r == MatchAt(seg, parts, collapsed, i, j)
      ensures calls + Left() <= old(calls) + 1 + old(Left())
      decreases |collapsed| - j, 1
    {
      var key := Cell(i, j);
      calls := calls + 1;
      if key in memo {
        return memo[key];
      }
      ghost var m, b := memo, bodies;
      bodies := bodies[key := Count(bodies, key) + 1];
      r := MatchBody(i, j);
      CellDone(seg, parts, collapsed, key, r, m, b, memo, bodies);
      WorkAfter(collapsed, |parts|, memo, |collapsed|, key, r);
      memo := memo[key := r];
    }

    method MatchBody(i: nat, j: nat) returns (r: bool)
      requires i <= |parts| && j <= |collapsed| && MemoCorrect() && RunOnce(memo, bodies, j + 1)
      modifies this
      ensures MemoCorrect() && RunOnce(memo, bodies, j + 1) && RowsKept(old(memo), old(bodies), memo, bodies, j + 1)
      ensures r == MatchAt(seg, parts, collapsed, i, j)
      ensures calls + Left()
           <= old(calls) + (if j < |collapsed| then Fan(collapsed, |parts|, i, j) else 0) + old(Left())
      decreases |collapsed| - j, 0
    {
      r := false;
      if j == |collapsed| {
        r := i == |parts|;
      } else if collapsed[j] == ANY {
        r := AnyMatches(i, j + 1);
      } else if i < |parts| && seg(parts[i], collapsed[j]) {
        r := Match(i + 1, j + 1);
      }
    }

    /** Tries every place where the rest of the pattern may start, in order, up to the
        first that matches. */
    method AnyMatches(i: nat, j: nat) returns (r: bool)
      requires i <= |parts| && j <= |collapsed| && MemoCorrect() && RunOnce(memo, bodies, j)
      modifies this
      ensures MemoCorrect() && RunOnce(memo, bodies, j) && RowsKept(old(memo), old(bodies), memo, bodies, j)
      ensures r <==> MatchAtSome(seg, parts, collapsed, i, j)
      ensures calls + Left() <= old(calls) + (|parts| + 1 - i) + old(Left())
      decreases |collapsed| - j, 2
    {
      for k := i to |parts| + 1
        invariant MemoCorrect() && RunOnce(memo, bodies, j) && RowsKept(old(memo), old(bodies), memo, bodies, j)
        invariant forall l: nat :: i <= l < k ==> !MatchAt(seg, parts, collapsed, l, j)
        invariant calls + Left() <= old(calls) + (k - i) + old(Left())
      {
        ghost var m, b := memo, bodies;
        var found := Match(k, j);
        RowsKeptTransitive(old(memo), old(bodies), m, b, memo, bodies, j);
        if found {
          return true;
        }
      }
      return false;
    }
  }

  /** The matcher refines the meaning of the pattern as written, runs no cell's body
      twice, and stays within the work bound. */
  method MatchSegments(seg: SegmentTest, parts: seq<string>, pattern: seq<string>)
    returns (r: bool, ghost calls: nat, ghost bodies: map<Cell, nat>)
    ensures r <==> Means(seg, parts, pattern)
    ensures forall cell :: Count(bodies, cell) <= 1
    ensures 2 * calls <= 2 + |Collapse(pattern)| * ((|parts| + 1) * (|parts| + 2))
  {
    var m := new Matcher(seg, parts, pattern);
    WorkBound(m.collapsed, |parts|, |m.collapsed|);
    r := m.Match(0, 0);
    calls, bodies := m.calls, m.bodies;
    MatchAtMeans(seg, parts, m.collapsed);
    CollapseMeans(seg, parts, pattern);
  }

  // ---- paths and patterns as text

  function Slashes(s: string): string {
    seq(|s|, i requires 0 <= i < |s| => if s[i] == '\\' then '/' else s[i])
  }

  function NonEmpty(parts: seq<string>): (r: seq<string>)
    ensures forall i :: 0 <= i < |r| ==> r[i] != ""
  {
    if parts == [] then [] else (if parts[0] == "" then [] else [parts[0]]) + NonEmpty(parts[1..])
  }

  function PathParts(path: string): seq<string> {
    NonEmpty(Split(Slashes(path), '/'))
  }

  method GlobMatches(seg: SegmentTest, path: string, pattern: string) returns (r: bool)
    ensures r <==> Means(seg, PathParts(path), Split(pattern, '/'))
  {
    ghost var calls, bodies;
    r, calls, bodies := MatchSegments(seg, PathParts(path), Split(pattern, '/'));
  }

  // ---- which patterns match anything

  /** A text that can be a segment of a path once backslashes are slashes. */
  predicate Plain(part: string) {
    part != "" && '/' !in part && '\\' !in part
  }

  lemma {:induction false} NonEmptyOf(parts: seq<string>)
    ensures forall p :: p in NonEmpty(parts) ==> p in parts && p != ""
  {
    if parts != [] {
      NonEmptyOf(parts[1..]);
    }
  }

  /** Every segment of a path is plain. */
  lemma PathPartsPlain(path: string)
    ensures forall p :: p in PathParts(path) ==> Plain(p)
  {
    var t := Slashes(path);
    NonEmptyOf(Split(t, '/'));
    SplitChars(t, '/');
    assert '\\' !in t;
  }

  lemma PlainAsIs(part: string)
    requires '\\' !in part
    ensures Slashes(part) == part
  {
  }

  lemma {:induction false} NonEmptyAsIs(parts: seq<string>)
    requires forall p :: p in parts ==> p != ""
    ensures NonEmpty(parts) == parts
  {
    if parts != [] {
      assert parts[0] in parts && parts == [parts[0]] + parts[1..];
      forall p | p in parts[1..]
        ensures p != ""
      {
        assert p in parts;
      }
      NonEmptyAsIs(parts[1..]);
    }
  }

  /** And every list of plain segments is the segments of some path. */
  lemma PathOf(parts: seq<string>) returns (path: string)
    requires forall p :: p in parts ==> Plain(p)
    ensures PathParts(path) == parts
  {
    if parts == [] {
      path := "";
      assert Slashes("") == "" && Split("", '/') == [""];
      assert NonEmpty([""]) == [];
    } else {
      path := Join(parts, '/');
      JoinChars(parts);
      PlainAsIs(path);
      SplitJoin(parts, '/');
      NonEmptyAsIs(parts);
    }
  }

  lemma {:induction false} JoinChars(parts: seq<string>)
    requires |parts| > 0 && forall p :: p in parts ==> '\\' !in p
    ensures '\\' !in Join(parts, '/')
  {
    if |parts| > 1 {
      JoinChars(parts[1..]);
    }
  }

  /** Something can take the segment's place in a path. */
  ghost predicate Fillable(seg: SegmentTest, segment: string) {
    segment == ANY || exists part :: Plain(part) && seg(part, segment)
  }

  ghost predicate MatchesSomePath(seg: SegmentTest, pattern: seq<string>) {
    exists path :: Means(seg, PathParts(path), pattern)
  }

  /** A path for a pattern: nothing for `**`, some part for every other segment. */
  lemma {:induction false} Fill(seg: SegmentTest, pattern: seq<string>) returns (parts: seq<string>)
    requires forall s :: s in pattern ==> Fillable(seg, s)
    ensures MatchesBack(seg, parts, pattern) && forall p :: p in parts ==> Plain(p)
  {
    if pattern == [] {
      parts := [];
    } else {
      var rest, last := pattern[..|pattern| - 1], pattern[|pattern| - 1];
      parts := Fill(seg, rest);
      assert Fillable(seg, last);
      if last == ANY {
        assert parts[..|parts|] == parts;
        assert MatchesFront(seg, parts, rest);
      } else {
        var part :| Plain(part) && seg(part, last);
        assert (parts + [part])[..|parts|] == parts;
        parts := parts + [part];
      }
    }
  }

  /** A pattern matches some path exactly when each of its segments other than `**`
      takes some non-empty text without a slash. */
  lemma MatchesSomePathExactly(seg: SegmentTest, pattern: seq<string>)
    ensures MatchesSomePath(seg, pattern) <==> forall s :: s in pattern ==> Fillable(seg, s)
  {
    if MatchesSomePath(seg, pattern) {
      var path :| Means(seg, PathParts(path), pattern);
      var cuts: seq<nat> :| Cuts(seg, PathParts(path), pattern, cuts);
      PathPartsPlain(path);
      forall s | s in pattern
        ensures Fillable(seg, s)
      {
        var j :| 0 <= j < |pattern| && pattern[j] == s;
        assert Takes(seg, PathParts(path), pattern, cuts, j);
        if s != ANY {
          assert PathParts(path)[cuts[j]] in PathParts(path);
        }
      }
    }
    if forall s :: s in pattern ==> Fillable(seg, s) {
      var parts := Fill(seg, pattern);
      var path := PathOf(parts);
      BackMeans(seg, parts, pattern);
    }
  }

  /** So a pattern with an empty segment, such as one ending in a slash, matches no
      path at all: fnmatch takes nothing but the empty text for an empty pattern. */
  lemma EmptySegmentMatchesNothing(seg: SegmentTest, path: string, pattern: seq<string>, j: nat)
    requires j < |pattern| && pattern[j] == "" && forall part: string :: seg(part, "") ==> part == ""
    ensures !Means(seg, PathParts(path), pattern)
  {
    MatchesSomePathExactly(seg, pattern);
    assert pattern[j] in pattern && !Fillable(seg, pattern[j]);
  }
}
