/** What globs and paths mean as texts: four laws that decide every pattern, and three
    that decide the segments of every path. */
module GlobTexts {
  import opened Globs
  import opened Ordering
  import opened Text

  // ---- patterns in parts

  lemma CutsFirst(seg: SegmentTest, parts: seq<string>, p: seq<string>, q: seq<string>, cuts: seq<nat>)
    requires Cuts(seg, parts, p + q, cuts)
    ensures cuts[|p|] <= |parts|
    ensures Cuts(seg, parts[..cuts[|p|]], p, cuts[..|p| + 1])
  {
    var k, c := cuts[|p|], cuts[..|p| + 1];
    CutsRise(seg, parts, p + q, cuts, |p|);
    forall j | 0 <= j < |p|
      ensures Takes(seg, parts[..k], p, c, j)
    {
      assert Takes(seg, parts, p + q, cuts, j);
      CutsRise(seg, parts, p + q, cuts, j + 1);
    }
  }

  /** The cuts of the second pattern, counted from where it starts. */
  ghost function Shifted(cuts: seq<nat>, n: nat): seq<nat>
    requires n < |cuts| && forall i :: n <= i < |cuts| ==> cuts[n] <= cuts[i]
  {
    seq(|cuts| - n, i requires 0 <= i < |cuts| - n => cuts[n + i] - cuts[n])
  }

  lemma CutsSecond(seg: SegmentTest, parts: seq<string>, p: seq<string>, q: seq<string>, cuts: seq<nat>)
    requires Cuts(seg, parts, p + q, cuts)
    ensures cuts[|p|] <= |parts| && forall i :: |p| <= i < |cuts| ==> cuts[|p|] <= cuts[i]
    ensures Cuts(seg, parts[cuts[|p|]..], q, Shifted(cuts, |p|))
  {
    CutsRise(seg, parts, p + q, cuts, |p|);
    var cuts' := Shifted(cuts, |p|);
    forall j | 0 <= j < |q|
      ensures Takes(seg, parts[cuts[|p|]..], q, cuts', j)
    {
      assert Takes(seg, parts, p + q, cuts, |p| + j);
    }
  }

  lemma CutsTogether(seg: SegmentTest, parts: seq<string>, p: seq<string>, q: seq<string>, k: nat,
                     c: seq<nat>, d: seq<nat>)
    requires k <= |parts| && Cuts(seg, parts[..k], p, c) && Cuts(seg, parts[k..], q, d)
    ensures Means(seg, parts, p + q)
  {
    var later: seq<nat> := seq(|q| + 1, i requires 0 <= i < |q| + 1 => d[i] + k);
    var cuts: seq<nat> := c[..|p|] + later;
    forall j | 0 <= j < |p + q|
      ensures Takes(seg, parts, p + q, cuts, j)
    {
      if j < |p| {
        assert Takes(seg, parts[..k], p, c, j);
      } else {
        assert Takes(seg, parts[k..], q, d, j - |p|);
      }
    }
    assert Cuts(seg, parts, p + q, cuts);
  }

  /** A pattern in two parts takes a path that can be cut so that each takes its own. */
  lemma MeansConcat(seg: SegmentTest, parts: seq<string>, p: seq<string>, q: seq<string>)
    ensures Means(seg, parts, p + q) <==>
              exists k: nat :: k <= |parts| && Means(seg, parts[..k], p) && Means(seg, parts[k..], q)
  {
    if Means(seg, parts, p + q) {
      var cuts: seq<nat> :| Cuts(seg, parts, p + q, cuts);
      CutsFirst(seg, parts, p, q, cuts);
      CutsSecond(seg, parts, p, q, cuts);
    }
    if k: nat :| k <= |parts| && Means(seg, parts[..k], p) && Means(seg, parts[k..], q) {
      var c: seq<nat> :| Cuts(seg, parts[..k], p, c);
      var d: seq<nat> :| Cuts(seg, parts[k..], q, d);
      CutsTogether(seg, parts, p, q, k, c, d);
    }
  }

  lemma MeansOne(seg: SegmentTest, parts: seq<string>, segment: string)
    ensures segment == "**" ==> Means(seg, parts, [segment])
    ensures segment != "**" ==> (Means(seg, parts, [segment]) <==> |parts| == 1 && seg(parts[0], segment))
  {
    var cuts: seq<nat> := [0, |parts|];
    if segment == "**" || (|parts| == 1 && seg(parts[0], segment)) {
      assert Takes(seg, parts, [segment], cuts, 0);
      assert Cuts(seg, parts, [segment], cuts);
    }
    if Means(seg, parts, [segment]) {
      var c: seq<nat> :| Cuts(seg, parts, [segment], c);
      assert Takes(seg, parts, [segment], c, 0);
    }
  }

  // ---- patterns as texts

  /** What `GlobMatches` decides. */
  ghost predicate GlobMeans(seg: SegmentTest, parts: seq<string>, pattern: string) {
    Means(seg, parts, Split(pattern, '/'))
  }

  /** "**" takes any path; any other text without a slash takes one segment that
      passes its test; and a pattern with a slash takes a path that can be cut in two
      so that each side of the slash takes its part. */
  lemma GlobTextExactly(seg: SegmentTest, parts: seq<string>, a: string, b: string)
    ensures GlobMeans(seg, parts, "**")
    ensures '/' !in a && a != "**" ==> (GlobMeans(seg, parts, a) <==> |parts| == 1 && seg(parts[0], a))
    ensures GlobMeans(seg, parts, a + "/" + b) <==>
              exists k: nat :: k <= |parts| && GlobMeans(seg, parts[..k], a) && GlobMeans(seg, parts[k..], b)
  {
    SplitWhole("**", '/');
    MeansOne(seg, parts, "**");
    if '/' !in a {
      SplitWhole(a, '/');
      MeansOne(seg, parts, a);
    }
    SplitConcat(a, b, '/');
    MeansConcat(seg, parts, Split(a, '/'), Split(b, '/'));
  }

  /** So "**" between two patterns leaves out any number of segments, none included. */
  lemma AnyBetween(seg: SegmentTest, parts: seq<string>, a: string, b: string)
    ensures GlobMeans(seg, parts, a + "/**/" + b) <==>
              exists i: nat, k: nat ::
                i <= k <= |parts| && GlobMeans(seg, parts[..i], a) && GlobMeans(seg, parts[k..], b)
  {
    assert a + "/**/" + b == a + "/" + ("**" + "/" + b);
    GlobTextExactly(seg, parts, a, "**" + "/" + b);
    if i: nat :| i <= |parts| && GlobMeans(seg, parts[..i], a) && GlobMeans(seg, parts[i..], "**" + "/" + b) {
      GlobTextExactly(seg, parts[i..], "**", b);
      var l: nat :| l <= |parts[i..]| && GlobMeans(seg, parts[i..][l..], b);
      assert parts[i..][l..] == parts[i + l..];
    }
    if i: nat, k: nat :| i <= k <= |parts| && GlobMeans(seg, parts[..i], a) && GlobMeans(seg, parts[k..], b) {
      GlobTextExactly(seg, parts[i..], "**", b);
      GlobTextExactly(seg, parts[i..][..k - i], "**", b);
      assert parts[i..][k - i..] == parts[k..];
    }
  }

  // ---- paths as texts

  lemma {:induction false} NonEmptyConcat(p: seq<string>, q: seq<string>)
    ensures NonEmpty(p + q) == NonEmpty(p) + NonEmpty(q)
  {
    if p == [] {
      assert p + q == q;
    } else {
      assert (p + q)[1..] == p[1..] + q;
      NonEmptyConcat(p[1..], q);
    }
  }

  /** An empty path has no segments; a text without slashes of either kind is one
      segment; and a slash of either kind separates. */
  lemma PathTextExactly(a: string, b: string)
    ensures PathParts("") == []
    ensures a != "" && '/' !in a && '\\' !in a ==> PathParts(a) == [a]
    ensures PathParts(a + "/" + b) == PathParts(a) + PathParts(b)
    ensures PathParts(a + "\\" + b) == PathParts(a) + PathParts(b)
  {
    assert Slashes("") == "" && Split("", '/') == [""] && NonEmpty([""]) == [];
    if a != "" && '/' !in a && '\\' !in a {
      PlainAsIs(a);
      SplitWhole(a, '/');
      assert NonEmpty([a]) == [a];
    }
    assert Slashes(a + "/" + b) == Slashes(a) + "/" + Slashes(b);
    assert Slashes(a + "\\" + b) == Slashes(a) + "/" + Slashes(b);
    SplitConcat(Slashes(a), Slashes(b), '/');
    NonEmptyConcat(Split(Slashes(a), '/'), Split(Slashes(b), '/'));
  }
}
