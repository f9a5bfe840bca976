/** Lexicographic string order and a stable insertion sort, the two things the
    program takes from Python's `sorted`. */
module Ordering {

  datatype Option<+T> = None | Some(value: T)

  datatype Result<+T, +E> = Success(value: T) | Failure(error: E)

  /** Code-point order on strings. */
  predicate StrLess(a: string, b: string) {
    if b == "" then false
    else if a == "" then true
    else a[0] < b[0] || (a[0] == b[0] && StrLess(a[1..], b[1..]))
  }

  predicate StrLe(a: string, b: string) {
    a == b || StrLess(a, b)
  }

  lemma {:induction false} StrLessTransitive(a: string, b: string, c: string)
    requires StrLess(a, b) && StrLess(b, c)
    ensures StrLess(a, c)
  {
    if a != "" && a[0] == b[0] == c[0] {
      StrLessTransitive(a[1..], b[1..], c[1..]);
    }
  }

  lemma {:induction false} StrLessTrichotomy(a: string, b: string)
    ensures a == b <==> !StrLess(a, b) && !StrLess(b, a)
    ensures !(StrLess(a, b) && StrLess(b, a))
  {
    if a != "" && b != "" {
      StrLessTrichotomy(a[1..], b[1..]);
      if a[0] == b[0] {
        assert a == [a[0]] + a[1..] && b == [b[0]] + b[1..];
      }
    }
  }

  /** It is the order of the first difference; a proper prefix comes first. */
  ghost predicate FirstDifference(a: string, b: string, k: nat) {
    k <= |a| && k < |b| && a[..k] == b[..k] && (k == |a| || a[k] < b[k])
  }

  ghost predicate ComesFirst(a: string, b: string) {
    exists k: nat :: FirstDifference(a, b, k)
  }

  lemma HeadsDiffer(a: string, b: string)
    requires a == "" || b == "" || a[0] != b[0]
    ensures ComesFirst(a, b) <==> FirstDifference(a, b, 0)
  {
    forall k: nat | 0 < k <= |a| && k < |b|
      ensures !FirstDifference(a, b, k)
    {
      assert a[..k][0] == a[0] && b[..k][0] == b[0];
    }
  }

  lemma {:induction false} StrLessExactly(a: string, b: string)
    ensures StrLess(a, b) <==> ComesFirst(a, b)
  {
    if a != "" && b != "" && a[0] == b[0] {
      StrLessExactly(a[1..], b[1..]);
      if ComesFirst(a, b) {
        var k: nat :| FirstDifference(a, b, k);
        assert k > 0 && a[1..][..k - 1] == a[..k][1..] && b[1..][..k - 1] == b[..k][1..];
        assert FirstDifference(a[1..], b[1..], k - 1);
      }
      if ComesFirst(a[1..], b[1..]) {
        var k: nat :| FirstDifference(a[1..], b[1..], k);
        assert a[..k + 1] == [a[0]] + a[1..][..k] && b[..k + 1] == [b[0]] + b[1..][..k];
        assert FirstDifference(a, b, k + 1);
      }
    } else {
      HeadsDiffer(a, b);
    }
  }

  lemma StrOrderIsTotal()
    ensures forall a, b :: StrLe(a, b) || StrLe(b, a)
    ensures forall a, b :: StrLe(a, b) && StrLe(b, a) ==> a == b
    ensures forall a, b, c :: StrLe(a, b) && StrLe(b, c) ==> StrLe(a, c)
  {
    forall a, b
      ensures StrLe(a, b) || StrLe(b, a)
      ensures StrLe(a, b) && StrLe(b, a) ==> a == b
    {
      StrLessTrichotomy(a, b);
    }
    forall a, b, c | StrLe(a, b) && StrLe(b, c)
      ensures StrLe(a, c)
    {
      if StrLess(a, b) && StrLess(b, c) {
        StrLessTransitive(a, b, c);
      }
    }
  }

  ghost predicate TotalPreorder<T(!new)>(le: (T, T) -> bool) {
    && (forall x, y :: le(x, y) || le(y, x))
    && (forall x, y, z :: le(x, y) && le(y, z) ==> le(x, z))
  }

  ghost predicate TotalOrder<T(!new)>(le: (T, T) -> bool) {
    TotalPreorder(le) && forall x, y :: le(x, y) && le(y, x) ==> x == y
  }

  ghost predicate Ordered<T>(s: seq<T>, le: (T, T) -> bool) {
    forall i, j :: 0 <= i < j < |s| ==> le(s[i], s[j])
  }

  ghost predicate Distinct<T>(s: seq<T>) {
    forall i, j :: 0 <= i < j < |s| ==> s[i] != s[j]
  }

  ghost predicate SameElements<T>(s: seq<T>, t: seq<T>) {
    && (forall i :: 0 <= i < |s| ==> s[i] in t)
    && (forall i :: 0 <= i < |t| ==> t[i] in s)
  }

  /** Insertion in front of the first element that does not precede `x`. */
  function Insert<T>(x: T, s: seq<T>, le: (T, T) -> bool): seq<T> {
    if s == [] then [x]
    else if le(x, s[0]) then [x] + s
    else [s[0]] + Insert(x, s[1..], le)
  }

  /** Stable sort: equal keys keep the order of the input. */
  function Sort<T>(s: seq<T>, le: (T, T) -> bool): seq<T> {
    if s == [] then [] else Insert(s[0], Sort(s[1..], le), le)
  }

  lemma {:induction false} InsertElements<T>(x: T, s: seq<T>, le: (T, T) -> bool)
    ensures |Insert(x, s, le)| == |s| + 1
    ensures forall y :: y in Insert(x, s, le) <==> y == x || y in s
  {
    if s != [] && !le(x, s[0]) {
      InsertElements(x, s[1..], le);
      assert s == [s[0]] + s[1..];
    }
  }

  lemma {:induction false} InsertOrdered<T(!new)>(x: T, s: seq<T>, le: (T, T) -> bool)
    requires TotalPreorder(le) && Ordered(s, le)
    ensures Ordered(Insert(x, s, le), le)
  {
    if s == [] {
    } else if le(x, s[0]) {
      var r := [x] + s;
      forall i, j | 0 <= i < j < |r|
        ensures le(r[i], r[j])
      {
        assert j == 1 || le(s[0], s[j - 1]);
      }
    } else {
      InsertOrdered(x, s[1..], le);
      InsertElements(x, s[1..], le);
      var rest := Insert(x, s[1..], le);
      forall y | y in rest
        ensures le(s[0], y)
      {
      }
    }
  }

  lemma {:induction false} InsertDistinct<T>(x: T, s: seq<T>, le: (T, T) -> bool)
    requires Distinct(s) && x !in s
    ensures Distinct(Insert(x, s, le))
  {
    if s != [] && !le(x, s[0]) {
      InsertDistinct(x, s[1..], le);
      InsertElements(x, s[1..], le);
      assert s[0] !in s[1..];
    }
  }

  lemma {:induction false} SortElements<T>(s: seq<T>, le: (T, T) -> bool)
    ensures |Sort(s, le)| == |s|
    ensures forall y :: y in Sort(s, le) <==> y in s
  {
    if s != [] {
      SortElements(s[1..], le);
      InsertElements(s[0], Sort(s[1..], le), le);
      assert s == [s[0]] + s[1..];
    }
  }

  lemma {:induction false} SortOrdered<T(!new)>(s: seq<T>, le: (T, T) -> bool)
    requires TotalPreorder(le)
    ensures Ordered(Sort(s, le), le)
  {
    if s != [] {
      SortOrdered(s[1..], le);
      InsertOrdered(s[0], Sort(s[1..], le), le);
    }
  }

  lemma {:induction false} SortDistinct<T>(s: seq<T>, le: (T, T) -> bool)
    requires Distinct(s)
    ensures Distinct(Sort(s, le))
  {
    if s != [] {
      SortDistinct(s[1..], le);
      SortElements(s[1..], le);
      assert s[0] !in s[1..];
      InsertDistinct(s[0], Sort(s[1..], le), le);
    }
  }

  /** A duplicate-free ordered sequence is determined by its elements, so what
      `sorted` returns does not depend on the order a dict or a directory
      listing happens to produce. The order need only be antisymmetric on the
      elements at hand. */
  lemma {:induction false} OrderedUnique<T(!new)>(s: seq<T>, t: seq<T>, le: (T, T) -> bool)
    requires Ordered(s, le) && Ordered(t, le) && Distinct(s) && Distinct(t)
    requires SameElements(s, t)
    requires forall x, y :: x in s && y in s && le(x, y) && le(y, x) ==> x == y
    ensures s == t
  {
    assert s == [] <==> t == [] by {
      if s != [] { assert s[0] in t; }
      if t != [] { assert t[0] in s; }
    }
    if s != [] {
      var x, y := s[0], t[0];
      assert x == y by {
        assert x in t && y in s;
        assert x == y || (le(x, y) && le(y, x));
      }
      var s', t' := s[1..], t[1..];
      forall k | 0 <= k < |s'|
        ensures s'[k] in t'
      {
        assert s[k + 1] in t && s[k + 1] != s[0];
      }
      forall k | 0 <= k < |t'|
        ensures t'[k] in s'
      {
        assert t[k + 1] in s && t[k + 1] != t[0];
      }
      OrderedUnique(s', t', le);
      assert s == [s[0]] + s' && t == [t[0]] + t';
    }
  }

  lemma SortOfAnyOrder<T(!new)>(s: seq<T>, t: seq<T>, le: (T, T) -> bool)
    requires TotalPreorder(le) && Distinct(s) && Distinct(t) && forall x :: x in s <==> x in t
    requires forall x, y :: x in s && y in s && le(x, y) && le(y, x) ==> x == y
    ensures Sort(s, le) == Sort(t, le)
  {
    SortElements(s, le);
    SortElements(t, le);
    SortOrdered(s, le);
    SortOrdered(t, le);
    SortDistinct(s, le);
    SortDistinct(t, le);
    OrderedUnique(Sort(s, le), Sort(t, le), le);
  }

  lemma SplitLast<T>(s: seq<T>)
    requires s != []
    ensures s == s[..|s| - 1] + [s[|s| - 1]]
  {
  }

  lemma TakeTake<T>(s: seq<T>, n: nat, i: nat)
    requires i <= n <= |s|
    ensures s[..n][..i] == s[..i]
  {
  }

  lemma ConcatFront<T>(a: seq<T>, b: seq<T>)
    requires b != []
    ensures (a + b)[..|a + b| - 1] == a + b[..|b| - 1]
  {
  }

  lemma ConcatDistinct<T>(a: seq<T>, b: seq<T>)
    requires Distinct(a) && Distinct(b) && forall i :: 0 <= i < |a| ==> a[i] !in b
    ensures Distinct(a + b)
  {
  }

  /** The elements of a sequence; unrolls from the back, like the loops that fold
      over a prefix. */
  ghost function Elems<T>(s: seq<T>): set<T> {
    if s == [] then {} else Elems(s[..|s| - 1]) + {s[|s| - 1]}
  }

  lemma {:induction false} ElemsMembers<T>(s: seq<T>)
    ensures forall x :: x in Elems(s) <==> x in s
  {
    if s != [] {
      ElemsMembers(s[..|s| - 1]);
      assert s == s[..|s| - 1] + [s[|s| - 1]];
    }
  }

  lemma {:induction false} ElemsCardinality<T>(s: seq<T>)
    requires Distinct(s)
    ensures |Elems(s)| == |s|
  {
    if s != [] {
      var front := s[..|s| - 1];
      ElemsCardinality(front);
      ElemsMembers(front);
      assert s[|s| - 1] !in front;
    }
  }

  lemma {:induction false} MembersCardinality<T>(s: seq<T>, m: set<T>)
    requires Distinct(s) && (forall x :: x in m ==> x in s) && forall i :: 0 <= i < |s| ==> s[i] in m
    ensures |m| == |s|
  {
    if s == [] {
      assert m == {};
    } else {
      var front, last := s[..|s| - 1], s[|s| - 1];
      forall x | x in m - {last}
        ensures x in front
      {
        var i :| 0 <= i < |s| && s[i] == x;
        assert front[i] == x;
      }
      MembersCardinality(front, m - {last});
    }
  }

  lemma ElemsSame<T(!new)>(s: seq<T>, t: seq<T>)
    requires SameElements(s, t)
    ensures Elems(s) == Elems(t)
  {
    ElemsMembers(s);
    ElemsMembers(t);
    forall x
      ensures x in s <==> x in t
    {
      if x in s { var i :| 0 <= i < |s| && s[i] == x; }
      if x in t { var i :| 0 <= i < |t| && t[i] == x; }
    }
  }

  /** Some enumeration of a finite set, in no particular order. */
  ghost function Enumerate<T(!new)>(s: set<T>): (r: seq<T>)
    ensures Distinct(r) && |r| == |s|
    ensures forall x :: x in r <==> x in s
  {
    if s == {} then [] else
      var x :| x in s;
      [x] + Enumerate(s - {x})
  }

  lemma {:induction false} SubsetCardinality<T>(a: set<T>, b: set<T>)
    requires a <= b
    ensures |a| <= |b|
  {
    if a != {} {
      var x :| x in a;
      SubsetCardinality(a - {x}, b - {x});
    }
  }
}
