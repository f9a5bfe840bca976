/** Splitting text at a separator and joining it again. */
module Text {

  /** `s.split(sep)` */
  function Split(s: string, sep: char): (r: seq<string>)
    ensures |r| > 0
    ensures forall i :: 0 <= i < |r| ==> sep !in r[i]
  {
    if s == "" then [""]
    else
      var rest := Split(s[1..], sep);
      if s[0] == sep then [""] + rest else [[s[0]] + rest[0]] + rest[1..]
  }

  /** `sep.join(parts)` */
  function Join(parts: seq<string>, sep: char): string
    requires |parts| > 0
  {
    if |parts| == 1 then parts[0] else parts[0] + [sep] + Join(parts[1..], sep)
  }

  /** Splitting loses nothing. */
  lemma {:induction false} JoinSplit(s: string, sep: char)
    ensures Join(Split(s, sep), sep) == s
  {
    if s != "" {
      var rest := Split(s[1..], sep);
      JoinSplit(s[1..], sep);
      if s[0] == sep {
        assert Split(s, sep)[1..] == rest;
        assert Join(Split(s, sep), sep) == "" + [sep] + Join(rest, sep);
      } else {
        assert Split(s, sep)[1..] == rest[1..];
        assert |rest| > 1 ==> Join(rest, sep) == rest[0] + [sep] + Join(rest[1..], sep);
      }
      assert s == [s[0]] + s[1..];
    }
  }

  /** And joining loses nothing, as long as no part holds the separator. */
  lemma {:induction false} SplitJoin(parts: seq<string>, sep: char)
    requires |parts| > 0 && forall p :: p in parts ==> sep !in p
    ensures Split(Join(parts, sep), sep) == parts
  {
    assert parts[0] in parts;
    if |parts| == 1 {
      SplitWhole(parts[0], sep);
    } else {
      SplitJoin(parts[1..], sep);
      SplitAfter(parts[0], Join(parts[1..], sep), sep);
      assert parts == [parts[0]] + parts[1..];
    }
  }

  lemma {:induction false} SplitWhole(a: string, sep: char)
    requires sep !in a
    ensures Split(a, sep) == [a]
  {
    if a != "" {
      assert a[0] in a && a == [a[0]] + a[1..];
      SplitWhole(a[1..], sep);
    }
  }

  lemma {:induction false} SplitAfter(a: string, b: string, sep: char)
    requires sep !in a
    ensures Split(a + [sep] + b, sep) == [a] + Split(b, sep)
  {
    if a == "" {
      assert ("" + [sep] + b)[1..] == b;
    } else {
      assert a[0] in a && a == [a[0]] + a[1..];
      SplitAfter(a[1..], b, sep);
      assert (a + [sep] + b)[1..] == a[1..] + [sep] + b;
      assert [[a[0]] + a[1..]] + Split(b, sep) == [a] + Split(b, sep);
    }
  }

  lemma {:induction false} JoinConcat(p: seq<string>, q: seq<string>, sep: char)
    requires |p| > 0 && |q| > 0
    ensures Join(p + q, sep) == Join(p, sep) + [sep] + Join(q, sep)
  {
    if |p| == 1 {
      assert (p + q)[1..] == q;
    } else {
      JoinConcat(p[1..], q, sep);
      assert (p + q)[1..] == p[1..] + q;
    }
  }

  /** A text is determined by its parts. */
  lemma SplitInjective(a: string, b: string, sep: char)
    ensures Split(a, sep) == Split(b, sep) ==> a == b
  {
    JoinSplit(a, sep);
    JoinSplit(b, sep);
  }

  /** The characters of the parts are those of the text, but for the separator. */
  lemma {:induction false} SplitChars(s: string, sep: char)
    ensures forall c :: c != sep ==> (c in s <==> exists p :: p in Split(s, sep) && c in p)
  {
    if s != "" {
      var rest, parts := Split(s[1..], sep), Split(s, sep);
      SplitChars(s[1..], sep);
      assert s == [s[0]] + s[1..];
      forall c | c != sep
        ensures c in s <==> exists p :: p in parts && c in p
      {
        SplitCharsStep(s, sep, c);
      }
    }
  }

  lemma SplitCharsStep(s: string, sep: char, c: char)
    requires s != "" && c != sep
    requires c in s[1..] <==> exists p :: p in Split(s[1..], sep) && c in p
    ensures c in s <==> exists p :: p in Split(s, sep) && c in p
  {
    var rest, parts := Split(s[1..], sep), Split(s, sep);
    assert s == [s[0]] + s[1..];
    if s[0] == sep {
      assert parts == [""] + rest;
      assert forall p :: p in parts <==> p == "" || p in rest;
    } else {
      assert parts == [[s[0]] + rest[0]] + rest[1..] && rest == [rest[0]] + rest[1..];
      assert forall p :: p in parts <==> p == [s[0]] + rest[0] || p in rest[1..];
      assert forall p :: p in rest <==> p == rest[0] || p in rest[1..];
      assert c in [s[0]] + rest[0] <==> c == s[0] || c in rest[0];
    }
  }

  /** The first part starts as the text does, unless that starts with the separator. */
  lemma SplitFirst(s: string, sep: char)
    ensures Split(s, sep)[0] == "" <==> s == "" || s[0] == sep
    ensures s != "" && s[0] != sep ==> Split(s, sep)[0][0] == s[0]
  {
  }

  /** Splitting at one separator first, and then both sides, is splitting. */
  lemma SplitConcat(a: string, b: string, sep: char)
    ensures Split(a + [sep] + b, sep) == Split(a, sep) + Split(b, sep)
  {
    JoinSplit(a, sep);
    JoinSplit(b, sep);
    JoinConcat(Split(a, sep), Split(b, sep), sep);
    SplitJoin(Split(a, sep) + Split(b, sep), sep);
  }

  // ---- numbers as text

  function Digit(n: nat): char
    requires n < 10
  {
    n as char + '0'
  }

  function Decimal(n: nat): string {
    if n < 10 then [Digit(n)] else Decimal(n / 10) + [Digit(n % 10)]
  }
}
