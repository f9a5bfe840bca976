/** The names of proposal files as texts: the order in which the scan lists them. */
module ProposalNames {
  import opened Ordering
  import opened Proposals
  import opened Text

  function Zeros(n: nat): string {
    seq(n, i => '0')
  }

  /** At least three digits. */
  function Padded(n: nat): string {
    if n < 10 then "00" + Decimal(n) else if n < 100 then "0" + Decimal(n) else Decimal(n)
  }

  function FileText(n: Name): string {
    "PROP-" + (Zeros(n.zeros) + (Padded(n.number) + ".md"))
  }

  lemma {:induction false} LeadingDigit(n: nat)
    requires n > 0
    ensures Decimal(n) != "" && '1' <= Decimal(n)[0] <= '9'
  {
    if n >= 10 {
      LeadingDigit(n / 10);
    }
  }

  /** Behind its leading zeros the rest of a name goes on with a digit, or with the dot
      if the number is zero. */
  lemma AfterZeros(n: nat) returns (q: nat, e: string)
    ensures Padded(n) + ".md" == Zeros(q) + e && e != ""
    ensures if n == 0 then e[0] == '.' else '1' <= e[0] <= '9'
  {
    if n == 0 {
      q, e := 3, ".md";
      assert Padded(0) == Zeros(3);
    } else {
      LeadingDigit(n);
      q, e := if n < 10 then 2 else if n < 100 then 1 else 0, Decimal(n) + ".md";
      assert Zeros(2) == "00" && Zeros(1) == "0" && Zeros(0) == "";
    }
  }

  lemma {:induction false} SameFront(front: string, a: string, b: string)
    ensures StrLess(front + a, front + b) <==> StrLess(a, b)
  {
    if front == "" {
      assert front + a == a && front + b == b;
    } else {
      SameFront(front[1..], a, b);
      assert (front + a)[1..] == front[1..] + a && (front + b)[1..] == front[1..] + b;
    }
  }

  /** More zeros in front of the same text: less if a digit follows them, more if not. */
  lemma MoreZeros(i: nat, j: nat, e: string)
    requires i < j && e != "" && e[0] != '0'
    ensures StrLess(Zeros(i) + e, Zeros(j) + e) <==> e[0] < '0'
    ensures StrLess(Zeros(j) + e, Zeros(i) + e) <==> '0' < e[0]
  {
    assert Zeros(j) == Zeros(i) + Zeros(j - i);
    assert Zeros(j) + e == Zeros(i) + (Zeros(j - i) + e);
    SameFront(Zeros(i), e, Zeros(j - i) + e);
    SameFront(Zeros(i), Zeros(j - i) + e, e);
    assert (Zeros(j - i) + e)[0] == '0';
  }

  lemma ZerosJoin(i: nat, q: nat, e: string)
    ensures Zeros(i) + (Zeros(q) + e) == Zeros(i + q) + e
  {
    assert Zeros(i) + Zeros(q) == Zeros(i + q);
    assert Zeros(i) + (Zeros(q) + e) == Zeros(i) + Zeros(q) + e;
  }

  /** A name with `i` zeros in front of `rest` against one with `j`. */
  lemma FrontZeros(i: nat, j: nat, rest: string, q: nat, e: string)
    requires i < j && rest == Zeros(q) + e && e != "" && e[0] != '0'
    ensures StrLess(Zeros(i) + rest, Zeros(j) + rest) <==> e[0] < '0'
    ensures StrLess(Zeros(j) + rest, Zeros(i) + rest) <==> '0' < e[0]
  {
    ZerosJoin(i, q, e);
    ZerosJoin(j, q, e);
    MoreZeros(i + q, j + q, e);
  }

  lemma TiesAsTexts(number: nat, i: nat, j: nat)
    requires i < j
    ensures StrLess(FileText(Name(number, i)), FileText(Name(number, j))) <==> number == 0
    ensures StrLess(FileText(Name(number, j)), FileText(Name(number, i))) <==> number != 0
  {
    var q, e := AfterZeros(number);
    var rest := Padded(number) + ".md";
    FrontZeros(i, j, rest, q, e);
    SameFront("PROP-", Zeros(i) + rest, Zeros(j) + rest);
    SameFront("PROP-", Zeros(j) + rest, Zeros(i) + rest);
  }

  /** Files are listed by number, and by name where that is the same, highest first. */
  lemma ListedByText(a: Name, b: Name)
    ensures NameGe(a, b) <==> a.number > b.number || (a.number == b.number && StrLe(FileText(b), FileText(a)))
  {
    StrLessTrichotomy(FileText(a), FileText(b));
    if a.number == b.number {
      if a.zeros < b.zeros {
        TiesAsTexts(a.number, a.zeros, b.zeros);
      } else if b.zeros < a.zeros {
        TiesAsTexts(a.number, b.zeros, a.zeros);
      }
    }
  }
}
