/** When the merge of persisted findings is accepted, and what it keeps: in the order
    at hand, in every order, and in some order. */
module MergeLaws {
  import opened Ordering
  import opened Findings

  /** The later record wins; on equal stamps an open record wins over a closed one. */
  predicate Beats(f: Finding, g: Finding) {
    || StrLess(g.updatedAt, f.updatedAt)
    || (f.updatedAt == g.updatedAt && f.status.Open? && !g.status.Open?)
  }

  predicate BeatsOrIs(f: Finding, g: Finding) {
    f == g || Beats(f, g)
  }

  lemma BeatsTransitive(f: Finding, g: Finding, h: Finding)
    requires BeatsOrIs(f, g) && BeatsOrIs(g, h)
    ensures BeatsOrIs(f, h)
  {
    if StrLess(g.updatedAt, f.updatedAt) && StrLess(h.updatedAt, g.updatedAt) {
      StrLessTransitive(h.updatedAt, g.updatedAt, f.updatedAt);
    }
  }

  /** Two records of one id on which the merge can decide. */
  predicate Mergeable(f: Finding, g: Finding) {
    && SameScope(f, g)
    && (f == g || f.updatedAt != g.updatedAt || f.status.Open? != g.status.Open?)
  }

  lemma MergeRecordPicks(e: Finding, f: Finding)
    requires MergeRecord(Some(e), f).Success?
    ensures
      var g := MergeRecord(Some(e), f).value;
      (g == e || g == f) && SameScope(e, f) && BeatsOrIs(g, e) && BeatsOrIs(g, f)
  {
    StrLessTrichotomy(e.updatedAt, f.updatedAt);
  }

  /** Every id of either store survives the merge, with a record of that id that
      beats all the others. */
  lemma {:induction false} MergeKeepsGreatest(s: seq<Finding>)
    requires MergeAll(s).Success?
    ensures WellKeyed(MergeAll(s).value)
    ensures forall id :: id in MergeAll(s).value ==> MergeAll(s).value[id] in Elems(s)
    ensures forall f :: f in Elems(s) ==>
      && f.id in MergeAll(s).value
      && SameScope(MergeAll(s).value[f.id], f)
      && BeatsOrIs(MergeAll(s).value[f.id], f)
  {
    MergeKeyed(s);
    if s != [] {
      var last, rest := s[|s| - 1], s[..|s| - 1];
      MergeKeepsGreatest(rest);
      var m, m' := MergeAll(rest).value, MergeAll(s).value;
      if last.id in m {
        MergeRecordPicks(m[last.id], last);
      }
      forall f | f in Elems(rest)
        ensures f.id in m' && SameScope(m'[f.id], f) && BeatsOrIs(m'[f.id], f)
      {
        if f.id == last.id {
          BeatsTransitive(m'[f.id], m[f.id], f);
        }
      }
    }
  }

  /** So the merged table does not depend on the order in which the stores list
      their records. */
  lemma MergeOrderIrrelevant(s: seq<Finding>, t: seq<Finding>)
    requires Elems(s) == Elems(t) && MergeAll(s).Success? && MergeAll(t).Success?
    ensures MergeAll(s) == MergeAll(t)
  {
    MergeKeepsGreatest(s);
    MergeKeepsGreatest(t);
    var m, m' := MergeAll(s).value, MergeAll(t).value;
    forall id | id in m.Keys + m'.Keys
      ensures id in m && id in m' && m[id] == m'[id]
    {
      var f := if id in m then m[id] else m'[id];
      assert f in Elems(s) && f.id == id;
      assert BeatsOrIs(m[id], m'[id]) && BeatsOrIs(m'[id], m[id]);
      StrLessTrichotomy(m[id].updatedAt, m'[id].updatedAt);
    }
    assert m == m';
  }

  lemma MergeAppend(s: seq<Finding>, f: Finding)
    ensures MergeAll(s + [f]) == match MergeAll(s)
                                 case Failure(e) => Failure(e)
                                 case Success(m) => MergeInto(m, f)
  {
    assert (s + [f])[..|s|] == s;
  }

  function Then(r: Result<map<string, Finding>, Fault>, f: Finding): Result<map<string, Finding>, Fault> {
    match r
    case Failure(e) => Failure(e)
    case Success(m) => MergeInto(m, f)
  }

  lemma MergeOfThree(f: Finding, g: Finding, h: Finding)
    ensures MergeAll([f, g, h]) == Then(Then(Then(Success(map[]), f), g), h)
  {
    var one, two := [f], [f, g];
    assert [f, g, h][..2] == two && two[..1] == one && one[..0] == [];
    assert MergeAll(one) == Then(Success(map[]), f);
    assert MergeAll(two) == Then(MergeAll(one), g);
  }

  /** Whether the two stores can be merged at all does depend on the order: three
      records of one id, same stamp, one of them open. */
  lemma MergeAcceptanceDependsOnOrder(f: Finding)
    requires f.status.Open?
    ensures MergeAll([f, f.(status := Waived), f.(status := Accepted)]).Success?
    ensures MergeAll([f.(status := Waived), f.(status := Accepted), f]).Failure?
  {
    var w, a := f.(status := Waived), f.(status := Accepted);
    MergeOfThree(f, w, a);
    MergeOfThree(w, a, f);
  }

  // ---- acceptance

  /** `g` is the record of its id that a merge of `records` would keep. */
  ghost predicate Leads(g: Finding, records: set<Finding>) {
    g in records && forall f :: f in records && f.id == g.id ==> BeatsOrIs(g, f)
  }

  ghost predicate Decides(records: set<Finding>, f: Finding) {
    forall g :: Leads(g, records) && g.id == f.id ==> Mergeable(g, f)
  }

  /** Each record can be decided against the leading one of its id before it. */
  ghost predicate MergesInTurn(s: seq<Finding>) {
    s == [] || (MergesInTurn(s[..|s| - 1]) && Decides(Elems(s[..|s| - 1]), s[|s| - 1]))
  }

  lemma LeaderUnique(f: Finding, g: Finding, records: set<Finding>)
    requires Leads(f, records) && Leads(g, records) && f.id == g.id
    ensures f == g
  {
    StrLessTrichotomy(f.updatedAt, g.updatedAt);
  }

  /** A list of records merges, in its order, exactly when each record can be decided
      against the latest of its id before it: it is the same record, or differs in
      stamp, or exactly one of the two is open, and the scope is the same. */
  lemma {:induction false} MergeExact(s: seq<Finding>)
    ensures MergeAll(s).Success? <==> MergesInTurn(s)
  {
    if s != [] {
      var last, front := s[|s| - 1], s[..|s| - 1];
      MergeExact(front);
      if MergeAll(front).Success? {
        DecidesExactly(front, last);
      }
    }
  }

  lemma DecidesExactly(front: seq<Finding>, f: Finding)
    requires MergeAll(front).Success?
    ensures MergeInto(MergeAll(front).value, f).Success? <==> Decides(Elems(front), f)
  {
    MergeKeepsGreatest(front);
    var m := MergeAll(front).value;
    if f.id in m {
      assert Leads(m[f.id], Elems(front));
      forall g | Leads(g, Elems(front)) && g.id == f.id
        ensures g == m[f.id]
      {
        LeaderUnique(g, m[f.id], Elems(front));
      }
    }
  }

  // ---- every order

  ghost predicate PairsMergeable(records: set<Finding>) {
    forall f, g :: f in records && g in records && f.id == g.id ==> Mergeable(f, g)
  }

  lemma {:induction false} PairsMergeInTurn(s: seq<Finding>)
    requires PairsMergeable(Elems(s))
    ensures MergesInTurn(s)
  {
    if s != [] {
      PairsMergeInTurn(s[..|s| - 1]);
    }
  }

  lemma PairInFront(s: seq<Finding>, f: Finding, g: Finding)
    requires f in Elems(s) && g in Elems(s) && f.id == g.id
    ensures Elems([f, g] + s) == Elems(s)
    ensures MergeAll([f, g] + s).Success? ==> Mergeable(f, g)
  {
    ConcatElems([f, g], s);
    assert [f, g][..1] == [f] && [f][..0] == [];
    assert Elems([f]) == {f} && Elems([f, g]) == {f, g};
    if MergeAll([f, g] + s).Success? {
      FrontMerges([f, g], s);
      MergeExact([f, g]);
      assert Leads(f, {f});
    }
  }

  lemma {:induction false} ConcatElems(a: seq<Finding>, b: seq<Finding>)
    ensures Elems(a + b) == Elems(a) + Elems(b)
  {
    if b == [] {
      assert a + b == a;
    } else {
      ConcatElems(a, b[..|b| - 1]);
      ConcatFront(a, b);
    }
  }

  lemma FrontMerges(a: seq<Finding>, b: seq<Finding>)
    requires MergeAll(a + b).Success?
    ensures MergeAll(a).Success?
  {
    assert (a + b)[..|a|] == a;
    if MergeAll(a).Failure? {
      MergeFailsEarly(a + b, |a|);
    }
  }

  ghost predicate EveryOrderMerges(records: set<Finding>) {
    forall t: seq<Finding> :: Elems(t) == records ==> MergeAll(t).Success?
  }

  /** Acceptance does not depend on the order of the records, and every order is
      accepted, exactly when any two records of one id can be decided. */
  lemma EveryOrderMergesExactly(s: seq<Finding>)
    ensures EveryOrderMerges(Elems(s)) <==> PairsMergeable(Elems(s))
  {
    if PairsMergeable(Elems(s)) {
      forall t: seq<Finding> | Elems(t) == Elems(s)
        ensures MergeAll(t).Success?
      {
        PairsMergeInTurn(t);
        MergeExact(t);
      }
      assert EveryOrderMerges(Elems(s));
    }
    if EveryOrderMerges(Elems(s)) {
      forall f, g | f in Elems(s) && g in Elems(s) && f.id == g.id
        ensures Mergeable(f, g)
      {
        PairInFront(s, f, g);
      }
    }
  }

  // ---- some order

  /** The record beats or is every other of its id and can be decided against it. */
  ghost predicate Settles(g: Finding, records: set<Finding>) {
    g in records && forall f :: f in records && f.id == g.id ==> BeatsOrIs(g, f) && Mergeable(g, f)
  }

  ghost predicate IsSettled(f: Finding, records: set<Finding>) {
    exists g :: Settles(g, records) && g.id == f.id
  }

  ghost predicate EachSettled(records: set<Finding>) {
    forall f {:trigger IsSettled(f, records)} :: f in records ==> IsSettled(f, records)
  }

  lemma MergedIsSettled(t: seq<Finding>)
    requires MergeAll(t).Success?
    ensures EachSettled(Elems(t))
  {
    MergeKeepsGreatest(t);
    forall f | f in Elems(t)
      ensures IsSettled(f, Elems(t))
    {
      GreatestSettles(t, f.id);
    }
  }

  lemma GreatestSettles(t: seq<Finding>, id: string)
    requires MergeAll(t).Success? && id in MergeAll(t).value
    ensures MergeAll(t).value[id].id == id && Settles(MergeAll(t).value[id], Elems(t))
  {
    MergeKeepsGreatest(t);
    var g := MergeAll(t).value[id];
    forall f | f in Elems(t) && f.id == g.id
      ensures Mergeable(g, f)
    {
      StrLessTrichotomy(f.updatedAt, g.updatedAt);
    }
  }

  lemma SettlerUnique(f: Finding, g: Finding, records: set<Finding>)
    requires Settles(f, records) && Settles(g, records) && f.id == g.id
    ensures f == g
  {
    StrLessTrichotomy(f.updatedAt, g.updatedAt);
  }

  ghost function Settlers(records: set<Finding>): set<Finding> {
    set g | g in records && Settles(g, records)
  }

  lemma {:induction false} SettlersMerge(records: set<Finding>, first: seq<Finding>)
    requires Distinct(first) && Elems(first) <= Settlers(records)
    ensures MergesInTurn(first)
  {
    if first != [] {
      var front, last := first[..|first| - 1], first[|first| - 1];
      SettlersMerge(records, front);
      ElemsMembers(front);
      forall g | g in Elems(front)
        ensures g.id != last.id
      {
        if g.id == last.id {
          SettlerUnique(g, last, records);
        }
      }
    }
  }

  lemma InTurnAppend(s: seq<Finding>, f: Finding)
    requires MergesInTurn(s) && Decides(Elems(s), f)
    ensures MergesInTurn(s + [f]) && Elems(s + [f]) == Elems(s) + {f}
  {
    assert (s + [f])[..|s|] == s;
  }

  lemma SettlerDecides(records: set<Finding>, before: set<Finding>, f: Finding, g: Finding)
    requires before <= records && f in records && g in before && Settles(g, records) && g.id == f.id
    ensures Decides(before, f)
  {
    assert Leads(g, before);
    forall h | Leads(h, before) && h.id == f.id
      ensures h == g
    {
      LeaderUnique(h, g, before);
    }
  }

  lemma SettledInTime(records: set<Finding>, before: set<Finding>, f: Finding)
    requires IsSettled(f, records) && Settlers(records) <= before <= records && f in records
    ensures Decides(before, f)
  {
    var g :| Settles(g, records) && g.id == f.id;
    assert g in Settlers(records);
    SettlerDecides(records, before, f, g);
  }

  /** Listed first, the settling records decide everything after them. */
  lemma {:induction false} SettlersFirst(records: set<Finding>, first: seq<Finding>, s: seq<Finding>)
    returns (t: seq<Finding>)
    requires EachSettled(records) && Elems(s) <= records
    requires Distinct(first) && Elems(first) == Settlers(records)
    ensures MergesInTurn(t) && Elems(t) == Settlers(records) + Elems(s)
  {
    if s == [] {
      SettlersMerge(records, first);
      t := first;
    } else {
      var f := s[|s| - 1];
      var before := SettlersFirst(records, first, s[..|s| - 1]);
      assert IsSettled(f, records);
      SettledInTime(records, Elems(before), f);
      InTurnAppend(before, f);
      t := before + [f];
    }
  }

  ghost predicate SomeOrderMerges(records: set<Finding>) {
    exists t: seq<Finding> :: Elems(t) == records && MergeAll(t).Success?
  }

  /** Some order of the records is accepted exactly when each id has a record that
      beats or is every other of the id and can be decided against each. */
  lemma SomeOrderMergesExactly(s: seq<Finding>)
    ensures SomeOrderMerges(Elems(s)) <==> EachSettled(Elems(s))
  {
    if SomeOrderMerges(Elems(s)) {
      var t: seq<Finding> :| Elems(t) == Elems(s) && MergeAll(t).Success?;
      MergedIsSettled(t);
    }
    if EachSettled(Elems(s)) {
      SettledMerges(s);
    }
  }

  lemma SettledMerges(s: seq<Finding>)
    requires EachSettled(Elems(s))
    ensures SomeOrderMerges(Elems(s))
  {
    var first := ListSettlers(Elems(s));
    var t := SettlersFirst(Elems(s), first, s);
    MergeExact(t);
    assert Elems(t) == Elems(s);
  }

  lemma ListSettlers(records: set<Finding>) returns (first: seq<Finding>)
    ensures Distinct(first) && Elems(first) == Settlers(records)
  {
    first := Enumerate(Settlers(records));
    ElemsMembers(first);
  }
}
