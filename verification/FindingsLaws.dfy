/** What reconciliation guarantees, stated without its loops: which inputs it
    accepts, what becomes of every id, idempotence, independence of the order of
    the audit's findings, and what every run of audits keeps. */
module FindingsLaws {
  import opened Ordering
  import opened Findings
  import opened MergeLaws

  ghost predicate UniqueIds(s: seq<Finding>) {
    forall i, j :: 0 <= i < j < |s| ==> s[i].id != s[j].id
  }

  lemma UniqueLast(s: seq<Finding>)
    requires s != [] && UniqueIds(s)
    ensures UniqueIds(s[..|s| - 1])
    ensures forall f :: f in Elems(s[..|s| - 1]) ==> f.id != s[|s| - 1].id
  {
    ElemsMembers(s[..|s| - 1]);
  }

  /** `m` is the lookup table of the records in `records`. */
  ghost predicate Indexes(m: map<string, Finding>, records: set<Finding>) {
    && (forall f :: f in records ==> f.id in m && m[f.id] == f)
    && (forall id :: id in m ==> m[id].id == id && m[id] in records)
  }

  lemma IndexUnique(m: map<string, Finding>, m': map<string, Finding>, records: set<Finding>)
    requires Indexes(m, records) && Indexes(m', records)
    ensures m == m'
  {
    assert forall id :: id in m ==> m[id].id in m';
    assert forall id :: id in m' ==> m'[id].id in m;
  }

  ghost function IndexOf(s: seq<Finding>): map<string, Finding> {
    if s == [] then map[] else IndexOf(s[..|s| - 1])[s[|s| - 1].id := s[|s| - 1]]
  }

  lemma {:induction false} IndexOfIndexes(s: seq<Finding>)
    requires UniqueIds(s)
    ensures Indexes(IndexOf(s), Elems(s))
  {
    if s != [] {
      UniqueLast(s);
      IndexOfIndexes(s[..|s| - 1]);
    }
  }

  // ---- merging two stores without repeated ids

  lemma {:induction false} MergeOfUnique(s: seq<Finding>)
    requires UniqueIds(s)
    ensures MergeAll(s) == Success(IndexOf(s))
  {
    if s != [] {
      UniqueLast(s);
      MergeOfUnique(s[..|s| - 1]);
      IndexOfIndexes(s[..|s| - 1]);
      assert s[|s| - 1].id !in IndexOf(s[..|s| - 1]);
    }
  }

  lemma {:induction false} MergePairKeeps(h: seq<Finding>, o: seq<Finding>)
    requires UniqueIds(h) && UniqueIds(o) && MergeAll(h + o).Success?
    ensures MergeAll(h + o).value.Keys == IndexOf(h).Keys + IndexOf(o).Keys
    ensures forall id :: id in IndexOf(h) && id !in IndexOf(o) ==> MergeAll(h + o).value[id] == IndexOf(h)[id]
  {
    if o == [] {
      assert h + o == h;
      MergeOfUnique(h);
    } else {
      var last, rest := o[|o| - 1], o[..|o| - 1];
      UniqueLast(o);
      assert h + o == (h + rest) + [last];
      MergeAppend(h + rest, last);
      MergePairKeeps(h, rest);
    }
  }

  ghost predicate AllMergeable(m: map<string, Finding>, m': map<string, Finding>) {
    forall id :: id in m && id in m' ==> Mergeable(m[id], m'[id])
  }

  lemma AllMergeableUpdate(m: map<string, Finding>, m': map<string, Finding>, f: Finding)
    requires f.id !in m'
    ensures AllMergeable(m, m'[f.id := f]) <==> AllMergeable(m, m') && MergeRecord(Get(m, f.id), f).Success?
  {
    if AllMergeable(m, m'[f.id := f]) {
      forall id | id in m && id in m'
        ensures Mergeable(m[id], m'[id])
      {
        assert m'[f.id := f][id] == m'[id];
      }
    }
  }

  /** Stores without repeated ids merge exactly when every id they share can be
      decided. */
  lemma {:induction false} MergePairExact(h: seq<Finding>, o: seq<Finding>)
    requires UniqueIds(h) && UniqueIds(o)
    ensures MergeAll(h + o).Success? <==> AllMergeable(IndexOf(h), IndexOf(o))
  {
    IndexOfIndexes(h);
    if o == [] {
      assert h + o == h;
      MergeOfUnique(h);
    } else {
      var last, rest := o[|o| - 1], o[..|o| - 1];
      UniqueLast(o);
      IndexOfIndexes(rest);
      assert last.id !in IndexOf(rest);
      MergePairExact(h, rest);
      assert h + o == (h + rest) + [last];
      MergeAppend(h + rest, last);
      AllMergeableUpdate(IndexOf(h), IndexOf(rest), last);
      if MergeAll(h + rest).Success? {
        MergePairKeeps(h, rest);
        assert Get(MergeAll(h + rest).value, last.id) == Get(IndexOf(h), last.id);
      }
    }
  }

  // ---- deduplication

  ghost predicate ValidAudit(records: set<Finding>) {
    && (forall f :: f in records ==> f.status.Open? || f.status.Waived?)
    && (forall f, g :: f in records && g in records && f.id == g.id ==> f == g)
  }

  /** Deduplication succeeds exactly on open or waived findings whose payloads
      agree per id, and then loses and invents nothing. */
  lemma {:induction false} DedupExact(s: seq<Finding>)
    ensures Dedup(s).Success? <==> ValidAudit(Elems(s))
    ensures Dedup(s).Success? ==> DictOf(Dedup(s).value, Elems(s))
  {
    if s != [] {
      var last, rest := s[|s| - 1], s[..|s| - 1];
      DedupExact(rest);
      if Dedup(rest).Success? {
        DedupIntoExact(Dedup(rest).value, Elems(rest), last);
      }
    }
  }

  ghost predicate DictOf(d: Dict, records: set<Finding>) {
    Indexes(d.index, records) && UniqueIds(d.order) && Elems(d.order) == records
  }

  lemma DedupIntoExact(d: Dict, records: set<Finding>, f: Finding)
    requires ValidAudit(records) && DictOf(d, records)
    ensures DedupInto(d, f).Success? <==> ValidAudit(records + {f})
    ensures DedupInto(d, f).Success? ==> DictOf(DedupInto(d, f).value, records + {f})
  {
    if f.id in d.index {
      var g := d.index[f.id];
      assert g in records + {f} && f in records + {f};
      if DedupInto(d, f).Success? {
        assert records + {f} == records;
      } else {
        assert g.id == f.id;
      }
    } else {
      DictExtended(d, records, f);
    }
  }

  lemma DictExtended(d: Dict, records: set<Finding>, f: Finding)
    requires DictOf(d, records) && f.id !in d.index
    ensures DictOf(Dict(d.order + [f], d.index[f.id := f]), records + {f})
  {
    ElemsMembers(d.order);
    assert (d.order + [f])[..|d.order|] == d.order;
    forall i | 0 <= i < |d.order|
      ensures d.order[i].id != f.id
    {
      assert d.order[i] in Elems(d.order);
    }
  }

  // ---- overlay

  ghost predicate Overlayable(m: map<string, Finding>, records: set<Finding>, audit: Audit) {
    forall f :: f in records ==> IsEvaluated(audit, f.domain) && (f.id in m ==> SameScope(m[f.id], f))
  }

  /** A reported finding keeps the birthday of the record it replaces. */
  function Restamp(m: map<string, Finding>, f: Finding, audit: Audit): Finding {
    f.(createdAt := if f.id in m then m[f.id].createdAt else f.createdAt, updatedAt := audit.generatedAt)
  }

  lemma {:induction false} OverlayExact(m: map<string, Finding>, s: seq<Finding>, audit: Audit)
    requires UniqueIds(s)
    ensures Overlay(m, s, audit).Success? <==> Overlayable(m, Elems(s), audit)
    ensures Overlay(m, s, audit).Success? ==>
      && Overlay(m, s, audit).value.Keys == m.Keys + IndexOf(s).Keys
      && forall id :: id in Overlay(m, s, audit).value ==>
        Overlay(m, s, audit).value[id] ==
        if id in IndexOf(s) then Restamp(m, IndexOf(s)[id], audit) else m[id]
  {
    if s != [] {
      var last, rest := s[|s| - 1], s[..|s| - 1];
      UniqueLast(s);
      OverlayExact(m, rest, audit);
      IndexOfIndexes(rest);
      IndexOfIndexes(s);
      assert last.id !in IndexOf(rest);
    }
  }

  // ---- what a reconciliation does

  /** The fate of every id, in one table. */
  function Outcome(m: map<string, Finding>, reported: map<string, Finding>, audit: Audit): map<string, Finding> {
    map id | id in m.Keys + reported.Keys ::
      if id in reported then Restamp(m, reported[id], audit)
      else if InScope(m[id], audit) then m[id].(status := Resolved, updatedAt := audit.generatedAt)
      else m[id]
  }

  function StoredFindings(audit: Audit, open: Option<Store>, history: Option<Store>): seq<Finding> {
    HistoryOrEmpty(audit, open, history).findings + OpenOrEmpty(audit, open).findings
  }

  /** Each reported finding is of an evaluated domain, and of the same scope as the
      stored records of its id. */
  ghost predicate FitsStored(audit: Audit, stored: set<Finding>) {
    forall f :: f in Elems(audit.findings) ==>
      IsEvaluated(audit, f.domain) && forall g :: g in stored && g.id == f.id ==> SameScope(g, f)
  }

  /** What reconciliation asks of its inputs, in terms of their records. */
  ghost predicate Accepts(audit: Audit, open: Option<Store>, history: Option<Store>) {
    var stored := StoredFindings(audit, open, history);
    && ValidAudit(Elems(audit.findings))
    && OpenOrEmpty(audit, open).version == HistoryOrEmpty(audit, open, history).version
    && MergesInTurn(stored)
    && FitsStored(audit, Elems(stored))
  }

  lemma FitsExactly(audit: Audit, stored: seq<Finding>)
    requires MergesInTurn(stored)
    ensures MergeAll(stored).Success?
    ensures FitsStored(audit, Elems(stored)) <==> Overlayable(MergeAll(stored).value, Elems(audit.findings), audit)
  {
    MergeExact(stored);
    MergeKeepsGreatest(stored);
  }

  /** What an accepted reconciliation knew: the merged table and the reported one. */
  ghost function Known(audit: Audit, open: Option<Store>, history: Option<Store>): map<string, Finding>
    requires Accepts(audit, open, history)
  {
    FitsExactly(audit, StoredFindings(audit, open, history));
    MergeAll(StoredFindings(audit, open, history)).value
  }

  ghost function Reported(audit: Audit): map<string, Finding>
    requires ValidAudit(Elems(audit.findings))
  {
    DedupExact(audit.findings);
    Dedup(audit.findings).value.index
  }

  /** Reconciliation accepts exactly the inputs that meet `Accepts`, and then the
      history lists the outcome table and the open store its open part. */
  lemma ReconcileExact(audit: Audit, open: Option<Store>, history: Option<Store>)
    ensures Reconcile(audit, open, history).Success? <==> Accepts(audit, open, history)
    ensures Accepts(audit, open, history) ==>
      Reconcile(audit, open, history).value ==
      StoresFrom(OpenOrEmpty(audit, open).version, audit.generatedAt,
        Listing(Outcome(Known(audit, open, history), Reported(audit), audit)))
  {
    DedupExact(audit.findings);
    var stored := StoredFindings(audit, open, history);
    MergeExact(stored);
    if ValidAudit(Elems(audit.findings)) && MergesInTurn(stored) {
      var d, merged := Dedup(audit.findings).value, MergeAll(stored).value;
      FitsExactly(audit, stored);
      OverlayExact(merged, d.order, audit);
      IndexOfIndexes(d.order);
      IndexUnique(IndexOf(d.order), d.index, Elems(audit.findings));
      MergeKeyed(stored);
      if Overlayable(merged, Elems(audit.findings), audit) {
        ResolveOverlaid(merged, Overlay(merged, d.order, audit).value, d.index, audit);
      }
    }
  }

  lemma ResolveOverlaid(m: map<string, Finding>, overlaid: map<string, Finding>, reported: map<string, Finding>,
                        audit: Audit)
    requires WellKeyed(m) && WellKeyed(reported)
    requires overlaid.Keys == m.Keys + reported.Keys
    requires forall id :: id in overlaid ==>
      overlaid[id] == if id in reported then Restamp(m, reported[id], audit) else m[id]
    ensures ResolveAll(overlaid, reported, audit) == Outcome(m, reported, audit)
  {
  }

  /** One id with two payloads in an audit makes reconciliation raise, whatever the
      stores hold. */
  lemma ConflictingIdsRejected(audit: Audit, open: Option<Store>, history: Option<Store>, f: Finding, g: Finding)
    requires f in audit.findings && g in audit.findings && f.id == g.id && f != g
    ensures Reconcile(audit, open, history).Failure?
  {
    ElemsMembers(audit.findings);
    ReconcileExact(audit, open, history);
  }

  // ---- coherence of the persisted pair

  ghost predicate Coherent(s: Stores) {
    && s.open.version == s.history.version
    && UniqueIds(s.history.findings)
    && Ordered(s.history.findings, FindingLe)
    && s.open.findings == OpenSlice(s.history.findings)
  }

  ghost function Table(s: Stores): map<string, Finding> {
    IndexOf(s.history.findings)
  }

  lemma {:induction false} OpenSliceElements(s: seq<Finding>)
    ensures forall f :: f in OpenSlice(s) <==> f in s && f.status.Open?
  {
    if s != [] {
      OpenSliceElements(s[1..]);
      assert s == [s[0]] + s[1..];
    }
  }

  lemma ListingIndexed(m: map<string, Finding>)
    requires WellKeyed(m)
    ensures UniqueIds(Listing(m)) && Ordered(Listing(m), FindingLe)
    ensures IndexOf(Listing(m)) == m
  {
    ListingHolds(m);
    var s := Listing(m);
    forall i, j | 0 <= i < j < |s|
      ensures s[i].id != s[j].id
    {
      assert Holds(m, s[i]) && Holds(m, s[j]);
    }
    ElemsMembers(s);
    IndexOfIndexes(s);
    IndexUnique(IndexOf(s), m, Elems(s));
  }

  lemma {:induction false} MergeAbsorbs(h: seq<Finding>, o: seq<Finding>)
    requires UniqueIds(h) && Elems(o) <= Elems(h)
    ensures MergeAll(h + o) == Success(IndexOf(h))
  {
    IndexOfIndexes(h);
    if o == [] {
      assert h + o == h;
      MergeOfUnique(h);
    } else {
      var last, rest := o[|o| - 1], o[..|o| - 1];
      assert Elems(o) == Elems(rest) + {last};
      MergeAbsorbs(h, rest);
      assert h + o == (h + rest) + [last];
      MergeAppend(h + rest, last);
      assert IndexOf(h)[last.id := last] == IndexOf(h);
    }
  }

  /** On a coherent pair the merge is the history table; it never raises. */
  lemma CoherentMerge(s: Stores)
    requires Coherent(s)
    ensures MergeAll(s.history.findings + s.open.findings) == Success(Table(s))
    ensures WellKeyed(Table(s))
  {
    OpenSliceElements(s.history.findings);
    ElemsMembers(s.history.findings);
    ElemsMembers(s.open.findings);
    MergeAbsorbs(s.history.findings, s.open.findings);
    IndexOfIndexes(s.history.findings);
  }

  /** So a coherent pair accepts every valid audit that keeps to its scopes. */
  lemma CoherentAccepts(s: Stores, audit: Audit)
    requires Coherent(s)
    ensures Accepts(audit, Some(s.open), Some(s.history)) <==>
      ValidAudit(Elems(audit.findings)) && Overlayable(Table(s), Elems(audit.findings), audit)
    ensures Accepts(audit, Some(s.open), Some(s.history)) ==> Known(audit, Some(s.open), Some(s.history)) == Table(s)
    ensures WellKeyed(Table(s))
  {
    var stored := StoredFindings(audit, Some(s.open), Some(s.history));
    CoherentMerge(s);
    MergeExact(stored);
    FitsExactly(audit, stored);
  }

  /** The table behind an accepted history, and its coherence. */
  lemma ReconcileTable(audit: Audit, open: Option<Store>, history: Option<Store>)
    requires Accepts(audit, open, history)
    ensures Reconcile(audit, open, history).Success? && Coherent(Reconcile(audit, open, history).value)
    ensures Table(Reconcile(audit, open, history).value) == Outcome(Known(audit, open, history), Reported(audit), audit)
    ensures WellKeyed(Known(audit, open, history)) && Indexes(Reported(audit), Elems(audit.findings))
  {
    ReconcileExact(audit, open, history);
    DedupExact(audit.findings);
    MergeKeyed(StoredFindings(audit, open, history));
    ListingIndexed(Outcome(Known(audit, open, history), Reported(audit), audit));
  }

  /** Exactly one of three things happens to an id: it is reported and takes the
      reported record with its old birthday; it is unreported and in scope and is
      resolved; or its record is left alone. */
  ghost predicate MovesByOneRule(m: map<string, Finding>, m': map<string, Finding>, audit: Audit) {
    && (forall id :: id in m' <==> id in m || IsReported(audit, id))
    && (forall f :: f in audit.findings ==> f.id in m' && TakesReport(m, m'[f.id], f, audit))
    && (forall id :: id in m && !IsReported(audit, id) ==>
          m'[id] == if Lapses(m[id], audit) then m[id].(status := Resolved, updatedAt := audit.generatedAt) else m[id])
  }

  /** Unreported, such a record is taken to be resolved. */
  predicate Lapses(f: Finding, audit: Audit) {
    && (f.status == Open || f.status == Waived) && f.area == audit.area
    && f.domain in audit.domainStatus && audit.domainStatus[f.domain] == Evaluated
  }

  ghost predicate IsReported(audit: Audit, id: string) {
    exists f :: f in audit.findings && f.id == id
  }

  predicate TakesReport(m: map<string, Finding>, g: Finding, f: Finding, audit: Audit) {
    && g.status == f.status && g.body == f.body && g.domain == f.domain && g.area == f.area
    && g.updatedAt == audit.generatedAt
    && g.createdAt == (if f.id in m then m[f.id].createdAt else f.createdAt)
  }

  /** Every accepted reconciliation moves every id by one of the rules, and its
      result is coherent. */
  lemma ReconcileMovesEveryIdByOneRule(audit: Audit, open: Option<Store>, history: Option<Store>)
    requires Accepts(audit, open, history)
    ensures Reconcile(audit, open, history).Success? && Coherent(Reconcile(audit, open, history).value)
    ensures MovesByOneRule(Known(audit, open, history), Table(Reconcile(audit, open, history).value), audit)
  {
    ReconcileTable(audit, open, history);
    OutcomeMoves(Known(audit, open, history), Reported(audit), audit);
  }

  lemma OutcomeMoves(m: map<string, Finding>, reported: map<string, Finding>, audit: Audit)
    requires Indexes(reported, Elems(audit.findings))
    ensures MovesByOneRule(m, Outcome(m, reported, audit), audit)
  {
    ReportedKeys(reported, audit);
    forall f | f in audit.findings
      ensures f.id in Outcome(m, reported, audit) && TakesReport(m, Outcome(m, reported, audit)[f.id], f, audit)
    {
    }
    forall id | id in m && !IsReported(audit, id)
      ensures InScope(m[id], audit) <==> Lapses(m[id], audit)
    {
    }
  }

  lemma ReportedKeys(reported: map<string, Finding>, audit: Audit)
    requires Indexes(reported, Elems(audit.findings))
    ensures forall id :: id in reported <==> IsReported(audit, id)
    ensures forall f :: f in audit.findings ==> f.id in reported && reported[f.id] == f
  {
    ElemsMembers(audit.findings);
    forall id | id in reported
      ensures IsReported(audit, id)
    {
      assert reported[id] in audit.findings;
    }
  }

  /** Reconciling again with the same audit changes nothing, from any start that
      the first reconciliation accepted. */
  lemma ReconcileIdempotent(audit: Audit, open: Option<Store>, history: Option<Store>)
    requires Reconcile(audit, open, history).Success?
    ensures
      var r := Reconcile(audit, open, history);
      Reconcile(audit, Some(r.value.open), Some(r.value.history)) == r
  {
    ReconcileExact(audit, open, history);
    ReconcileTable(audit, open, history);
    var r := Reconcile(audit, open, history).value;
    FitsExactly(audit, StoredFindings(audit, open, history));
    OutcomeStable(Known(audit, open, history), Reported(audit), audit);
    CoherentAccepts(r, audit);
    ReconcileExact(audit, Some(r.open), Some(r.history));
  }

  lemma OutcomeStable(m: map<string, Finding>, reported: map<string, Finding>, audit: Audit)
    requires WellKeyed(m) && Indexes(reported, Elems(audit.findings)) && Overlayable(m, Elems(audit.findings), audit)
    ensures Overlayable(Outcome(m, reported, audit), Elems(audit.findings), audit)
    ensures Outcome(Outcome(m, reported, audit), reported, audit) == Outcome(m, reported, audit)
  {
  }

  /** Permuting the audit's findings, or repeating some of them, changes neither
      whether the audit is accepted nor the two stores. */
  lemma ReconcileIgnoresFindingOrder(audit: Audit, findings: seq<Finding>, open: Option<Store>, history: Option<Store>)
    requires SameElements(audit.findings, findings)
    ensures
      var r, r' := Reconcile(audit, open, history), Reconcile(audit.(findings := findings), open, history);
      && r.Success? == r'.Success?
      && (r.Success? ==> r == r')
  {
    ElemsSame(audit.findings, findings);
    ReconcileDependsOnElements(audit, findings, open, history);
  }

  lemma ReconcileDependsOnElements(audit: Audit, findings: seq<Finding>, open: Option<Store>, history: Option<Store>)
    requires Elems(audit.findings) == Elems(findings)
    ensures
      var r, r' := Reconcile(audit, open, history), Reconcile(audit.(findings := findings), open, history);
      && r.Success? == r'.Success?
      && (r.Success? ==> r == r')
  {
    var audit' := audit.(findings := findings);
    assert StoredFindings(audit, open, history) == StoredFindings(audit', open, history);
    ReportedSame(audit, audit');
    ReconcileExact(audit, open, history);
    ReconcileExact(audit', open, history);
    if Accepts(audit, open, history) || Accepts(audit', open, history) {
      OutcomeIgnoresFindings(MergeAll(StoredFindings(audit, open, history)).value, Reported(audit), audit, findings);
    }
  }

  lemma OutcomeIgnoresFindings(m: map<string, Finding>, reported: map<string, Finding>, audit: Audit,
                               findings: seq<Finding>)
    requires Elems(audit.findings) == Elems(findings)
    ensures Outcome(m, reported, audit.(findings := findings)) == Outcome(m, reported, audit)
    ensures Overlayable(m, Elems(findings), audit.(findings := findings)) <==> Overlayable(m, Elems(findings), audit)
  {
  }

  lemma ReportedSame(audit: Audit, audit': Audit)
    requires Elems(audit.findings) == Elems(audit'.findings)
    ensures ValidAudit(Elems(audit.findings)) ==> Reported(audit) == Reported(audit')
  {
    if ValidAudit(Elems(audit.findings)) {
      DedupExact(audit.findings);
      DedupExact(audit'.findings);
      IndexUnique(Reported(audit), Reported(audit'), Elems(audit.findings));
    }
  }

  // ---- runs

  /** One persisted audit; a rejected one leaves the stores as they were. */
  ghost function Step(s: Stores, audit: Audit): Stores {
    match Reconcile(audit, Some(s.open), Some(s.history))
    case Success(s') => s'
    case Failure(_) => s
  }

  ghost function Run(s: Stores, audits: seq<Audit>): Stores {
    if audits == [] then s else Step(Run(s, audits[..|audits| - 1]), audits[|audits| - 1])
  }

  /** Nothing about the identity of a finding is lost or rewritten. */
  ghost predicate SameIdentities(m: map<string, Finding>, m': map<string, Finding>) {
    forall id :: id in m ==> id in m' && SameScope(m[id], m'[id]) && m[id].createdAt == m'[id].createdAt
  }

  lemma StepKeeps(s: Stores, audit: Audit)
    requires Coherent(s)
    ensures Coherent(Step(s, audit)) && SameIdentities(Table(s), Table(Step(s, audit)))
  {
    CoherentAccepts(s, audit);
    ReconcileExact(audit, Some(s.open), Some(s.history));
    if Accepts(audit, Some(s.open), Some(s.history)) {
      ReconcileTable(audit, Some(s.open), Some(s.history));
      OutcomeKeepsIdentities(Table(s), Reported(audit), audit);
    }
  }

  lemma OutcomeKeepsIdentities(m: map<string, Finding>, reported: map<string, Finding>, audit: Audit)
    requires WellKeyed(m) && Indexes(reported, Elems(audit.findings)) && Overlayable(m, Elems(audit.findings), audit)
    ensures SameIdentities(m, Outcome(m, reported, audit))
  {
  }

  /** Over every run of audits, accepted or not, the persisted pair stays coherent,
      no id vanishes, and no id changes its domain, area or birthday. */
  lemma {:induction false} RunKeeps(s: Stores, audits: seq<Audit>)
    requires Coherent(s)
    ensures Coherent(Run(s, audits)) && SameIdentities(Table(s), Table(Run(s, audits)))
  {
    if audits != [] {
      RunKeeps(s, audits[..|audits| - 1]);
      StepKeeps(Run(s, audits[..|audits| - 1]), audits[|audits| - 1]);
    }
  }
}
