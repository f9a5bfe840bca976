/** Which refusal an audit gets: the first stage that fails, and within it the first
    record that does, in terms of the records alone. */
module Refusals {
  import opened Ordering
  import opened Findings
  import opened MergeLaws
  import opened FindingsLaws
  import opened Persistence
  import opened Publication

  /** Some element is at fault, given those before it. */
  ghost predicate SomeFault<T>(s: seq<T>, faulty: (seq<T>, T) -> bool) {
    exists i: nat :: i < |s| && faulty(s[..i], s[i])
  }

  lemma FaultAtLast<T>(s: seq<T>, faulty: (seq<T>, T) -> bool)
    requires s != []
    ensures SomeFault(s, faulty) <==> SomeFault(s[..|s| - 1], faulty) || faulty(s[..|s| - 1], s[|s| - 1])
  {
    var front := s[..|s| - 1];
    if SomeFault(s, faulty) {
      var i: nat :| i < |s| && faulty(s[..i], s[i]);
      if i < |front| {
        TakeTake(s, |s| - 1, i);
        assert faulty(front[..i], front[i]);
      }
    }
    if SomeFault(front, faulty) {
      var i: nat :| i < |front| && faulty(front[..i], front[i]);
      TakeTake(s, |s| - 1, i);
      assert faulty(s[..i], s[i]);
    }
  }

  // ---- the audit's own findings

  /** The first record that cannot stand in an audit: it is neither open nor waived,
      or an earlier one of its id has another scope or another payload. */
  ghost predicate Spoils(before: set<Finding>, f: Finding, e: Fault) {
    && ValidAudit(before)
    && if f.status != Open && f.status != Waived then e == AuditStatus(f.id)
       else exists g :: g in before && g.id == f.id && g != f
                        && e == if g.domain == f.domain && g.area == f.area then ConflictingDuplicate(g.id)
                                else ScopeReused(g.id)
  }

  ghost function Spoiling(e: Fault): (seq<Finding>, Finding) -> bool {
    (before, f) => Spoils(Elems(before), f, e)
  }

  ghost predicate AuditSpoiled(s: seq<Finding>, e: Fault) {
    SomeFault(s, Spoiling(e))
  }

  lemma DedupFault(d: Dict, records: set<Finding>, f: Finding, e: Fault)
    requires ValidAudit(records) && DictOf(d, records)
    ensures DedupInto(d, f) == Failure(e) <==> Spoils(records, f, e)
  {
    if f.id in d.index {
      assert d.index[f.id] in records;
    }
  }

  lemma {:induction false} DedupFailsExactly(s: seq<Finding>, e: Fault)
    ensures Dedup(s) == Failure(e) <==> AuditSpoiled(s, e)
  {
    if s != [] {
      var last, front := s[|s| - 1], s[..|s| - 1];
      DedupFailsExactly(front, e);
      DedupExact(front);
      FaultAtLast(s, Spoiling(e));
      if Dedup(front).Success? {
        DedupFault(Dedup(front).value, Elems(front), last, e);
      }
    }
  }

  // ---- the stored records

  /** The first record that cannot be decided against the latest of its id before it. */
  ghost predicate Undecided(before: seq<Finding>, f: Finding, e: Fault) {
    && MergesInTurn(before)
    && exists g :: Leads(g, Elems(before)) && g.id == f.id && !Mergeable(g, f)
                   && e == if g.domain == f.domain && g.area == f.area then StoresDisagree(g.id) else ScopeReused(g.id)
  }

  ghost function Deciding(e: Fault): (seq<Finding>, Finding) -> bool {
    (before, f) => Undecided(before, f, e)
  }

  ghost predicate MergeSpoiled(s: seq<Finding>, e: Fault) {
    SomeFault(s, Deciding(e))
  }

  lemma MergeFault(front: seq<Finding>, f: Finding, e: Fault)
    requires MergeAll(front).Success?
    ensures MergeInto(MergeAll(front).value, f) == Failure(e) <==> Undecided(front, f, e)
  {
    MergeExact(front);
    MergeKeepsGreatest(front);
    var m := MergeAll(front).value;
    if f.id in m {
      assert Leads(m[f.id], Elems(front));
      forall g | Leads(g, Elems(front)) && g.id == f.id
        ensures g == m[f.id]
      {
        LeaderUnique(g, m[f.id], Elems(front));
      }
    }
  }

  lemma {:induction false} MergeFailsExactly(s: seq<Finding>, e: Fault)
    ensures MergeAll(s) == Failure(e) <==> MergeSpoiled(s, e)
  {
    if s != [] {
      var last, front := s[|s| - 1], s[..|s| - 1];
      MergeFailsExactly(front, e);
      MergeExact(front);
      FaultAtLast(s, Deciding(e));
      if MergeAll(front).Success? {
        MergeFault(front, last, e);
      }
    }
  }

  // ---- the audit against the stored records

  /** Of an evaluated domain, and of the scope of every stored record of its id. */
  ghost predicate Fits(stored: set<Finding>, f: Finding, audit: Audit) {
    && f.domain in audit.domainStatus && audit.domainStatus[f.domain] == Evaluated
    && forall g :: g in stored && g.id == f.id ==> g.domain == f.domain && g.area == f.area
  }

  /** `m` holds for each stored id one of its records, all of one scope. */
  ghost predicate TableOf(m: map<string, Finding>, stored: set<Finding>) {
    && (forall f :: f in stored ==> f.id in m && SameScope(m[f.id], f))
    && (forall id :: id in m ==> m[id].id == id && m[id] in stored)
  }

  ghost predicate AllFit(stored: set<Finding>, records: set<Finding>, audit: Audit) {
    forall f :: f in records ==> Fits(stored, f, audit)
  }

  /** The first misfit, and why: its domain is not evaluated, or else the stored record
      of its id has another scope. */
  ghost predicate Misfit(stored: set<Finding>, before: set<Finding>, f: Finding, audit: Audit, e: Fault) {
    && AllFit(stored, before, audit) && !Fits(stored, f, audit)
    && e == if f.domain in audit.domainStatus && audit.domainStatus[f.domain] == Evaluated then ScopeReused(f.id)
            else DomainNotEvaluated(f.id)
  }

  ghost function Fitting(stored: set<Finding>, audit: Audit, e: Fault): (seq<Finding>, Finding) -> bool {
    (before, f) => Misfit(stored, Elems(before), f, audit, e)
  }

  ghost predicate OverlaySpoiled(stored: set<Finding>, s: seq<Finding>, audit: Audit, e: Fault) {
    SomeFault(s, Fitting(stored, audit, e))
  }

  lemma OverlaidFit(m: map<string, Finding>, stored: set<Finding>, s: seq<Finding>, audit: Audit)
    requires TableOf(m, stored) && UniqueIds(s)
    ensures Overlay(m, s, audit).Success? <==> AllFit(stored, Elems(s), audit)
  {
    OverlayExact(m, s, audit);
  }

  lemma OverlaidElsewhere(m: map<string, Finding>, s: seq<Finding>, audit: Audit, id: string)
    requires UniqueIds(s) && Overlay(m, s, audit).Success? && forall g :: g in Elems(s) ==> g.id != id
    ensures Get(Overlay(m, s, audit).value, id) == Get(m, id)
  {
    OverlayExact(m, s, audit);
    IndexOfIndexes(s);
  }

  lemma MisfitExactly(m: map<string, Finding>, stored: set<Finding>, overlaid: map<string, Finding>,
                      before: set<Finding>, f: Finding, audit: Audit, e: Fault)
    requires TableOf(m, stored) && AllFit(stored, before, audit) && Get(overlaid, f.id) == Get(m, f.id)
    ensures OverlayInto(overlaid, f, audit) == Failure(e) <==> Misfit(stored, before, f, audit, e)
  {
  }

  lemma {:induction false} OverlayFailsExactly(m: map<string, Finding>, stored: set<Finding>, s: seq<Finding>,
                                               audit: Audit, e: Fault)
    requires TableOf(m, stored) && UniqueIds(s)
    ensures Overlay(m, s, audit) == Failure(e) <==> OverlaySpoiled(stored, s, audit, e)
  {
    if s != [] {
      var last, front := s[|s| - 1], s[..|s| - 1];
      UniqueLast(s);
      OverlayFailsExactly(m, stored, front, audit, e);
      FaultAtLast(s, Fitting(stored, audit, e));
      OverlaidFit(m, stored, front, audit);
      if Overlay(m, front, audit).Success? {
        OverlaidElsewhere(m, front, audit, last.id);
        MisfitExactly(m, stored, Overlay(m, front, audit).value, Elems(front), last, audit, e);
      }
    }
  }

  /** Leaving repeated findings out does not change what the overlay runs into. */
  lemma {:induction false} DedupSpoilsAlike(stored: set<Finding>, s: seq<Finding>, audit: Audit, e: Fault)
    requires Dedup(s).Success?
    ensures OverlaySpoiled(stored, Dedup(s).value.order, audit, e) <==> OverlaySpoiled(stored, s, audit, e)
  {
    if s != [] {
      var last, front := s[|s| - 1], s[..|s| - 1];
      var d := Dedup(front).value;
      DedupSpoilsAlike(stored, front, audit, e);
      DedupExact(front);
      FaultAtLast(s, Fitting(stored, audit, e));
      if last.id !in d.index {
        assert (d.order + [last])[..|d.order|] == d.order;
        FaultAtLast(d.order + [last], Fitting(stored, audit, e));
      }
    }
  }

  // ---- the whole reconciliation

  ghost predicate RefusedAs(audit: Audit, open: Option<Store>, history: Option<Store>, e: Fault) {
    var stored := StoredFindings(audit, open, history);
    if !ValidAudit(Elems(audit.findings)) then AuditSpoiled(audit.findings, e)
    else if !OneVersion(open, history) then e == StoreVersions
    else if !MergesInTurn(stored) then MergeSpoiled(stored, e)
    else OverlaySpoiled(Elems(stored), audit.findings, audit, e)
  }

  /** The stores given have one version, which is "0.1.0" if the open one is not given. */
  ghost predicate OneVersion(open: Option<Store>, history: Option<Store>) {
    history.Some? ==> history.value.version == if open.Some? then open.value.version else "0.1.0"
  }

  /** Which refusal an input gets, exactly: the audit's own findings are looked at
      first, then the versions, then the stored records, then the one against the
      other; and in each the first record at fault is named. */
  lemma RefusalExact(audit: Audit, open: Option<Store>, history: Option<Store>, e: Fault)
    ensures Reconcile(audit, open, history) == Failure(e) <==> RefusedAs(audit, open, history, e)
  {
    var stored := StoredFindings(audit, open, history);
    DedupFailsExactly(audit.findings, e);
    DedupExact(audit.findings);
    MergeExact(stored);
    MergeFailsExactly(stored, e);
    if ValidAudit(Elems(audit.findings)) && MergesInTurn(stored) {
      var d, m := Dedup(audit.findings).value, MergeAll(stored).value;
      MergeKeepsGreatest(stored);
      OverlayFailsExactly(m, Elems(stored), d.order, audit, e);
      DedupSpoilsAlike(Elems(stored), audit.findings, audit, e);
    }
  }

  // ---- versions on disk

  lemma VersionsRefused(audit: Audit, open: Store, history: Store)
    ensures Reconcile(audit, Some(open), Some(history)) == Failure(StoreVersions) <==>
              ValidAudit(Elems(audit.findings)) && open.version != history.version
  {
    var stored := StoredFindings(audit, Some(open), Some(history));
    RefusalExact(audit, Some(open), Some(history), StoreVersions);
    NeverVersions(audit, stored, Elems(stored));
  }

  /** No record is ever at fault for the versions. */
  lemma NeverVersions(audit: Audit, s: seq<Finding>, stored: set<Finding>)
    ensures !AuditSpoiled(audit.findings, StoreVersions) && !MergeSpoiled(s, StoreVersions)
    ensures !OverlaySpoiled(stored, audit.findings, audit, StoreVersions)
  {
    forall before: seq<Finding>, f: Finding
      ensures !Spoiling(StoreVersions)(before, f) && !Deciding(StoreVersions)(before, f)
      ensures !Fitting(stored, audit, StoreVersions)(before, f)
    {
    }
  }

  /** On disk a missing open store takes the version of the history, and a missing
      history is taken to be of "0.1.0": so a valid audit is refused for the versions
      exactly when there is an open store of another version than that. */
  lemma DiskVersionsRefused(files: Files, audit: Audit)
    ensures
      var open, history := Named("open-findings.json"), Named("findings-history.json");
      PersistResult(files, audit) == Failure(StoreVersions) <==>
        && ValidAudit(Elems(audit.findings)) && open in files
        && files[open].version != if history in files then files[history].version else "0.1.0"
  {
    VersionsRefused(audit, LoadOpen(files, audit), LoadHistory(files, audit));
  }
}
