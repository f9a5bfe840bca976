/** Findings reconciliation: two persisted stores are merged, overlaid with one
    audit, and everything in the audited scope that is no longer reported is
    resolved. The specification functions follow the stages of the program;
    FindingsLaws.dfy proves what the stages add up to. */
module Findings {
  import opened Ordering

  const DEFAULT_STORE_VERSION := "0.1.0"

  datatype Status = Open | Accepted | Waived | Resolved | FalsePositive | Superseded

  datatype Evidence = Evidence(path: string, evidenceClass: string,
                               locator: Option<string>, snippetRef: Option<string>)

  /** The part of a record that reconciliation carries along untouched. */
  datatype Body = Body(severity: string, title: string, summary: string,
                       evidence: seq<Evidence>, suggestedRemediation: seq<string>,
                       confidence: real, confidenceClass: string, detectedBy: string,
                       standardsVersion: string, ruleId: Option<string>)

  datatype Finding = Finding(id: string, domain: string, area: string, status: Status,
                             createdAt: string, updatedAt: string, body: Body)

  datatype Store = Store(version: string, generatedAt: string, findings: seq<Finding>)

  datatype Stores = Stores(open: Store, history: Store)

  datatype DomainState = Evaluated | NotEvaluated

  datatype Audit = Audit(generatedAt: string, area: string,
                         domainStatus: map<string, DomainState>, findings: seq<Finding>)

  datatype Fault =
    | AuditStatus(id: string)
    | ScopeReused(id: string)
    | ConflictingDuplicate(id: string)
    | StoreVersions
    | StoresDisagree(id: string)
    | DomainNotEvaluated(id: string)

  /** A dict of findings: its lookup and its insertion order. */
  datatype Dict = Dict(order: seq<Finding>, index: map<string, Finding>)

  predicate SameScope(f: Finding, g: Finding) {
    f.domain == g.domain && f.area == g.area
  }

  predicate IsEvaluated(audit: Audit, domain: string) {
    domain in audit.domainStatus && audit.domainStatus[domain].Evaluated?
  }

  /** Store order: by domain, then area, then id. */
  predicate FindingLe(f: Finding, g: Finding) {
    if f.domain != g.domain then StrLess(f.domain, g.domain)
    else if f.area != g.area then StrLess(f.area, g.area)
    else StrLe(f.id, g.id)
  }

  function Get(m: map<string, Finding>, id: string): Option<Finding> {
    if id in m then Some(m[id]) else None
  }

  // ---- merging the persisted stores

  function MergeRecord(existing: Option<Finding>, candidate: Finding): Result<Finding, Fault> {
    match existing
    case None => Success(candidate)
    case Some(e) =>
      if !SameScope(e, candidate) then Failure(ScopeReused(e.id))
      else if e == candidate then Success(e)
      else if e.updatedAt != candidate.updatedAt then
        Success(if StrLess(candidate.updatedAt, e.updatedAt) then e else candidate)
      else if e.status.Open? && !candidate.status.Open? then Success(e)
      else if candidate.status.Open? && !e.status.Open? then Success(candidate)
      else Failure(StoresDisagree(candidate.id))
  }

  function MergeInto(m: map<string, Finding>, f: Finding): Result<map<string, Finding>, Fault> {
    match MergeRecord(Get(m, f.id), f)
    case Failure(e) => Failure(e)
    case Success(g) => Success(m[f.id := g])
  }

  function MergeAll(s: seq<Finding>): Result<map<string, Finding>, Fault> {
    if s == [] then Success(map[])
    else
      match MergeAll(s[..|s| - 1])
      case Failure(e) => Failure(e)
      case Success(m) => MergeInto(m, s[|s| - 1])
  }

  lemma {:induction false} MergeFailsEarly(s: seq<Finding>, i: nat)
    requires i <= |s| && MergeAll(s[..i]).Failure?
    ensures MergeAll(s) == MergeAll(s[..i])
  {
    if i < |s| {
      assert s[..|s| - 1][..i] == s[..i];
      MergeFailsEarly(s[..|s| - 1], i);
    } else {
      assert s[..i] == s;
    }
  }

  lemma MergePrefix(before: seq<Finding>, s: seq<Finding>, i: nat)
    requires i < |s|
    ensures MergeAll(before + s[..i + 1]) == match MergeAll(before + s[..i])
                                             case Failure(e) => Failure(e)
                                             case Success(m) => MergeInto(m, s[i])
    ensures MergeAll(before + s[..i + 1]).Failure? ==> MergeAll(before + s) == MergeAll(before + s[..i + 1])
  {
    var all, k := before + s, |before| + i;
    assert all[..k + 1][..k] == all[..k] && all[k] == s[i];
    assert all[..k] == before + s[..i] && all[..k + 1] == before + s[..i + 1];
    if MergeAll(all[..k + 1]).Failure? {
      MergeFailsEarly(all, k + 1);
    }
  }

  /** One of the two loops: fold a store into what has been merged so far. */
  method MergeStore(start: map<string, Finding>, ghost before: seq<Finding>, findings: seq<Finding>)
    returns (r: Result<map<string, Finding>, Fault>)
    requires MergeAll(before) == Success(start)
    ensures r == MergeAll(before + findings)
  {
    var merged := start;
    assert before + findings[..0] == before;
    for i := 0 to |findings|
      invariant MergeAll(before + findings[..i]) == Success(merged)
    {
      var record := MergeRecord(Get(merged, findings[i].id), findings[i]);
      MergePrefix(before, findings, i);
      if record.Failure? {
        return Failure(record.error);
      }
      merged := merged[findings[i].id := record.value];
    }
    assert findings[..|findings|] == findings;
    return Success(merged);
  }

  method MergeExistingStores(history: Store, open: Store)
    returns (r: Result<map<string, Finding>, Fault>)
    ensures r == MergeAll(history.findings + open.findings)
  {
    r := MergeStore(map[], [], history.findings);
    assert [] + history.findings == history.findings;
    if r.Success? {
      r := MergeStore(r.value, history.findings, open.findings);
    } else {
      var all := history.findings + open.findings;
      assert all[..|history.findings|] == history.findings;
      MergeFailsEarly(all, |history.findings|);
    }
  }

  // ---- deduplicating the audit

  function DedupInto(d: Dict, f: Finding): Result<Dict, Fault> {
    if !f.status.Open? && !f.status.Waived? then Failure(AuditStatus(f.id))
    else if f.id !in d.index then Success(Dict(d.order + [f], d.index[f.id := f]))
    else if !SameScope(d.index[f.id], f) then Failure(ScopeReused(d.index[f.id].id))
    else if d.index[f.id] != f then Failure(ConflictingDuplicate(f.id))
    else Success(d)
  }

  function Dedup(s: seq<Finding>): Result<Dict, Fault> {
    if s == [] then Success(Dict([], map[]))
    else
      match Dedup(s[..|s| - 1])
      case Failure(e) => Failure(e)
      case Success(d) => DedupInto(d, s[|s| - 1])
  }

  lemma {:induction false} DedupFailsEarly(s: seq<Finding>, i: nat)
    requires i <= |s| && Dedup(s[..i]).Failure?
    ensures Dedup(s) == Dedup(s[..i])
  {
    if i < |s| {
      assert s[..|s| - 1][..i] == s[..i];
      DedupFailsEarly(s[..|s| - 1], i);
    } else {
      assert s[..i] == s;
    }
  }

  method DeduplicateAuditFindings(findings: seq<Finding>) returns (r: Result<Dict, Fault>)
    ensures r == Dedup(findings)
  {
    var order: seq<Finding>, index: map<string, Finding> := [], map[];
    for i := 0 to |findings|
      invariant Dedup(findings[..i]) == Success(Dict(order, index))
    {
      var record := findings[i];
      assert findings[..i + 1][..i] == findings[..i];
      if !record.status.Open? && !record.status.Waived? {
        DedupFailsEarly(findings, i + 1);
        return Failure(AuditStatus(record.id));
      }
      if record.id !in index {
        order, index := order + [record], index[record.id := record];
        continue;
      }
      var existing := index[record.id];
      if !SameScope(existing, record) {
        DedupFailsEarly(findings, i + 1);
        return Failure(ScopeReused(existing.id));
      }
      if existing != record {
        DedupFailsEarly(findings, i + 1);
        return Failure(ConflictingDuplicate(record.id));
      }
    }
    assert findings[..|findings|] == findings;
    return Success(Dict(order, index));
  }

  // ---- overlaying the audit and resolving what it no longer reports

  function OverlayInto(m: map<string, Finding>, f: Finding, audit: Audit): Result<map<string, Finding>, Fault> {
    if !IsEvaluated(audit, f.domain) then Failure(DomainNotEvaluated(f.id))
    else if f.id in m && !SameScope(m[f.id], f) then Failure(ScopeReused(m[f.id].id))
    else
      var createdAt := if f.id in m then m[f.id].createdAt else f.createdAt;
      Success(m[f.id := f.(createdAt := createdAt, updatedAt := audit.generatedAt)])
  }

  function Overlay(m: map<string, Finding>, s: seq<Finding>, audit: Audit): Result<map<string, Finding>, Fault> {
    if s == [] then Success(m)
    else
      match Overlay(m, s[..|s| - 1], audit)
      case Failure(e) => Failure(e)
      case Success(m') => OverlayInto(m', s[|s| - 1], audit)
  }

  lemma {:induction false} OverlayFailsEarly(m: map<string, Finding>, s: seq<Finding>, audit: Audit, i: nat)
    requires i <= |s| && Overlay(m, s[..i], audit).Failure?
    ensures Overlay(m, s, audit) == Overlay(m, s[..i], audit)
  {
    if i < |s| {
      assert s[..|s| - 1][..i] == s[..i];
      OverlayFailsEarly(m, s[..|s| - 1], audit, i);
    } else {
      assert s[..i] == s;
    }
  }

  /** Open or waived, in the audited area and in a domain this audit evaluated. */
  predicate InScope(f: Finding, audit: Audit) {
    && (f.status.Open? || f.status.Waived?)
    && f.area == audit.area
    && IsEvaluated(audit, f.domain)
  }

  function ResolveRecord(f: Finding, reported: map<string, Finding>, audit: Audit): Finding {
    if f.id !in reported && InScope(f, audit)
    then f.(status := Resolved, updatedAt := audit.generatedAt)
    else f
  }

  function ResolveAll(m: map<string, Finding>, reported: map<string, Finding>, audit: Audit): map<string, Finding> {
    map id | id in m :: ResolveRecord(m[id], reported, audit)
  }

  ghost predicate WellKeyed(m: map<string, Finding>) {
    forall id :: id in m ==> m[id].id == id
  }

  // ---- from the reconciled map to the two stores

  function OpenSlice(s: seq<Finding>): seq<Finding> {
    if s == [] then []
    else (if s[0].status.Open? then [s[0]] else []) + OpenSlice(s[1..])
  }

  /** The records of a map in store order. */
  ghost function Listing(m: map<string, Finding>): seq<Finding> {
    Sort(Enumerate(m.Values), FindingLe)
  }

  function StoresFrom(version: string, generatedAt: string, history: seq<Finding>): Stores {
    Stores(Store(version, generatedAt, OpenSlice(history)), Store(version, generatedAt, history))
  }

  function OpenOrEmpty(audit: Audit, open: Option<Store>): Store {
    match open
    case Some(store) => store
    case None => Store(DEFAULT_STORE_VERSION, audit.generatedAt, [])
  }

  function HistoryOrEmpty(audit: Audit, open: Option<Store>, history: Option<Store>): Store {
    match history
    case Some(store) => store
    case None => Store(OpenOrEmpty(audit, open).version, audit.generatedAt, [])
  }

  ghost function Reconcile(audit: Audit, open: Option<Store>, history: Option<Store>): Result<Stores, Fault> {
    match Dedup(audit.findings)
    case Failure(e) => Failure(e)
    case Success(reported) =>
      var o, h := OpenOrEmpty(audit, open), HistoryOrEmpty(audit, open, history);
      if o.version != h.version then Failure(StoreVersions)
      else
        match MergeAll(h.findings + o.findings)
        case Failure(e) => Failure(e)
        case Success(merged) =>
          match Overlay(merged, reported.order, audit)
          case Failure(e) => Failure(e)
          case Success(overlaid) =>
            Success(StoresFrom(o.version, audit.generatedAt, Listing(ResolveAll(overlaid, reported.index, audit))))
  }

  lemma FindingLeIsTotal()
    ensures TotalPreorder(FindingLe)
    ensures forall f, g :: FindingLe(f, g) && FindingLe(g, f) ==> SameScope(f, g) && f.id == g.id
  {
    StrOrderIsTotal();
    forall f: Finding, g: Finding
      ensures FindingLe(f, g) || FindingLe(g, f)
      ensures FindingLe(f, g) && FindingLe(g, f) ==> SameScope(f, g) && f.id == g.id
    {
      StrLessTrichotomy(f.domain, g.domain);
      StrLessTrichotomy(f.area, g.area);
      assert StrLe(f.id, g.id) || StrLe(g.id, f.id);
      assert StrLe(f.id, g.id) && StrLe(g.id, f.id) ==> f.id == g.id;
    }
    forall f: Finding, g: Finding, h: Finding | FindingLe(f, g) && FindingLe(g, h)
      ensures FindingLe(f, h)
    {
      assert StrLe(f.domain, g.domain) && StrLe(g.domain, h.domain) ==> StrLe(f.domain, h.domain);
      assert StrLe(f.area, g.area) && StrLe(g.area, h.area) ==> StrLe(f.area, h.area);
      assert StrLe(f.id, g.id) && StrLe(g.id, h.id) ==> StrLe(f.id, h.id);
      StrLessTrichotomy(f.domain, g.domain);
      StrLessTrichotomy(f.area, g.area);
    }
  }

  predicate Holds(m: map<string, Finding>, f: Finding) {
    f.id in m && m[f.id] == f
  }

  lemma SortHolds(m: map<string, Finding>, s: seq<Finding>)
    requires WellKeyed(m) && Distinct(s)
    requires forall f :: f in s <==> Holds(m, f)
    ensures Distinct(Sort(s, FindingLe)) && Ordered(Sort(s, FindingLe), FindingLe)
    ensures forall f :: f in Sort(s, FindingLe) <==> Holds(m, f)
  {
    FindingLeIsTotal();
    SortElements(s, FindingLe);
    SortOrdered(s, FindingLe);
    SortDistinct(s, FindingLe);
  }

  lemma ListingHolds(m: map<string, Finding>)
    requires WellKeyed(m)
    ensures Distinct(Listing(m)) && Ordered(Listing(m), FindingLe)
    ensures forall f :: f in Listing(m) <==> Holds(m, f)
  {
    forall f
      ensures f in m.Values <==> Holds(m, f)
    {
    }
    SortHolds(m, Enumerate(m.Values));
  }

  /** An ordered listing of the map's records is the listing. */
  lemma ListingUnique(m: map<string, Finding>, s: seq<Finding>)
    requires WellKeyed(m) && Distinct(s) && Ordered(s, FindingLe)
    requires forall f :: f in s <==> Holds(m, f)
    ensures s == Listing(m)
  {
    ListingHolds(m);
    FindingLeIsTotal();
    var t := Listing(m);
    forall x, y | x in s && y in s && FindingLe(x, y) && FindingLe(y, x)
      ensures x == y
    {
      assert Holds(m, x) && Holds(m, y);
    }
    assert SameElements(s, t);
    OrderedUnique(s, t, FindingLe);
  }

  lemma {:induction false} OverlayKeyed(m: map<string, Finding>, s: seq<Finding>, audit: Audit)
    requires WellKeyed(m) && Overlay(m, s, audit).Success?
    ensures WellKeyed(Overlay(m, s, audit).value)
  {
    if s != [] {
      OverlayKeyed(m, s[..|s| - 1], audit);
    }
  }

  lemma {:induction false} MergeKeyed(s: seq<Finding>)
    requires MergeAll(s).Success?
    ensures WellKeyed(MergeAll(s).value)
  {
    if s != [] {
      MergeKeyed(s[..|s| - 1]);
    }
  }

  method ReconcileFindings(audit: Audit, open: Option<Store>, history: Option<Store>)
    returns (r: Result<Stores, Fault>)
    ensures r == Reconcile(audit, open, history)
  {
    var current := DeduplicateAuditFindings(audit.findings);
    if current.Failure? {
      return Failure(current.error);
    }
    var openStore := OpenOrEmpty(audit, open);
    var historyStore := HistoryOrEmpty(audit, open, history);
    if openStore.version != historyStore.version {
      return Failure(StoreVersions);
    }
    var existing := MergeExistingStores(historyStore, openStore);
    if existing.Failure? {
      return Failure(existing.error);
    }
    MergeKeyed(historyStore.findings + openStore.findings);
    var records := OverlayAudit(existing.value, current.value.order, audit);
    if records.Failure? {
      return Failure(records.error);
    }
    OverlayKeyed(existing.value, current.value.order, audit);
    var resolved := ResolveUnreported(records.value, current.value.index, audit);
    var findings := SortedRecords(resolved);
    return Success(StoresFrom(openStore.version, audit.generatedAt, findings));
  }

  /** The pass over the deduplicated audit. */
  method OverlayAudit(start: map<string, Finding>, order: seq<Finding>, audit: Audit)
    returns (r: Result<map<string, Finding>, Fault>)
    ensures r == Overlay(start, order, audit)
  {
    var records := start;
    for i := 0 to |order|
      invariant Overlay(start, order[..i], audit) == Success(records)
    {
      var finding := order[i];
      TakeTake(order, i + 1, i);
      if !IsEvaluated(audit, finding.domain) {
        OverlayFailsEarly(start, order, audit, i + 1);
        return Failure(DomainNotEvaluated(finding.id));
      }
      var createdAt := finding.createdAt;
      if finding.id in records {
        if !SameScope(records[finding.id], finding) {
          OverlayFailsEarly(start, order, audit, i + 1);
          return Failure(ScopeReused(records[finding.id].id));
        }
        createdAt := records[finding.id].createdAt;
      }
      records := records[finding.id := finding.(createdAt := createdAt, updatedAt := audit.generatedAt)];
    }
    assert order[..|order|] == order;
    return Success(records);
  }

  method SortedRecords(m: map<string, Finding>) returns (findings: seq<Finding>)
    requires WellKeyed(m)
    ensures findings == Listing(m)
  {
    var values := ValuesOf(m);
    SortHolds(m, values);
    ListingUnique(m, Sort(values, FindingLe));
    findings := Sort(values, FindingLe);
  }

  /** The second pass over the items, rewriting entries of the dict in place. */
  method ResolveUnreported(records: map<string, Finding>, reported: map<string, Finding>, audit: Audit)
    returns (r: map<string, Finding>)
    requires WellKeyed(records)
    ensures r == ResolveAll(records, reported, audit) && WellKeyed(r)
  {
    r := records;
    var pending := records.Keys;
    while pending != {}
      invariant pending <= records.Keys && r.Keys == records.Keys
      invariant forall id :: id in pending ==> r[id] == records[id]
      invariant forall id :: id in records && id !in pending ==> r[id] == ResolveRecord(records[id], reported, audit)
    {
      var id :| id in pending;
      pending := pending - {id};
      var finding := r[id];
      if id in reported || (!finding.status.Open? && !finding.status.Waived?) {
        continue;
      }
      if finding.area != audit.area || !IsEvaluated(audit, finding.domain) {
        continue;
      }
      r := r[id := finding.(status := Resolved, updatedAt := audit.generatedAt)];
    }
  }

  method ValuesOf(m: map<string, Finding>) returns (s: seq<Finding>)
    requires WellKeyed(m)
    ensures Distinct(s)
    ensures forall f :: f in s <==> Holds(m, f)
  {
    s := [];
    var pending := m.Keys;
    while pending != {}
      invariant pending <= m.Keys && Distinct(s)
      invariant forall f :: f in s <==> Holds(m, f) && f.id !in pending
    {
      var id :| id in pending;
      s, pending := s + [m[id]], pending - {id};
    }
  }
}
