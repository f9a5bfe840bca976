/** Waivers: which are active at an audit's instant, and how they turn an
    evaluator's open findings into waived ones. */
module Waivers {
  import opened Ordering
  import opened Findings

  /** Timestamps are instants here; the records keep theirs as text. */
  datatype Waiver = Waiver(waiverId: string, findingId: string, reason: string,
                           approvedBy: string, expiresAt: int, createdAt: string)

  datatype WaiverFault = MultipleActive(findingId: string)

  type ActiveMap = map<string, Waiver>

  predicate IsActive(w: Waiver, asOf: int) {
    asOf <= w.expiresAt
  }

  function SelectInto(active: ActiveMap, w: Waiver, asOf: int): Result<ActiveMap, WaiverFault> {
    if !IsActive(w, asOf) then Success(active)
    else if w.findingId in active then Failure(MultipleActive(w.findingId))
    else Success(active[w.findingId := w])
  }

  function Select(waivers: seq<Waiver>, asOf: int): Result<ActiveMap, WaiverFault> {
    if waivers == [] then Success(map[])
    else
      match Select(waivers[..|waivers| - 1], asOf)
      case Failure(e) => Failure(e)
      case Success(active) => SelectInto(active, waivers[|waivers| - 1], asOf)
  }

  lemma {:induction false} SelectFailsEarly(waivers: seq<Waiver>, asOf: int, i: nat)
    requires i <= |waivers| && Select(waivers[..i], asOf).Failure?
    ensures Select(waivers, asOf) == Select(waivers[..i], asOf)
  {
    if i < |waivers| {
      assert waivers[..|waivers| - 1][..i] == waivers[..i];
      SelectFailsEarly(waivers[..|waivers| - 1], asOf, i);
    } else {
      assert waivers[..i] == waivers;
    }
  }

  method SelectActiveWaivers(waivers: seq<Waiver>, asOf: int) returns (r: Result<ActiveMap, WaiverFault>)
    ensures r == Select(waivers, asOf)
  {
    var active: ActiveMap := map[];
    for i := 0 to |waivers|
      invariant Select(waivers[..i], asOf) == Success(active)
    {
      var waiver := waivers[i];
      assert waivers[..i + 1][..i] == waivers[..i];
      if waiver.expiresAt < asOf {
        continue;
      }
      if waiver.findingId in active {
        SelectFailsEarly(waivers, asOf, i + 1);
        return Failure(MultipleActive(waiver.findingId));
      }
      active := active[waiver.findingId := waiver];
    }
    assert waivers[..|waivers|] == waivers;
    return Success(active);
  }

  /** An unexpired waiver names the finding; one is unexpired up to and including the
      instant at which it expires. */
  ghost predicate Waives(waivers: seq<Waiver>, asOf: int, id: string) {
    exists i :: 0 <= i < |waivers| && waivers[i].expiresAt >= asOf && waivers[i].findingId == id
  }

  ghost predicate Ambiguous(waivers: seq<Waiver>, asOf: int) {
    exists i, j :: 0 <= i < j < |waivers| && waivers[i].expiresAt >= asOf && waivers[j].expiresAt >= asOf
                   && waivers[i].findingId == waivers[j].findingId
  }

  lemma WaivesSnoc(rest: seq<Waiver>, w: Waiver, asOf: int, id: string)
    ensures Waives(rest + [w], asOf, id) <==> Waives(rest, asOf, id) || (w.expiresAt >= asOf && w.findingId == id)
  {
    var s := rest + [w];
    if Waives(rest, asOf, id) {
      var i :| 0 <= i < |rest| && rest[i].expiresAt >= asOf && rest[i].findingId == id;
      assert s[i] == rest[i];
    }
    if w.expiresAt >= asOf && w.findingId == id {
      assert s[|rest|] == w;
    }
  }

  lemma AmbiguousSnoc(rest: seq<Waiver>, w: Waiver, asOf: int)
    ensures Ambiguous(rest + [w], asOf) <==>
      Ambiguous(rest, asOf) || (w.expiresAt >= asOf && Waives(rest, asOf, w.findingId))
  {
    var s := rest + [w];
    if Ambiguous(rest, asOf) {
      var i, j :| 0 <= i < j < |rest| && rest[i].expiresAt >= asOf && rest[j].expiresAt >= asOf
                  && rest[i].findingId == rest[j].findingId;
      assert s[i] == rest[i] && s[j] == rest[j];
    }
    if w.expiresAt >= asOf && Waives(rest, asOf, w.findingId) {
      var i :| 0 <= i < |rest| && rest[i].expiresAt >= asOf && rest[i].findingId == w.findingId;
      assert s[i] == rest[i] && s[|rest|] == w;
    }
  }

  /** Selection fails exactly when two unexpired waivers name one finding; otherwise
      it knows exactly the findings some unexpired waiver names, each by such a waiver. */
  lemma {:induction false} SelectExact(waivers: seq<Waiver>, asOf: int)
    ensures Select(waivers, asOf).Failure? <==> Ambiguous(waivers, asOf)
    ensures Select(waivers, asOf).Success? ==>
      && (forall id :: id in Select(waivers, asOf).value <==> Waives(waivers, asOf, id))
      && (forall id :: id in Select(waivers, asOf).value ==>
            var w := Select(waivers, asOf).value[id];
            w in waivers && w.expiresAt >= asOf && w.findingId == id)
  {
    if waivers != [] {
      var rest, last := waivers[..|waivers| - 1], waivers[|waivers| - 1];
      SelectExact(rest, asOf);
      assert waivers == rest + [last];
      AmbiguousSnoc(rest, last, asOf);
      forall id
        ensures Waives(waivers, asOf, id) <==>
                  Waives(rest, asOf, id) || (last.expiresAt >= asOf && last.findingId == id)
      {
        WaivesSnoc(rest, last, asOf, id);
      }
    }
  }

  /** The first waiver to be the second for its finding. */
  ghost predicate Clashes(waivers: seq<Waiver>, asOf: int, id: string, j: nat) {
    && j < |waivers| && waivers[j].expiresAt >= asOf && waivers[j].findingId == id
    && Waives(waivers[..j], asOf, id) && !Ambiguous(waivers[..j], asOf)
  }

  /** And the finding it names when it fails is that of the first such pair. */
  lemma {:induction false} SelectFaultExact(waivers: seq<Waiver>, asOf: int, id: string)
    ensures Select(waivers, asOf) == Failure(MultipleActive(id)) <==> exists j: nat :: Clashes(waivers, asOf, id, j)
  {
    if waivers != [] {
      var rest, last := waivers[..|waivers| - 1], waivers[|waivers| - 1];
      SelectFaultExact(rest, asOf, id);
      SelectExact(rest, asOf);
      forall j: nat | j < |rest|
        ensures Clashes(waivers, asOf, id, j) <==> Clashes(rest, asOf, id, j)
      {
        TakeTake(waivers, |waivers| - 1, j);
      }
      assert Clashes(waivers, asOf, id, |rest|) <==>
        Select(rest, asOf).Success? && SelectInto(Select(rest, asOf).value, last, asOf) == Failure(MultipleActive(id));
      if j: nat :| Clashes(rest, asOf, id, j) {
        assert Clashes(waivers, asOf, id, j);
      }
    }
  }

  lemma WaivesEarlier(waivers: seq<Waiver>, asOf: int, later: int, id: string)
    requires asOf <= later
    ensures Waives(waivers, later, id) ==> Waives(waivers, asOf, id)
  {
    if Waives(waivers, later, id) {
      var i :| 0 <= i < |waivers| && waivers[i].expiresAt >= later && waivers[i].findingId == id;
      assert waivers[i].expiresAt >= asOf;
    }
  }

  lemma AmbiguousEarlier(waivers: seq<Waiver>, asOf: int, later: int)
    requires asOf <= later
    ensures Ambiguous(waivers, later) ==> Ambiguous(waivers, asOf)
  {
    if Ambiguous(waivers, later) {
      var i, j :| 0 <= i < j < |waivers| && waivers[i].expiresAt >= later && waivers[j].expiresAt >= later
                  && waivers[i].findingId == waivers[j].findingId;
      assert waivers[i].expiresAt >= asOf && waivers[j].expiresAt >= asOf;
    }
  }

  /** As time passes waivers only lapse, and a list once unambiguous stays so. */
  lemma SelectShrinks(waivers: seq<Waiver>, asOf: int, later: int)
    requires asOf <= later && Select(waivers, asOf).Success?
    ensures Select(waivers, later).Success?
    ensures Select(waivers, later).value.Keys <= Select(waivers, asOf).value.Keys
  {
    SelectExact(waivers, asOf);
    SelectExact(waivers, later);
    AmbiguousEarlier(waivers, asOf, later);
    forall id
      ensures Waives(waivers, later, id) ==> Waives(waivers, asOf, id)
    {
      WaivesEarlier(waivers, asOf, later, id);
    }
  }

  // ---- applying them

  function Adjust(f: Finding, active: ActiveMap): Finding {
    if f.id in active then f.(status := Waived) else f
  }

  function Adjusted(findings: seq<Finding>, active: ActiveMap): seq<Finding> {
    seq(|findings|, i requires 0 <= i < |findings| => Adjust(findings[i], active))
  }

  /** Also yields the waivers used, one per finding they silenced. */
  method ApplyWaivers(findings: seq<Finding>, active: ActiveMap)
    returns (adjusted: seq<Finding>, applied: seq<Waiver>)
    ensures adjusted == Adjusted(findings, active)
    ensures forall w :: w in applied <==>
      exists i :: 0 <= i < |findings| && findings[i].id in active && w == active[findings[i].id]
  {
    adjusted, applied := [], [];
    for i := 0 to |findings|
      invariant adjusted == Adjusted(findings[..i], active)
      invariant forall w :: w in applied <==>
        exists k :: 0 <= k < i && findings[k].id in active && w == active[findings[k].id]
    {
      var finding := findings[i];
      if finding.id !in active {
        adjusted := adjusted + [finding];
        continue;
      }
      adjusted := adjusted + [finding.(status := Waived)];
      applied := applied + [active[finding.id]];
    }
    assert findings[..|findings|] == findings;
  }
}

/** Audits assembled from evaluator output and waivers, and runs of them. */
module AuditRuns {
  import opened Ordering
  import opened Findings
  import opened FindingsLaws
  import opened Waivers

  /** What one audit starts from: the request, its instant, and what each
      implemented evaluator reports for it. */
  datatype Round = Round(domains: seq<string>, area: string, generatedAt: string, asOf: int,
                         evaluations: map<string, seq<Finding>>)

  function SeverityRank(severity: string): nat {
    if severity == "critical" then 0
    else if severity == "high" then 1
    else if severity == "medium" then 2
    else if severity == "low" then 3
    else 99
  }

  predicate SeverityLe(f: Finding, g: Finding) {
    var a, b := SeverityRank(f.body.severity), SeverityRank(g.body.severity);
    a < b || (a == b && StrLe(f.id, g.id))
  }

  function CollectDomain(round: Round, domain: string, active: ActiveMap): seq<Finding> {
    if domain in round.evaluations then Sort(Adjusted(round.evaluations[domain], active), SeverityLe) else []
  }

  function Collect(round: Round, domains: seq<string>, active: ActiveMap): seq<Finding> {
    if domains == [] then []
    else Collect(round, domains[..|domains| - 1], active) + CollectDomain(round, domains[|domains| - 1], active)
  }

  function DomainStatus(round: Round, domains: seq<string>): map<string, DomainState> {
    map d | d in domains :: if d in round.evaluations then Evaluated else NotEvaluated
  }

  function BuildAudit(round: Round, waivers: seq<Waiver>): Result<Audit, WaiverFault> {
    match Select(waivers, round.asOf)
    case Failure(e) => Failure(e)
    case Success(active) =>
      Success(Audit(round.generatedAt, round.area, DomainStatus(round, round.domains),
                    Sort(Collect(round, round.domains, active), SeverityLe)))
  }

  lemma DomainStatusSnoc(round: Round, domains: seq<string>, i: nat)
    requires i < |domains|
    ensures DomainStatus(round, domains[..i + 1]) ==
      DomainStatus(round, domains[..i])[
        domains[i] := if domains[i] in round.evaluations then Evaluated else NotEvaluated]
  {
    assert domains[..i + 1] == domains[..i] + [domains[i]];
  }

  lemma CollectSnoc(round: Round, domains: seq<string>, active: ActiveMap, i: nat)
    requires i < |domains|
    ensures Collect(round, domains[..i + 1], active) ==
      Collect(round, domains[..i], active) + CollectDomain(round, domains[i], active)
  {
    assert domains[..i + 1][..i] == domains[..i];
  }

  method BuildAuditResult(round: Round, waivers: seq<Waiver>) returns (r: Result<Audit, WaiverFault>)
    ensures r == BuildAudit(round, waivers)
  {
    var selected := SelectActiveWaivers(waivers, round.asOf);
    if selected.Failure? {
      return Failure(selected.error);
    }
    var findings: seq<Finding>, status: map<string, DomainState> := [], map[];
    for i := 0 to |round.domains|
      invariant findings == Collect(round, round.domains[..i], selected.value)
      invariant status == DomainStatus(round, round.domains[..i])
    {
      var domain := round.domains[i];
      CollectSnoc(round, round.domains, selected.value, i);
      DomainStatusSnoc(round, round.domains, i);
      if domain in round.evaluations {
        var adjusted, _ := ApplyWaivers(round.evaluations[domain], selected.value);
        findings := findings + Sort(adjusted, SeverityLe);
        status := status[domain := Evaluated];
        continue;
      }
      status := status[domain := NotEvaluated];
    }
    assert round.domains[..|round.domains|] == round.domains;
    return Success(Audit(round.generatedAt, round.area, status, Sort(findings, SeverityLe)));
  }

  /** `f` is reported by the evaluator of a requested domain. */
  ghost predicate Reports(round: Round, f: Finding) {
    exists d :: d in round.domains && d in round.evaluations && f in round.evaluations[d]
  }

  ghost predicate Yields(round: Round, domain: string, active: ActiveMap, g: Finding) {
    domain in round.evaluations && exists f :: f in round.evaluations[domain] && Adjust(f, active) == g
  }

  lemma CollectDomainExact(round: Round, domain: string, active: ActiveMap, g: Finding)
    ensures g in CollectDomain(round, domain, active) <==> Yields(round, domain, active, g)
  {
    if domain in round.evaluations {
      var s := round.evaluations[domain];
      SortElements(Adjusted(s, active), SeverityLe);
      if Yields(round, domain, active, g) {
        var f :| f in s && Adjust(f, active) == g;
        var i :| 0 <= i < |s| && s[i] == f;
        assert Adjusted(s, active)[i] == g;
      }
    }
  }

  lemma {:induction false} CollectExact(round: Round, domains: seq<string>, active: ActiveMap, g: Finding)
    ensures g in Collect(round, domains, active) <==> exists d :: d in domains && Yields(round, d, active, g)
  {
    if domains != [] {
      var last, rest := domains[|domains| - 1], domains[..|domains| - 1];
      CollectExact(round, rest, active, g);
      CollectDomainExact(round, last, active, g);
      assert domains == rest + [last];
    }
  }

  /** The audit reports exactly what the evaluators of its requested domains report,
      with the waived ones marked: sorting and grouping lose and invent nothing. */
  lemma AuditReportsExactly(round: Round, waivers: seq<Waiver>, g: Finding)
    requires BuildAudit(round, waivers).Success?
    ensures g in BuildAudit(round, waivers).value.findings <==>
      exists f :: Reports(round, f) && Adjust(f, Select(waivers, round.asOf).value) == g
  {
    var active := Select(waivers, round.asOf).value;
    SortElements(Collect(round, round.domains, active), SeverityLe);
    CollectExact(round, round.domains, active, g);
    if d :| d in round.domains && Yields(round, d, active, g) {
      var f :| f in round.evaluations[d] && Adjust(f, active) == g;
      assert Reports(round, f);
    }
    if f :| Reports(round, f) && Adjust(f, active) == g {
      var d :| d in round.domains && d in round.evaluations && f in round.evaluations[d];
      assert Yields(round, d, active, g);
    }
  }

  ghost function After(s: Stores, round: Round, waivers: seq<Waiver>): Stores {
    match BuildAudit(round, waivers)
    case Failure(_) => s
    case Success(audit) => Step(s, audit)
  }

  ghost function RunRounds(s: Stores, rounds: seq<Round>, waivers: seq<Waiver>): Stores {
    if rounds == [] then s
    else After(RunRounds(s, rounds[..|rounds| - 1], waivers), rounds[|rounds| - 1], waivers)
  }

  ghost predicate Persisted(s: Stores, round: Round, waivers: seq<Waiver>) {
    && BuildAudit(round, waivers).Success?
    && Reconcile(BuildAudit(round, waivers).value, Some(s.open), Some(s.history)).Success?
  }

  /** A finding the latest persisted audit reports is waived in history exactly when
      an unexpired waiver names it, and open otherwise. */
  lemma LatestAuditDecides(s: Stores, round: Round, waivers: seq<Waiver>, f: Finding)
    requires Coherent(s) && Persisted(s, round, waivers) && Reports(round, f) && f.status.Open?
    ensures f.id in Table(After(s, round, waivers))
    ensures Table(After(s, round, waivers))[f.id].status ==
      if Waives(waivers, round.asOf, f.id) then Waived else Open
  {
    var audit := BuildAudit(round, waivers).value;
    var active := Select(waivers, round.asOf).value;
    SelectExact(waivers, round.asOf);
    AuditReportsExactly(round, waivers, Adjust(f, active));
    assert Adjust(f, active) in audit.findings;
    ReconcileExact(audit, Some(s.open), Some(s.history));
    ReconcileMovesEveryIdByOneRule(audit, Some(s.open), Some(s.history));
  }

  lemma {:induction false} RoundsKeepCoherence(s: Stores, rounds: seq<Round>, waivers: seq<Waiver>)
    requires Coherent(s)
    ensures Coherent(RunRounds(s, rounds, waivers))
    ensures SameIdentities(Table(s), Table(RunRounds(s, rounds, waivers)))
  {
    if rounds != [] {
      var rest, last := rounds[..|rounds| - 1], rounds[|rounds| - 1];
      RoundsKeepCoherence(s, rest, waivers);
      if BuildAudit(last, waivers).Success? {
        StepKeeps(RunRounds(s, rest, waivers), BuildAudit(last, waivers).value);
      }
    }
  }

  ghost predicate Rising(rounds: seq<Round>) {
    forall i, j :: 0 <= i <= j < |rounds| ==> rounds[i].asOf <= rounds[j].asOf
  }

  /** Over a run with rising instants and one waiver list: once no unexpired waiver
      names a finding, every later persisted audit that reports it leaves it open. */
  lemma ExpiredWaiverReopens(s: Stores, rounds: seq<Round>, waivers: seq<Waiver>, i: nat, f: Finding)
    requires Coherent(s) && Rising(rounds) && i < |rounds|
    requires !Waives(waivers, rounds[i].asOf, f.id)
    requires Persisted(RunRounds(s, rounds[..|rounds| - 1], waivers), rounds[|rounds| - 1], waivers)
    requires Reports(rounds[|rounds| - 1], f) && f.status.Open?
    ensures f.id in Table(RunRounds(s, rounds, waivers))
    ensures Table(RunRounds(s, rounds, waivers))[f.id].status == Open
  {
    var last := rounds[|rounds| - 1];
    RoundsKeepCoherence(s, rounds[..|rounds| - 1], waivers);
    LatestAuditDecides(RunRounds(s, rounds[..|rounds| - 1], waivers), last, waivers, f);
    WaivesEarlier(waivers, rounds[i].asOf, last.asOf, f.id);
  }

  /** And over such a run waiver selection, once it succeeds, keeps succeeding on
      fewer and fewer findings. */
  lemma WaiversOnlyLapse(rounds: seq<Round>, waivers: seq<Waiver>, i: nat, j: nat)
    requires Rising(rounds) && i <= j < |rounds| && BuildAudit(rounds[i], waivers).Success?
    ensures BuildAudit(rounds[j], waivers).Success?
    ensures forall id :: Waives(waivers, rounds[j].asOf, id) ==> Waives(waivers, rounds[i].asOf, id)
  {
    SelectShrinks(waivers, rounds[i].asOf, rounds[j].asOf);
    SelectExact(waivers, rounds[i].asOf);
    SelectExact(waivers, rounds[j].asOf);
  }
}
