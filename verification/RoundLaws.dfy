/** What an audit round does to the stored findings, in terms of the round and the
    waivers: whom it resolves, whom it stamps, whom it leaves alone; and which rounds
    are persisted at all. */
module RoundLaws {
  import opened Ordering
  import opened Findings
  import opened FindingsLaws
  import opened StoreLaws
  import opened Waivers
  import opened AuditRuns

  /** The domain was requested and has an evaluator. */
  predicate Audited(round: Round, domain: string) {
    domain in round.domains && domain in round.evaluations
  }

  ghost predicate ReportsId(round: Round, id: string) {
    exists f :: Reports(round, f) && f.id == id
  }

  /** A reported finding, waived if an unexpired waiver names it. */
  ghost function Marked(round: Round, waivers: seq<Waiver>, f: Finding): Finding {
    f.(status := if Waives(waivers, round.asOf, f.id) then Waived else f.status)
  }

  /** In the round's area and in an audited domain, and open or waived. */
  predicate Watched(round: Round, f: Finding) {
    f.area == round.area && Audited(round, f.domain) && (f.status == Open || f.status == Waived)
  }

  /** The table after a persisted round: a reported finding as marked, with the stamp
      of the round and the birthday on record; a watched one nobody reports resolved
      with that stamp; every other as it was. */
  ghost predicate MovesByRound(m: map<string, Finding>, m': map<string, Finding>, round: Round, waivers: seq<Waiver>) {
    && (forall id :: id in m' <==> id in m || ReportsId(round, id))
    && (forall f :: Reports(round, f) ==>
          && f.id in m'
          && m'[f.id] == Marked(round, waivers, f).(
               createdAt := if f.id in m then m[f.id].createdAt else f.createdAt, updatedAt := round.generatedAt))
    && (forall id :: id in m && !ReportsId(round, id) && Watched(round, m[id]) ==>
          m'[id] == m[id].(status := Resolved, updatedAt := round.generatedAt))
    && (forall id :: id in m && !ReportsId(round, id) && !Watched(round, m[id]) ==> m'[id] == m[id])
  }

  /** When a round is persisted: no finding has two unexpired waivers; what is
      reported is open or waived once marked, and the same for the same id; and it is
      of an audited domain and keeps the scope on record. */
  ghost predicate Acceptable(m: map<string, Finding>, round: Round, waivers: seq<Waiver>) {
    && !Ambiguous(waivers, round.asOf)
    && (forall f :: Reports(round, f) ==>
          && (f.status == Open || f.status == Waived || Waives(waivers, round.asOf, f.id))
          && Audited(round, f.domain)
          && (f.id in m ==> m[f.id].domain == f.domain && m[f.id].area == f.area))
    && (forall f, g :: Reports(round, f) && Reports(round, g) && f.id == g.id ==>
          Marked(round, waivers, f) == Marked(round, waivers, g))
  }

  lemma AdjustIsMarked(round: Round, waivers: seq<Waiver>, f: Finding)
    requires Select(waivers, round.asOf).Success?
    ensures Adjust(f, Select(waivers, round.asOf).value) == Marked(round, waivers, f)
  {
    SelectExact(waivers, round.asOf);
  }

  /** The audit a round builds, against the round itself. */
  lemma AuditOfRound(round: Round, waivers: seq<Waiver>)
    ensures BuildAudit(round, waivers).Success? <==> !Ambiguous(waivers, round.asOf)
    ensures BuildAudit(round, waivers).Success? ==>
      var audit := BuildAudit(round, waivers).value;
      && audit.generatedAt == round.generatedAt && audit.area == round.area
      && (forall d :: d in audit.domainStatus <==> d in round.domains)
      && (forall d :: d in audit.domainStatus ==> (audit.domainStatus[d] == Evaluated <==> Audited(round, d)))
      && (forall g :: g in audit.findings <==> exists f :: Reports(round, f) && Marked(round, waivers, f) == g)
  {
    SelectExact(waivers, round.asOf);
    if BuildAudit(round, waivers).Success? {
      forall g
        ensures g in BuildAudit(round, waivers).value.findings <==>
                  exists f :: Reports(round, f) && Marked(round, waivers, f) == g
      {
        MarkedReported(round, waivers, g);
      }
    }
  }

  lemma MarkedReported(round: Round, waivers: seq<Waiver>, g: Finding)
    requires BuildAudit(round, waivers).Success?
    ensures g in BuildAudit(round, waivers).value.findings <==>
              exists f :: Reports(round, f) && Marked(round, waivers, f) == g
  {
    AuditReportsExactly(round, waivers, g);
    forall f
      ensures Adjust(f, Select(waivers, round.asOf).value) == Marked(round, waivers, f)
    {
      AdjustIsMarked(round, waivers, f);
    }
  }

  /** `audit` is what the round amounts to. */
  ghost predicate Amounts(round: Round, waivers: seq<Waiver>, audit: Audit) {
    && (forall d :: IsEvaluated(audit, d) <==> Audited(round, d))
    && (forall f :: Reports(round, f) ==> Marked(round, waivers, f) in Elems(audit.findings))
    && (forall g :: g in Elems(audit.findings) ==> exists f :: Reports(round, f) && Marked(round, waivers, f) == g)
  }

  lemma RoundAmounts(round: Round, waivers: seq<Waiver>, audit: Audit)
    requires BuildAudit(round, waivers) == Success(audit)
    ensures Amounts(round, waivers, audit)
  {
    AuditOfRound(round, waivers);
    ElemsMembers(audit.findings);
  }

  lemma ValidExactly(round: Round, waivers: seq<Waiver>, audit: Audit)
    requires Amounts(round, waivers, audit)
    ensures ValidAudit(Elems(audit.findings)) <==>
              && (forall f :: Reports(round, f) ==>
                    f.status == Open || f.status == Waived || Waives(waivers, round.asOf, f.id))
              && (forall f, g :: Reports(round, f) && Reports(round, g) && f.id == g.id ==>
                    Marked(round, waivers, f) == Marked(round, waivers, g))
  {
    if ValidAudit(Elems(audit.findings)) {
      forall f | Reports(round, f)
        ensures f.status == Open || f.status == Waived || Waives(waivers, round.asOf, f.id)
      {
        assert Marked(round, waivers, f) in Elems(audit.findings);
      }
    }
  }

  lemma OverlayableExactly(m: map<string, Finding>, round: Round, waivers: seq<Waiver>, audit: Audit)
    requires Amounts(round, waivers, audit)
    ensures Overlayable(m, Elems(audit.findings), audit) <==>
              forall f :: Reports(round, f) ==>
                Audited(round, f.domain) && (f.id in m ==> m[f.id].domain == f.domain && m[f.id].area == f.area)
  {
    if Overlayable(m, Elems(audit.findings), audit) {
      forall f | Reports(round, f)
        ensures Audited(round, f.domain) && (f.id in m ==> m[f.id].domain == f.domain && m[f.id].area == f.area)
      {
        assert Marked(round, waivers, f) in Elems(audit.findings);
      }
    }
  }

  lemma AcceptableExactly(m: map<string, Finding>, round: Round, waivers: seq<Waiver>, audit: Audit)
    requires Amounts(round, waivers, audit)
    ensures ValidAudit(Elems(audit.findings)) && Overlayable(m, Elems(audit.findings), audit)
            && !Ambiguous(waivers, round.asOf) <==>
              Acceptable(m, round, waivers)
  {
    ValidExactly(round, waivers, audit);
    OverlayableExactly(m, round, waivers, audit);
  }

  /** Which rounds are persisted, exactly. */
  lemma RoundAccepted(s: Stores, round: Round, waivers: seq<Waiver>)
    requires Coherent(s)
    ensures Persisted(s, round, waivers) <==> Acceptable(Table(s), round, waivers)
    ensures !Persisted(s, round, waivers) ==> After(s, round, waivers) == s
  {
    AuditOfRound(round, waivers);
    if BuildAudit(round, waivers).Success? {
      var audit := BuildAudit(round, waivers).value;
      CoherentAccepts(s, audit);
      ReconcileExact(audit, Some(s.open), Some(s.history));
      RoundAmounts(round, waivers, audit);
      AcceptableExactly(Table(s), round, waivers, audit);
    }
  }

  lemma MovesInTerms(m: map<string, Finding>, m': map<string, Finding>, round: Round, waivers: seq<Waiver>,
                     audit: Audit)
    requires BuildAudit(round, waivers) == Success(audit) && MovesByOneRule(m, m', audit)
    requires WellKeyed(m')
    ensures MovesByRound(m, m', round, waivers)
  {
    AuditOfRound(round, waivers);
    forall id
      ensures IsReported(audit, id) <==> ReportsId(round, id)
    {
      if f :| Reports(round, f) && f.id == id {
        assert Marked(round, waivers, f) in audit.findings;
      }
    }
    forall f | Reports(round, f)
      ensures f.id in m' && TakesReport(m, m'[f.id], Marked(round, waivers, f), audit)
    {
      assert Marked(round, waivers, f) in audit.findings;
    }
    forall id | id in m
      ensures Lapses(m[id], audit) <==> Watched(round, m[id])
    {
    }
  }

  /** What a persisted round does to every stored finding, reported or not. */
  lemma RoundMoves(s: Stores, round: Round, waivers: seq<Waiver>)
    requires Coherent(s) && Persisted(s, round, waivers)
    ensures Coherent(After(s, round, waivers))
    ensures MovesByRound(Table(s), Table(After(s, round, waivers)), round, waivers)
    ensures Carry(After(s, round, waivers), s.history.version, round.generatedAt)
  {
    var audit := BuildAudit(round, waivers).value;
    AuditOfRound(round, waivers);
    CoherentAccepts(s, audit);
    ReconcileExact(audit, Some(s.open), Some(s.history));
    ReconcileMovesEveryIdByOneRule(audit, Some(s.open), Some(s.history));
    StoresCarry(audit, Some(s.open), Some(s.history));
    IndexOfIndexes(After(s, round, waivers).history.findings);
    MovesInTerms(Table(s), Table(After(s, round, waivers)), round, waivers, audit);
  }

  // ---- over runs

  /** The round is persisted and moves the finding. */
  ghost predicate Moves(s: Stores, round: Round, waivers: seq<Waiver>, id: string) {
    Persisted(s, round, waivers) && (ReportsId(round, id) || (id in Table(s) && Watched(round, Table(s)[id])))
  }

  /** How many rounds were over when the finding was last moved; 0 if it never was. */
  ghost function LastMoved(s: Stores, rounds: seq<Round>, waivers: seq<Waiver>, id: string): (k: nat)
    ensures k <= |rounds|
  {
    if rounds == [] then 0
    else if Moves(RunRounds(s, rounds[..|rounds| - 1], waivers), rounds[|rounds| - 1], waivers, id) then |rounds|
    else LastMoved(s, rounds[..|rounds| - 1], waivers, id)
  }

  /** As the last round to move it leaves a finding. */
  ghost predicate LeftBy(f: Finding, round: Round, waivers: seq<Waiver>) {
    && f.updatedAt == round.generatedAt
    && if ReportsId(round, f.id) then
         exists g ::
           Reports(round, g) && f == Marked(round, waivers, g).(createdAt := f.createdAt, updatedAt := f.updatedAt)
       else f.status == Resolved && f.area == round.area && Audited(round, f.domain)
  }

  lemma MovedOrKept(m: map<string, Finding>, m': map<string, Finding>, round: Round, waivers: seq<Waiver>, id: string)
    requires MovesByRound(m, m', round, waivers)
    ensures ReportsId(round, id) ==> id in m' && m'[id].id == id && LeftBy(m'[id], round, waivers)
    ensures !ReportsId(round, id) && id in m && m[id].id == id && Watched(round, m[id]) ==>
              id in m' && m'[id].id == id && LeftBy(m'[id], round, waivers)
    ensures !ReportsId(round, id) && !(id in m && Watched(round, m[id])) ==> Get(m', id) == Get(m, id)
  {
    if ReportsId(round, id) {
      var f :| Reports(round, f) && f.id == id;
      assert m'[id] == Marked(round, waivers, f).(createdAt := m'[id].createdAt, updatedAt := m'[id].updatedAt);
    }
  }

  lemma RoundDecides(s: Stores, round: Round, waivers: seq<Waiver>, id: string)
    requires Coherent(s)
    ensures
      var m, m' := Table(s), Table(After(s, round, waivers));
      if Moves(s, round, waivers, id) then id in m' && m'[id].id == id && LeftBy(m'[id], round, waivers)
      else Get(m', id) == Get(m, id)
  {
    RoundAccepted(s, round, waivers);
    if Persisted(s, round, waivers) {
      RoundMoves(s, round, waivers);
      IndexOfIndexes(s.history.findings);
      MovedOrKept(Table(s), Table(After(s, round, waivers)), round, waivers, id);
    }
  }

  /** After every run of rounds, refused ones included, each finding is as the last
      round that moved it left it: with that round's stamp, and as reported and marked
      or else resolved. One that no round moved is as it was. */
  lemma {:induction false} RoundsDecide(s: Stores, rounds: seq<Round>, waivers: seq<Waiver>, id: string)
    requires Coherent(s)
    ensures
      var m, k := Table(RunRounds(s, rounds, waivers)), LastMoved(s, rounds, waivers, id);
      if k == 0 then Get(m, id) == Get(Table(s), id)
      else id in m && m[id].id == id && LeftBy(m[id], rounds[k - 1], waivers)
  {
    if rounds != [] {
      var front, last := rounds[..|rounds| - 1], rounds[|rounds| - 1];
      var before := RunRounds(s, front, waivers);
      RoundsDecide(s, front, waivers, id);
      RoundsKeepCoherence(s, front, waivers);
      RoundDecides(before, last, waivers, id);
      assert RunRounds(s, rounds, waivers) == After(before, last, waivers);
    }
  }

  // ---- the order of the findings

  /** Graver findings come first, equally grave ones by id; what is neither critical,
      high, medium nor low comes last. */
  predicate ByGravity(f: Finding, g: Finding) {
    var a, b := f.body.severity, g.body.severity;
    && (b == "critical" ==> a == "critical")
    && (b == "high" ==> a == "critical" || a == "high")
    && (b == "medium" ==> a == "critical" || a == "high" || a == "medium")
    && (b == "low" ==> a == "critical" || a == "high" || a == "medium" || a == "low")
    && (a == b || {a, b} !! {"critical", "high", "medium", "low"} ==> StrLe(f.id, g.id))
  }

  lemma SeverityLeIsTotal()
    ensures TotalPreorder(SeverityLe)
  {
    StrOrderIsTotal();
  }

  lemma AuditSorted(round: Round, waivers: seq<Waiver>, i: nat, j: nat)
    requires BuildAudit(round, waivers).Success? && i < j < |BuildAudit(round, waivers).value.findings|
    ensures ByGravity(BuildAudit(round, waivers).value.findings[i], BuildAudit(round, waivers).value.findings[j])
  {
    var collected := Collect(round, round.domains, Select(waivers, round.asOf).value);
    SeverityLeIsTotal();
    SortOrdered(collected, SeverityLe);
    assert SeverityLe(Sort(collected, SeverityLe)[i], Sort(collected, SeverityLe)[j]);
  }
}
