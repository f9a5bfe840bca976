/** Portfolio reporting: an append-only history of dashboard snapshots and the
    trend published with each, written together with the dashboard itself. */
module Portfolio {
  import opened Ordering
  import opened Publication

  const DASHBOARD_FILE := "estate/multi-repo-dashboard.json"
  const HISTORY_FILE := "estate/portfolio-history.json"
  const TREND_FILE := "estate/portfolio-trend.json"

  datatype Counts = Counts(repos: int, subsystems: int, attentionRequired: int,
                           warnings: int, openFindings: int, highSeverity: int)
  {
    function Plus(c: Counts): Counts {
      Counts(repos + c.repos, subsystems + c.subsystems, attentionRequired + c.attentionRequired,
             warnings + c.warnings, openFindings + c.openFindings, highSeverity + c.highSeverity)
    }

    function Minus(c: Counts): Counts {
      Counts(repos - c.repos, subsystems - c.subsystems, attentionRequired - c.attentionRequired,
             warnings - c.warnings, openFindings - c.openFindings, highSeverity - c.highSeverity)
    }
  }

  const NO_CHANGE := Counts(0, 0, 0, 0, 0, 0)

  datatype Dashboard = Dashboard(generatedAt: string, repoIds: seq<string>, counts: Counts)

  datatype Snapshot = Snapshot(generatedAt: string, repoIds: seq<string>, counts: Counts)

  datatype Trend = Trend(generatedAt: string, historyCount: nat, latest: Snapshot,
                         previous: Option<Snapshot>, delta: Counts)

  datatype Artifact =
    | DashboardFile(dashboard: Dashboard)
    | HistoryFile(snapshots: seq<Snapshot>)
    | TrendFile(trend: Trend)

  type Files = map<Path, Artifact>

  function SnapshotOf(d: Dashboard): Snapshot {
    Snapshot(d.generatedAt, d.repoIds, d.counts)
  }

  /** What makes two snapshots the same state of the portfolio: not their dates. */
  function Signature(s: Snapshot): (seq<string>, Counts) {
    (s.repoIds, s.counts)
  }

  function Delta(latest: Snapshot, previous: Option<Snapshot>): Counts {
    match previous
    case None => NO_CHANGE
    case Some(p) => latest.counts.Minus(p.counts)
  }

  function Last(s: seq<Snapshot>): Option<Snapshot> {
    if s == [] then None else Some(s[|s| - 1])
  }

  ghost function NextHistory(d: Dashboard, existing: seq<Snapshot>): seq<Snapshot> {
    if Last(existing).Some? && Signature(Last(existing).value) == Signature(SnapshotOf(d)) then existing
    else existing + [SnapshotOf(d)]
  }

  method BuildPortfolioHistory(d: Dashboard, existing: Option<seq<Snapshot>>) returns (snapshots: seq<Snapshot>)
    ensures snapshots == NextHistory(d, if existing.Some? then existing.value else [])
  {
    snapshots := [];
    if existing.Some? {
      snapshots := existing.value;
    }
    var current := SnapshotOf(d);
    if snapshots == [] || Signature(snapshots[|snapshots| - 1]) != Signature(current) {
      snapshots := snapshots + [current];
    }
  }

  method BuildPortfolioTrend(d: Dashboard, existing: Option<seq<Snapshot>>) returns (trend: Trend)
    ensures
      var before := if existing.Some? then existing.value else [];
      trend == Trend(d.generatedAt, |NextHistory(d, before)|, SnapshotOf(d), Last(before),
                     Delta(SnapshotOf(d), Last(before)))
  {
    var latest := SnapshotOf(d);
    var previous: Option<Snapshot> := None;
    if existing.Some? && existing.value != [] {
      previous := Some(existing.value[|existing.value| - 1]);
    }
    var history := BuildPortfolioHistory(d, existing);
    trend := Trend(d.generatedAt, |history|, latest, previous, Delta(latest, previous));
  }

  // ---- the three files

  /** The history on disk; a file that is no history does not load. */
  function LoadHistory(files: Files): Result<Option<seq<Snapshot>>, ()> {
    if Named(HISTORY_FILE) !in files then Success(None)
    else if files[Named(HISTORY_FILE)].HistoryFile? then Success(Some(files[Named(HISTORY_FILE)].snapshots))
    else Failure(())
  }

  function HistoryOn(files: Files): seq<Snapshot> {
    match LoadHistory(files)
    case Success(Some(s)) => s
    case _ => []
  }

  ghost function TrendFor(d: Dashboard, before: seq<Snapshot>): Trend {
    Trend(d.generatedAt, |NextHistory(d, before)|, SnapshotOf(d), Last(before), Delta(SnapshotOf(d), Last(before)))
  }

  ghost function Writes(files: Files, d: Dashboard): seq<Write<Artifact>> {
    [Write(DASHBOARD_FILE, DashboardFile(d)),
     Write(HISTORY_FILE, HistoryFile(NextHistory(d, HistoryOn(files)))),
     Write(TREND_FILE, TrendFile(TrendFor(d, HistoryOn(files))))]
  }

  method WriteMultiRepoOutputs(fs: FileSystem<Artifact>, d: Dashboard, stop: Stop<Artifact>, k: nat, r: nat, u: nat)
    returns (outcome: Option<Outcome>)
    requires fs.Valid()
    modifies fs
    ensures fs.Valid()
    ensures outcome.None? <==> LoadHistory(old(fs.files)).Failure?
    ensures outcome.None? ==> fs.files == old(fs.files)
    ensures outcome.Some? && Stops(stop, 3) ==>
      outcome == Some(StagingFailed) && Outside(fs.files, old(fs.unused)) == old(fs.files)
    ensures outcome.Some? && !Stops(stop, 3) ==>
      && Outside(fs.files, old(fs.unused)) == PublishedFiles(old(fs.files), Writes(old(fs.files), d), k, r)
      && (outcome == Some(CleanUpFailed) <==> LeftAt(old(fs.files), Writes(old(fs.files), d), k, r, u))
    ensures outcome.Some? && !Stops(stop, 3) && outcome != Some(CleanUpFailed) ==>
      && fs.files == PublishedFiles(old(fs.files), Writes(old(fs.files), d), k, r)
      && outcome == Some(if k >= 3 then Published else if r >= 3 then RolledBack else RollbackFailed)
  {
    var existing := LoadHistory(fs.files);
    if existing.Failure? {
      return None;
    }
    var history := BuildPortfolioHistory(d, existing.value);
    var trend := BuildPortfolioTrend(d, existing.value);
    var writes := [Write(DASHBOARD_FILE, DashboardFile(d)), Write(HISTORY_FILE, HistoryFile(history)),
                   Write(TREND_FILE, TrendFile(trend))];
    var published := fs.WriteArtifactsAtomic(writes, stop, k, r, u);
    outcome := Some(published);
  }

  // ---- runs

  /** A report and the course its publication takes. */
  datatype Report = Report(dashboard: Dashboard, course: Course<Artifact>)

  ghost predicate Publishes(report: Report) {
    report.course.Replacing? && report.course.fault >= 3
  }

  ghost function After(files: Files, report: Report): Files {
    if LoadHistory(files).Failure? then files else Follow(files, Writes(files, report.dashboard), report.course)
  }

  ghost function RunReports(files: Files, reports: seq<Report>): Files {
    if reports == [] then files
    else After(RunReports(files, reports[..|reports| - 1]), reports[|reports| - 1])
  }

  lemma {:induction false} AppliedThree(files: Files, w: seq<Write<Artifact>>)
    requires |w| == 3
    ensures Applied(files, w) ==
      files[Named(w[0].target) := w[0].content][Named(w[1].target) := w[1].content][Named(w[2].target) := w[2].content]
  {
    var one, two := [w[0]], [w[0], w[1]];
    assert w[..2] == two && two[..1] == one && one[..0] == [];
    assert Applied(files, one) == files[Named(w[0].target) := w[0].content];
    assert Applied(files, two) == Applied(files, one)[Named(w[1].target) := w[1].content];
  }

  /** The three files a report is about are the same. */
  ghost predicate SameReport(f: Files, g: Files) {
    AgreeAt(f, g, Named(DASHBOARD_FILE)) && AgreeAt(f, g, Named(HISTORY_FILE)) && AgreeAt(f, g, Named(TREND_FILE))
  }

  /** One report either leaves the three files alone or publishes all of them. */
  lemma ReportStep(files: Files, report: Report)
    requires LoadHistory(files).Success?
    ensures LoadHistory(After(files, report)).Success?
    ensures !Publishes(report) ==> SameReport(After(files, report), files)
    ensures Publishes(report) ==>
      && HistoryOn(After(files, report)) == NextHistory(report.dashboard, HistoryOn(files))
      && Named(TREND_FILE) in After(files, report)
      && After(files, report)[Named(TREND_FILE)] == TrendFile(TrendFor(report.dashboard, HistoryOn(files)))
      && Named(DASHBOARD_FILE) in After(files, report)
      && After(files, report)[Named(DASHBOARD_FILE)] == DashboardFile(report.dashboard)
  {
    var w := Writes(files, report.dashboard);
    if Publishes(report) {
      FinishedAppliesNamed(files, w, report.course);
      AppliedThree(files, w);
      assert AgreeAt(After(files, report), Applied(files, w), Named(HISTORY_FILE));
      assert AgreeAt(After(files, report), Applied(files, w), Named(TREND_FILE));
      assert AgreeAt(After(files, report), Applied(files, w), Named(DASHBOARD_FILE));
    } else {
      UnfinishedKeepsNamed(files, w, report.course);
    }
  }

  /** The same repositories and the same six counts; the dates may differ. */
  predicate SameState(s: Snapshot, d: Dashboard) {
    && s.repoIds == d.repoIds
    && s.counts.repos == d.counts.repos && s.counts.subsystems == d.counts.subsystems
    && s.counts.attentionRequired == d.counts.attentionRequired && s.counts.warnings == d.counts.warnings
    && s.counts.openFindings == d.counts.openFindings && s.counts.highSeverity == d.counts.highSeverity
  }

  /** Each count of the delta is the difference of that count. */
  predicate Differs(delta: Counts, latest: Counts, previous: Counts) {
    && delta.repos == latest.repos - previous.repos
    && delta.subsystems == latest.subsystems - previous.subsystems
    && delta.attentionRequired == latest.attentionRequired - previous.attentionRequired
    && delta.warnings == latest.warnings - previous.warnings
    && delta.openFindings == latest.openFindings - previous.openFindings
    && delta.highSeverity == latest.highSeverity - previous.highSeverity
  }

  /** The history file, if there is one, holds a history. */
  predicate HistoryLoads(files: Files) {
    Named("estate/portfolio-history.json") in files ==> files[Named("estate/portfolio-history.json")].HistoryFile?
  }

  function SnapshotsOn(files: Files): seq<Snapshot>
    requires HistoryLoads(files)
  {
    if Named("estate/portfolio-history.json") in files then files[Named("estate/portfolio-history.json")].snapshots
    else []
  }

  lemma LoadsExactly(files: Files)
    ensures LoadHistory(files).Success? <==> HistoryLoads(files)
    ensures HistoryLoads(files) ==> HistoryOn(files) == SnapshotsOn(files)
  {
  }

  /** Without a history that loads nothing is written. A published report appends a
      snapshot of its dashboard exactly when there is no snapshot or the last one is
      of another state, whatever the dates; and the trend compares the dashboard with
      that last snapshot. */
  lemma ReportLeaves(files: Files, report: Report)
    requires report.course.Replacing? && report.course.fault >= 3
    ensures !HistoryLoads(files) ==> After(files, report) == files
    ensures HistoryLoads(files) ==>
      var d, before, after := report.dashboard, SnapshotsOn(files), After(files, report);
      var now := Snapshot(d.generatedAt, d.repoIds, d.counts);
      var history := if before != [] && SameState(before[|before| - 1], d) then before else before + [now];
      && Named("estate/multi-repo-dashboard.json") in after
      && after[Named("estate/multi-repo-dashboard.json")] == DashboardFile(d)
      && Named("estate/portfolio-history.json") in after
      && after[Named("estate/portfolio-history.json")] == HistoryFile(history)
      && Named("estate/portfolio-trend.json") in after && after[Named("estate/portfolio-trend.json")].TrendFile?
      && var t := after[Named("estate/portfolio-trend.json")].trend;
         && t.generatedAt == d.generatedAt && t.historyCount == |history| && t.latest == now
         && (before == [] ==> t.previous == None && t.delta == Counts(0, 0, 0, 0, 0, 0))
         && (before != [] ==> t.previous == Some(before[|before| - 1])
                              && Differs(t.delta, d.counts, before[|before| - 1].counts))
  {
    LoadsExactly(files);
    if HistoryLoads(files) {
      ReportStep(files, report);
      HistoryWritten(files, report);
    }
  }

  lemma HistoryWritten(files: Files, report: Report)
    requires LoadHistory(files).Success? && Publishes(report)
    ensures Named(HISTORY_FILE) in After(files, report)
    ensures After(files, report)[Named(HISTORY_FILE)] == HistoryFile(NextHistory(report.dashboard, HistoryOn(files)))
  {
    var w := Writes(files, report.dashboard);
    FinishedAppliesNamed(files, w, report.course);
    AppliedThree(files, w);
    assert AgreeAt(After(files, report), Applied(files, w), Named(HISTORY_FILE));
  }

  /** Adjacent snapshots from position `from` on differ in more than their date. */
  ghost predicate Moving(history: seq<Snapshot>, from: nat) {
    forall i :: from <= i && 0 < i < |history| ==>
      history[i - 1].repoIds != history[i].repoIds || history[i - 1].counts != history[i].counts
  }

  lemma StepAppends(files: Files, report: Report, from: nat)
    requires LoadHistory(files).Success? && Moving(HistoryOn(files), from)
    ensures LoadHistory(After(files, report)).Success?
    ensures HistoryOn(files) <= HistoryOn(After(files, report))
    ensures |HistoryOn(After(files, report))| <= |HistoryOn(files)| + 1
    ensures Moving(HistoryOn(After(files, report)), from)
  {
    ReportStep(files, report);
  }

  /** Over every run the history only grows, by at most one snapshot a report, and
      never gains two adjacent snapshots of the same state. */
  lemma {:induction false} HistoryIsAppendOnly(files: Files, reports: seq<Report>)
    requires LoadHistory(files).Success?
    ensures LoadHistory(RunReports(files, reports)).Success?
    ensures HistoryOn(files) <= HistoryOn(RunReports(files, reports))
    ensures |HistoryOn(RunReports(files, reports))| <= |HistoryOn(files)| + |reports|
    ensures Moving(HistoryOn(RunReports(files, reports)), |HistoryOn(files)|)
  {
    if reports != [] {
      var rest := reports[..|reports| - 1];
      HistoryIsAppendOnly(files, rest);
      StepAppends(RunReports(files, rest), reports[|reports| - 1], |HistoryOn(files)|);
    }
  }

  /** The deltas of the trends a run publishes, added up. */
  ghost function PublishedDeltas(files: Files, reports: seq<Report>): Counts {
    if reports == [] then NO_CHANGE
    else
      var rest, last := reports[..|reports| - 1], reports[|reports| - 1];
      var sum := PublishedDeltas(files, rest);
      if !Publishes(last) then sum
      else sum.Plus(TrendFor(last.dashboard, HistoryOn(RunReports(files, rest))).delta)
  }

  /** What a run starts from (its first snapshot, if it starts from nothing) plus
      the deltas is what it ends with. */
  ghost predicate Telescopes(start: seq<Snapshot>, end: seq<Snapshot>, deltas: Counts) {
    if end == [] then deltas == NO_CHANGE
    else end[|end| - 1].counts == (if start == [] then end[0] else start[|start| - 1]).counts.Plus(deltas)
  }

  lemma TelescopeStep(start: seq<Snapshot>, end: seq<Snapshot>, deltas: Counts, d: Dashboard)
    requires Telescopes(start, end, deltas) && start <= end
    ensures Telescopes(start, NextHistory(d, end), deltas.Plus(Delta(SnapshotOf(d), Last(end))))
  {
    var delta := Delta(SnapshotOf(d), Last(end));
    if end != [] {
      assert end[|end| - 1].counts.Plus(delta) == SnapshotOf(d).counts;
    }
  }

  /** Over every run the published deltas telescope. */
  lemma {:induction false} DeltasTelescope(files: Files, reports: seq<Report>)
    requires LoadHistory(files).Success?
    ensures Telescopes(HistoryOn(files), HistoryOn(RunReports(files, reports)), PublishedDeltas(files, reports))
  {
    if reports != [] {
      var rest, last := reports[..|reports| - 1], reports[|reports| - 1];
      DeltasTelescope(files, rest);
      HistoryIsAppendOnly(files, rest);
      ReportStep(RunReports(files, rest), last);
      TelescopeStep(HistoryOn(files), HistoryOn(RunReports(files, rest)), PublishedDeltas(files, rest), last.dashboard);
    }
  }

  ghost predicate EverPublishes(reports: seq<Report>) {
    reports != [] && (Publishes(reports[|reports| - 1]) || EverPublishes(reports[..|reports| - 1]))
  }

  /** The last snapshot is in the state of the dashboard on disk, and the trend on
      disk counts the history on disk. */
  ghost predicate Agree(files: Files) {
    && Named(DASHBOARD_FILE) in files && files[Named(DASHBOARD_FILE)].DashboardFile?
    && Named(TREND_FILE) in files && files[Named(TREND_FILE)].TrendFile?
    && HistoryOn(files) != []
    && var d, t := files[Named(DASHBOARD_FILE)].dashboard, files[Named(TREND_FILE)].trend;
       && SameState(HistoryOn(files)[|HistoryOn(files)| - 1], d)
       && t.historyCount == |HistoryOn(files)| && t.latest == Snapshot(d.generatedAt, d.repoIds, d.counts)
  }

  lemma StepAgrees(files: Files, report: Report)
    requires LoadHistory(files).Success? && (Publishes(report) || Agree(files))
    ensures Agree(After(files, report))
  {
    ReportStep(files, report);
  }

  /** After a run that published anything the three files agree. */
  lemma {:induction false} FilesAgree(files: Files, reports: seq<Report>)
    requires LoadHistory(files).Success? && EverPublishes(reports)
    ensures Agree(RunReports(files, reports))
  {
    var rest, last := reports[..|reports| - 1], reports[|reports| - 1];
    HistoryIsAppendOnly(files, rest);
    if !Publishes(last) {
      FilesAgree(files, rest);
    }
    StepAgrees(RunReports(files, rest), last);
  }

  // ---- an interrupted rollback

  /** Dashboard, history and trend are replaced in this order, and restored in it: what
      an interrupted rollback leaves new are those from the failing restore up to the
      failing replace. */
  lemma InterruptedReport(files: Files, d: Dashboard, k: nat, r: nat)
    requires k < 3
    ensures
      var out := PublishedFiles(files, Writes(files, d), k, r);
      var dashboard, history := Named("estate/multi-repo-dashboard.json"), Named("estate/portfolio-history.json");
      && (if r == 0 && k > 0 then dashboard in out && out[dashboard] == DashboardFile(d)
          else AgreeAt(out, files, dashboard))
      && (if r <= 1 && k > 1 then history in out && out[history] == HistoryFile(NextHistory(d, HistoryOn(files)))
          else AgreeAt(out, files, history))
      && AgreeAt(out, files, Named("estate/portfolio-trend.json"))
  {
    FailedAt(files, Writes(files, d), k, r, 0);
    FailedAt(files, Writes(files, d), k, r, 1);
    FailedAt(files, Writes(files, d), k, r, 2);
  }
}
