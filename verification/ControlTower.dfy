/** Control Tower exports: one file per audited subsystem and an estate dashboard
    rebuilt from all of them at every write. */
module ControlTower {
  import opened Ordering
  import opened Findings
  import opened Publication

  const SURFACE_FILE := "control-tower/surface.json"
  const ESTATE_FILE := "control-tower/estate-dashboard.json"
  const SUBSYSTEMS_DIR := "control-tower/subsystems/"
  const JSON := ".json"

  datatype Health = Healthy | Monitor | AttentionRequired

  datatype Entry = Entry(subsystem: string, area: string, generatedAt: string, status: Health, worstScore: int,
                         openFindings: nat, highSeverity: nat, warnings: nat)

  datatype Summary = Summary(subsystems: nat, healthy: int, monitor: int, attentionRequired: int,
                             openFindings: int, highSeverity: int, warnings: int)

  datatype Dashboard = Dashboard(generatedAt: string, summary: Summary, subsystems: seq<Entry>)

  datatype Artifact = SurfaceFile(generatedAt: string) | SubsystemFile(entry: Entry) | EstateFile(dashboard: Dashboard)

  type Files = map<Path, Artifact>

  // ---- one subsystem

  function SubsystemStatus(worstScore: int, openFindings: nat, highSeverity: nat, warnings: nat): Health {
    if warnings > 0 || highSeverity > 0 || worstScore < 60 then AttentionRequired
    else if openFindings > 0 || worstScore < 75 then Monitor
    else Healthy
  }

  /** The audit as far as the export looks at it, and the latest CI output. */
  datatype AuditView = AuditView(subsystem: string, area: string, generatedAt: string, scores: map<string, int>)

  datatype CiView = CiView(subsystem: string, warnings: nat)

  function AreaFindings(findings: seq<Finding>, area: string): seq<Finding> {
    if findings == [] then []
    else
      var last := findings[|findings| - 1];
      AreaFindings(findings[..|findings| - 1], area) + if last.status.Open? && last.area == area then [last] else []
  }

  function HighSeverity(findings: seq<Finding>): nat {
    if findings == [] then 0
    else
      var last := findings[|findings| - 1];
      HighSeverity(findings[..|findings| - 1]) + if last.body.severity in {"critical", "high"} then 1 else 0
  }

  /** Where a store lists open findings of an area. */
  ghost function OpenAt(findings: seq<Finding>, area: string): set<nat> {
    set i: nat | i < |findings| && findings[i].status == Open && findings[i].area == area
  }

  /** And where they are critical or high. */
  ghost function GraveAt(findings: seq<Finding>, area: string): set<nat> {
    set i: nat | i < |findings| && findings[i].status == Open && findings[i].area == area
                 && (findings[i].body.severity == "critical" || findings[i].body.severity == "high")
  }

  lemma HighSeveritySnoc(findings: seq<Finding>, f: Finding)
    ensures HighSeverity(findings + [f])
         == HighSeverity(findings) + if f.body.severity in {"critical", "high"} then 1 else 0
  {
    assert (findings + [f])[..|findings|] == findings;
  }

  lemma {:induction false} OpenCount(findings: seq<Finding>, area: string)
    ensures |AreaFindings(findings, area)| == |OpenAt(findings, area)|
  {
    if findings == [] {
      assert OpenAt(findings, area) == {};
    } else {
      var n := |findings| - 1;
      OpenCount(findings[..n], area);
      assert OpenAt(findings, area)
          == OpenAt(findings[..n], area) + if findings[n].status.Open? && findings[n].area == area then {n} else {};
    }
  }

  lemma {:induction false} GraveCount(findings: seq<Finding>, area: string)
    ensures HighSeverity(AreaFindings(findings, area)) == |GraveAt(findings, area)|
  {
    if findings == [] {
      assert GraveAt(findings, area) == {};
    } else {
      var n := |findings| - 1;
      var front := AreaFindings(findings[..n], area);
      GraveCount(findings[..n], area);
      GraveSnoc(findings, area, n);
      HighSeveritySnoc(front, findings[n]);
      assert front + [] == front;
    }
  }

  lemma GraveSnoc(findings: seq<Finding>, area: string, n: nat)
    requires n + 1 == |findings|
    ensures |GraveAt(findings, area)| == |GraveAt(findings[..n], area)| + if n in GraveAt(findings, area) then 1 else 0
  {
    assert GraveAt(findings, area)
        == GraveAt(findings[..n], area) + if n in GraveAt(findings, area) then {n} else {};
  }

  ghost predicate IsWorst(scores: map<string, int>, worst: int) {
    if scores == map[] then worst == 100
    else (exists d :: d in scores && scores[d] == worst) && forall d :: d in scores ==> worst <= scores[d]
  }

  method WorstScore(scores: map<string, int>) returns (worst: int)
    ensures IsWorst(scores, worst)
  {
    worst := 100;
    var pending := scores.Keys;
    while pending != {}
      invariant pending <= scores.Keys
      invariant pending == scores.Keys ==> worst == 100
      invariant pending != scores.Keys ==> exists d :: d in scores && d !in pending && scores[d] == worst
      invariant pending != scores.Keys ==> forall d :: d in scores && d !in pending ==> worst <= scores[d]
    {
      var d :| d in pending;
      if pending == scores.Keys || scores[d] < worst {
        worst := scores[d];
      }
      pending := pending - {d};
      assert d in scores && d !in pending;
    }
  }

  /** The entry counts the area's open findings and grades them. */
  ghost predicate Reflects(entry: Entry, audit: AuditView, open: Store, ci: CiView) {
    && entry.subsystem == audit.subsystem && entry.area == audit.area && entry.generatedAt == audit.generatedAt
    && IsWorst(audit.scores, entry.worstScore)
    && entry.openFindings == |OpenAt(open.findings, audit.area)|
    && entry.highSeverity == |GraveAt(open.findings, audit.area)|
    && entry.warnings == (if ci.subsystem == audit.subsystem then ci.warnings else 0)
    && (entry.status.AttentionRequired? <==> entry.warnings > 0 || entry.highSeverity > 0 || entry.worstScore < 60)
    && (entry.status.Healthy? <==> entry.warnings == 0 && entry.openFindings == 0 && entry.worstScore >= 75)
  }

  method BuildSubsystemDashboard(audit: AuditView, open: Store, ci: CiView) returns (entry: Entry)
    ensures Reflects(entry, audit, open, ci)
  {
    var findings := AreaFindings(open.findings, audit.area);
    var high := HighSeverity(findings);
    OpenCount(open.findings, audit.area);
    GraveCount(open.findings, audit.area);
    HighSeverityBound(findings);
    var warnings := 0;
    if ci.subsystem == audit.subsystem {
      warnings := ci.warnings;
    }
    var worst := WorstScore(audit.scores);
    entry := Entry(audit.subsystem, audit.area, audit.generatedAt, SubsystemStatus(worst, |findings|, high, warnings),
                   worst, |findings|, high, warnings);
  }

  lemma {:induction false} HighSeverityBound(findings: seq<Finding>)
    ensures HighSeverity(findings) <= |findings|
  {
    if findings != [] {
      HighSeverityBound(findings[..|findings| - 1]);
    }
  }

  // ---- the estate

  function Sum(entries: seq<Entry>, f: Entry -> int): int {
    if entries == [] then 0 else f(entries[0]) + Sum(entries[1..], f)
  }

  function IsHealthy(e: Entry): int { if e.status.Healthy? then 1 else 0 }
  function IsMonitor(e: Entry): int { if e.status.Monitor? then 1 else 0 }
  function IsAttention(e: Entry): int { if e.status.AttentionRequired? then 1 else 0 }
  function OpenFindings(e: Entry): int { e.openFindings }
  function HighFindings(e: Entry): int { e.highSeverity }
  function Warnings(e: Entry): int { e.warnings }

  function Summarise(entries: seq<Entry>): Summary {
    Summary(|entries|, Sum(entries, IsHealthy), Sum(entries, IsMonitor), Sum(entries, IsAttention),
            Sum(entries, OpenFindings), Sum(entries, HighFindings), Sum(entries, Warnings))
  }

  predicate EntryLe(e: Entry, f: Entry) {
    StrLe(e.subsystem, f.subsystem)
  }

  function BuildEstateDashboard(entries: seq<Entry>, generatedAt: string): Dashboard {
    var ordered := Sort(entries, EntryLe);
    Dashboard(generatedAt, Summarise(ordered), ordered)
  }

  // ---- the directory of subsystem files

  /** File names the request schema lets a subsystem have, as far as paths care. */
  predicate PlainName(s: string) {
    s != "" && '/' !in s
  }

  function SubsystemPath(subsystem: string): Path {
    Named(SUBSYSTEMS_DIR + subsystem + JSON)
  }

  predicate InSubsystemsDir(p: Path) {
    && p.Named?
    && |p.name| > |SUBSYSTEMS_DIR| + |JSON|
    && p.name[..|SUBSYSTEMS_DIR|] == SUBSYSTEMS_DIR
    && p.name[|p.name| - |JSON|..] == JSON
    && '/' !in Stem(p)
  }

  function Stem(p: Path): string
    requires p.Named? && |p.name| > |SUBSYSTEMS_DIR| + |JSON|
  {
    p.name[|SUBSYSTEMS_DIR|..|p.name| - |JSON|]
  }

  lemma PathsAndStems(s: string)
    requires PlainName(s)
    ensures InSubsystemsDir(SubsystemPath(s)) && Stem(SubsystemPath(s)) == s
  {
    var name := SUBSYSTEMS_DIR + s + JSON;
    assert name == SUBSYSTEMS_DIR + (s + JSON);
    assert name[|SUBSYSTEMS_DIR|..|name| - |JSON|] == s;
  }

  lemma StemsAndPaths(p: Path)
    requires InSubsystemsDir(p)
    ensures SubsystemPath(Stem(p)) == p && PlainName(Stem(p))
  {
    assert p.name == p.name[..|SUBSYSTEMS_DIR|] + Stem(p) + p.name[|p.name| - |JSON|..];
  }

  lemma OtherFilesOutside()
    ensures !InSubsystemsDir(Named(SURFACE_FILE)) && !InSubsystemsDir(Named(ESTATE_FILE))
  {
    assert SURFACE_FILE[16] == 'r' && ESTATE_FILE[14] == 'e';
    assert SUBSYSTEMS_DIR[16] == 'b' && SUBSYSTEMS_DIR[14] == 's';
    assert |SURFACE_FILE| > |SUBSYSTEMS_DIR| ==> SURFACE_FILE[..|SUBSYSTEMS_DIR|][16] != SUBSYSTEMS_DIR[16];
    assert |ESTATE_FILE| > |SUBSYSTEMS_DIR| ==> ESTATE_FILE[..|SUBSYSTEMS_DIR|][14] != SUBSYSTEMS_DIR[14];
  }

  function Globbed(files: Files): set<Path> {
    set p | p in files && InSubsystemsDir(p)
  }

  /** Each file in the directory loads, as the entry of the subsystem it is named for. */
  ghost predicate DirectoryCoherent(files: Files) {
    forall p :: p in files && InSubsystemsDir(p) ==> files[p].SubsystemFile? && files[p].entry.subsystem == Stem(p)
  }

  /** `entries` are those of the other subsystems' files, in whatever order. */
  ghost predicate LoadsOthers(entries: seq<Entry>, files: Files, subsystem: string) {
    forall e :: e in entries <==>
      exists p :: p in Globbed(files) && Stem(p) != subsystem && files[p] == SubsystemFile(e)
  }

  /** `None` if some other file in the directory is no subsystem entry. */
  method LoadExisting(files: Files, subsystem: string) returns (entries: Option<seq<Entry>>)
    ensures entries.None? <==> exists p :: p in Globbed(files) && Stem(p) != subsystem && !files[p].SubsystemFile?
    ensures entries.Some? ==> LoadsOthers(entries.value, files, subsystem)
    ensures entries.Some? && DirectoryCoherent(files) ==> Distinct(entries.value)
  {
    var loaded: seq<Entry> := [];
    var pending := Globbed(files);
    while pending != {}
      invariant pending <= Globbed(files)
      invariant forall p :: p in Globbed(files) - pending && Stem(p) != subsystem ==> files[p].SubsystemFile?
      invariant forall e :: e in loaded <==>
        exists p :: p in Globbed(files) - pending && Stem(p) != subsystem && files[p] == SubsystemFile(e)
      invariant DirectoryCoherent(files) ==> Distinct(loaded)
    {
      var p :| p in pending;
      ghost var seen := Globbed(files) - pending;
      pending := pending - {p};
      assert Globbed(files) - pending == seen + {p};
      if Stem(p) == subsystem {
        continue;
      }
      if !files[p].SubsystemFile? {
        return None;
      }
      var e := files[p].entry;
      if DirectoryCoherent(files) && e in loaded {
        var q :| q in seen && Stem(q) != subsystem && files[q] == SubsystemFile(e);
        StemsAndPaths(p);
        StemsAndPaths(q);
      }
      loaded := loaded + [e];
    }
    return Some(loaded);
  }

  // ---- a write

  /** The entries of the other subsystems, in some order. */
  ghost function Others(files: Files, subsystem: string): seq<Entry> {
    Enumerate(set p | p in Globbed(files) && Stem(p) != subsystem && files[p].SubsystemFile? :: files[p].entry)
  }

  /** What is written when the other files have been read as `others`. */
  function WritesWith(others: seq<Entry>, entry: Entry): seq<Write<Artifact>> {
    [Write(SURFACE_FILE, SurfaceFile(entry.generatedAt)),
     Write(SubsystemPath(entry.subsystem).name, SubsystemFile(entry)),
     Write(ESTATE_FILE, EstateFile(BuildEstateDashboard(others + [entry], entry.generatedAt)))]
  }

  ghost function Writes(files: Files, entry: Entry): seq<Write<Artifact>> {
    WritesWith(Others(files, entry.subsystem), entry)
  }

  lemma EntryLeIsTotal()
    ensures TotalPreorder(EntryLe)
  {
    StrOrderIsTotal();
  }

  ghost predicate UniqueNames(s: seq<Entry>) {
    forall e, f :: e in s && f in s && e.subsystem == f.subsystem ==> e == f
  }

  /** With distinct names the dashboard does not depend on the reading order. */
  lemma DashboardUnique(s: seq<Entry>, t: seq<Entry>, generatedAt: string)
    requires Distinct(s) && Distinct(t) && UniqueNames(s) && forall e :: e in s <==> e in t
    ensures BuildEstateDashboard(s, generatedAt) == BuildEstateDashboard(t, generatedAt)
    ensures Ordered(Sort(s, EntryLe), EntryLe) && Distinct(Sort(s, EntryLe))
    ensures forall e :: e in Sort(s, EntryLe) <==> e in s
  {
    EntryLeIsTotal();
    StrOrderIsTotal();
    SortElements(s, EntryLe);
    SortOrdered(s, EntryLe);
    SortDistinct(s, EntryLe);
    forall e, f | e in s && f in s && EntryLe(e, f) && EntryLe(f, e)
      ensures e == f
    {
      assert e.subsystem == f.subsystem;
    }
    SortOfAnyOrder(s, t, EntryLe);
  }

  lemma OthersMembers(files: Files, subsystem: string, e: Entry)
    requires DirectoryCoherent(files)
    ensures e in Others(files, subsystem) <==>
      PlainName(e.subsystem) && e.subsystem != subsystem
      && SubsystemPath(e.subsystem) in files && files[SubsystemPath(e.subsystem)] == SubsystemFile(e)
  {
    if e in Others(files, subsystem) {
      var p :| p in Globbed(files) && Stem(p) != subsystem && files[p].SubsystemFile? && files[p].entry == e;
      StemsAndPaths(p);
    }
    if PlainName(e.subsystem) {
      PathsAndStems(e.subsystem);
    }
  }

  /** Whatever the directory holds, if it loads the dashboard is built from exactly
      the entries in it; on a coherent directory that does not depend on the order
      they are read in. */
  method WriteControlTowerOutputs(fs: FileSystem<Artifact>, audit: AuditView, open: Store, ci: CiView,
                                  stop: Stop<Artifact>, k: nat, r: nat, u: nat)
    returns (entry: Entry, ghost existing: seq<Entry>, outcome: Option<Outcome>)
    requires fs.Valid() && PlainName(audit.subsystem)
    modifies fs
    ensures fs.Valid() && Reflects(entry, audit, open, ci)
    ensures outcome.None? <==>
      exists p :: p in Globbed(old(fs.files)) && Stem(p) != entry.subsystem && !old(fs.files)[p].SubsystemFile?
    ensures outcome.None? ==> fs.files == old(fs.files)
    ensures outcome.Some? ==> LoadsOthers(existing, old(fs.files), entry.subsystem)
    ensures outcome.Some? && Stops(stop, 3) ==>
      outcome == Some(StagingFailed) && Outside(fs.files, old(fs.unused)) == old(fs.files)
    ensures outcome.Some? && !Stops(stop, 3) ==>
      && Outside(fs.files, old(fs.unused)) == PublishedFiles(old(fs.files), WritesWith(existing, entry), k, r)
      && (outcome == Some(CleanUpFailed) <==> LeftAt(old(fs.files), WritesWith(existing, entry), k, r, u))
    ensures outcome.Some? && !Stops(stop, 3) && outcome != Some(CleanUpFailed) ==>
      && fs.files == PublishedFiles(old(fs.files), WritesWith(existing, entry), k, r)
      && outcome == Some(if k >= 3 then Published else if r >= 3 then RolledBack else RollbackFailed)
    ensures outcome.Some? && DirectoryCoherent(old(fs.files)) ==>
      WritesWith(existing, entry) == Writes(old(fs.files), entry)
  {
    existing := [];
    entry := BuildSubsystemDashboard(audit, open, ci);
    var loaded := LoadExisting(fs.files, entry.subsystem);
    if loaded.None? {
      return entry, existing, None;
    }
    existing := loaded.value;
    if DirectoryCoherent(fs.files) {
      ExistingIsOthers(fs.files, entry, loaded.value);
    }
    var writes := WritesWith(loaded.value, entry);
    var published := fs.WriteArtifactsAtomic(writes, stop, k, r, u);
    outcome := Some(published);
  }

  lemma ExistingIsOthers(files: Files, entry: Entry, existing: seq<Entry>)
    requires DirectoryCoherent(files) && Distinct(existing)
    requires LoadsOthers(existing, files, entry.subsystem)
    ensures BuildEstateDashboard(existing + [entry], entry.generatedAt) ==
      BuildEstateDashboard(Others(files, entry.subsystem) + [entry], entry.generatedAt)
  {
    var others := Others(files, entry.subsystem);
    forall e
      ensures e in existing <==> e in others
    {
    }
    OthersNamed(files, entry);
    DashboardUnique(others + [entry], existing + [entry], entry.generatedAt);
  }

  lemma OthersNamed(files: Files, entry: Entry)
    requires DirectoryCoherent(files)
    ensures entry !in Others(files, entry.subsystem)
    ensures Distinct(Others(files, entry.subsystem) + [entry]) && UniqueNames(Others(files, entry.subsystem) + [entry])
  {
    var others := Others(files, entry.subsystem);
    forall e
      ensures e in others ==> e.subsystem != entry.subsystem && SubsystemPath(e.subsystem) in files
                              && files[SubsystemPath(e.subsystem)] == SubsystemFile(e)
    {
      OthersMembers(files, entry.subsystem, e);
    }
    assert entry !in others;
    var s := others + [entry];
    forall e, f | e in s && f in s && e.subsystem == f.subsystem
      ensures e == f
    {
      assert e == entry || e in others;
      assert f == entry || f in others;
    }
  }
}
