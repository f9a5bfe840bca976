/** What the Control Tower files keep over runs of writes: the directory, the dashboard
    that lists it, and what its summary counts. */
module ControlTowerLaws {
  import opened Ordering
  import opened Findings
  import opened Publication
  import opened ControlTower

  /** Every subsystem is counted under exactly one status. */
  lemma {:induction false} StatusesPartition(entries: seq<Entry>)
    ensures Sum(entries, IsHealthy) + Sum(entries, IsMonitor) + Sum(entries, IsAttention) == |entries|
  {
    if entries != [] {
      StatusesPartition(entries[1..]);
    }
  }

  /** `s` lists exactly the entries in the directory, in name order. */
  ghost predicate Lists(s: seq<Entry>, files: Files) {
    && (forall i, j :: 0 <= i < j < |s| ==> StrLess(s[i].subsystem, s[j].subsystem))
    && forall e :: e in s <==> PlainName(e.subsystem) && SubsystemPath(e.subsystem) in files
                               && files[SubsystemPath(e.subsystem)] == SubsystemFile(e)
  }

  // ---- what the summary counts

  ghost function Subsystems(files: Files): set<Path> {
    set p | p in files && InSubsystemsDir(p) && files[p].SubsystemFile?
  }

  ghost function Graded(files: Files, status: Health): set<Path> {
    set p | p in Subsystems(files) && files[p].entry.status == status
  }

  /** One element for each open finding that some subsystem file counts, and so on. */
  ghost function OpenUnits(files: Files): set<(Path, nat)> {
    set p, i: nat | p in Subsystems(files) && i < files[p].entry.openFindings :: (p, i)
  }

  ghost function HighUnits(files: Files): set<(Path, nat)> {
    set p, i: nat | p in Subsystems(files) && i < files[p].entry.highSeverity :: (p, i)
  }

  ghost function WarningUnits(files: Files): set<(Path, nat)> {
    set p, i: nat | p in Subsystems(files) && i < files[p].entry.warnings :: (p, i)
  }

  /** The summary counts the subsystem files, under each status, and what they count. */
  ghost predicate Tallies(files: Files, summary: Summary) {
    && summary.subsystems == |Subsystems(files)|
    && summary.healthy == |Graded(files, Healthy)|
    && summary.monitor == |Graded(files, Monitor)|
    && summary.attentionRequired == |Graded(files, AttentionRequired)|
    && summary.openFindings == |OpenUnits(files)|
    && summary.highSeverity == |HighUnits(files)|
    && summary.warnings == |WarningUnits(files)|
  }

  /** The dashboard on disk lists the subsystem files by name, and tallies them. */
  ghost predicate EstateAgrees(files: Files) {
    Named(ESTATE_FILE) in files ==>
      && files[Named(ESTATE_FILE)].EstateFile?
      && var d := files[Named(ESTATE_FILE)].dashboard;
         && Lists(d.subsystems, files)
         && Tallies(files, d.summary)
         && d.summary.healthy + d.summary.monitor + d.summary.attentionRequired == d.summary.subsystems
  }

  /** One element for each unit of `f` in the entries of `s`. */
  ghost function UnitsOf(s: seq<Entry>, f: Entry -> int): set<(Path, nat)> {
    set e, i: nat | e in s && i < f(e) :: (SubsystemPath(e.subsystem), i)
  }

  ghost function Column(p: Path, n: nat): (c: set<(Path, nat)>)
    ensures |c| == n && forall u :: u in c <==> u.0 == p && u.1 < n
  {
    if n == 0 then {} else Column(p, n - 1) + {(p, n - 1)}
  }

  ghost predicate PlainlyNamed(s: seq<Entry>) {
    && (forall e :: e in s ==> PlainName(e.subsystem))
    && forall i, j :: 0 <= i < j < |s| ==> s[i].subsystem != s[j].subsystem
  }

  lemma PathsDiffer(s: string, t: string)
    requires PlainName(s) && PlainName(t)
    ensures SubsystemPath(s) == SubsystemPath(t) ==> s == t
  {
    PathsAndStems(s);
    PathsAndStems(t);
  }

  lemma FirstApart(s: seq<Entry>)
    requires s != [] && PlainlyNamed(s)
    ensures PlainlyNamed(s[1..])
    ensures forall e :: e in s[1..] ==> SubsystemPath(e.subsystem) != SubsystemPath(s[0].subsystem)
  {
    var rest := s[1..];
    assert forall e :: e in rest ==> e in s;
    forall e | e in rest
      ensures SubsystemPath(e.subsystem) != SubsystemPath(s[0].subsystem)
    {
      var k :| 0 <= k < |rest| && rest[k] == e;
      assert s[k + 1] == e && s[0] in s;
      PathsDiffer(e.subsystem, s[0].subsystem);
    }
  }

  lemma {:induction false} SumIsUnits(s: seq<Entry>, f: Entry -> int)
    requires PlainlyNamed(s) && forall e :: f(e) >= 0
    ensures Sum(s, f) == |UnitsOf(s, f)|
  {
    if s == [] {
      assert UnitsOf(s, f) == {};
    } else {
      var rest, column := s[1..], Column(SubsystemPath(s[0].subsystem), f(s[0]));
      FirstApart(s);
      SumIsUnits(rest, f);
      UnitsSplit(s, f, column);
    }
  }

  lemma UnitsSplit(s: seq<Entry>, f: Entry -> int, column: set<(Path, nat)>)
    requires s != [] && f(s[0]) >= 0
    requires forall u :: u in column <==> u.0 == SubsystemPath(s[0].subsystem) && u.1 < f(s[0])
    requires forall e :: e in s[1..] ==> SubsystemPath(e.subsystem) != SubsystemPath(s[0].subsystem)
    ensures |UnitsOf(s, f)| == |UnitsOf(s[1..], f)| + |column|
  {
    var rest := s[1..];
    assert forall e :: e in s <==> e == s[0] || e in rest;
    forall u
      ensures u in UnitsOf(s, f) <==> u in UnitsOf(rest, f) || u in column
    {
      if u in UnitsOf(s, f) {
        var e :| e in s && u.1 < f(e) && u.0 == SubsystemPath(e.subsystem);
        assert e == s[0] || e in rest;
      }
    }
    assert UnitsOf(s, f) == UnitsOf(rest, f) + column;
    assert UnitsOf(rest, f) !! column;
  }

  // ---- the sums are those counts

  lemma ListedPaths(files: Files, s: seq<Entry>, p: Path)
    requires DirectoryCoherent(files) && Lists(s, files)
    ensures p in Subsystems(files) ==> files[p].entry in s && SubsystemPath(files[p].entry.subsystem) == p
    ensures forall e :: e in s && SubsystemPath(e.subsystem) == p ==> p in Subsystems(files) && files[p].entry == e
  {
    if p in Subsystems(files) {
      StemsAndPaths(p);
    }
    forall e | e in s && SubsystemPath(e.subsystem) == p
      ensures p in Subsystems(files) && files[p].entry == e
    {
      PathsAndStems(e.subsystem);
    }
  }

  lemma ListsPlainly(files: Files, s: seq<Entry>)
    requires Lists(s, files)
    ensures PlainlyNamed(s)
  {
    forall i, j | 0 <= i < j < |s|
      ensures s[i].subsystem != s[j].subsystem
    {
      StrLessTrichotomy(s[i].subsystem, s[j].subsystem);
    }
  }

  lemma SumTallies(files: Files, s: seq<Entry>, f: Entry -> int, units: set<(Path, nat)>)
    requires DirectoryCoherent(files) && Lists(s, files) && forall e :: f(e) >= 0
    requires forall u :: u in units <==> u.0 in Subsystems(files) && u.1 < f(files[u.0].entry)
    ensures Sum(s, f) == |units|
  {
    ListsPlainly(files, s);
    SumIsUnits(s, f);
    forall u
      ensures u in units <==> u in UnitsOf(s, f)
    {
      ListedPaths(files, s, u.0);
    }
    assert units == UnitsOf(s, f);
  }

  lemma {:induction false} Singles(paths: set<Path>, units: set<(Path, nat)>)
    requires forall u :: u in units <==> u.0 in paths && u.1 < 1
    ensures |units| == |paths|
  {
    if paths == {} {
      assert units == {};
    } else {
      var p :| p in paths;
      Singles(paths - {p}, units - {(p, 0)});
    }
  }

  /** The paths of a status, as units. */
  ghost function GradedUnits(files: Files, status: Health): set<(Path, nat)> {
    set p | p in Graded(files, status) :: (p, 0)
  }

  lemma GradedTallies(files: Files, s: seq<Entry>, status: Health, f: Entry -> int)
    requires DirectoryCoherent(files) && Lists(s, files)
    requires forall e :: f(e) == if e.status == status then 1 else 0
    ensures Sum(s, f) == |Graded(files, status)|
  {
    var units := GradedUnits(files, status);
    SumTallies(files, s, f, units);
    Singles(Graded(files, status), units);
  }

  lemma ThreeParts<T>(all: set<T>, a: set<T>, b: set<T>, c: set<T>)
    requires all == a + b + c && a !! b && a + b !! c
    ensures |all| == |a| + |b| + |c|
  {
  }

  lemma GradesPartition(files: Files)
    ensures |Subsystems(files)|
         == |Graded(files, Healthy)| + |Graded(files, Monitor)| + |Graded(files, AttentionRequired)|
  {
    var all, a, b, c := Subsystems(files), Graded(files, Healthy), Graded(files, Monitor),
                        Graded(files, AttentionRequired);
    forall p
      ensures p in all <==> p in a || p in b || p in c
      ensures !(p in a && p in b) && !(p in a && p in c) && !(p in b && p in c)
    {
    }
    ThreeParts(all, a, b, c);
  }

  lemma ListTallies(files: Files, s: seq<Entry>)
    requires DirectoryCoherent(files) && Lists(s, files)
    ensures Tallies(files, Summarise(s))
  {
    GradedTallies(files, s, Healthy, IsHealthy);
    GradedTallies(files, s, Monitor, IsMonitor);
    GradedTallies(files, s, AttentionRequired, IsAttention);
    StatusesPartition(s);
    GradesPartition(files);
    SumTallies(files, s, OpenFindings, OpenUnits(files));
    SumTallies(files, s, HighFindings, HighUnits(files));
    SumTallies(files, s, Warnings, WarningUnits(files));
  }

  ghost predicate Coherent(files: Files) {
    DirectoryCoherent(files) && EstateAgrees(files)
  }

  /** A write and the course its publication takes. */
  datatype Update = Update(entry: Entry, course: Course<Artifact>)

  ghost predicate Publishes(update: Update) {
    update.course.Replacing? && update.course.fault >= 3
  }

  ghost function After(files: Files, update: Update): Files {
    Follow(files, Writes(files, update.entry), update.course)
  }

  ghost function RunUpdates(files: Files, updates: seq<Update>): Files {
    if updates == [] then files else After(RunUpdates(files, updates[..|updates| - 1]), updates[|updates| - 1])
  }

  lemma AppliedWrites(files: Files, entry: Entry)
    ensures
      var w := Writes(files, entry);
      Applied(files, w) ==
      files[Named(SURFACE_FILE) := w[0].content]
           [SubsystemPath(entry.subsystem) := w[1].content]
           [Named(ESTATE_FILE) := w[2].content]
  {
    var w := Writes(files, entry);
    var one, two := [w[0]], [w[0], w[1]];
    assert w[..2] == two && two[..1] == one && one[..0] == [];
    assert Applied(files, one) == files[Named(SURFACE_FILE) := w[0].content];
    assert Applied(files, two) == Applied(files, one)[SubsystemPath(entry.subsystem) := w[1].content];
  }

  /** `f'` is `files` with the entry's file written, and perhaps the other two. */
  ghost predicate WithEntry(files: Files, entry: Entry, f': Files) {
    && (forall p :: p in files ==> p in f')
    && (forall p ::
          p in f' && p != Named(SURFACE_FILE) && p != Named(ESTATE_FILE) && p != SubsystemPath(entry.subsystem) ==>
          p in files && f'[p] == files[p])
    && SubsystemPath(entry.subsystem) in f' && f'[SubsystemPath(entry.subsystem)] == SubsystemFile(entry)
  }

  lemma SortedByName(s: seq<Entry>)
    requires Ordered(s, EntryLe) && Distinct(s) && UniqueNames(s)
    ensures forall i, j :: 0 <= i < j < |s| ==> StrLess(s[i].subsystem, s[j].subsystem)
  {
    forall i, j | 0 <= i < j < |s|
      ensures StrLess(s[i].subsystem, s[j].subsystem)
    {
      assert EntryLe(s[i], s[j]) && s[i] in s && s[j] in s;
    }
  }

  lemma UpdateKeepsDirectory(files: Files, entry: Entry, f': Files)
    requires DirectoryCoherent(files) && PlainName(entry.subsystem) && WithEntry(files, entry, f')
    ensures DirectoryCoherent(f')
    ensures Lists(Sort(Others(files, entry.subsystem) + [entry], EntryLe), f')
  {
    OtherFilesOutside();
    PathsAndStems(entry.subsystem);
    var s := Others(files, entry.subsystem) + [entry];
    OthersNamed(files, entry);
    DashboardUnique(s, s, entry.generatedAt);
    SortedByName(Sort(s, EntryLe));
    forall e
      ensures e in s <==> PlainName(e.subsystem) && SubsystemPath(e.subsystem) in f'
                          && f'[SubsystemPath(e.subsystem)] == SubsystemFile(e)
    {
      EntryListed(files, entry, f', e);
    }
  }

  lemma EntryListed(files: Files, entry: Entry, f': Files, e: Entry)
    requires DirectoryCoherent(files) && PlainName(entry.subsystem) && WithEntry(files, entry, f')
    ensures e in Others(files, entry.subsystem) + [entry] <==>
              PlainName(e.subsystem) && SubsystemPath(e.subsystem) in f'
              && f'[SubsystemPath(e.subsystem)] == SubsystemFile(e)
  {
    OtherFilesOutside();
    PathsAndStems(entry.subsystem);
    OthersMembers(files, entry.subsystem, e);
    if PlainName(e.subsystem) {
      PathsAndStems(e.subsystem);
    }
  }

  /** Coherence is about named files only. */
  lemma NamedDecide(f: Files, g: Files)
    requires forall name :: AgreeAt(f, g, Named(name))
    requires Coherent(g)
    ensures Coherent(f)
  {
    forall p | p in f && InSubsystemsDir(p)
      ensures f[p].SubsystemFile? && f[p].entry.subsystem == Stem(p)
    {
      assert AgreeAt(f, g, Named(p.name));
    }
    if Named(ESTATE_FILE) in f {
      assert AgreeAt(f, g, Named(ESTATE_FILE));
      NamedList(f, g, g[Named(ESTATE_FILE)].dashboard.subsystems);
      NamedTallies(f, g, g[Named(ESTATE_FILE)].dashboard.summary);
    }
  }

  lemma NamedTallies(f: Files, g: Files, summary: Summary)
    requires forall name :: AgreeAt(f, g, Named(name))
    requires Tallies(g, summary)
    ensures Tallies(f, summary)
  {
    forall p
      ensures p in Subsystems(f) <==> p in Subsystems(g)
      ensures p in Subsystems(f) ==> f[p] == g[p]
    {
      if p.Named? {
        assert AgreeAt(f, g, Named(p.name));
      }
    }
    assert Subsystems(f) == Subsystems(g);
    assert forall status :: Graded(f, status) == Graded(g, status);
    assert OpenUnits(f) == OpenUnits(g) && HighUnits(f) == HighUnits(g) && WarningUnits(f) == WarningUnits(g);
  }

  lemma NamedList(f: Files, g: Files, s: seq<Entry>)
    requires forall name :: AgreeAt(f, g, Named(name))
    requires Lists(s, g)
    ensures Lists(s, f)
  {
    forall e: Entry
      ensures AgreeAt(f, g, SubsystemPath(e.subsystem))
    {
    }
  }

  lemma UpdateKeepsCoherence(files: Files, update: Update)
    requires Coherent(files) && PlainName(update.entry.subsystem)
    ensures Coherent(After(files, update))
    ensures !Publishes(update) ==> forall name :: AgreeAt(After(files, update), files, Named(name))
    ensures Publishes(update) ==> Named(ESTATE_FILE) in After(files, update)
  {
    if Publishes(update) {
      PublishedCoherent(files, update);
    } else {
      UnfinishedKeepsNamed(files, Writes(files, update.entry), update.course);
      NamedDecide(After(files, update), files);
    }
  }

  lemma PublishedCoherent(files: Files, update: Update)
    requires Coherent(files) && PlainName(update.entry.subsystem) && Publishes(update)
    ensures Coherent(After(files, update)) && Named(ESTATE_FILE) in After(files, update)
  {
    var w := Writes(files, update.entry);
    AppliedCoherent(files, update.entry);
    FinishedAppliesNamed(files, w, update.course);
    NamedDecide(After(files, update), Applied(files, w));
    assert AgreeAt(After(files, update), Applied(files, w), Named(ESTATE_FILE));
  }

  lemma AppliedCoherent(files: Files, entry: Entry)
    requires Coherent(files) && PlainName(entry.subsystem)
    ensures Coherent(Applied(files, Writes(files, entry))) && Named(ESTATE_FILE) in Applied(files, Writes(files, entry))
  {
    AppliedWrites(files, entry);
    OtherFilesOutside();
    PathsAndStems(entry.subsystem);
    var listed := Sort(Others(files, entry.subsystem) + [entry], EntryLe);
    UpdateKeepsDirectory(files, entry, Applied(files, Writes(files, entry)));
    ListTallies(Applied(files, Writes(files, entry)), listed);
    StatusesPartition(listed);
  }

  /** Over every run of writes from a coherent start, stopped and rolled-back ones
      included, the estate dashboard lists exactly the subsystem files in name order;
      its summary counts them, those of each status, and the findings and warnings
      they count; and the three statuses add up to the number of subsystems. */
  lemma {:induction false} UpdatesKeepCoherence(files: Files, updates: seq<Update>)
    requires Coherent(files) && forall i :: 0 <= i < |updates| ==> PlainName(updates[i].entry.subsystem)
    ensures Coherent(RunUpdates(files, updates))
  {
    if updates != [] {
      var rest, last := updates[..|updates| - 1], updates[|updates| - 1];
      UpdatesKeepCoherence(files, rest);
      UpdateKeepsCoherence(RunUpdates(files, rest), last);
    }
  }

  ghost predicate EverPublishes(updates: seq<Update>) {
    updates != [] && (Publishes(updates[|updates| - 1]) || EverPublishes(updates[..|updates| - 1]))
  }

  /** And once some write has gone through there is a dashboard. */
  lemma {:induction false} DashboardStays(files: Files, updates: seq<Update>)
    requires Coherent(files) && forall i :: 0 <= i < |updates| ==> PlainName(updates[i].entry.subsystem)
    requires EverPublishes(updates)
    ensures Named(ESTATE_FILE) in RunUpdates(files, updates)
  {
    var rest, last := updates[..|updates| - 1], updates[|updates| - 1];
    UpdatesKeepCoherence(files, rest);
    UpdateKeepsCoherence(RunUpdates(files, rest), last);
    if !Publishes(last) {
      DashboardStays(files, rest);
      assert AgreeAt(RunUpdates(files, updates), RunUpdates(files, rest), Named(ESTATE_FILE));
    }
  }

  // ---- how the summary moves

  lemma ColumnAside(units: set<(Path, nat)>, rest: set<(Path, nat)>, p: Path, n: nat)
    requires forall u :: u in rest <==> u in units && u.0 != p
    requires forall i: nat :: (p, i) in units <==> i < n
    ensures |units| == |rest| + n
  {
    var column := Column(p, n);
    forall u
      ensures u in units <==> u in rest + column
    {
      assert u == (u.0, u.1);
    }
    assert units == rest + column && rest !! column;
  }

  lemma UnitsMove(before: set<(Path, nat)>, after: set<(Path, nat)>, p: Path, m: nat, n: nat)
    requires forall u: (Path, nat) :: u.0 != p ==> (u in before <==> u in after)
    requires forall i: nat :: ((p, i) in before <==> i < m) && ((p, i) in after <==> i < n)
    ensures |after| == |before| - m + n
  {
    var rest := set u | u in before && u.0 != p;
    ColumnAside(before, rest, p, m);
    ColumnAside(after, rest, p, n);
  }

  /** What a subsystem file counts, if it is there. */
  function OpenIn(files: Files, p: Path): nat {
    if p in files && files[p].SubsystemFile? then files[p].entry.openFindings else 0
  }

  function HighIn(files: Files, p: Path): nat {
    if p in files && files[p].SubsystemFile? then files[p].entry.highSeverity else 0
  }

  function WarningsIn(files: Files, p: Path): nat {
    if p in files && files[p].SubsystemFile? then files[p].entry.warnings else 0
  }

  /** The totals of an empty directory are zero, and when one subsystem file is added
      or replaced they move by what it counted before and counts now. */
  lemma TotalsMove(f: Files, g: Files, p: Path, before: Summary, after: Summary)
    requires Tallies(f, before) && Tallies(g, after) && InSubsystemsDir(p) && p in Subsystems(g)
    requires forall q :: q != p ==>
      (q in Subsystems(f) <==> q in Subsystems(g)) && (q in Subsystems(f) ==> f[q] == g[q])
    ensures Subsystems(f) == {} ==> before == Summary(0, 0, 0, 0, 0, 0, 0)
    ensures after.openFindings == before.openFindings - OpenIn(f, p) + OpenIn(g, p)
    ensures after.highSeverity == before.highSeverity - HighIn(f, p) + HighIn(g, p)
    ensures after.warnings == before.warnings - WarningsIn(f, p) + WarningsIn(g, p)
  {
    UnitsMove(OpenUnits(f), OpenUnits(g), p, OpenIn(f, p), OpenIn(g, p));
    UnitsMove(HighUnits(f), HighUnits(g), p, HighIn(f, p), HighIn(g, p));
    UnitsMove(WarningUnits(f), WarningUnits(g), p, WarningsIn(f, p), WarningsIn(g, p));
    if Subsystems(f) == {} {
      assert OpenUnits(f) == {} && HighUnits(f) == {} && WarningUnits(f) == {};
      assert forall status :: Graded(f, status) == {};
    }
  }

  // ---- what a run leaves

  /** The entry of the last write of the run that went through. */
  function LastWrite(updates: seq<Update>): Option<Entry> {
    if updates == [] then None
    else
      var last := updates[|updates| - 1];
      if last.course.Replacing? && last.course.fault >= 3 then Some(last.entry)
      else LastWrite(updates[..|updates| - 1])
  }

  /** And of the last such write for one subsystem. */
  function LastFor(updates: seq<Update>, subsystem: string): Option<Entry> {
    if updates == [] then None
    else
      var last := updates[|updates| - 1];
      if last.course.Replacing? && last.course.fault >= 3 && last.entry.subsystem == subsystem then Some(last.entry)
      else LastFor(updates[..|updates| - 1], subsystem)
  }

  function FileOf(subsystem: string): Path {
    Named("control-tower/subsystems/" + subsystem + ".json")
  }

  ghost predicate StampedBy(files: Files, e: Entry) {
    var surface, estate := Named("control-tower/surface.json"), Named("control-tower/estate-dashboard.json");
    && surface in files && files[surface] == SurfaceFile(e.generatedAt)
    && estate in files && files[estate].EstateFile? && files[estate].dashboard.generatedAt == e.generatedAt
  }

  lemma UpdateLeaves(files: Files, update: Update, subsystem: string)
    requires PlainName(update.entry.subsystem) && PlainName(subsystem)
    ensures
      var files', p := After(files, update), FileOf(subsystem);
      if update.course.Replacing? && update.course.fault >= 3 then
        && StampedBy(files', update.entry)
        && (if update.entry.subsystem == subsystem then p in files' && files'[p] == SubsystemFile(update.entry)
            else AgreeAt(files', files, p))
      else forall name :: AgreeAt(files', files, Named(name))
  {
    var w := Writes(files, update.entry);
    if update.course.Replacing? && update.course.fault >= 3 {
      FinishedAppliesNamed(files, w, update.course);
      AppliedWrites(files, update.entry);
      OtherFilesOutside();
      PathsAndStems(update.entry.subsystem);
      PathsAndStems(subsystem);
      assert AgreeAt(After(files, update), Applied(files, w), Named(SURFACE_FILE));
      assert AgreeAt(After(files, update), Applied(files, w), Named(ESTATE_FILE));
      assert AgreeAt(After(files, update), Applied(files, w), FileOf(subsystem));
    } else {
      UnfinishedKeepsNamed(files, w, update.course);
    }
  }

  /** After every run each subsystem's file is the last entry written for it, and
      surface and dashboard carry the stamp of the last write; what no write of the
      run went through for is as it was. */
  lemma {:induction false} RunLeaves(files: Files, updates: seq<Update>, subsystem: string)
    requires forall i :: 0 <= i < |updates| ==> PlainName(updates[i].entry.subsystem)
    requires PlainName(subsystem)
    ensures LastWrite(updates).None? ==> forall name :: AgreeAt(RunUpdates(files, updates), files, Named(name))
    ensures LastWrite(updates).Some? ==> StampedBy(RunUpdates(files, updates), LastWrite(updates).value)
    ensures
      var files', p := RunUpdates(files, updates), FileOf(subsystem);
      match LastFor(updates, subsystem)
      case Some(e) => p in files' && files'[p] == SubsystemFile(e)
      case None => AgreeAt(files', files, p)
  {
    if updates != [] {
      var front, last := updates[..|updates| - 1], updates[|updates| - 1];
      var before := RunUpdates(files, front);
      RunLeaves(files, front, subsystem);
      UpdateLeaves(before, last, subsystem);
      assert last.entry.subsystem == updates[|updates| - 1].entry.subsystem;
      if !(last.course.Replacing? && last.course.fault >= 3) {
        KeptThrough(files, before, After(before, last), subsystem);
      }
    }
  }

  lemma KeptThrough(start: Files, before: Files, after: Files, subsystem: string)
    requires forall name :: AgreeAt(after, before, Named(name))
    ensures (forall name :: AgreeAt(before, start, Named(name))) ==> forall name :: AgreeAt(after, start, Named(name))
    ensures AgreeAt(after, before, FileOf(subsystem))
    ensures forall e :: StampedBy(before, e) ==> StampedBy(after, e)
  {
    assert AgreeAt(after, before, Named("control-tower/surface.json"));
    assert AgreeAt(after, before, Named("control-tower/estate-dashboard.json"));
  }

  // ---- an interrupted rollback

  /** Surface, subsystem file and dashboard are replaced in this order, and restored in
      it: an interrupted rollback can leave the first two new, never the dashboard. */
  lemma InterruptedUpdate(files: Files, entry: Entry, k: nat, r: nat)
    requires PlainName(entry.subsystem) && k < 3
    ensures
      var out := PublishedFiles(files, Writes(files, entry), k, r);
      var surface, own := Named("control-tower/surface.json"), FileOf(entry.subsystem);
      && (if r == 0 && k > 0 then surface in out && out[surface] == SurfaceFile(entry.generatedAt)
          else AgreeAt(out, files, surface))
      && (if r <= 1 && k > 1 then own in out && out[own] == SubsystemFile(entry) else AgreeAt(out, files, own))
      && AgreeAt(out, files, Named("control-tower/estate-dashboard.json"))
  {
    OtherFilesOutside();
    PathsAndStems(entry.subsystem);
    FailedAt(files, Writes(files, entry), k, r, 0);
    FailedAt(files, Writes(files, entry), k, r, 1);
    FailedAt(files, Writes(files, entry), k, r, 2);
  }
}
