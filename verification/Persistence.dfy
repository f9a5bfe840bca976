/** The findings stores on disk: load, reconcile, publish the pair. */
module Persistence {
  import opened Ordering
  import opened Findings
  import opened FindingsLaws
  import opened Publication

  const OPEN_FILE := "open-findings.json"
  const HISTORY_FILE := "findings-history.json"

  type Files = map<Path, Store>

  /** Loading sorts; a missing file reads as an empty store. */
  function Load(files: Files, name: string, generatedAt: string, version: string): Store {
    if Named(name) in files then
      var store := files[Named(name)];
      store.(findings := Sort(store.findings, FindingLe))
    else Store(version, generatedAt, [])
  }

  function LoadHistory(files: Files, audit: Audit): Store {
    Load(files, HISTORY_FILE, audit.generatedAt, DEFAULT_STORE_VERSION)
  }

  function LoadOpen(files: Files, audit: Audit): Store {
    Load(files, OPEN_FILE, audit.generatedAt, LoadHistory(files, audit).version)
  }

  ghost function PersistResult(files: Files, audit: Audit): Result<Stores, Fault> {
    Reconcile(audit, Some(LoadOpen(files, audit)), Some(LoadHistory(files, audit)))
  }

  function PairWrites(s: Stores): seq<Write<Store>> {
    [Write(OPEN_FILE, s.open), Write(HISTORY_FILE, s.history)]
  }

  ghost function PersistedFiles(files: Files, audit: Audit, course: Course<Store>): Files {
    match PersistResult(files, audit)
    case Failure(_) => files
    case Success(s) => Follow(files, PairWrites(s), course)
  }

  /** A refused audit has no outcome: nothing is staged or written. */
  method PersistAuditFindings(fs: FileSystem<Store>, audit: Audit, stop: Stop<Store>, k: nat, r: nat, u: nat)
    returns (result: Result<Stores, Fault>, outcome: Option<Outcome>)
    requires fs.Valid()
    modifies fs
    ensures fs.Valid()
    ensures result == PersistResult(old(fs.files), audit) && (outcome.None? <==> result.Failure?)
    ensures result.Failure? ==> fs.files == old(fs.files)
    ensures result.Success? && Stops(stop, 2) ==>
      outcome == Some(StagingFailed) && Outside(fs.files, old(fs.unused)) == old(fs.files)
    ensures result.Success? && !Stops(stop, 2) ==>
      && Outside(fs.files, old(fs.unused)) == PublishedFiles(old(fs.files), PairWrites(result.value), k, r)
      && (outcome == Some(CleanUpFailed) <==> LeftAt(old(fs.files), PairWrites(result.value), k, r, u))
    ensures result.Success? && !Stops(stop, 2) && outcome != Some(CleanUpFailed) ==>
      && fs.files == PublishedFiles(old(fs.files), PairWrites(result.value), k, r)
      && outcome == Some(if k >= 2 then Published else if r >= 2 then RolledBack else RollbackFailed)
  {
    var history := LoadHistory(fs.files, audit);
    var open := LoadOpen(fs.files, audit);
    result := ReconcileFindings(audit, Some(open), Some(history));
    outcome := None;
    if result.Success? {
      var open', history' := Write(OPEN_FILE, result.value.open), Write(HISTORY_FILE, result.value.history);
      var published := fs.WritePair(open', history', stop, k, r, u);
      outcome := Some(published);
    }
  }

  // ---- what the files keep

  ghost predicate PairOnDisk(files: Files, s: Stores) {
    && Named(OPEN_FILE) in files && files[Named(OPEN_FILE)] == s.open
    && Named(HISTORY_FILE) in files && files[Named(HISTORY_FILE)] == s.history
  }

  /** No stores yet, or a coherent pair. */
  ghost predicate FilesCoherent(files: Files) {
    || (Named(OPEN_FILE) !in files && Named(HISTORY_FILE) !in files)
    || (exists s :: PairOnDisk(files, s) && Coherent(s))
  }

  ghost function FilesTable(files: Files): map<string, Finding> {
    if Named(HISTORY_FILE) in files then IndexOf(files[Named(HISTORY_FILE)].findings) else map[]
  }

  lemma {:induction false} SortOfOrdered<T>(s: seq<T>, le: (T, T) -> bool)
    requires Ordered(s, le)
    ensures Sort(s, le) == s
  {
    if s != [] {
      SortOfOrdered(s[1..], le);
      assert s == [s[0]] + s[1..];
    }
  }

  lemma {:induction false} OpenSliceOrdered(s: seq<Finding>)
    requires Ordered(s, FindingLe)
    ensures Ordered(OpenSlice(s), FindingLe)
  {
    if s != [] {
      OpenSliceOrdered(s[1..]);
      OpenSliceElements(s[1..]);
      var rest := OpenSlice(s[1..]);
      forall j | 0 <= j < |rest|
        ensures FindingLe(s[0], rest[j])
      {
        assert rest[j] in s[1..];
      }
    }
  }

  /** Loading a coherent pair gives back the pair that was written. */
  lemma LoadRoundTrip(files: Files, audit: Audit, s: Stores)
    requires PairOnDisk(files, s) && Coherent(s)
    ensures LoadOpen(files, audit) == s.open && LoadHistory(files, audit) == s.history
  {
    SortOfOrdered(s.history.findings, FindingLe);
    OpenSliceOrdered(s.history.findings);
    SortOfOrdered(s.open.findings, FindingLe);
  }

  lemma PairApplied(files: Files, s: Stores)
    ensures Applied(files, PairWrites(s)) == files[Named(OPEN_FILE) := s.open][Named(HISTORY_FILE) := s.history]
  {
    var w := PairWrites(s);
    var first := [w[0]];
    assert w[..1] == first && first[..0] == [];
    assert Applied(files, first) == files[Named(OPEN_FILE) := s.open];
  }

  lemma PersistOnPair(files: Files, audit: Audit, s: Stores)
    requires PairOnDisk(files, s) && Coherent(s)
    ensures PersistResult(files, audit) == Reconcile(audit, Some(s.open), Some(s.history))
  {
    LoadRoundTrip(files, audit, s);
  }

  lemma PersistResultCoherent(files: Files, audit: Audit)
    requires PersistResult(files, audit).Success?
    ensures Coherent(PersistResult(files, audit).value)
  {
    var open, history := Some(LoadOpen(files, audit)), Some(LoadHistory(files, audit));
    ReconcileExact(audit, open, history);
    ReconcileTable(audit, open, history);
  }

  const COMPLETED: Course<Store> := Replacing(2, map[])

  lemma PersistedPair(files: Files, audit: Audit, course: Course<Store>, s: Stores)
    requires PersistResult(files, audit) == Success(s) && Completes(PairWrites(s), course)
    ensures PairOnDisk(PersistedFiles(files, audit, course), s)
    ensures PersistedFiles(files, audit, course)
         == files[Named(OPEN_FILE) := s.open][Named(HISTORY_FILE) := s.history] + Unnamed(course.left)
  {
    PairApplied(files, s);
  }

  ghost predicate SamePair(f: Files, g: Files) {
    AgreeAt(f, g, Named(OPEN_FILE)) && AgreeAt(f, g, Named(HISTORY_FILE))
  }

  lemma SamePairKeeps(f: Files, g: Files)
    requires SamePair(f, g) && FilesCoherent(g)
    ensures FilesCoherent(f) && SameIdentities(FilesTable(g), FilesTable(f))
  {
    if s :| PairOnDisk(g, s) && Coherent(s) {
      assert PairOnDisk(f, s);
    }
  }

  lemma PersistKeeps(files: Files, audit: Audit, course: Course<Store>)
    requires FilesCoherent(files)
    ensures FilesCoherent(PersistedFiles(files, audit, course))
    ensures SameIdentities(FilesTable(files), FilesTable(PersistedFiles(files, audit, course)))
  {
    if PersistResult(files, audit).Success? {
      var s := PersistResult(files, audit).value;
      if Completes(PairWrites(s), course) {
        PersistResultCoherent(files, audit);
        PersistedPair(files, audit, course, s);
        if Named(HISTORY_FILE) in files {
          var was :| PairOnDisk(files, was) && Coherent(was);
          PersistOnPair(files, audit, was);
          StepKeeps(was, audit);
        }
      } else {
        UnfinishedKeepsNamed(files, PairWrites(s), course);
        SamePairKeeps(PersistedFiles(files, audit, course), files);
      }
    }
  }

  /** One attempt: the audit and the course its publication takes. */
  datatype Attempt = Attempt(audit: Audit, course: Course<Store>)

  ghost function RunAttempts(files: Files, attempts: seq<Attempt>): Files {
    if attempts == [] then files
    else
      var last := attempts[|attempts| - 1];
      PersistedFiles(RunAttempts(files, attempts[..|attempts| - 1]), last.audit, last.course)
  }

  /** Over every run of persisted audits, refused, stopped and rolled-back ones
      included, the two files on disk stay a coherent pair and no finding loses its
      identity. */
  lemma {:induction false} AttemptsKeep(files: Files, attempts: seq<Attempt>)
    requires FilesCoherent(files)
    ensures FilesCoherent(RunAttempts(files, attempts))
    ensures SameIdentities(FilesTable(files), FilesTable(RunAttempts(files, attempts)))
  {
    if attempts != [] {
      var last := attempts[|attempts| - 1];
      AttemptsKeep(files, attempts[..|attempts| - 1]);
      PersistKeeps(RunAttempts(files, attempts[..|attempts| - 1]), last.audit, last.course);
    }
  }

  lemma CompletedPair(files: Files, audit: Audit, s: Stores)
    requires PersistResult(files, audit) == Success(s)
    ensures PersistedFiles(files, audit, COMPLETED)
         == files[Named(OPEN_FILE) := s.open][Named(HISTORY_FILE) := s.history]
  {
    PersistedPair(files, audit, COMPLETED, s);
    NothingLeft(files[Named(OPEN_FILE) := s.open][Named(HISTORY_FILE) := s.history]);
  }

  lemma NothingLeft(files: Files)
    ensures files + Unnamed(map[]) == files
  {
  }

  lemma PersistStable(files: Files, audit: Audit, s: Stores)
    requires PairOnDisk(files, s) && Coherent(s)
    requires Reconcile(audit, Some(s.open), Some(s.history)) == Success(s)
    ensures PersistResult(files, audit) == Success(s) && PersistedFiles(files, audit, COMPLETED) == files
  {
    PersistOnPair(files, audit, s);
    CompletedPair(files, audit, s);
    RewritePair(files, s);
  }

  lemma RewritePair(files: Files, s: Stores)
    requires PairOnDisk(files, s)
    ensures files[Named(OPEN_FILE) := s.open][Named(HISTORY_FILE) := s.history] == files
  {
  }

  /** Persisting the same audit again rewrites both files with what they hold. */
  lemma PersistIdempotent(files: Files, audit: Audit)
    requires PersistResult(files, audit).Success?
    ensures
      var files' := PersistedFiles(files, audit, COMPLETED);
      && PersistResult(files', audit) == PersistResult(files, audit)
      && PersistedFiles(files', audit, COMPLETED) == files'
  {
    var s := PersistResult(files, audit).value;
    var files' := PersistedFiles(files, audit, COMPLETED);
    PersistResultCoherent(files, audit);
    PersistedPair(files, audit, COMPLETED, s);
    ReconcileIdempotent(audit, Some(LoadOpen(files, audit)), Some(LoadHistory(files, audit)));
    PersistStable(files', audit, s);
  }
}
