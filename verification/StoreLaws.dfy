/** What the two stores carry besides their table: the stamp and the version, over
    one reconciliation and over runs, in memory and on disk; the order of their
    records; and that no stored record is dropped. */
module StoreLaws {
  import opened Ordering
  import opened Findings
  import opened MergeLaws
  import opened FindingsLaws
  import opened Persistence
  import opened Publication

  /** The version of whichever stores were given, "0.1.0" if neither was. */
  ghost predicate CarriedVersion(version: string, open: Option<Store>, history: Option<Store>) {
    && (open.Some? ==> open.value.version == version)
    && (history.Some? ==> history.value.version == version)
    && (open.None? && history.None? ==> version == "0.1.0")
  }

  ghost predicate Carry(s: Stores, version: string, stamp: string) {
    && s.open.version == version && s.history.version == version
    && s.open.generatedAt == stamp && s.history.generatedAt == stamp
  }

  /** Both stores are stamped by the audit and keep the version of those given. */
  lemma StoresCarry(audit: Audit, open: Option<Store>, history: Option<Store>)
    requires Reconcile(audit, open, history).Success?
    ensures
      var s := Reconcile(audit, open, history).value;
      Carry(s, s.open.version, audit.generatedAt) && CarriedVersion(s.open.version, open, history)
  {
    ReconcileExact(audit, open, history);
  }

  // ---- over runs

  /** The last audit of the run that was not refused. */
  ghost function LastAccepted(s: Stores, audits: seq<Audit>): Option<Audit> {
    if audits == [] then None
    else
      var before, last := Run(s, audits[..|audits| - 1]), audits[|audits| - 1];
      if Reconcile(last, Some(before.open), Some(before.history)).Success? then Some(last)
      else LastAccepted(s, audits[..|audits| - 1])
  }

  /** Over every run the stores keep the version they started with and carry the
      stamp of the last audit that was accepted. */
  lemma {:induction false} RunCarries(s: Stores, audits: seq<Audit>)
    requires Coherent(s)
    ensures LastAccepted(s, audits).None? ==> Run(s, audits) == s
    ensures LastAccepted(s, audits).Some? ==>
              Carry(Run(s, audits), s.history.version, LastAccepted(s, audits).value.generatedAt)
  {
    if audits != [] {
      var before, last := Run(s, audits[..|audits| - 1]), audits[|audits| - 1];
      RunCarries(s, audits[..|audits| - 1]);
      if Reconcile(last, Some(before.open), Some(before.history)).Success? {
        StoresCarry(last, Some(before.open), Some(before.history));
      }
    }
  }

  // ---- on disk

  /** The last audit of the run that was accepted and whose stores were published. */
  ghost function LastPublished(files: Files, attempts: seq<Attempt>): Option<Audit> {
    if attempts == [] then None
    else
      var before, last := RunAttempts(files, attempts[..|attempts| - 1]), attempts[|attempts| - 1];
      if PersistResult(before, last.audit).Success? && last.course.Replacing? && last.course.fault >= 2
      then Some(last.audit)
      else LastPublished(files, attempts[..|attempts| - 1])
  }

  /** The version the files start with, "0.1.0" if there are none. */
  ghost predicate StartsWith(files: Files, version: string) {
    && (Named("open-findings.json") in files ==> files[Named("open-findings.json")].version == version)
    && (Named("findings-history.json") in files ==> files[Named("findings-history.json")].version == version)
    && (Named("open-findings.json") !in files && Named("findings-history.json") !in files ==> version == "0.1.0")
  }

  ghost predicate Holds(files: Files, s: Stores) {
    && Named("open-findings.json") in files && files[Named("open-findings.json")] == s.open
    && Named("findings-history.json") in files && files[Named("findings-history.json")] == s.history
  }

  ghost predicate Untouched(f: Files, g: Files) {
    AgreeAt(f, g, Named("open-findings.json")) && AgreeAt(f, g, Named("findings-history.json"))
  }

  lemma PersistCarries(files: Files, audit: Audit, version: string)
    requires FilesCoherent(files) && StartsWith(files, version) && PersistResult(files, audit).Success?
    ensures Carry(PersistResult(files, audit).value, version, audit.generatedAt)
  {
    if Named("findings-history.json") in files {
      var s :| PairOnDisk(files, s) && FindingsLaws.Coherent(s);
      LoadRoundTrip(files, audit, s);
      StoresCarry(audit, Some(s.open), Some(s.history));
    } else {
      StoresCarry(audit, Some(LoadOpen(files, audit)), Some(LoadHistory(files, audit)));
    }
  }

  lemma AttemptCarries(files: Files, attempt: Attempt, version: string)
    requires FilesCoherent(files) && StartsWith(files, version)
    ensures
      var files' := PersistedFiles(files, attempt.audit, attempt.course);
      if PersistResult(files, attempt.audit).Success? && attempt.course.Replacing? && attempt.course.fault >= 2 then
        Holds(files', PersistResult(files, attempt.audit).value)
        && Carry(PersistResult(files, attempt.audit).value, version, attempt.audit.generatedAt)
      else Untouched(files', files)
  {
    if PersistResult(files, attempt.audit).Success? {
      var s := PersistResult(files, attempt.audit).value;
      if attempt.course.Replacing? && attempt.course.fault >= 2 {
        PersistedPair(files, attempt.audit, attempt.course, s);
        PersistCarries(files, attempt.audit, version);
      } else {
        UnfinishedKeepsNamed(files, PairWrites(s), attempt.course);
      }
    }
  }

  /** Over every run of attempts the two files keep the version they started with and
      carry the stamp of the last audit that was accepted and published; until one
      is they are as they were. */
  lemma {:induction false} AttemptsCarry(files: Files, attempts: seq<Attempt>, version: string)
    requires FilesCoherent(files) && StartsWith(files, version)
    ensures StartsWith(RunAttempts(files, attempts), version)
    ensures LastPublished(files, attempts).None? ==> Untouched(RunAttempts(files, attempts), files)
    ensures LastPublished(files, attempts).Some? ==>
              exists s :: Holds(RunAttempts(files, attempts), s)
                          && Carry(s, version, LastPublished(files, attempts).value.generatedAt)
  {
    if attempts != [] {
      var front, last := attempts[..|attempts| - 1], attempts[|attempts| - 1];
      AttemptsCarry(files, front, version);
      AttemptsKeep(files, front);
      AttemptCarries(RunAttempts(files, front), last, version);
      KeptBy(RunAttempts(files, front), RunAttempts(files, attempts), files, version);
    }
  }

  lemma KeptBy(before: Files, after: Files, start: Files, version: string)
    ensures Untouched(after, before) && Untouched(before, start) ==> Untouched(after, start)
    ensures Untouched(after, before) ==> forall s :: Holds(before, s) ==> Holds(after, s)
    ensures Untouched(after, before) && StartsWith(before, version) ==> StartsWith(after, version)
  {
  }

  // ---- the records

  /** A record of one of the given stores. */
  ghost predicate Given(f: Finding, open: Option<Store>, history: Option<Store>) {
    (open.Some? && f in open.value.findings) || (history.Some? && f in history.value.findings)
  }

  /** Every record given survives under its id and scope, whichever store it was in,
      and every record kept is of an id that was given or reported. */
  lemma GivenSurvive(audit: Audit, open: Option<Store>, history: Option<Store>)
    requires Reconcile(audit, open, history).Success?
    ensures
      var kept := Reconcile(audit, open, history).value.history.findings;
      && (forall f :: Given(f, open, history) ==> exists g :: g in kept && g.id == f.id && SameScope(g, f))
      && (forall g :: g in kept ==> IsReported(audit, g.id) || exists f :: Given(f, open, history) && f.id == g.id)
  {
    ReconcileExact(audit, open, history);
    ReconcileTable(audit, open, history);
    OutcomeMoves(Known(audit, open, history), Reported(audit), audit);
    var stored := StoredFindings(audit, open, history);
    MergeExact(stored);
    MergeKeepsGreatest(stored);
    StoredAreGiven(audit, open, history);
    var kept, table := Reconcile(audit, open, history).value.history.findings, Known(audit, open, history);
    ElemsMembers(kept);
    IndexOfIndexes(kept);
    var outcome := IndexOf(kept);
    FitsExactly(audit, stored);
    OutcomeKeepsIdentities(table, Reported(audit), audit);
    forall f | Given(f, open, history)
      ensures exists g :: g in kept && g.id == f.id && SameScope(g, f)
    {
      assert SameScope(table[f.id], f);
      assert outcome[f.id] in kept;
    }
    forall g | g in kept
      ensures IsReported(audit, g.id) || exists f :: Given(f, open, history) && f.id == g.id
    {
      if !IsReported(audit, g.id) {
        assert g.id in table && table[g.id] in Elems(stored);
      }
    }
  }

  lemma StoredAreGiven(audit: Audit, open: Option<Store>, history: Option<Store>)
    ensures forall f :: f in Elems(StoredFindings(audit, open, history)) <==> Given(f, open, history)
  {
    ElemsMembers(StoredFindings(audit, open, history));
  }

  /** By domain, by area within a domain, by id within both. */
  predicate Before(f: Finding, g: Finding) {
    if f.domain != g.domain then StrLess(f.domain, g.domain)
    else if f.area != g.area then StrLess(f.area, g.area)
    else StrLess(f.id, g.id)
  }

  ghost predicate InOrder(s: seq<Finding>) {
    forall i, j :: 0 <= i < j < |s| ==> Before(s[i], s[j])
  }

  ghost predicate NotAfter(f: Finding, g: Finding) {
    Before(f, g) || (f.domain == g.domain && f.area == g.area && f.id == g.id)
  }

  /** The store as it is in the file, but for the order of its records. */
  ghost predicate ReadsAs(file: Store, loaded: Store) {
    && loaded.version == file.version && loaded.generatedAt == file.generatedAt
    && |loaded.findings| == |file.findings| && (forall f :: f in loaded.findings <==> f in file.findings)
    && forall i, j :: 0 <= i < j < |loaded.findings| ==> NotAfter(loaded.findings[i], loaded.findings[j])
  }

  lemma LoadReads(store: Store)
    ensures ReadsAs(store, store.(findings := Sort(store.findings, FindingLe)))
  {
    FindingLeIsTotal();
    SortElements(store.findings, FindingLe);
    SortOrdered(store.findings, FindingLe);
    var sorted := Sort(store.findings, FindingLe);
    forall i, j | 0 <= i < j < |sorted|
      ensures NotAfter(sorted[i], sorted[j])
    {
      assert FindingLe(sorted[i], sorted[j]);
    }
  }

  /** What is read from disk: each file that is there in the order of the stores, and
      an empty store, stamped by the audit, for one that is not. */
  lemma DiskReadsAs(files: Files, audit: Audit)
    ensures
      var open, history := Named("open-findings.json"), Named("findings-history.json");
      && (history in files ==> ReadsAs(files[history], LoadHistory(files, audit)))
      && (history !in files ==> LoadHistory(files, audit) == Store("0.1.0", audit.generatedAt, []))
      && (open in files ==> ReadsAs(files[open], LoadOpen(files, audit)))
      && (open !in files ==>
            LoadOpen(files, audit) == Store(LoadHistory(files, audit).version, audit.generatedAt, []))
      && PersistResult(files, audit) == Reconcile(audit, Some(LoadOpen(files, audit)), Some(LoadHistory(files, audit)))
  {
    var open, history := Named("open-findings.json"), Named("findings-history.json");
    if history in files {
      LoadReads(files[history]);
    }
    if open in files {
      LoadReads(files[open]);
    }
  }

  /** The history lists its records in order, each id once; the open store lists
      its open records, in the same order. */
  lemma ListedInOrder(audit: Audit, open: Option<Store>, history: Option<Store>)
    requires Reconcile(audit, open, history).Success?
    ensures
      var s := Reconcile(audit, open, history).value;
      && InOrder(s.history.findings) && InOrder(s.open.findings)
      && (forall f :: f in s.open.findings <==> f in s.history.findings && f.status == Open)
  {
    ReconcileExact(audit, open, history);
    ReconcileTable(audit, open, history);
    CoherentInOrder(Reconcile(audit, open, history).value);
  }

  lemma OrderedBefore(s: seq<Finding>)
    requires Ordered(s, FindingLe) && UniqueIds(s)
    ensures InOrder(s)
  {
    forall i, j | 0 <= i < j < |s|
      ensures Before(s[i], s[j])
    {
      assert FindingLe(s[i], s[j]) && s[i].id != s[j].id;
    }
  }

  lemma CoherentInOrder(s: Stores)
    requires FindingsLaws.Coherent(s)
    ensures InOrder(s.history.findings) && InOrder(s.open.findings)
    ensures forall f :: f in s.open.findings <==> f in s.history.findings && f.status == Open
  {
    OrderedBefore(s.history.findings);
    OpenSliceElements(s.history.findings);
    OpenSliceBefore(s.history.findings);
  }

  lemma {:induction false} OpenSliceBefore(s: seq<Finding>)
    requires InOrder(s)
    ensures InOrder(OpenSlice(s))
  {
    if s != [] {
      OpenSliceBefore(s[1..]);
      OpenSliceElements(s[1..]);
      var rest := OpenSlice(s[1..]);
      forall j | 0 <= j < |rest|
        ensures Before(s[0], rest[j])
      {
        assert rest[j] in s[1..];
      }
    }
  }

  // ---- an interrupted rollback

  /** The open store is replaced first. So a rollback that is itself interrupted can
      leave the new open store beside the old history, never the other way round. */
  lemma InterruptedPair(files: Files, s: Stores, k: nat, r: nat)
    requires k < 2
    ensures
      var out, open := PublishedFiles(files, PairWrites(s), k, r), Named("open-findings.json");
      && (if k == 1 && r == 0 then open in out && out[open] == s.open else AgreeAt(out, files, open))
      && AgreeAt(out, files, Named("findings-history.json"))
  {
    FailedAt(files, PairWrites(s), k, r, 0);
    FailedAt(files, PairWrites(s), k, r, 1);
  }
}
