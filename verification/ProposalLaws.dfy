/** What the proposal queue keeps, call by call and over whole runs: the rolling
    limit, the spacing of repeated bodies, numbering, and what each call leaves. */
module ProposalLaws {
  import opened Ordering
  import opened ProposalChecks
  import opened Proposals

  // ---- orphans

  lemma {:induction false} OrphansMembers(items: seq<Item>, branches: set<Name>, hash: string, n: Name)
    ensures n in Orphans(items, branches, hash) <==>
              exists i :: i in items && IsOrphan(i, branches, hash) && i.name == n
  {
    if items != [] {
      var front, last := items[..|items| - 1], items[|items| - 1];
      OrphansMembers(front, branches, hash, n);
      assert items == front + [last];
    }
  }

  ghost predicate Shrinks(a: Files, b: Files) {
    a.Keys <= b.Keys && forall n :: n in a ==> a[n] == b[n]
  }

  /** Only branchless files of the same hash go, whatever fails; if no check raises,
      all of those within the scan go. */
  lemma ClearedExact(s: State, hash: string, fault: Option<nat>)
    ensures Shrinks(Cleared(s, hash, fault), s.files)
    ensures forall n :: n in s.files && n !in Cleared(s, hash, fault) ==>
              s.files[n].hash == Some(hash) && n !in s.branches
    ensures !CheckRaises(Scan(s.files), hash, fault) ==>
              forall n :: n in s.files && s.files[n].hash == Some(hash) && n !in s.branches ==>
                (n in Cleared(s, hash, fault) <==> !Reached(s.files, n))
  {
    var items := Checked(Scan(s.files), hash, fault);
    ScanFacts(s.files);
    forall n | n in s.files
      ensures n !in Cleared(s, hash, fault) ==>
                s.files[n].hash == Some(hash) && n !in s.branches && Reached(s.files, n)
      ensures !CheckRaises(Scan(s.files), hash, fault) && Reached(s.files, n)
              && s.files[n].hash == Some(hash) && n !in s.branches ==>
                n !in Cleared(s, hash, fault)
    {
      OrphansMembers(items, s.branches, hash, n);
      assert forall i :: i in items ==> i in Scan(s.files);
      if n in Orphans(items, s.branches, hash) {
        var i :| i in items && IsOrphan(i, s.branches, hash) && i.name == n;
        assert ItemIn(s.files, i);
      } else if Reached(s.files, n) && !CheckRaises(Scan(s.files), hash, fault) {
        assert Item(n, s.files[n]) in items;
      }
    }
  }

  // ---- what one call leaves

  ghost predicate Passed(files: Files, req: Request) {
    !RateExceeded(files, req.caller, req.now) && !IsDuplicate(files, req.hash, req.now)
  }

  predicate IsRefusal(o: Outcome) {
    || o.ContentRejected? || o.NoSigningKey? || o.OrphanCheckFailed?
    || o.RateLimited? || o.Duplicate? || o.HeadUnresolved?
  }

  lemma ScreenExact(s: State, req: Request, env: Env)
    ensures var (files, refusal) := Screen(s, req, env);
            && (refusal.None? ==> Passed(files, req))
            && (refusal.Some? ==> IsRefusal(refusal.value))
            && (files == s.files || files == Cleared(s, req.hash, env.orphanFault))
  {
  }

  lemma PublishExact(s: State, name: Name, record: Record, env: Env)
    requires name !in s.files && name !in s.branches
    ensures var (t, o) := Publish(s, name, record, env);
            && o != AlreadyExists
            && (o.Accepted? ==> o.number == name.number && t == State(s.files[name := record], s.branches + {name}))
            && (o.WriteFailed? && env.write.NotCreated? ==> t == s)
            && (o.BranchFailed? && env.branch.BranchRefused? && env.unlinkWorks ==> t == s)
  {
  }

  lemma AllocateExact(s: State, req: Request, env: Env)
    ensures var (t, o) := Allocate(s, req, env);
            && o != AlreadyExists
            && (o.Accepted? ==>
                  && (forall n :: n in s.files ==> n.number < o.number)
                  && (forall k :: Highest(s.files) < k < o.number ==> Name(k, 0) in s.branches)
                  && Name(o.number, 0) !in s.branches
                  && t == State(s.files[Name(o.number, 0) := RecordFor(req)], s.branches + {Name(o.number, 0)}))
            && (o.ProbeFailed? || (o.WriteFailed? && env.write.NotCreated?) ==> t == s)
            && (o.BranchFailed? && env.branch.BranchRefused? && env.unlinkWorks ==> t == s)
  {
    var name := Name(FirstFree(Highest(s.files) + 1, s.branches), 0);
    PublishExact(s, name, RecordFor(req), env);
  }

  /** One call in full. An acceptance means both checks passed; it adds one file and
      one branch of the same number, above every file's, on the first free branch.
      Any other call leaves the branches and the screened files as they were unless
      a write breaks off or an undo fails as well; in particular a branch that git
      refuses, with a working unlink, leaves neither. The exclusive create never
      meets a file. */
  lemma CallExact(s: State, req: Request, env: Env)
    ensures var (t, o) := Propose(s, req, env);
            var files := Screen(s, req, env).0;
            && o != AlreadyExists
            && (o.Accepted? ==>
                  && Passed(files, req)
                  && (forall n :: n in files ==> n.number < o.number)
                  && (forall k :: Highest(files) < k < o.number ==> Name(k, 0) in s.branches)
                  && Name(o.number, 0) !in s.branches
                  && t == State(files[Name(o.number, 0) := RecordFor(req)], s.branches + {Name(o.number, 0)}))
            && (o.Accepted? || (o.WriteFailed? && !env.write.NotCreated?)
                || (o.BranchFailed? && !(env.branch.BranchRefused? && env.unlinkWorks))
                || t == State(files, s.branches))
  {
    var (files, refusal) := Screen(s, req, env);
    ScreenExact(s, req, env);
    ConcludeExact(State(files, s.branches), refusal, req, env);
  }

  lemma ConcludeExact(s: State, refusal: Option<Outcome>, req: Request, env: Env)
    requires refusal.Some? ==> IsRefusal(refusal.value)
    ensures var (t, o) := Conclude(s, refusal, req, env);
            && o != AlreadyExists
            && (o.Accepted? ==>
                  && refusal.None?
                  && (forall n :: n in s.files ==> n.number < o.number)
                  && (forall k :: Highest(s.files) < k < o.number ==> Name(k, 0) in s.branches)
                  && Name(o.number, 0) !in s.branches
                  && t == State(s.files[Name(o.number, 0) := RecordFor(req)], s.branches + {Name(o.number, 0)}))
            && (o.Accepted? || (o.WriteFailed? && !env.write.NotCreated?)
                || (o.BranchFailed? && !(env.branch.BranchRefused? && env.unlinkWorks))
                || t == s)
  {
    AllocateExact(s, req, env);
  }

  // ---- a call as a step on files

  /** A record written for a request: whole, or what a broken write left of it. */
  ghost predicate FromRequest(r: Record, req: Request) {
    r == RecordFor(req) || exists cut :: r == CutOff(RecordFor(req), cut)
  }

  /** What the two checks promise about the files they passed on. */
  ghost predicate Admissible(files: Files, req: Request) {
    RoomFor(files, req.caller, req.now) && NewBody(files, req.hash, req.now)
  }

  ghost predicate RoomFor(files: Files, caller: string, now: nat) {
    Covers(files, now - HOUR) ==> |RecentFiles(files, caller, now - HOUR)| < RATE_LIMIT
  }

  ghost predicate NewBody(files: Files, hash: string, now: nat) {
    Covers(files, now - DAY) && |HashesSince(files, now - DAY)| <= HASH_LIMIT ==>
      !SomeFileCarries(files, hash, now - DAY)
  }

  lemma AdmittedHasRoom(files: Files, caller: string, now: nat)
    requires !RateExceeded(files, caller, now)
    ensures RoomFor(files, caller, now)
  {
    RateExact(files, caller, now);
  }

  lemma AdmittedIsNew(files: Files, hash: string, now: nat)
    requires !IsDuplicate(files, hash, now)
    ensures NewBody(files, hash, now)
  {
    DuplicateExact(files, hash, now);
  }

  lemma PassedAdmissible(files: Files, req: Request)
    requires Passed(files, req)
    ensures Admissible(files, req)
  {
    AdmittedHasRoom(files, req.caller, req.now);
    AdmittedIsNew(files, req.hash, req.now);
  }

  ghost predicate Grows(files: Files, req: Request, t: Files, n: Name) {
    n !in files && n in t && t == files[n := t[n]] && FromRequest(t[n], req)
  }

  /** Every file a call adds, even one left by a failure, passed both checks. */
  ghost predicate FileStep(screened: Files, req: Request, t: Files) {
    t == screened || exists n :: Grows(screened, req, t, n) && Admissible(screened, req)
  }

  lemma PublishGrows(s: State, name: Name, req: Request, env: Env)
    requires name !in s.files
    ensures var t := Publish(s, name, RecordFor(req), env).0;
            t.files == s.files || Grows(s.files, req, t.files, name)
  {
  }

  lemma ConcludeSteps(s: State, refusal: Option<Outcome>, req: Request, env: Env)
    requires refusal.None? ==> Admissible(s.files, req)
    ensures FileStep(s.files, req, Conclude(s, refusal, req, env).0.files)
    ensures s.branches <= Conclude(s, refusal, req, env).0.branches
  {
    if refusal.None? {
      PublishGrows(s, Name(FirstFree(Highest(s.files) + 1, s.branches), 0), req, env);
    }
  }

  /** Files go only as branchless orphans, and come only through both checks. */
  lemma CallSteps(s: State, req: Request, env: Env)
    ensures var t := Propose(s, req, env).0;
            var screened := Screen(s, req, env).0;
            && Shrinks(screened, s.files)
            && (forall n :: n in s.files && n in s.branches ==> n in screened)
            && FileStep(screened, req, t.files)
            && s.branches <= t.branches
  {
    var (files, refusal) := Screen(s, req, env);
    ScreenExact(s, req, env);
    ClearedExact(s, req.hash, env.orphanFault);
    if refusal.None? {
      PassedAdmissible(files, req);
    }
    ConcludeSteps(State(files, s.branches), refusal, req, env);
  }

  // ---- the rolling limit

  predicate StampedIn(r: Record, caller: string, start: int) {
    r.caller == Some(caller) && r.queuedAt.Some? && start <= r.queuedAt.value < start + HOUR
  }

  ghost function InWindow(files: Files, caller: string, start: int): set<Name> {
    set n | n in files && StampedIn(files[n], caller, start)
  }

  ghost predicate WholeSeconds(files: Files) {
    forall n :: n in files && files[n].queuedAt.Some? ==> files[n].queuedAt.value % SECOND == 0
  }

  /** No caller has more than ten files in any half-open hour. */
  ghost predicate RateKept(files: Files) {
    forall caller, start :: |InWindow(files, caller, start)| <= RATE_LIMIT
  }

  /** Between whole seconds, "less than a span" leaves at least a second. */
  lemma SecondsApart(t: nat, now: nat, span: nat)
    requires t % SECOND == 0 && span % SECOND == 0
    ensures t > WholeSecond(now) - span ==> t >= now - span
    ensures t < now - span ==> t <= WholeSecond(now) - span
  {
    var i, j, k := t / SECOND, now / SECOND, span / SECOND;
    assert t == SECOND * i && WholeSecond(now) == SECOND * j && span == SECOND * k;
    if i <= j - k {
      assert SECOND * i <= SECOND * (j - k);
    } else {
      assert SECOND * i >= SECOND * (j - k + 1);
    }
  }

  lemma ShrinkKeepsRate(a: Files, b: Files)
    requires Shrinks(a, b) && WholeSeconds(b) && RateKept(b)
    ensures WholeSeconds(a) && RateKept(a)
  {
    forall caller, start
      ensures |InWindow(a, caller, start)| <= RATE_LIMIT
    {
      SubsetCardinality(InWindow(a, caller, start), InWindow(b, caller, start));
    }
  }

  /** Whatever shares a window with the new stamp is still counted. */
  lemma WindowIsRecent(files: Files, req: Request, start: int)
    requires WholeSeconds(files) && start <= WholeSecond(req.now) < start + HOUR
    ensures InWindow(files, req.caller, start) <= RecentFiles(files, req.caller, req.now - HOUR)
  {
    forall m | m in InWindow(files, req.caller, start)
      ensures m in RecentFiles(files, req.caller, req.now - HOUR)
    {
      SecondsApart(files[m].queuedAt.value, req.now, HOUR);
    }
  }

  lemma WindowGrows(files: Files, n: Name, r: Record, caller: string, start: int)
    requires n !in files
    ensures |InWindow(files[n := r], caller, start)|
         == |InWindow(files, caller, start)| + if StampedIn(r, caller, start) then 1 else 0
  {
    assert InWindow(files[n := r], caller, start)
        == InWindow(files, caller, start) + if StampedIn(r, caller, start) then {n} else {};
  }

  lemma AddKeepsRate(files: Files, req: Request, n: Name, t: Files)
    requires WholeSeconds(files) && RateKept(files) && Grows(files, req, t, n)
    requires |RecentFiles(files, req.caller, req.now - HOUR)| < RATE_LIMIT
    ensures WholeSeconds(t) && RateKept(t)
  {
    forall caller, start
      ensures |InWindow(t, caller, start)| <= RATE_LIMIT
    {
      WindowGrows(files, n, t[n], caller, start);
      if StampedIn(t[n], caller, start) {
        WindowIsRecent(files, req, start);
        SubsetCardinality(InWindow(files, caller, start), RecentFiles(files, caller, req.now - HOUR));
      }
    }
  }

  // ---- the spacing of repeated bodies

  predicate Repeats(a: Record, b: Record) {
    a.hash.Some? && a.hash == b.hash && a.queuedAt.Some? && b.queuedAt.Some?
  }

  predicate DayApart(a: Record, b: Record)
    requires a.queuedAt.Some? && b.queuedAt.Some?
  {
    a.queuedAt.value + DAY <= b.queuedAt.value || b.queuedAt.value + DAY <= a.queuedAt.value
  }

  /** Files with the same hash carry stamps at least a day apart. */
  ghost predicate SpacingKept(files: Files) {
    forall n, m :: n in files && m in files && n != m && Repeats(files[n], files[m]) ==> DayApart(files[n], files[m])
  }

  lemma AddKeepsSpacing(files: Files, req: Request, n: Name, t: Files)
    requires WholeSeconds(files) && SpacingKept(files) && Grows(files, req, t, n)
    requires !SomeFileCarries(files, req.hash, req.now - DAY)
    ensures WholeSeconds(t) && SpacingKept(t)
  {
    forall m | m in files && Repeats(files[m], t[n])
      ensures DayApart(files[m], t[n])
    {
      assert !CarriesSince(files[m], req.hash, req.now - DAY);
      SecondsApart(files[m].queuedAt.value, req.now, DAY);
    }
  }
}
