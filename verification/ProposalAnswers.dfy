/** What a proposal call answers and what it leaves, exactly, without its stages: every
    refusal and every failure by what was in the queue and what went wrong. */
module ProposalAnswers {
  import opened Ordering
  import opened ProposalChecks
  import opened ProposalLaws
  import opened Proposals

  // ---- orphans

  /** The files that the scan reads before `n`. */
  ghost function ReadBefore(files: Files, n: Name): set<Name>
    requires n in files
  {
    set m | m in files && m != n && Reached(files, m) && Ahead(Item(m, files[m]), Item(n, files[n]))
  }

  /** The orphan check raises: its fault meets a file of the hash. */
  ghost predicate Raises(files: Files, hash: string, fault: Option<nat>) {
    fault.Some? && exists n :: n in files && Reached(files, n) && files[n].hash == Some(hash)
                               && |ReadBefore(files, n)| == fault.value
  }

  /** A file of the hash without a branch goes, if the scan reads it, and reads it
      before the check raises. */
  ghost predicate Goes(s: State, hash: string, fault: Option<nat>, n: Name) {
    && n in s.files && s.files[n].hash == Some(hash) && n !in s.branches && Reached(s.files, n)
    && (Raises(s.files, hash, fault) ==> |ReadBefore(s.files, n)| < fault.value)
  }

  ghost function Tidied(s: State, hash: string, fault: Option<nat>): Files {
    map n | n in s.files && !Goes(s, hash, fault, n) :: s.files[n]
  }

  ghost function FrontNames(items: seq<Item>, k: nat): seq<Name>
    requires k <= |items|
  {
    seq(k, j requires 0 <= j < k => items[j].name)
  }

  lemma FrontIsRead(files: Files, items: seq<Item>, k: nat, j: nat)
    requires Faithful(files, items) && Ordered(items, Ahead) && NamesDistinct(items) && j < k < |items|
    ensures items[k].name in files && items[j].name in ReadBefore(files, items[k].name)
  {
    assert items[k] in items && items[j] in items;
    assert ItemIn(files, items[k]) && ItemIn(files, items[j]) && Ahead(items[j], items[k]);
  }

  lemma AheadOneWay(a: Item, b: Item)
    requires Ahead(a, b) && a.name != b.name
    ensures !Ahead(b, a)
  {
  }

  lemma NotAheadIsLater(items: seq<Item>, k: nat, j: nat)
    requires Ordered(items, Ahead) && k < |items| && j < |items| && k != j && !Ahead(items[k], items[j])
    ensures j < k
  {
  }

  lemma AheadIsFront(items: seq<Item>, k: nat, j: nat)
    requires Ordered(items, Ahead) && k < |items| && j < |items|
    requires Ahead(items[j], items[k]) && items[j].name != items[k].name
    ensures j < k && items[j].name in FrontNames(items, k)
  {
    AheadOneWay(items[j], items[k]);
    NotAheadIsLater(items, k, j);
    assert FrontNames(items, k)[j] == items[j].name;
  }

  lemma ReadIsFront(files: Files, items: seq<Item>, k: nat, m: Name)
    requires Faithful(files, items) && Ordered(items, Ahead) && k < |items|
    requires ItemIn(files, items[k]) && m in ReadBefore(files, items[k].name)
    ensures m in FrontNames(items, k)
  {
    var j := PositionOf(files, items, m);
    AheadIsFront(items, k, j);
  }

  /** The scan's position of a file is the number of files it reads before. */
  lemma ReadAt(files: Files, items: seq<Item>, k: nat)
    requires Faithful(files, items) && Ordered(items, Ahead) && k < |items|
    ensures ItemIn(files, items[k]) && |ReadBefore(files, items[k].name)| == k
  {
    ScanNamesDistinct(files, items);
    assert items[k] in items;
    var names := FrontNames(items, k);
    forall j | 0 <= j < k
      ensures names[j] in ReadBefore(files, items[k].name)
    {
      FrontIsRead(files, items, k, j);
    }
    forall m | m in ReadBefore(files, items[k].name)
      ensures m in names
    {
      ReadIsFront(files, items, k, m);
    }
    MembersCardinality(names, ReadBefore(files, items[k].name));
  }

  lemma RaisesExactly(files: Files, hash: string, fault: Option<nat>)
    ensures CheckRaises(Scan(files), hash, fault) <==> Raises(files, hash, fault)
  {
    var items := Scan(files);
    ScanFacts(files);
    ScanAhead(files);
    if CheckRaises(items, hash, fault) {
      ReadAt(files, items, fault.value);
      assert items[fault.value] in items;
    }
    if Raises(files, hash, fault) {
      var n :| n in files && Reached(files, n) && files[n].hash == Some(hash)
               && |ReadBefore(files, n)| == fault.value;
      var k := PositionOf(files, items, n);
      ReadAt(files, items, k);
    }
  }

  lemma ClearedIsTidied(s: State, hash: string, fault: Option<nat>)
    ensures Cleared(s, hash, fault) == Tidied(s, hash, fault)
  {
    var items := Scan(s.files);
    ScanFacts(s.files);
    ScanAhead(s.files);
    RaisesExactly(s.files, hash, fault);
    forall n | n in s.files
      ensures n in Orphans(Checked(items, hash, fault), s.branches, hash) <==> Goes(s, hash, fault, n)
    {
      OrphanGoes(s, items, hash, fault, n);
    }
  }

  lemma OrphanGoes(s: State, items: seq<Item>, hash: string, fault: Option<nat>, n: Name)
    requires Faithful(s.files, items) && Ordered(items, Ahead) && n in s.files
    requires CheckRaises(items, hash, fault) <==> Raises(s.files, hash, fault)
    ensures n in Orphans(Checked(items, hash, fault), s.branches, hash) <==> Goes(s, hash, fault, n)
  {
    var checked := Checked(items, hash, fault);
    OrphansMembers(checked, s.branches, hash, n);
    if Reached(s.files, n) {
      var k := PositionOf(s.files, items, n);
      ReadAt(s.files, items, k);
      AmongChecked(s.files, items, checked, k);
    } else {
      forall i | i in checked
        ensures i.name != n
      {
        assert i in items;
      }
    }
  }

  /** An item is in a front of the scan exactly if its position is. */
  lemma AmongChecked(files: Files, items: seq<Item>, front: seq<Item>, k: nat)
    requires Faithful(files, items) && front <= items && k < |items|
    ensures (exists i :: i in front && i.name == items[k].name) <==> k < |front|
    ensures forall i :: i in front && i.name == items[k].name ==> i == items[k]
  {
    ScanNamesDistinct(files, items);
    forall i | i in front && i.name == items[k].name
      ensures i == items[k] && k < |front|
    {
      var j :| 0 <= j < |front| && front[j] == i;
      assert items[j] == i;
    }
    if k < |front| {
      assert front[k] == items[k] && front[k] in front;
    }
  }

  // ---- the answer

  /** The caller has ten files of the last hour within the scan. */
  ghost predicate Full(files: Files, caller: string, now: nat) {
    |ReachedFiles(files, caller, now - 3_600_000_000)| >= 10
  }

  /** A file of the hash of the last day, within the scan, and with fewer than 1024
      different hashes read before it. */
  ghost predicate Repeated(files: Files, hash: string, now: nat) {
    exists n :: n in files && Reached(files, n) && |HashesAhead(files, n)| < 1024
                && files[n].hash == Some(hash) && StampedSince(files[n], now - 86_400_000_000)
  }

  predicate Signed(req: Request, env: Env) {
    !req.hasNul && env.keyPresent
  }

  /** The files a call goes on with once it has looked for orphans. */
  ghost function Screened(s: State, req: Request, env: Env): Files {
    if Signed(req, env) then Tidied(s, req.hash, env.orphanFault) else s.files
  }

  lemma FullExactly(files: Files, caller: string, now: nat)
    ensures RateExceeded(files, caller, now) <==> Full(files, caller, now)
  {
    RateExact(files, caller, now);
  }

  lemma RepeatedExactly(files: Files, hash: string, now: nat)
    ensures IsDuplicate(files, hash, now) <==> Repeated(files, hash, now)
  {
    DuplicateExact(files, hash, now);
    forall n
      ensures Seen(files, n) && CarriesSince(files[n], hash, now - DAY) <==>
                && n in files && Reached(files, n) && |HashesAhead(files, n)| < 1024
                && files[n].hash == Some(hash) && StampedSince(files[n], now - 86_400_000_000)
    {
    }
  }

  lemma ScreenedExactly(s: State, req: Request, env: Env)
    ensures
      var files := Screened(s, req, env);
      Screen(s, req, env) == (files, Verdict(req, env, Raises(s.files, req.hash, env.orphanFault),
                                             Full(files, req.caller, req.now), Repeated(files, req.hash, req.now)))
  {
    var files := Screen(s, req, env).0;
    ClearedIsTidied(s, req.hash, env.orphanFault);
    RaisesExactly(s.files, req.hash, env.orphanFault);
    FullExactly(files, req.caller, req.now);
    RepeatedExactly(files, req.hash, req.now);
  }

  // ---- the number

  /** A number above every file's. */
  ghost predicate AboveFiles(files: Files, number: nat) {
    number > 0 && forall n :: n in files ==> n.number < number
  }

  /** The first such number whose branch is free. */
  ghost predicate Next(files: Files, branches: set<Name>, number: nat) {
    && AboveFiles(files, number) && Name(number, 0) !in branches
    && forall k :: 0 <= k < number && AboveFiles(files, k) ==> Name(k, 0) in branches
  }

  /** The numbers probed on the way to `number`. */
  ghost function Probed(files: Files, number: nat): set<nat> {
    set k: nat | k <= number && AboveFiles(files, k)
  }

  lemma NextIsFirstFree(files: Files, branches: set<Name>)
    ensures Next(files, branches, FirstFree(Highest(files) + 1, branches))
    ensures |Probed(files, FirstFree(Highest(files) + 1, branches))|
         == FirstFree(Highest(files) + 1, branches) - Highest(files)
  {
    var h := Highest(files);
    var number := FirstFree(h + 1, branches);
    forall k: nat
      ensures AboveFiles(files, k) <==> h < k
    {
    }
    var probed := Probed(files, number);
    forall k
      ensures k in probed <==> h < k <= number
    {
    }
    RangeCardinality(probed, h, number);
  }

  lemma {:induction false} RangeCardinality(s: set<nat>, lo: nat, hi: nat)
    requires lo <= hi && forall k :: k in s <==> lo < k <= hi
    ensures |s| == hi - lo
  {
    if lo < hi {
      RangeCardinality(s - {hi}, lo, hi - 1);
    } else {
      assert s == {};
    }
  }

  /** The fault of the probes meets one of those it takes to find `number`. */
  ghost predicate ProbeRaises(files: Files, number: nat, fault: Option<nat>) {
    fault.Some? && fault.value < |Probed(files, number)|
  }

  // ---- the whole call

  /** What a finished record holds: the stamp cut to the second, caller and hash. */
  function Finished(req: Request): Record {
    Record(Some(req.now - req.now % 1_000_000), Some(req.caller), Some(req.hash))
  }

  /** What there is of it after a write that broke off. */
  function Unfinished(req: Request, cut: Cut): Record {
    match cut
    case BeforeStamp => Record(None, None, None)
    case BeforeMetadata => Record(Finished(req).queuedAt, None, None)
    case AfterMetadata => Finished(req)
  }

  /** What an admitted call answers, and leaves, once its number is known. */
  ghost predicate Concludes(files: Files, branches: set<Name>, req: Request, env: Env, number: nat,
                            t: State, o: Outcome)
  {
    var name := Name(number, 0);
    if ProbeRaises(files, number, env.probeFault) then o == ProbeFailed && t == State(files, branches)
    else if env.write.NotCreated? then o == WriteFailed && t == State(files, branches)
    else if env.write.BrokenOff? then
      o == WriteFailed && t == State(files[name := Unfinished(req, env.write.cut)], branches)
    else if env.branch.BranchMade? then
      o == Accepted(number) && t == State(files[name := Finished(req)], branches + {name})
    else
      && o == BranchFailed
      && t.files == (if env.unlinkWorks then files else files[name := Finished(req)])
      && t.branches == (if env.branch.BranchRefused? then branches else branches + {name})
  }

  ghost predicate ConcludesSome(files: Files, branches: set<Name>, req: Request, env: Env, t: State, o: Outcome) {
    exists number :: Next(files, branches, number) && Concludes(files, branches, req, env, number, t, o)
  }

  lemma AllocateConcludes(s: State, req: Request, env: Env)
    ensures ConcludesSome(s.files, s.branches, req, env, Allocate(s, req, env).0, Allocate(s, req, env).1)
  {
    var number := FirstFree(Highest(s.files) + 1, s.branches);
    var (t, o) := Allocate(s, req, env);
    NextIsFirstFree(s.files, s.branches);
    assert Name(number, 0) !in s.files;
    assert Concludes(s.files, s.branches, req, env, number, t, o);
  }

  /** What a call answers and leaves: each refusal exactly when its turn comes and it
      applies, the limit before the repeat; and past them all, each failure exactly
      when the step it is about fails. */
  ghost predicate Answers(files: Files, branches: set<Name>, req: Request, env: Env,
                          raises: bool, full: bool, repeated: bool, t: State, o: Outcome)
  {
    && (o == ContentRejected <==> req.hasNul)
    && (o == NoSigningKey <==> !req.hasNul && !env.keyPresent)
    && (o == OrphanCheckFailed <==> Signed(req, env) && raises)
    && (o == RateLimited <==> Signed(req, env) && !raises && full)
    && (o == Duplicate <==> Signed(req, env) && !raises && !full && repeated)
    && (o == HeadUnresolved <==> Signed(req, env) && !raises && !full && !repeated && !env.headResolves)
    && if Signed(req, env) && !raises && !full && !repeated && env.headResolves
       then ConcludesSome(files, branches, req, env, t, o)
       else t == State(files, branches)
  }

  lemma ConcludeAnswers(s: State, req: Request, env: Env, raises: bool, full: bool, repeated: bool)
    ensures
      var (t, o) := Conclude(s, Verdict(req, env, raises, full, repeated), req, env);
      Answers(s.files, s.branches, req, env, raises, full, repeated, t, o)
  {
    AllocateConcludes(s, req, env);
  }

  /** So for every call. */
  lemma AnswerExact(s: State, req: Request, env: Env)
    ensures
      var (t, o) := Propose(s, req, env);
      var files := Screened(s, req, env);
      Answers(files, s.branches, req, env, Raises(s.files, req.hash, env.orphanFault),
              Full(files, req.caller, req.now), Repeated(files, req.hash, req.now), t, o)
  {
    var files := Screened(s, req, env);
    ScreenedExactly(s, req, env);
    ConcludeAnswers(State(files, s.branches), req, env, Raises(s.files, req.hash, env.orphanFault),
                    Full(files, req.caller, req.now), Repeated(files, req.hash, req.now));
  }
}
