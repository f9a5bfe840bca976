/** The proposal queue over whole runs: any callers, any faults, stamps in any
    order. Branches persist, since only a proposal call touches them here. */
module ProposalRuns {
  import opened Ordering
  import opened Proposals
  import opened ProposalChecks
  import opened ProposalLaws

  datatype Call = Call(req: Request, env: Env)

  /** What a caller was told, with the recorded stamp. */
  datatype Acceptance = Acceptance(number: nat, req: Request) {
    function FileName(): Name {
      Name(number, 0)
    }

    function Stamp(): nat {
      WholeSecond(req.now)
    }
  }

  ghost function After(s: State, calls: seq<Call>): State {
    if calls == [] then s
    else
      var last := calls[|calls| - 1];
      Propose(After(s, calls[..|calls| - 1]), last.req, last.env).0
  }

  ghost function Answer(s: State, calls: seq<Call>): Outcome
    requires calls != []
  {
    var last := calls[|calls| - 1];
    Propose(After(s, calls[..|calls| - 1]), last.req, last.env).1
  }

  ghost function Acceptances(s: State, calls: seq<Call>): seq<Acceptance> {
    if calls == [] then []
    else
      var o := Answer(s, calls);
      Acceptances(s, calls[..|calls| - 1])
      + if o.Accepted? then [Acceptance(o.number, calls[|calls| - 1].req)] else []
  }

  ghost predicate IndexFits(files: Files, now: nat) {
    Covers(files, now - DAY) && |HashesSince(files, now - DAY)| <= HASH_LIMIT
  }

  /** Every call of the run starts with the last hour within the scan, as it does
      while the queue has no more than `SCAN_LIMIT` files. */
  ghost predicate Scannable(s: State, calls: seq<Call>) {
    calls == [] ||
    (Scannable(s, calls[..|calls| - 1])
     && Covers(After(s, calls[..|calls| - 1]).files, calls[|calls| - 1].req.now - HOUR))
  }

  /** Every call of the run starts with the last day within the scan and the index. */
  ghost predicate Indexable(s: State, calls: seq<Call>) {
    calls == [] ||
    (Indexable(s, calls[..|calls| - 1])
     && IndexFits(After(s, calls[..|calls| - 1]).files, calls[|calls| - 1].req.now))
  }

  lemma ShrinkCovers(a: Files, b: Files, cutoff: int)
    requires Shrinks(a, b) && Covers(b, cutoff)
    ensures Covers(a, cutoff)
  {
    forall n | n in a && StampedSince(a[n], cutoff)
      ensures Reached(a, n)
    {
      assert n in b && StampedSince(b[n], cutoff);
      SubsetCardinality(Above(a, n), Above(b, n));
    }
  }

  lemma ShrinkHashes(a: Files, b: Files, cutoff: int)
    requires Shrinks(a, b)
    ensures |HashesSince(a, cutoff)| <= |HashesSince(b, cutoff)|
  {
    forall h | h in HashesSince(a, cutoff)
      ensures h in HashesSince(b, cutoff)
    {
      var n :| n in a && a[n].hash == Some(h) && CarriesSince(a[n], h, cutoff);
      assert n in b && CarriesSince(b[n], h, cutoff);
    }
    SubsetCardinality(HashesSince(a, cutoff), HashesSince(b, cutoff));
  }

  lemma CallKeepsRate(s: State, req: Request, env: Env)
    requires WholeSeconds(s.files) && RateKept(s.files) && Covers(s.files, req.now - HOUR)
    ensures var t := Propose(s, req, env).0; WholeSeconds(t.files) && RateKept(t.files)
  {
    var t, screened := Propose(s, req, env).0, Screen(s, req, env).0;
    CallSteps(s, req, env);
    FileStepKeepsRate(s.files, screened, req, t.files);
  }

  lemma FileStepKeepsRate(files: Files, screened: Files, req: Request, t: Files)
    requires WholeSeconds(files) && RateKept(files) && Covers(files, req.now - HOUR)
    requires Shrinks(screened, files) && FileStep(screened, req, t)
    ensures WholeSeconds(t) && RateKept(t)
  {
    ShrinkKeepsRate(screened, files);
    ShrinkCovers(screened, files, req.now - HOUR);
    if t != screened {
      var n :| Grows(screened, req, t, n) && Admissible(screened, req);
      AddKeepsRate(screened, req, n, t);
    }
  }

  lemma CallKeepsSpacing(s: State, req: Request, env: Env)
    requires WholeSeconds(s.files) && SpacingKept(s.files) && IndexFits(s.files, req.now)
    ensures var t := Propose(s, req, env).0; WholeSeconds(t.files) && SpacingKept(t.files)
  {
    var t, screened := Propose(s, req, env).0, Screen(s, req, env).0;
    CallSteps(s, req, env);
    FileStepKeepsSpacing(s.files, screened, req, t.files);
  }

  lemma FileStepKeepsSpacing(files: Files, screened: Files, req: Request, t: Files)
    requires WholeSeconds(files) && SpacingKept(files) && IndexFits(files, req.now)
    requires Shrinks(screened, files) && FileStep(screened, req, t)
    ensures WholeSeconds(t) && SpacingKept(t)
  {
    ShrinkCovers(screened, files, req.now - DAY);
    ShrinkHashes(screened, files, req.now - DAY);
    if t != screened {
      var n :| Grows(screened, req, t, n) && Admissible(screened, req);
      AddKeepsSpacing(screened, req, n, t);
    }
  }

  /** Every run keeps every caller's every half-open hour at ten files or fewer. */
  lemma {:induction false} RunKeepsRate(s: State, calls: seq<Call>)
    requires WholeSeconds(s.files) && RateKept(s.files) && Scannable(s, calls)
    ensures WholeSeconds(After(s, calls).files) && RateKept(After(s, calls).files)
  {
    if calls != [] {
      var last := calls[|calls| - 1];
      RunKeepsRate(s, calls[..|calls| - 1]);
      CallKeepsRate(After(s, calls[..|calls| - 1]), last.req, last.env);
    }
  }

  /** Every run keeps files of one hash a day apart. */
  lemma {:induction false} RunKeepsSpacing(s: State, calls: seq<Call>)
    requires WholeSeconds(s.files) && SpacingKept(s.files) && Indexable(s, calls)
    ensures WholeSeconds(After(s, calls).files) && SpacingKept(After(s, calls).files)
  {
    if calls != [] {
      var last := calls[|calls| - 1];
      RunKeepsSpacing(s, calls[..|calls| - 1]);
      CallKeepsSpacing(After(s, calls[..|calls| - 1]), last.req, last.env);
    }
  }

  // ---- runs that stay below the caps

  lemma CallGrows(s: State, req: Request, env: Env)
    ensures |Propose(s, req, env).0.files| <= |s.files| + 1
  {
    var t, screened := Propose(s, req, env).0, Screen(s, req, env).0;
    CallSteps(s, req, env);
    ShrinkCardinality(screened, s.files);
    StepCardinality(screened, req, t.files);
  }

  lemma ShrinkCardinality(a: Files, b: Files)
    requires Shrinks(a, b)
    ensures |a| <= |b|
  {
    SubsetCardinality(a.Keys, b.Keys);
    assert |a.Keys| == |a| && |b.Keys| == |b|;
  }

  lemma StepCardinality(screened: Files, req: Request, t: Files)
    requires FileStep(screened, req, t)
    ensures |t| <= |screened| + 1
  {
    if t != screened {
      var n :| Grows(screened, req, t, n) && Admissible(screened, req);
      assert t.Keys == screened.Keys + {n};
      assert |t.Keys| == |t| && |screened.Keys| == |screened|;
    }
  }

  lemma {:induction false} RunGrows(s: State, calls: seq<Call>)
    ensures |After(s, calls).files| <= |s.files| + |calls|
  {
    if calls != [] {
      var last := calls[|calls| - 1];
      RunGrows(s, calls[..|calls| - 1]);
      CallGrows(After(s, calls[..|calls| - 1]), last.req, last.env);
    }
  }

  /** A run that cannot outgrow the scan is scanned throughout. */
  lemma {:induction false} ShortRunScans(s: State, calls: seq<Call>)
    requires |s.files| + |calls| <= SCAN_LIMIT
    ensures Scannable(s, calls)
  {
    if calls != [] {
      var front := calls[..|calls| - 1];
      ShortRunScans(s, front);
      RunGrows(s, front);
      SmallQueueCovers(After(s, front).files, calls[|calls| - 1].req.now - HOUR);
    }
  }

  lemma {:induction false} HashesFewer(files: Files, cutoff: int)
    ensures |HashesSince(files, cutoff)| <= |files|
    decreases |files.Keys|
  {
    if files == map[] {
      assert HashesSince(files, cutoff) == {};
    } else {
      var n :| n in files;
      var rest := files - {n};
      assert rest.Keys == files.Keys - {n} && |rest.Keys| == |rest| && |files.Keys| == |files|;
      HashesFewer(rest, cutoff);
      HashesWithout(files, n, cutoff);
    }
  }

  lemma HashesWithout(files: Files, n: Name, cutoff: int)
    requires n in files
    ensures |HashesSince(files, cutoff)| <= |HashesSince(files - {n}, cutoff)| + 1
  {
    var rest := files - {n};
    var own := if files[n].hash.Some? then {files[n].hash.value} else {};
    forall h | h in HashesSince(files, cutoff)
      ensures h in HashesSince(rest, cutoff) + own
    {
      var m :| m in files && files[m].hash == Some(h) && CarriesSince(files[m], h, cutoff);
      assert m == n || (m in rest && rest[m] == files[m]);
    }
    SubsetCardinality(HashesSince(files, cutoff), HashesSince(rest, cutoff) + own);
  }

  /** And one that cannot outgrow the index is indexed throughout. */
  lemma {:induction false} ShortRunIndexes(s: State, calls: seq<Call>)
    requires |s.files| + |calls| <= HASH_LIMIT
    ensures Indexable(s, calls)
  {
    if calls != [] {
      var front, now := calls[..|calls| - 1], calls[|calls| - 1].req.now;
      ShortRunIndexes(s, front);
      RunGrows(s, front);
      SmallQueueFits(After(s, front).files, now);
    }
  }

  lemma SmallQueueFits(files: Files, now: nat)
    requires |files| <= HASH_LIMIT
    ensures IndexFits(files, now)
  {
    SmallQueueCovers(files, now - DAY);
    HashesFewer(files, now - DAY);
  }

  // ---- what was accepted stays

  /** The file and the branch of an acceptance are there, the file as written. */
  ghost predicate Settled(s: State, a: Acceptance) {
    a.FileName() in s.files && a.FileName() in s.branches && s.files[a.FileName()] == RecordFor(a.req)
  }

  ghost predicate AllSettled(s: State, told: seq<Acceptance>) {
    forall i :: 0 <= i < |told| ==> Settled(s, told[i])
  }

  ghost predicate Increasing(told: seq<Acceptance>) {
    forall i, j :: 0 <= i < j < |told| ==> told[i].number < told[j].number
  }

  /** `number` is above every file that has its branch. */
  ghost predicate AboveSettled(s: State, number: nat) {
    forall n :: n in s.files && n in s.branches ==> n.number < number
  }

  lemma AllStay(s: State, req: Request, env: Env, told: seq<Acceptance>)
    requires AllSettled(s, told)
    ensures AllSettled(Propose(s, req, env).0, told)
  {
    CallSteps(s, req, env);
  }

  lemma AcceptedSettles(s: State, req: Request, env: Env)
    ensures var (t, o) := Propose(s, req, env);
            o.Accepted? ==> Settled(t, Acceptance(o.number, req)) && AboveSettled(s, o.number)
  {
    CallExact(s, req, env);
    CallSteps(s, req, env);
  }

  lemma ToldStep(s: State, t: State, told: seq<Acceptance>, a: Acceptance)
    requires AllSettled(s, told) && AllSettled(t, told) && Increasing(told)
    requires Settled(t, a) && AboveSettled(s, a.number)
    ensures AllSettled(t, told + [a]) && Increasing(told + [a])
  {
    forall i | 0 <= i < |told|
      ensures told[i].number < a.number
    {
      assert Settled(s, told[i]) && told[i].FileName().number == told[i].number;
    }
  }

  /** Over every run: accepted numbers strictly increase, and each accepted file
      and branch is still there, unchanged, at the end. */
  lemma {:induction false} AcceptedStay(s: State, calls: seq<Call>)
    ensures AllSettled(After(s, calls), Acceptances(s, calls)) && Increasing(Acceptances(s, calls))
  {
    if calls != [] {
      var front, last := calls[..|calls| - 1], calls[|calls| - 1];
      var before, told := After(s, front), Acceptances(s, front);
      AcceptedStay(s, front);
      AllStay(before, last.req, last.env, told);
      AcceptedSettles(before, last.req, last.env);
      if Answer(s, calls).Accepted? {
        ToldStep(before, After(s, calls), told, Acceptance(Answer(s, calls).number, last.req));
      } else {
        assert Acceptances(s, calls) == told;
      }
    }
  }

  // ---- the promises to callers

  /** Which acceptances of a caller are stamped in the hour from `start`. */
  ghost function AcceptedInHour(told: seq<Acceptance>, caller: string, start: int): set<nat> {
    set i: nat | i < |told| && told[i].req.caller == caller && start <= told[i].Stamp() < start + HOUR
  }

  lemma {:induction false} IndicesToNames(told: seq<Acceptance>, indices: set<nat>, names: set<Name>)
    requires forall i :: i in indices ==> i < |told| && told[i].FileName() in names
    requires Increasing(told)
    ensures |indices| <= |names|
  {
    if indices != {} {
      var i :| i in indices;
      IndicesToNames(told, indices - {i}, names - {told[i].FileName()});
    }
  }

  /** From any start that keeps the limit, over every run whose calls scan the last
      hour, with stamps in any order, no caller has more than ten acceptances stamped
      in any half-open hour. */
  lemma AtMostTenAnHour(s: State, calls: seq<Call>, caller: string, start: int)
    requires WholeSeconds(s.files) && RateKept(s.files) && Scannable(s, calls)
    ensures |AcceptedInHour(Acceptances(s, calls), caller, start)| <= RATE_LIMIT
  {
    var told, files := Acceptances(s, calls), After(s, calls).files;
    RunKeepsRate(s, calls);
    AcceptedStay(s, calls);
    var indices := AcceptedInHour(told, caller, start);
    forall i | i in indices
      ensures told[i].FileName() in InWindow(files, caller, start)
    {
      assert Settled(After(s, calls), told[i]);
    }
    IndicesToNames(told, indices, InWindow(files, caller, start));
  }

  /** Over every run whose calls see the last day, two acceptances of the same body
      carry stamps at least a day apart. */
  lemma RepeatsADayApart(s: State, calls: seq<Call>, i: nat, j: nat)
    requires WholeSeconds(s.files) && SpacingKept(s.files) && Indexable(s, calls)
    requires i < j < |Acceptances(s, calls)|
    requires Acceptances(s, calls)[i].req.hash == Acceptances(s, calls)[j].req.hash
    ensures var (a, b) := (Acceptances(s, calls)[i].Stamp(), Acceptances(s, calls)[j].Stamp());
            a + DAY <= b || b + DAY <= a
  {
    var a, b, t := Acceptances(s, calls)[i], Acceptances(s, calls)[j], After(s, calls);
    RunKeepsSpacing(s, calls);
    AcceptedStay(s, calls);
    assert Settled(t, a) && Settled(t, b) && a.FileName() != b.FileName();
    assert Repeats(t.files[a.FileName()], t.files[b.FileName()]);
  }
}
