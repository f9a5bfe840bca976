/** The proposal limit in true time, where it is not quite the limit it says: ten
    acceptances and an eleventh, all within the hour. */
module ProposalTiming {
  import opened Ordering
  import opened ProposalBursts
  import opened ProposalChecks
  import opened ProposalLaws
  import opened ProposalRuns
  import opened Proposals

  /** The limiter sees whole-second stamps: an arrival is still counted exactly
      until an hour after the start of its second. */
  lemma ArrivalCounted(at: nat, now: nat)
    ensures WholeSecond(at) >= now - HOUR <==> now - at <= HOUR - at % SECOND
  {
  }

  /** The caller's files within the scan whose arrival is still counted. */
  ghost function CountedArrivals(files: Files, arrived: map<Name, nat>, caller: string, now: nat): set<Name> {
    set n | n in files && Reached(files, n) && n in arrived && files[n].caller == Some(caller)
            && now - arrived[n] <= HOUR - arrived[n] % SECOND
  }

  /** In terms of true arrival times, the limiter refuses exactly when ten of the
      caller's arrivals within the scan lie within an hour less their own fraction
      of a second. */
  lemma RefusedByArrivals(files: Files, arrived: map<Name, nat>, caller: string, now: nat)
    requires forall n :: n in files ==> n in arrived && files[n].queuedAt == Some(WholeSecond(arrived[n]))
    ensures RateExceeded(files, caller, now) <==> |CountedArrivals(files, arrived, caller, now)| >= RATE_LIMIT
  {
    RateExact(files, caller, now);
    forall n | n in files
      ensures n in ReachedFiles(files, caller, now - HOUR) <==> n in CountedArrivals(files, arrived, caller, now)
    {
      ArrivalCounted(arrived[n], now);
    }
    assert ReachedFiles(files, caller, now - HOUR) == CountedArrivals(files, arrived, caller, now);
  }

  /** Which acceptances of a caller arrived in the hour less a second from `start`. */
  ghost function ArrivedWithin(told: seq<Acceptance>, caller: string, start: nat): set<nat> {
    set i: nat | i < |told| && told[i].req.caller == caller && start <= told[i].req.now < start + HOUR - SECOND
  }

  /** In true time the limit holds of every hour less a second. */
  lemma AtMostTenButASecond(s: State, calls: seq<Call>, caller: string, start: nat)
    requires WholeSeconds(s.files) && RateKept(s.files) && Scannable(s, calls)
    ensures |ArrivedWithin(Acceptances(s, calls), caller, start)| <= RATE_LIMIT
  {
    var told := Acceptances(s, calls);
    AtMostTenAnHour(s, calls, caller, WholeSecond(start));
    WithinIsStampedWithin(told, caller, start);
    SubsetCardinality(ArrivedWithin(told, caller, start), AcceptedInHour(told, caller, WholeSecond(start)));
  }

  lemma WithinIsStampedWithin(told: seq<Acceptance>, caller: string, start: nat)
    ensures ArrivedWithin(told, caller, start) <= AcceptedInHour(told, caller, WholeSecond(start))
  {
    forall i | i in ArrivedWithin(told, caller, start)
      ensures WholeSecond(start) <= told[i].Stamp() < WholeSecond(start) + HOUR
    {
      LaterSecond(start, told[i].req.now);
    }
  }

  lemma LaterSecond(a: nat, b: nat)
    requires a <= b
    ensures WholeSecond(a) <= WholeSecond(b) && b - SECOND < WholeSecond(b) <= b
  {
    var i, j := a / SECOND, b / SECOND;
    assert WholeSecond(a) == SECOND * i && WholeSecond(b) == SECOND * j;
  }

  // ---- an eleventh acceptance

  lemma LateBodyPasses(files: Files, k: nat, own: nat, caller: string, at: nat, now: nat)
    requires files.Keys == Numbered(1, k + 1) && AllOfBurst(files, own, caller, at)
    requires now - at > HOUR - at % SECOND
    ensures Passed(files, Request(Xs(k + 1), false, caller, now))
  {
    ArrivalCounted(at, now);
    assert RecentFiles(files, caller, now - HOUR) == {};
    NextBodyIsNew(files, k, own, caller, at, Xs(k + 1), now);
    PassesWhen(files, Request(Xs(k + 1), false, caller, now));
  }

  ghost predicate AllWithinAnHour(told: seq<Acceptance>, caller: string, now: nat) {
    forall i :: 0 <= i < |told| ==> told[i].req.caller == caller && 0 <= now - told[i].req.now < HOUR
  }

  lemma LateTold(k: nat, caller: string, at: nat, req: Request)
    requires req.caller == caller && at <= req.now < at + HOUR
    ensures var told := Told(k, k, caller, at) + [Acceptance(k + 1, req)];
            |told| == k + 1 && AllWithinAnHour(told, caller, req.now)
  {
    ToldAt(k, k, caller, at);
  }

  lemma OneMoreThan(s: State, k: nat, caller: string, at: nat, now: nat)
    returns (calls: seq<Call>, told: seq<Acceptance>)
    requires s == State(map[], {}) && k <= RATE_LIMIT
    requires HOUR - at % SECOND < now - at < HOUR
    ensures |calls| == |told| == k + 1 && told == Acceptances(s, calls) && AllWithinAnHour(told, caller, now)
  {
    var req := Request(Xs(k + 1), false, caller, now);
    var together := BurstRun(s, k, k, caller, at);
    LateBodyPasses(After(s, together).files, k, k, caller, at, now);
    calls := LastAccepted(s, together, k, k, caller, at, req);
    told := Told(k, k, caller, at) + [Acceptance(k + 1, req)];
    LateTold(k, caller, at, req);
  }

  /** So the limit does not hold of true time: from the empty queue, a run of eleven
      calls of one caller, ten late in one second and the last less than an hour
      later, every one of them accepted. */
  lemma EleventhWithinAnHour(s: State, caller: string, at: nat, now: nat)
    returns (calls: seq<Call>, told: seq<Acceptance>)
    requires s == State(map[], {}) && at % SECOND == 900_000 && now == at + HOUR - 400_000
    ensures |calls| == |told| == RATE_LIMIT + 1
    ensures told == Acceptances(s, calls) && AllWithinAnHour(told, caller, now)
  {
    calls, told := OneMoreThan(s, RATE_LIMIT, caller, at, now);
  }
}
