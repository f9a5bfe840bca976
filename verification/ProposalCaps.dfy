/** Runs on which the caps of the two checks bite: a repeat within the day that the
    duplicate index has no room for, and an eleventh proposal in one second of a
    caller whose first ten are numbered too low to be scanned. */
module ProposalCaps {
  import opened Ordering
  import opened ProposalBursts
  import opened ProposalChecks
  import opened ProposalLaws
  import opened ProposalRuns
  import opened Proposals

  ghost function XsFrom(lo: nat, hi: nat): set<string> {
    set i: nat | lo <= i < hi :: Xs(i)
  }

  lemma {:induction false} XsCardinality(lo: nat, hi: nat)
    requires lo <= hi
    ensures |XsFrom(lo, hi)| == hi - lo
  {
    if lo < hi {
      XsCardinality(lo, hi - 1);
      forall i | lo <= i < hi - 1
        ensures Xs(i) != Xs(hi - 1)
      {
        XsDiffer(i, hi - 1);
      }
      assert XsFrom(lo, hi) == XsFrom(lo, hi - 1) + {Xs(hi - 1)};
    } else {
      assert XsFrom(lo, hi) == {};
    }
  }

  // ---- a repeat within the day

  lemma BurstAhead(files: Files, k: nat, own: nat, caller: string, at: nat, j: nat)
    requires files.Keys == Numbered(1, k + 1) && AllOfBurst(files, own, caller, at) && 1 < j <= k <= SCAN_LIMIT
    ensures Name(1, 0) in files && Xs(j) in HashesAhead(files, Name(1, 0))
  {
    var n, m := Name(1, 0), Name(j, 0);
    NumberedCardinality(1, k + 1);
    assert n in Numbered(1, k + 1) && m in Numbered(1, k + 1) && |files.Keys| == |files|;
    SmallQueueReached(files, m);
    assert Ahead(Item(m, files[m]), Item(n, files[n]));
  }

  lemma ManyHashes(ahead: set<string>, k: nat)
    requires k > 0 && forall j: nat :: 1 < j <= k ==> Xs(j) in ahead
    ensures |ahead| >= k - 1
  {
    XsCardinality(2, k + 1);
    SubsetCardinality(XsFrom(2, k + 1), ahead);
  }

  lemma FirstOvertaken(files: Files, k: nat, own: nat, caller: string, at: nat)
    requires files.Keys == Numbered(1, k + 1) && AllOfBurst(files, own, caller, at) && HASH_LIMIT < k <= SCAN_LIMIT
    ensures Name(1, 0) in files && |HashesAhead(files, Name(1, 0))| >= HASH_LIMIT
  {
    BurstAhead(files, k, own, caller, at, 2);
    var ahead := HashesAhead(files, Name(1, 0));
    AheadOfFirst(files, k, own, caller, at, ahead);
    ManyHashes(ahead, k);
  }

  lemma AheadOfFirst(files: Files, k: nat, own: nat, caller: string, at: nat, ahead: set<string>)
    requires files.Keys == Numbered(1, k + 1) && AllOfBurst(files, own, caller, at) && k <= SCAN_LIMIT
    requires Name(1, 0) in files && ahead == HashesAhead(files, Name(1, 0))
    ensures forall j: nat :: 1 < j <= k ==> Xs(j) in ahead
  {
    forall j: nat | 1 < j <= k
      ensures Xs(j) in ahead
    {
      BurstAhead(files, k, own, caller, at, j);
    }
  }

  lemma OnlyFirstCarries(files: Files, k: nat, own: nat, caller: string, at: nat, m: Name)
    requires files.Keys == Numbered(1, k + 1) && AllOfBurst(files, own, caller, at)
    requires m in files
    ensures CarriesSince(files[m], Xs(1), at - DAY) ==> m == Name(1, 0)
  {
    XsDiffer(m.number, 1);
  }

  /** The first body is out of the index's reach once `HASH_LIMIT` others follow. */
  lemma FirstForgotten(files: Files, k: nat, own: nat, caller: string, at: nat)
    requires files.Keys == Numbered(1, k + 1) && AllOfBurst(files, own, caller, at) && HASH_LIMIT < k <= SCAN_LIMIT
    ensures !IsDuplicate(files, Xs(1), at)
  {
    FirstOvertaken(files, k, own, caller, at);
    DuplicateExact(files, Xs(1), at);
    forall m | m in files
      ensures Seen(files, m) ==> !CarriesSince(files[m], Xs(1), at - DAY)
    {
      OnlyFirstCarries(files, k, own, caller, at, m);
    }
  }

  /** The first body again, from a caller not seen before. */
  function Repeat(k: nat, caller: string, at: nat): Request {
    Request(Xs(1), false, caller + Xs(k + 1), at)
  }

  lemma RepeatPasses(files: Files, k: nat, caller: string, at: nat)
    requires files.Keys == Numbered(1, k + 1) && AllOfBurst(files, 0, caller, at) && HASH_LIMIT < k <= SCAN_LIMIT
    ensures Passed(files, Repeat(k, caller, at))
  {
    FirstForgotten(files, k, 0, caller, at);
    forall n | n in files
      ensures !IsRecent(files[n], Repeat(k, caller, at).caller, at - HOUR)
    {
      CallersDiffer(n.number, k + 1, 0, caller, at);
    }
    assert RecentFiles(files, Repeat(k, caller, at).caller, at - HOUR) == {};
    NotExceeded(files, Repeat(k, caller, at).caller, at);
  }

  ghost predicate SameBodyAtOnce(told: seq<Acceptance>, i: nat, j: nat) {
    i < j < |told| && told[i].req.hash == told[j].req.hash && told[i].req.now == told[j].req.now
  }

  lemma RepeatTold(k: nat, caller: string, at: nat)
    requires k > 0
    ensures var told := Told(k, 0, caller, at) + [Acceptance(k + 1, Repeat(k, caller, at))];
            |told| == k + 1 && SameBodyAtOnce(told, 0, k)
  {
    ToldAt(k, 0, caller, at);
  }

  lemma RepeatAccepted(s: State, k: nat, caller: string, at: nat) returns (calls: seq<Call>, told: seq<Acceptance>)
    requires s == State(map[], {}) && HASH_LIMIT < k <= SCAN_LIMIT
    ensures |calls| == |told| == k + 1 && told == Acceptances(s, calls) && SameBodyAtOnce(told, 0, k)
  {
    var burst := BurstRun(s, k, 0, caller, at);
    RepeatPasses(After(s, burst).files, k, caller, at);
    calls := LastAccepted(s, burst, k, 0, caller, at, Repeat(k, caller, at));
    told := Told(k, 0, caller, at) + [Acceptance(k + 1, Repeat(k, caller, at))];
    RepeatTold(k, caller, at);
  }

  /** A run from the empty queue in which a body is accepted twice in one second, with
      `HASH_LIMIT` others in between. */
  lemma RepeatMissed(s: State, caller: string, at: nat) returns (calls: seq<Call>, told: seq<Acceptance>)
    requires s == State(map[], {})
    ensures |calls| == |told| == HASH_LIMIT + 2 && told == Acceptances(s, calls)
    ensures SameBodyAtOnce(told, 0, HASH_LIMIT + 1)
  {
    calls, told := RepeatAccepted(s, HASH_LIMIT + 1, caller, at);
  }

  // ---- an eleventh in the hour

  lemma BurstAbove(files: Files, k: nat, own: nat, caller: string, at: nat, n: Name)
    requires files.Keys == Numbered(1, k + 1) && own + SCAN_LIMIT <= k
    requires n in files && n.number <= own
    ensures !Reached(files, n)
  {
    var higher := Numbered(own + 1, k + 1);
    NumberedCardinality(own + 1, k + 1);
    forall m | m in higher
      ensures m in Above(files, n)
    {
      assert m in Numbered(1, k + 1);
    }
    SubsetCardinality(higher, Above(files, n));
  }

  /** Once `SCAN_LIMIT` files are numbered higher the caller's own are not counted. */
  lemma OwnForgotten(files: Files, k: nat, own: nat, caller: string, at: nat)
    requires files.Keys == Numbered(1, k + 1) && AllOfBurst(files, own, caller, at) && own + SCAN_LIMIT <= k
    ensures !RateExceeded(files, caller, at)
  {
    forall n | n in files && Reached(files, n)
      ensures !IsRecent(files[n], caller, at - HOUR)
    {
      assert |files[n].caller.value| == if n.number <= own then |caller| else |caller| + n.number;
      if n.number <= own {
        BurstAbove(files, k, own, caller, at, n);
      }
    }
    assert ReachedFiles(files, caller, at - HOUR) == {};
    RateExact(files, caller, at);
  }

  function OneMore(k: nat, caller: string, at: nat): Request {
    Request(Xs(k + 1), false, caller, at)
  }

  lemma OneMorePasses(files: Files, k: nat, own: nat, caller: string, at: nat)
    requires files.Keys == Numbered(1, k + 1) && AllOfBurst(files, own, caller, at) && own + SCAN_LIMIT <= k
    ensures Passed(files, OneMore(k, caller, at))
  {
    OwnForgotten(files, k, own, caller, at);
    NextBodyIsNew(files, k, own, caller, at, Xs(k + 1), at);
    NotDuplicate(files, Xs(k + 1), at);
  }

  ghost function UpTo(n: nat): (r: set<nat>)
    ensures |r| == n && forall i :: i in r <==> 0 <= i < n
  {
    if n == 0 then {} else UpTo(n - 1) + {n - 1}
  }

  lemma OwnAndLast(told: seq<Acceptance>, own: nat, caller: string, at: nat)
    requires own < |told| && forall i :: 0 <= i < own ==> told[i].req.caller == caller && told[i].req.now == at
    requires told[|told| - 1].req.caller == caller && told[|told| - 1].req.now == at
    ensures |AcceptedInHour(told, caller, WholeSecond(at))| >= own + 1
  {
    var some := UpTo(own) + {|told| - 1};
    assert |some| == own + 1;
    SubsetCardinality(some, AcceptedInHour(told, caller, WholeSecond(at)));
  }

  lemma OneMoreTold(k: nat, own: nat, caller: string, at: nat)
    requires own <= k
    ensures var told := Told(k, own, caller, at) + [Acceptance(k + 1, OneMore(k, caller, at))];
            |told| == k + 1 && |AcceptedInHour(told, caller, WholeSecond(at))| >= own + 1
  {
    ToldAt(k, own, caller, at);
    OwnAndLast(Told(k, own, caller, at) + [Acceptance(k + 1, OneMore(k, caller, at))], own, caller, at);
  }

  lemma OneMoreAccepted(s: State, k: nat, own: nat, caller: string, at: nat)
    returns (calls: seq<Call>, told: seq<Acceptance>)
    requires s == State(map[], {}) && own <= RATE_LIMIT && own + SCAN_LIMIT <= k
    ensures |calls| == |told| == k + 1 && told == Acceptances(s, calls)
    ensures |AcceptedInHour(told, caller, WholeSecond(at))| >= own + 1
  {
    var burst := BurstRun(s, k, own, caller, at);
    OneMorePasses(After(s, burst).files, k, own, caller, at);
    calls := LastAccepted(s, burst, k, own, caller, at, OneMore(k, caller, at));
    told := Told(k, own, caller, at) + [Acceptance(k + 1, OneMore(k, caller, at))];
    OneMoreTold(k, own, caller, at);
  }

  /** A run from the empty queue with more than ten acceptances of one caller in one
      second, `SCAN_LIMIT` of other callers in between. */
  lemma LimitMissed(s: State, caller: string, at: nat) returns (calls: seq<Call>, told: seq<Acceptance>)
    requires s == State(map[], {})
    ensures |calls| == |told| == RATE_LIMIT + SCAN_LIMIT + 1 && told == Acceptances(s, calls)
    ensures |AcceptedInHour(told, caller, WholeSecond(at))| > RATE_LIMIT
  {
    calls, told := OneMoreAccepted(s, RATE_LIMIT + SCAN_LIMIT, RATE_LIMIT, caller, at);
  }
}
