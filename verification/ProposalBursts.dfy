/** Runs from the empty queue in which every call is accepted: proposals of different
    bodies at one instant, the first few of one caller, the others of one each. */
module ProposalBursts {
  import opened Ordering
  import opened ProposalChecks
  import opened ProposalLaws
  import opened ProposalRuns
  import opened Proposals

  /** The unpadded names with numbers from `lo` up to, not including, `hi`. */
  ghost function Numbered(lo: nat, hi: nat): set<Name> {
    set i: nat | lo <= i < hi :: Name(i, 0)
  }

  lemma {:induction false} NumberedCardinality(lo: nat, hi: nat)
    requires lo <= hi
    ensures |Numbered(lo, hi)| == hi - lo
  {
    if lo < hi {
      NumberedCardinality(lo, hi - 1);
      assert Numbered(lo, hi) == Numbered(lo, hi - 1) + {Name(hi - 1, 0)};
    } else {
      assert Numbered(lo, hi) == {};
    }
  }

  /** A text of its own for every number. */
  function Xs(k: nat): string {
    seq(k, i => 'x')
  }

  lemma XsDiffer(j: nat, k: nat)
    ensures Xs(j) == Xs(k) ==> j == k
  {
    assert |Xs(j)| == j && |Xs(k)| == k;
  }

  const NO_FAULTS := Env(true, None, true, None, Written, BranchMade, true)

  /** Files and branches 1 to `k`, and no others. */
  ghost predicate Holding(s: State, k: nat) {
    s.files.Keys == Numbered(1, k + 1) && s.branches == Numbered(1, k + 1)
  }

  lemma NothingCleared(s: State, hash: string)
    requires s.files.Keys <= s.branches
    ensures Cleared(s, hash, None) == s.files
  {
    ClearedExact(s, hash, None);
  }

  lemma NotExceeded(files: Files, caller: string, now: nat)
    requires |RecentFiles(files, caller, now - HOUR)| < RATE_LIMIT
    ensures !RateExceeded(files, caller, now)
  {
    RateExact(files, caller, now);
  }

  lemma NotDuplicate(files: Files, hash: string, now: nat)
    requires !SomeFileCarries(files, hash, now - DAY)
    ensures !IsDuplicate(files, hash, now)
  {
    DuplicateExact(files, hash, now);
  }

  lemma PassesWhen(files: Files, req: Request)
    requires |RecentFiles(files, req.caller, req.now - HOUR)| < RATE_LIMIT
    requires !SomeFileCarries(files, req.hash, req.now - DAY)
    ensures Passed(files, req)
  {
    NotExceeded(files, req.caller, req.now);
    NotDuplicate(files, req.hash, req.now);
  }

  lemma AllocatesNext(s: State, req: Request, k: nat)
    requires Holding(s, k)
    ensures Allocate(s, req, NO_FAULTS)
         == (State(s.files[Name(k + 1, 0) := RecordFor(req)], s.branches + {Name(k + 1, 0)}), Accepted(k + 1))
  {
    assert Name(k + 1, 0) !in Numbered(1, k + 1);
    assert k > 0 ==> Name(k, 0) in s.files;
    HighestUnique(s.files, k, Highest(s.files));
    assert FirstFree(k + 1, s.branches) == k + 1;
  }

  lemma ScreensClean(s: State, req: Request)
    requires s.files.Keys <= s.branches && !req.hasNul && Passed(s.files, req)
    ensures Screen(s, req, NO_FAULTS) == (s.files, None)
  {
    NothingCleared(s, req.hash);
  }

  lemma AcceptsNext(s: State, req: Request, k: nat)
    requires Holding(s, k) && !req.hasNul && Passed(s.files, req)
    ensures Propose(s, req, NO_FAULTS)
         == (State(s.files[Name(k + 1, 0) := RecordFor(req)], s.branches + {Name(k + 1, 0)}), Accepted(k + 1))
  {
    ScreensClean(s, req);
    AllocatesNext(s, req, k);
  }

  lemma RunAppend(s: State, calls: seq<Call>, call: Call)
    ensures After(s, calls + [call]) == Propose(After(s, calls), call.req, call.env).0
    ensures Acceptances(s, calls + [call])
         == Acceptances(s, calls)
            + var o := Propose(After(s, calls), call.req, call.env).1;
              if o.Accepted? then [Acceptance(o.number, call.req)] else []
  {
    assert (calls + [call])[..|calls|] == calls;
  }

  lemma AcceptsAppend(s: State, calls: seq<Call>, req: Request, k: nat)
    requires Holding(After(s, calls), k) && !req.hasNul && Passed(After(s, calls).files, req)
    ensures After(s, calls + [Call(req, NO_FAULTS)]).files == After(s, calls).files[Name(k + 1, 0) := RecordFor(req)]
    ensures After(s, calls + [Call(req, NO_FAULTS)]).branches == After(s, calls).branches + {Name(k + 1, 0)}
    ensures Acceptances(s, calls + [Call(req, NO_FAULTS)]) == Acceptances(s, calls) + [Acceptance(k + 1, req)]
  {
    AcceptsNext(After(s, calls), req, k);
    RunAppend(s, calls, Call(req, NO_FAULTS));
  }

  // ---- a burst

  /** Call `i`: one caller's as long as `i` is at most `own`, then a new caller's. */
  function BurstRequest(i: nat, own: nat, caller: string, at: nat): Request {
    Request(Xs(i), false, if i <= own then caller else caller + Xs(i), at)
  }

  /** What the first `k` calls are told. */
  ghost function Told(k: nat, own: nat, caller: string, at: nat): seq<Acceptance> {
    if k == 0 then [] else Told(k - 1, own, caller, at) + [Acceptance(k, BurstRequest(k, own, caller, at))]
  }

  lemma {:induction false} ToldAt(k: nat, own: nat, caller: string, at: nat)
    ensures |Told(k, own, caller, at)| == k
    ensures forall i :: 0 <= i < k ==>
      Told(k, own, caller, at)[i] == Acceptance(i + 1, BurstRequest(i + 1, own, caller, at))
  {
    if k > 0 {
      ToldAt(k - 1, own, caller, at);
    }
  }

  ghost predicate AllOfBurst(files: Files, own: nat, caller: string, at: nat) {
    forall n :: n in files ==> files[n] == RecordFor(BurstRequest(n.number, own, caller, at))
  }

  /** Files and branches 1 to `k`, as the first `k` calls leave them. */
  ghost predicate OfBurst(s: State, k: nat, own: nat, caller: string, at: nat) {
    Holding(s, k) && AllOfBurst(s.files, own, caller, at)
  }

  lemma CallersDiffer(i: nat, j: nat, own: nat, caller: string, at: nat)
    requires own < j
    ensures BurstRequest(i, own, caller, at).caller == caller + Xs(j) ==> i == j
  {
    assert |caller + Xs(j)| == |caller| + j;
    assert |BurstRequest(i, own, caller, at).caller| == if i <= own then |caller| else |caller| + i;
  }

  lemma NextBodyIsNew(files: Files, k: nat, own: nat, caller: string, at: nat, hash: string, now: nat)
    requires files.Keys == Numbered(1, k + 1) && AllOfBurst(files, own, caller, at) && hash == Xs(k + 1)
    ensures !SomeFileCarries(files, hash, now - DAY)
  {
    forall n | n in files
      ensures !CarriesSince(files[n], hash, now - DAY)
    {
      XsDiffer(n.number, k + 1);
    }
  }

  lemma BurstPasses(files: Files, k: nat, own: nat, caller: string, at: nat)
    requires files.Keys == Numbered(1, k + 1) && AllOfBurst(files, own, caller, at) && own <= RATE_LIMIT
    ensures Passed(files, BurstRequest(k + 1, own, caller, at))
  {
    var req := BurstRequest(k + 1, own, caller, at);
    var recent := RecentFiles(files, req.caller, at - HOUR);
    if k + 1 <= own {
      NumberedCardinality(1, k + 1);
      SubsetCardinality(recent, files.Keys);
    } else {
      forall n | n in files
        ensures !IsRecent(files[n], req.caller, at - HOUR)
      {
        CallersDiffer(n.number, k + 1, own, caller, at);
      }
      assert recent == {};
    }
    NextBodyIsNew(files, k, own, caller, at, req.hash, at);
    PassesWhen(files, req);
  }

  lemma BurstGrows(s: State, t: State, k: nat, own: nat, caller: string, at: nat)
    requires OfBurst(s, k, own, caller, at)
    requires t.files == s.files[Name(k + 1, 0) := RecordFor(BurstRequest(k + 1, own, caller, at))]
    requires t.branches == s.branches + {Name(k + 1, 0)}
    ensures OfBurst(t, k + 1, own, caller, at)
  {
    assert Numbered(1, k + 2) == Numbered(1, k + 1) + {Name(k + 1, 0)};
  }

  /** One more call of the burst. */
  lemma BurstAccepted(s: State, calls: seq<Call>, k: nat, own: nat, caller: string, at: nat)
    requires OfBurst(After(s, calls), k, own, caller, at) && own <= RATE_LIMIT
    ensures var req := BurstRequest(k + 1, own, caller, at);
            var more := calls + [Call(req, NO_FAULTS)];
            && OfBurst(After(s, more), k + 1, own, caller, at)
            && Acceptances(s, more) == Acceptances(s, calls) + [Acceptance(k + 1, req)]
  {
    var req := BurstRequest(k + 1, own, caller, at);
    BurstPasses(After(s, calls).files, k, own, caller, at);
    AcceptsAppend(s, calls, req, k);
    BurstGrows(After(s, calls), After(s, calls + [Call(req, NO_FAULTS)]), k, own, caller, at);
  }

  /** From the empty queue every call of a burst is accepted. */
  lemma {:induction false} BurstRun(s: State, k: nat, own: nat, caller: string, at: nat) returns (calls: seq<Call>)
    requires s == State(map[], {}) && own <= RATE_LIMIT
    ensures |calls| == k && OfBurst(After(s, calls), k, own, caller, at)
    ensures Acceptances(s, calls) == Told(k, own, caller, at)
  {
    if k == 0 {
      calls := [];
      assert Numbered(1, 1) == {};
    } else {
      var earlier := BurstRun(s, k - 1, own, caller, at);
      BurstAccepted(s, earlier, k - 1, own, caller, at);
      calls := earlier + [Call(BurstRequest(k, own, caller, at), NO_FAULTS)];
    }
  }

  /** And so is any call after it that passes the checks. */
  lemma LastAccepted(s: State, calls: seq<Call>, k: nat, own: nat, caller: string, at: nat, req: Request)
    returns (more: seq<Call>)
    requires OfBurst(After(s, calls), k, own, caller, at) && !req.hasNul && Passed(After(s, calls).files, req)
    ensures |more| == |calls| + 1
    ensures Acceptances(s, more) == Acceptances(s, calls) + [Acceptance(k + 1, req)]
  {
    AcceptsAppend(s, calls, req, k);
    more := calls + [Call(req, NO_FAULTS)];
  }
}
