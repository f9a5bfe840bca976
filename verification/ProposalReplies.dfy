/** Whole runs from the empty queue on which git and the disk do not fail: what every
    call is told, from what the calls before it were told and nothing else. */
module ProposalReplies {
  import opened Ordering
  import opened ProposalAnswers
  import opened ProposalBursts
  import opened ProposalChecks
  import opened ProposalRuns
  import opened Proposals

  /** No step of the call fails; the key may be missing and HEAD may not resolve. */
  predicate Calm(env: Env) {
    env.orphanFault.None? && env.probeFault.None? && env.write.Written? && env.branch.BranchMade?
  }

  ghost predicate CalmRun(calls: seq<Call>) {
    forall i :: 0 <= i < |calls| ==> Calm(calls[i].env)
  }

  /** The queue holds what was accepted, numbered from one, and its branches. */
  ghost predicate HoldsTold(s: State, told: seq<Acceptance>) {
    && s.files.Keys == Numbered(1, |told| + 1) && s.branches == Numbered(1, |told| + 1)
    && forall i :: 0 <= i < |told| ==> told[i].number == i + 1 && s.files[Name(i + 1, 0)] == Finished(told[i].req)
  }

  // ---- the two checks on what was told

  function Second(now: nat): nat {
    now - now % 1_000_000
  }

  /** Acceptance `i` is one of the last 2048. */
  predicate Recalled(told: seq<Acceptance>, i: nat) {
    i < |told| <= i + 2048
  }

  ghost function ToldRecently(told: seq<Acceptance>, caller: string, now: nat): set<nat> {
    set i: nat | i < |told| && Recalled(told, i) && told[i].req.caller == caller
                 && Second(told[i].req.now) >= now - 3_600_000_000
  }

  /** Ten of the caller's acceptances, among the last 2048, are of the last hour. */
  ghost predicate ToldEnough(told: seq<Acceptance>, caller: string, now: nat) {
    |ToldRecently(told, caller, now)| >= 10
  }

  /** Acceptance `j` is of a later second than `i`, or of the same and came after it. */
  predicate Newer(told: seq<Acceptance>, j: nat, i: nat)
    requires i < |told| && j < |told|
  {
    var a, b := Second(told[j].req.now), Second(told[i].req.now);
    a > b || (a == b && j > i)
  }

  ghost function NewerHashes(told: seq<Acceptance>, i: nat): set<string>
    requires i < |told|
  {
    set j: nat | j < |told| && Recalled(told, j) && Newer(told, j, i) :: told[j].req.hash
  }

  /** The body was accepted in the last day, among the last 2048, and fewer than 1024
      different ones are newer. */
  ghost predicate ToldBefore(told: seq<Acceptance>, hash: string, now: nat) {
    exists i: nat :: i < |told| && Recalled(told, i) && told[i].req.hash == hash
                     && Second(told[i].req.now) >= now - 86_400_000_000 && |NewerHashes(told, i)| < 1024
  }

  // ---- files and acceptances

  lemma AboveTold(s: State, told: seq<Acceptance>, i: nat)
    requires HoldsTold(s, told) && i < |told|
    ensures Name(i + 1, 0) in s.files
    ensures Reached(s.files, Name(i + 1, 0)) <==> Recalled(told, i)
  {
    assert Name(i + 1, 0) in Numbered(1, |told| + 1);
    NumberedCardinality(i + 2, |told| + 1);
    assert Above(s.files, Name(i + 1, 0)) == Numbered(i + 2, |told| + 1);
  }

  lemma NameTold(s: State, told: seq<Acceptance>, n: Name) returns (i: nat)
    requires HoldsTold(s, told) && n in s.files
    ensures i < |told| && n == Name(i + 1, 0) && s.files[n] == Finished(told[i].req)
  {
    assert n in Numbered(1, |told| + 1);
    i := n.number - 1;
  }

  function NameOf(i: nat): Name {
    Name(i + 1, 0)
  }

  ghost function Names(indices: set<nat>): set<Name> {
    set i | i in indices :: NameOf(i)
  }

  lemma {:induction false} NamesCardinality(indices: set<nat>)
    ensures |Names(indices)| == |indices|
  {
    if indices == {} {
      assert Names(indices) == {};
    } else {
      var i :| i in indices;
      var rest := indices - {i};
      NamesCardinality(rest);
      assert indices == rest + {i};
      assert Names(indices) == Names(rest) + {NameOf(i)};
    }
  }

  lemma EnoughExactly(s: State, told: seq<Acceptance>, caller: string, now: nat)
    requires HoldsTold(s, told)
    ensures Full(s.files, caller, now) <==> ToldEnough(told, caller, now)
  {
    var reached, recent := ReachedFiles(s.files, caller, now - 3_600_000_000), ToldRecently(told, caller, now);
    forall n | n in reached
      ensures n in Names(recent)
    {
      var i := NameTold(s, told, n);
      AboveTold(s, told, i);
      assert i in recent && n == NameOf(i);
    }
    forall n | n in Names(recent)
      ensures n in reached
    {
      var i :| i in recent && n == NameOf(i);
      AboveTold(s, told, i);
    }
    assert reached == Names(recent);
    NamesCardinality(recent);
  }

  lemma AheadIsNewer(s: State, told: seq<Acceptance>, j: nat, i: nat)
    requires HoldsTold(s, told) && i < |told| && j < |told|
    ensures Name(i + 1, 0) in s.files && Name(j + 1, 0) in s.files
    ensures
      var n, m := Name(i + 1, 0), Name(j + 1, 0);
      j != i && Ahead(Item(m, s.files[m]), Item(n, s.files[n])) <==> Newer(told, j, i)
  {
    AboveTold(s, told, i);
    AboveTold(s, told, j);
  }

  lemma NewerExactly(s: State, told: seq<Acceptance>, i: nat)
    requires HoldsTold(s, told) && i < |told|
    ensures Name(i + 1, 0) in s.files && HashesAhead(s.files, Name(i + 1, 0)) == NewerHashes(told, i)
  {
    AboveTold(s, told, i);
    var ahead, newer := HashesAhead(s.files, Name(i + 1, 0)), NewerHashes(told, i);
    forall h | h in ahead
      ensures h in newer
    {
      var m :| m in s.files && Reached(s.files, m) && m != Name(i + 1, 0) && Stamped(s.files[m])
               && Ahead(Item(m, s.files[m]), Item(Name(i + 1, 0), s.files[Name(i + 1, 0)]))
               && s.files[m].hash.value == h;
      var j := NameTold(s, told, m);
      AboveTold(s, told, j);
      AheadIsNewer(s, told, j, i);
    }
    forall h | h in newer
      ensures h in ahead
    {
      var j: nat :| j < |told| && Recalled(told, j) && Newer(told, j, i) && told[j].req.hash == h;
      AboveTold(s, told, j);
      AheadIsNewer(s, told, j, i);
    }
  }

  lemma BeforeExactly(s: State, told: seq<Acceptance>, hash: string, now: nat)
    requires HoldsTold(s, told)
    ensures Repeated(s.files, hash, now) <==> ToldBefore(told, hash, now)
  {
    if Repeated(s.files, hash, now) {
      var n :| n in s.files && Reached(s.files, n) && |HashesAhead(s.files, n)| < 1024
               && s.files[n].hash == Some(hash) && StampedSince(s.files[n], now - 86_400_000_000);
      var i := NameTold(s, told, n);
      AboveTold(s, told, i);
      NewerExactly(s, told, i);
    }
    if ToldBefore(told, hash, now) {
      var i: nat :| i < |told| && Recalled(told, i) && told[i].req.hash == hash
                    && Second(told[i].req.now) >= now - 86_400_000_000 && |NewerHashes(told, i)| < 1024;
      AboveTold(s, told, i);
      NewerExactly(s, told, i);
    }
  }

  // ---- one call

  lemma NothingGoes(s: State, told: seq<Acceptance>, hash: string)
    requires HoldsTold(s, told)
    ensures Tidied(s, hash, None) == s.files
  {
  }

  lemma NextTold(s: State, told: seq<Acceptance>, number: nat)
    requires HoldsTold(s, told) && Next(s.files, s.branches, number)
    ensures number == |told| + 1
  {
    assert |told| > 0 ==> Name(|told|, 0) in s.files;
    assert AboveFiles(s.files, |told| + 1) && Name(|told| + 1, 0) !in s.branches;
  }

  lemma OneMoreTold(s: State, told: seq<Acceptance>, req: Request)
    requires HoldsTold(s, told)
    ensures
      var n := |told| + 1;
      HoldsTold(State(s.files[Name(n, 0) := Finished(req)], s.branches + {Name(n, 0)}), told + [Acceptance(n, req)])
  {
    assert Numbered(1, |told| + 2) == Numbered(1, |told| + 1) + {Name(|told| + 1, 0)};
  }

  /** What a call is told, given what was told before. */
  ghost predicate Replies(told: seq<Acceptance>, call: Call, o: Outcome) {
    var full, before := ToldEnough(told, call.req.caller, call.req.now), ToldBefore(told, call.req.hash, call.req.now);
    && (o == ContentRejected <==> call.req.hasNul)
    && (o == NoSigningKey <==> !call.req.hasNul && !call.env.keyPresent)
    && (o == RateLimited <==> Signed(call.req, call.env) && full)
    && (o == Duplicate <==> Signed(call.req, call.env) && !full && before)
    && (o == HeadUnresolved <==> Signed(call.req, call.env) && !full && !before && !call.env.headResolves)
    && (o == Accepted(|told| + 1) <==> Signed(call.req, call.env) && !full && !before && call.env.headResolves)
  }

  lemma CallReplies(s: State, told: seq<Acceptance>, call: Call)
    requires HoldsTold(s, told) && Calm(call.env)
    ensures
      var (t, o) := Propose(s, call.req, call.env);
      && Replies(told, call, o)
      && (if o.Accepted? then o.number == |told| + 1 && HoldsTold(t, told + [Acceptance(o.number, call.req)])
          else HoldsTold(t, told))
  {
    var (t, o) := Propose(s, call.req, call.env);
    AnswerExact(s, call.req, call.env);
    NothingGoes(s, told, call.req.hash);
    EnoughExactly(s, told, call.req.caller, call.req.now);
    BeforeExactly(s, told, call.req.hash, call.req.now);
    AnswerReplies(s, told, call, t, o);
  }

  lemma AnswerReplies(s: State, told: seq<Acceptance>, call: Call, t: State, o: Outcome)
    requires HoldsTold(s, told) && Calm(call.env)
    requires Answers(s.files, s.branches, call.req, call.env, false, ToldEnough(told, call.req.caller, call.req.now),
                     ToldBefore(told, call.req.hash, call.req.now), t, o)
    ensures Replies(told, call, o)
    ensures if o.Accepted? then o.number == |told| + 1 && HoldsTold(t, told + [Acceptance(o.number, call.req)])
            else HoldsTold(t, told)
  {
    OneMoreTold(s, told, call.req);
    if ConcludesSome(s.files, s.branches, call.req, call.env, t, o) {
      var number: nat :| Next(s.files, s.branches, number)
                         && Concludes(s.files, s.branches, call.req, call.env, number, t, o);
      NextTold(s, told, number);
    }
  }

  lemma TellsOneMore(s: State, calls: seq<Call>)
    requires calls != []
    ensures
      var told, last := Acceptances(s, calls[..|calls| - 1]), calls[|calls| - 1];
      var o := Propose(After(s, calls[..|calls| - 1]), last.req, last.env).1;
      Acceptances(s, calls) == if o.Accepted? then told + [Acceptance(o.number, last.req)] else told
  {
  }

  lemma {:induction false} RunHolds(calls: seq<Call>)
    requires CalmRun(calls)
    ensures HoldsTold(After(State(map[], {}), calls), Acceptances(State(map[], {}), calls))
  {
    if calls == [] {
      assert Numbered(1, 1) == {};
    } else {
      var s, front, last := State(map[], {}), calls[..|calls| - 1], calls[|calls| - 1];
      RunHolds(front);
      CallReplies(After(s, front), Acceptances(s, front), last);
      TellsOneMore(s, calls);
    }
  }

  /** Over every such run, however long and with stamps in any order: the last call is
      told that the limit is reached exactly when ten of the caller's acceptances
      before it, among the last 2048, are of the last hour; that its body is a repeat
      exactly when there is room and the body was accepted in the last day, with fewer
      than 1024 different ones since; and otherwise the next number. */
  lemma RunReplies(calls: seq<Call>)
    requires CalmRun(calls) && calls != []
    ensures
      var s, front := State(map[], {}), calls[..|calls| - 1];
      Replies(Acceptances(s, front), calls[|calls| - 1], Answer(s, calls))
  {
    var s, front := State(map[], {}), calls[..|calls| - 1];
    RunHolds(front);
    CallReplies(After(s, front), Acceptances(s, front), calls[|calls| - 1]);
  }

  /** Over every run, from any start and whatever fails, the last call is answered
      exactly by what the calls before it left. */
  lemma RunAnswers(s: State, calls: seq<Call>)
    requires calls != []
    ensures
      var before, last := After(s, calls[..|calls| - 1]), calls[|calls| - 1];
      var files := Screened(before, last.req, last.env);
      Answers(files, before.branches, last.req, last.env, Raises(before.files, last.req.hash, last.env.orphanFault),
              Full(files, last.req.caller, last.req.now), Repeated(files, last.req.hash, last.req.now),
              After(s, calls), Answer(s, calls))
  {
    AnswerExact(After(s, calls[..|calls| - 1]), calls[|calls| - 1].req, calls[|calls| - 1].env);
  }
}
