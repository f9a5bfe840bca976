/** The proposal queue: numbered proposal files and git branches, a rolling rate
    limit, a 24-hour duplicate index, recovery of orphaned files, id allocation and
    rollback. One call runs under the creation lock from start to end. */
module Proposals {
  import opened Ordering

  /** Time is counted in microseconds from the earliest representable instant. */
  const SECOND: nat := 1_000_000
  const HOUR: nat := 3_600_000_000
  const DAY: nat := 86_400_000_000

  const RATE_LIMIT: nat := 10
  const HASH_LIMIT: nat := 1024
  const SCAN_LIMIT: nat := 2048

  /** `PROP-<number>`, with so many zeros in front beyond the usual three digits. A
      file and its branch share the name. */
  datatype Name = Name(number: nat, zeros: nat)

  /** What the scan reads back from a file; parts may be missing or unreadable. */
  datatype Record = Record(queuedAt: Option<nat>, caller: Option<string>, hash: Option<string>)

  datatype Item = Item(name: Name, record: Record)

  type Files = map<Name, Record>

  datatype State = State(files: Files, branches: set<Name>)

  // ---- scanning

  /** Descending by number, ties as path names compare. */
  predicate NameGe(a: Name, b: Name) {
    || a.number > b.number
    || (a.number == b.number
        && (a.zeros == b.zeros || (if a.number == 0 then a.zeros > b.zeros else a.zeros < b.zeros)))
  }

  function Stamp(i: Item): nat {
    if i.record.queuedAt.Some? then i.record.queuedAt.value else 0
  }

  predicate StampGe(a: Item, b: Item) {
    Stamp(a) >= Stamp(b)
  }

  function ItemsOf(names: seq<Name>, files: Files): seq<Item>
    requires forall n :: n in names ==> n in files
  {
    seq(|names|, i requires 0 <= i < |names| => Item(names[i], files[names[i]]))
  }

  function First<T>(s: seq<T>, max: nat): seq<T> {
    if |s| <= max then s else s[..max]
  }

  ghost function ScannedNames(files: Files): (r: seq<Name>)
    ensures forall n :: n in r ==> n in files
  {
    SortElements(Enumerate(files.Keys), NameGe);
    First(Sort(Enumerate(files.Keys), NameGe), SCAN_LIMIT)
  }

  /** The records of the highest-numbered files, latest first. */
  ghost function Scan(files: Files): seq<Item> {
    Sort(ItemsOf(ScannedNames(files), files), StampGe)
  }

  lemma NameGeIsTotal()
    ensures TotalOrder(NameGe)
  {
  }

  lemma StampGeIsTotal()
    ensures TotalPreorder(StampGe)
  {
  }

  ghost predicate ItemIn(files: Files, i: Item) {
    i.name in files && files[i.name] == i.record
  }

  lemma FirstIsPrefix<T>(s: seq<T>, max: nat)
    ensures |First(s, max)| == if |s| <= max then |s| else max
    ensures forall j :: 0 <= j < |First(s, max)| ==> First(s, max)[j] == s[j]
  {
  }

  /** The files listed in front of `n`. */
  ghost function Above(files: Files, n: Name): set<Name> {
    set m | m in files && m != n && NameGe(m, n)
  }

  /** `n` is among the `SCAN_LIMIT` highest numbers. */
  ghost predicate Reached(files: Files, n: Name) {
    |Above(files, n)| < SCAN_LIMIT
  }

  /** A file's position in the sorted listing is the number of files above it. */
  lemma PositionIsAbove(files: Files, all: seq<Name>, i: nat)
    requires Ordered(all, NameGe) && Distinct(all) && forall n :: n in all <==> n in files
    requires i < |all|
    ensures |Above(files, all[i])| == i
  {
    var front := all[..i];
    ElemsMembers(front);
    ElemsCardinality(front);
    forall m
      ensures m in Above(files, all[i]) <==> m in front
    {
      if m in Above(files, all[i]) {
        var j :| 0 <= j < |all| && all[j] == m;
        assert i < j ==> NameGe(all[i], all[j]);
        assert front[j] == m;
      }
    }
    assert Above(files, all[i]) == Elems(front);
  }

  lemma ScannedNamesFacts(files: Files)
    ensures Distinct(ScannedNames(files))
    ensures forall n :: n in ScannedNames(files) <==> n in files && Reached(files, n)
  {
    var listed := Enumerate(files.Keys);
    var all := Sort(listed, NameGe);
    NameGeIsTotal();
    SortElements(listed, NameGe);
    SortOrdered(listed, NameGe);
    SortDistinct(listed, NameGe);
    FirstOfSorted(files, all);
  }

  lemma FirstOfSorted(files: Files, all: seq<Name>)
    requires Ordered(all, NameGe) && Distinct(all) && forall n :: n in all <==> n in files
    ensures Distinct(First(all, SCAN_LIMIT))
    ensures forall n :: n in First(all, SCAN_LIMIT) <==> n in files && Reached(files, n)
  {
    FirstIsPrefix(all, SCAN_LIMIT);
    forall n | n in files
      ensures n in First(all, SCAN_LIMIT) <==> Reached(files, n)
    {
      var i: nat :| i < |all| && all[i] == n;
      PositionIsAbove(files, all, i);
      if i < SCAN_LIMIT {
        assert First(all, SCAN_LIMIT)[i] == n;
      }
    }
  }

  /** A duplicate-free reading, latest first, of exactly the files it reaches. */
  ghost predicate Faithful(files: Files, items: seq<Item>) {
    && Ordered(items, StampGe) && Distinct(items)
    && (forall i :: i in items ==> ItemIn(files, i) && Reached(files, i.name))
    && (forall n :: n in files && Reached(files, n) ==> Item(n, files[n]) in items)
  }

  /** However many files there are, the scan reads exactly the `SCAN_LIMIT` highest
      numbers, once each, latest first. */
  lemma ScanFacts(files: Files)
    ensures Faithful(files, Scan(files))
  {
    var names := ScannedNames(files);
    var items := ItemsOf(names, files);
    ScannedNamesFacts(files);
    StampGeIsTotal();
    SortElements(items, StampGe);
    SortOrdered(items, StampGe);
    ItemsOfFacts(names, files);
    SortDistinct(items, StampGe);
  }

  lemma SmallQueueReached(files: Files, n: Name)
    requires n in files && |files| <= SCAN_LIMIT
    ensures Reached(files, n)
  {
    SubsetCardinality(Above(files, n), files.Keys - {n});
    assert |files.Keys| == |files|;
  }

  lemma ItemsOfFacts(names: seq<Name>, files: Files)
    requires Distinct(names) && forall n :: n in names ==> n in files
    ensures Distinct(ItemsOf(names, files)) && |ItemsOf(names, files)| == |names|
    ensures forall i :: i in ItemsOf(names, files) <==> i.name in names && files[i.name] == i.record
  {
    var items := ItemsOf(names, files);
    forall i, j | 0 <= i < j < |items|
      ensures items[i] != items[j]
    {
      assert items[i].name == names[i] && items[j].name == names[j];
    }
    forall n | n in names
      ensures Item(n, files[n]) in items
    {
      var k :| 0 <= k < |names| && names[k] == n;
      assert items[k] == Item(n, files[n]);
    }
  }

  /** The directory, listed in any order. */
  method ListProposals(files: Files) returns (candidates: seq<Name>)
    ensures Distinct(candidates) && forall n :: n in candidates <==> n in files
  {
    candidates := [];
    var pending := files.Keys;
    while pending != {}
      invariant pending <= files.Keys && Distinct(candidates)
      invariant forall n :: n in candidates <==> n in files && n !in pending
    {
      var n :| n in pending;
      candidates, pending := candidates + [n], pending - {n};
    }
  }

  method ReadProposals(names: seq<Name>, files: Files) returns (records: seq<Item>)
    requires forall n :: n in names ==> n in files
    ensures records == ItemsOf(names, files)
  {
    records := [];
    for i := 0 to |names|
      invariant |records| == i && forall j :: 0 <= j < i ==> records[j] == Item(names[j], files[names[j]])
    {
      records := records + [Item(names[i], files[names[i]])];
    }
  }

  ghost predicate LatestFirst(items: seq<Item>) {
    Ordered(items, StampGe)
  }

  lemma ScanOrdered(files: Files)
    ensures Ordered(Scan(files), StampGe)
  {
    StampGeIsTotal();
    SortOrdered(ItemsOf(ScannedNames(files), files), StampGe);
  }

  /** List, sort by number, cap, read, sort by stamp. */
  method IterExistingProposals(files: Files) returns (records: seq<Item>)
    ensures records == Scan(files) && LatestFirst(records)
  {
    var candidates := ListProposals(files);
    ScannedFromAnyListing(candidates, files);
    records := ReadProposals(First(Sort(candidates, NameGe), SCAN_LIMIT), files);
    records := Sort(records, StampGe);
    ScanOrdered(files);
  }

  /** What is scanned does not depend on the order the directory is listed in. */
  lemma ScannedFromAnyListing(candidates: seq<Name>, files: Files)
    requires Distinct(candidates) && forall n :: n in candidates <==> n in files
    ensures First(Sort(candidates, NameGe), SCAN_LIMIT) == ScannedNames(files)
  {
    NameGeIsTotal();
    SortOfAnyOrder(candidates, Enumerate(files.Keys), NameGe);
  }

  // ---- the rate limit

  predicate IsRecent(r: Record, caller: string, cutoff: int) {
    r.queuedAt.Some? && r.queuedAt.value >= cutoff && r.caller == Some(caller)
  }

  ghost function CountRecent(items: seq<Item>, caller: string, cutoff: int): nat {
    if items == [] then 0
    else
      var last := items[|items| - 1];
      CountRecent(items[..|items| - 1], caller, cutoff) + if IsRecent(last.record, caller, cutoff) then 1 else 0
  }

  ghost predicate Exceeds(items: seq<Item>, caller: string, cutoff: int) {
    CountRecent(items, caller, cutoff) >= RATE_LIMIT
  }

  ghost predicate RateExceeded(files: Files, caller: string, now: nat) {
    Exceeds(Scan(files), caller, now - HOUR)
  }

  lemma CountRecentStep(items: seq<Item>, k: nat, caller: string, cutoff: int)
    requires k < |items|
    ensures CountRecent(items[..k + 1], caller, cutoff)
         == CountRecent(items[..k], caller, cutoff) + if IsRecent(items[k].record, caller, cutoff) then 1 else 0
  {
    TakeTake(items, k + 1, k);
  }

  lemma {:induction false} CountRecentGrows(items: seq<Item>, k: nat, caller: string, cutoff: int)
    requires k <= |items|
    ensures CountRecent(items[..k], caller, cutoff) <= CountRecent(items, caller, cutoff)
  {
    if k < |items| {
      TakeTake(items, |items| - 1, k);
      CountRecentGrows(items[..|items| - 1], k, caller, cutoff);
    } else {
      assert items[..k] == items;
    }
  }

  /** Behind a record that is too old there are only records that are too old. */
  lemma {:induction false} NoneRecentAfter(items: seq<Item>, k: nat, caller: string, cutoff: nat)
    requires k < |items| && cutoff > 0 && Ordered(items, StampGe) && Stamp(items[k]) < cutoff
    ensures CountRecent(items, caller, cutoff) == CountRecent(items[..k], caller, cutoff)
  {
    var front := items[..|items| - 1];
    TakeTake(items, |items| - 1, k);
    assert k < |items| - 1 ==> StampGe(items[k], items[|items| - 1]);
    if k < |items| - 1 {
      NoneRecentAfter(front, k, caller, cutoff);
    }
  }

  /** Counts down the scan and stops at the first record that is too old: sound
      because the scan is latest first. */
  method ProposalRateLimitExceeded(files: Files, caller: string, now: nat) returns (r: bool)
    requires now > DAY
    ensures r <==> RateExceeded(files, caller, now)
  {
    var items := IterExistingProposals(files);
    r := CountDown(items, caller, now - HOUR);
  }

  method CountDown(items: seq<Item>, caller: string, cutoff: nat) returns (r: bool)
    requires cutoff > 0 && LatestFirst(items)
    ensures r <==> Exceeds(items, caller, cutoff)
  {
    var recent := 0;
    for k := 0 to |items|
      invariant recent == CountRecent(items[..k], caller, cutoff) < RATE_LIMIT
    {
      var record := items[k].record;
      CountRecentStep(items, k, caller, cutoff);
      if record.queuedAt.None? || record.queuedAt.value < cutoff {
        NoneRecentAfter(items, k, caller, cutoff);
        return false;
      }
      if record.caller != Some(caller) {
        continue;
      }
      recent := recent + 1;
      if recent >= RATE_LIMIT {
        CountRecentGrows(items, k + 1, caller, cutoff);
        return true;
      }
    }
    assert items[..|items|] == items;
    return false;
  }

  // ---- the duplicate index

  function IndexInto(index: map<string, nat>, i: Item): map<string, nat> {
    if i.record.hash.None? || i.record.queuedAt.None? || i.record.hash.value in index then index
    else index[i.record.hash.value := i.record.queuedAt.value]
  }

  /** The latest stamp of each hash, until `HASH_LIMIT` hashes are known. */
  function IndexFrom(items: seq<Item>, index: map<string, nat>): map<string, nat> {
    if items == [] then index
    else
      var next := IndexInto(index, items[0]);
      if next != index && |next| >= HASH_LIMIT then next else IndexFrom(items[1..], next)
  }

  ghost predicate IsDuplicate(files: Files, hash: string, now: nat) {
    var index := IndexFrom(Scan(files), map[]);
    hash in index && index[hash] >= now - DAY
  }

  method RecentProposalHashes(files: Files) returns (recent: map<string, nat>)
    ensures recent == IndexFrom(Scan(files), map[])
  {
    var items := IterExistingProposals(files);
    recent := map[];
    assert items[0..] == items;
    for k := 0 to |items|
      invariant IndexFrom(items[k..], recent) == IndexFrom(items, map[])
    {
      var record := items[k].record;
      assert items[k..][0] == items[k] && items[k..][1..] == items[k + 1..];
      if record.hash.None? || record.queuedAt.None? {
        continue;
      }
      if record.hash.value in recent {
        continue;
      }
      recent := recent[record.hash.value := record.queuedAt.value];
      if |recent| >= HASH_LIMIT {
        break;
      }
    }
  }

  method ProposalIsDuplicate(files: Files, hash: string, now: nat) returns (r: bool)
    ensures r <==> IsDuplicate(files, hash, now)
  {
    var recent := RecentProposalHashes(files);
    return hash in recent && recent[hash] >= now - DAY;
  }

  // ---- orphans

  predicate IsOrphan(i: Item, branches: set<Name>, hash: string) {
    i.record.hash == Some(hash) && i.name !in branches
  }

  /** The scan up to the item whose check raises, if one does. */
  ghost function Checked(items: seq<Item>, hash: string, fault: Option<nat>): seq<Item> {
    if CheckRaises(items, hash, fault) then items[..fault.value] else items
  }

  ghost predicate CheckRaises(items: seq<Item>, hash: string, fault: Option<nat>) {
    fault.Some? && fault.value < |items| && items[fault.value].record.hash == Some(hash)
  }

  ghost function Orphans(items: seq<Item>, branches: set<Name>, hash: string): set<Name> {
    if items == [] then {}
    else
      var last := items[|items| - 1];
      Orphans(items[..|items| - 1], branches, hash) + if IsOrphan(last, branches, hash) then {last.name} else {}
  }

  lemma OrphansStep(items: seq<Item>, k: nat, branches: set<Name>, hash: string)
    requires k < |items|
    ensures Orphans(items[..k + 1], branches, hash)
         == Orphans(items[..k], branches, hash) + if IsOrphan(items[k], branches, hash) then {items[k].name} else {}
  {
    TakeTake(items, k + 1, k);
  }

  ghost function Cleared(s: State, hash: string, fault: Option<nat>): Files {
    s.files - Orphans(Checked(Scan(s.files), hash, fault), s.branches, hash)
  }

  /** Unlinking one more name after the names `gone`. */
  function RemoveName(files: Files, name: Name, ghost before: Files, ghost gone: set<Name>): (r: Files)
    requires files == before - gone
    ensures r == before - (gone + {name})
  {
    files - {name}
  }

  // ---- numbers

  ghost predicate IsHighest(files: Files, highest: nat) {
    && (forall n :: n in files ==> n.number <= highest)
    && (highest == 0 || exists n :: n in files && n.number == highest)
  }

  ghost function Highest(files: Files): (h: nat)
    ensures IsHighest(files, h)
    decreases files.Keys
  {
    if files == map[] then 0
    else
      var n :| n in files;
      var rest := files - {n};
      assert rest.Keys == files.Keys - {n};
      var h := Highest(rest);
      assert forall m :: m in files ==> m == n || m in rest;
      if h < n.number then n.number else h
  }

  method HighestNumber(files: Files) returns (highest: nat)
    ensures highest == Highest(files)
  {
    highest := 0;
    var pending := files.Keys;
    while pending != {}
      invariant pending <= files.Keys
      invariant forall n :: n in files && n !in pending ==> n.number <= highest
      invariant highest == 0 || exists n :: n in files && n.number == highest
    {
      var n :| n in pending;
      pending := pending - {n};
      if highest < n.number {
        highest := n.number;
      }
    }
    HighestUnique(files, highest, Highest(files));
  }

  lemma HighestUnique(files: Files, h: nat, h': nat)
    requires IsHighest(files, h) && IsHighest(files, h')
    ensures h == h'
  {
  }

  /** Branches the search may still run into. */
  ghost function TakenFrom(branches: set<Name>, n: nat): set<Name> {
    set b | b in branches && b.number >= n
  }

  /** The first number from `n` on whose branch is free. */
  ghost function FirstFree(n: nat, branches: set<Name>): (r: nat)
    ensures r >= n && Name(r, 0) !in branches
    ensures forall k :: n <= k < r ==> Name(k, 0) in branches
    decreases TakenFrom(branches, n)
  {
    if Name(n, 0) !in branches then n
    else
      assert Name(n, 0) in TakenFrom(branches, n) && Name(n, 0) !in TakenFrom(branches, n + 1);
      FirstFree(n + 1, branches)
  }

  // ---- one call

  datatype Request = Request(hash: string, hasNul: bool, caller: string, now: nat)

  /** A partly written file breaks off before the stamp, before the metadata, or after. */
  datatype Cut = BeforeStamp | BeforeMetadata | AfterMetadata

  datatype WriteResult = Written | NotCreated | BrokenOff(cut: Cut)

  /** A failing `git branch` may still have made the branch, as on a timeout. */
  datatype BranchResult = BranchMade | BranchRefused | BranchMadeButFailed

  /** What the outside world does during a call: the faults it injects. */
  datatype Env = Env(keyPresent: bool, orphanFault: Option<nat>, headResolves: bool, probeFault: Option<nat>,
                     write: WriteResult, branch: BranchResult, unlinkWorks: bool)

  datatype Outcome =
    | Accepted(number: nat)
    | ContentRejected
    | NoSigningKey
    | OrphanCheckFailed
    | RateLimited
    | Duplicate
    | HeadUnresolved
    | ProbeFailed
    | AlreadyExists
    | WriteFailed
    | BranchFailed

  function WholeSecond(now: nat): nat {
    now - now % SECOND
  }

  function RecordFor(req: Request): Record {
    Record(Some(WholeSecond(req.now)), Some(req.caller), Some(req.hash))
  }

  function CutOff(r: Record, cut: Cut): Record {
    match cut
    case BeforeStamp => Record(None, None, None)
    case BeforeMetadata => Record(r.queuedAt, None, None)
    case AfterMetadata => r
  }

  function Publish(s: State, name: Name, record: Record, env: Env): (State, Outcome) {
    if env.write.NotCreated? then (s, WriteFailed)
    else if name in s.files then (s, AlreadyExists)
    else
      match env.write
      case BrokenOff(cut) => (s.(files := s.files[name := CutOff(record, cut)]), WriteFailed)
      case _ =>
      if env.branch.BranchMade? then (State(s.files[name := record], s.branches + {name}), Accepted(name.number))
      else
        var branches := if env.branch.BranchMadeButFailed? then s.branches + {name} else s.branches;
        (State(if env.unlinkWorks then s.files else s.files[name := record], branches), BranchFailed)
  }

  /** The first check that fails, if one does. */
  function Verdict(req: Request, env: Env, raises: bool, limited: bool, duplicate: bool): Option<Outcome> {
    if req.hasNul then Some(ContentRejected)
    else if !env.keyPresent then Some(NoSigningKey)
    else if raises then Some(OrphanCheckFailed)
    else if limited then Some(RateLimited)
    else if duplicate then Some(Duplicate)
    else if !env.headResolves then Some(HeadUnresolved)
    else None
  }

  /** What is left of the files when the checks are over, and the refusal if there
      is one. */
  ghost function Screen(s: State, req: Request, env: Env): (Files, Option<Outcome>) {
    var cleared := if req.hasNul || !env.keyPresent then s.files else Cleared(s, req.hash, env.orphanFault);
    (cleared, Verdict(req, env, CheckRaises(Scan(s.files), req.hash, env.orphanFault),
                      RateExceeded(cleared, req.caller, req.now), IsDuplicate(cleared, req.hash, req.now)))
  }

  /** Number, write, branch. */
  ghost function Allocate(s: State, req: Request, env: Env): (State, Outcome) {
    var start := Highest(s.files) + 1;
    var number := FirstFree(start, s.branches);
    if env.probeFault.Some? && start + env.probeFault.value <= number then (s, ProbeFailed)
    else Publish(s, Name(number, 0), RecordFor(req), env)
  }

  ghost function Conclude(screened: State, refusal: Option<Outcome>, req: Request, env: Env): (State, Outcome) {
    if refusal.Some? then (screened, refusal.value) else Allocate(screened, req, env)
  }

  ghost function Propose(s: State, req: Request, env: Env): (State, Outcome) {
    var (files, refusal) := Screen(s, req, env);
    Conclude(State(files, s.branches), refusal, req, env)
  }

  class ProposalQueue {
    var files: Files
    var branches: set<Name>

    constructor (files: Files, branches: set<Name>)
      ensures this.files == files && this.branches == branches
    {
      this.files, this.branches := files, branches;
    }

    ghost function Contents(): State
      reads this
    {
      State(files, branches)
    }

    method RemoveOrphanedDuplicates(hash: string, fault: Option<nat>) returns (raised: bool)
      modifies this`files
      ensures files == Cleared(old(Contents()), hash, fault)
      ensures raised <==> CheckRaises(Scan(old(files)), hash, fault)
    {
      var items := IterExistingProposals(files);
      raised := RemoveOrphans(items, hash, fault);
    }

    method RemoveOrphans(items: seq<Item>, hash: string, fault: Option<nat>) returns (raised: bool)
      modifies this`files
      ensures files == old(files) - Orphans(Checked(items, hash, fault), branches, hash)
      ensures raised <==> CheckRaises(items, hash, fault)
    {
      ghost var before := files;
      for k := 0 to |items|
        invariant CheckRaises(items, hash, fault) ==> k <= fault.value
        invariant files == before - Orphans(items[..k], branches, hash)
      {
        var item := items[k];
        OrphansStep(items, k, branches, hash);
        if item.record.hash != Some(hash) {
          continue;
        }
        if fault == Some(k) {
          return true;
        }
        if item.name in branches {
          continue;
        }
        files := RemoveName(files, item.name, before, Orphans(items[..k], branches, hash));
      }
      assert items[..|items|] == items;
      return false;
    }

    method ScreenRequest(req: Request, env: Env) returns (refusal: Option<Outcome>)
      requires req.now > DAY
      modifies this`files
      ensures (files, refusal) == Screen(old(Contents()), req, env)
    {
      if req.hasNul {
        return Some(ContentRejected);
      }
      if !env.keyPresent {
        return Some(NoSigningKey);
      }
      var raised := RemoveOrphanedDuplicates(req.hash, env.orphanFault);
      if raised {
        return Some(OrphanCheckFailed);
      }
      var limited := ProposalRateLimitExceeded(files, req.caller, req.now);
      if limited {
        return Some(RateLimited);
      }
      var duplicate := ProposalIsDuplicate(files, req.hash, req.now);
      if duplicate {
        return Some(Duplicate);
      }
      return if env.headResolves then None else Some(HeadUnresolved);
    }

    method ProposeImpl(req: Request, env: Env) returns (outcome: Outcome)
      requires req.now > DAY
      modifies this
      ensures (Contents(), outcome) == Propose(old(Contents()), req, env)
    {
      var refusal := ScreenRequest(req, env);
      if refusal.Some? {
        return refusal.value;
      }
      outcome := AllocateProposal(req, env);
    }

    method AllocateProposal(req: Request, env: Env) returns (outcome: Outcome)
      modifies this
      ensures (Contents(), outcome) == Allocate(old(Contents()), req, env)
    {
      var highest := HighestNumber(files);
      var number := FindNumber(highest + 1, env.probeFault);
      if number.None? {
        return ProbeFailed;
      }
      outcome := WriteAndBranch(Name(number.value, 0), RecordFor(req), env);
    }

    /** Probe number after number until one has no branch. */
    method FindNumber(start: nat, probeFault: Option<nat>) returns (number: Option<nat>)
      ensures number == if probeFault.Some? && start + probeFault.value <= FirstFree(start, branches) then None
                        else Some(FirstFree(start, branches))
    {
      var n := start;
      while true
        invariant n >= start && FirstFree(n, branches) == FirstFree(start, branches)
        invariant probeFault.Some? ==> n <= start + probeFault.value
        decreases TakenFrom(branches, n)
      {
        if probeFault == Some(n - start) {
          return None;
        }
        if Name(n, 0) !in branches {
          return Some(n);
        }
        assert Name(n, 0) in TakenFrom(branches, n) && Name(n, 0) !in TakenFrom(branches, n + 1);
        n := n + 1;
      }
    }

    /** The exclusive create, and the branch; a failed branch takes the file back. */
    method WriteAndBranch(name: Name, record: Record, env: Env) returns (outcome: Outcome)
      modifies this
      ensures (Contents(), outcome) == Publish(old(Contents()), name, record, env)
    {
      if env.write.NotCreated? {
        return WriteFailed;
      }
      if name in files {
        return AlreadyExists;
      }
      if env.write.BrokenOff? {
        files := files[name := CutOff(record, env.write.cut)];
        return WriteFailed;
      }
      ghost var before := files;
      files := files[name := record];
      if !env.branch.BranchRefused? {
        branches := branches + {name};
      }
      if !env.branch.BranchMade? {
        if env.unlinkWorks {
          files := files - {name};
          assert files == before;
        }
        return BranchFailed;
      }
      return Accepted(name.number);
    }
  }
}
