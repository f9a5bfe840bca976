/** The shared audit result cache: expiry times and least-recently-used eviction on
    one ordered dict, touched only in lock-protected steps. A run is any sequence of
    such steps, so it covers every interleaving of requests. */
module AuditCache {
  import opened Ordering

  /** An item of the OrderedDict; the dict is the sequence, least recently used first. */
  datatype Entry<R> = Entry(key: string, expiresAt: real, response: R)

  ghost predicate UniqueKeys<R>(entries: seq<Entry<R>>) {
    forall i, j :: 0 <= i < j < |entries| ==> entries[i].key != entries[j].key
  }

  function Without<R>(entries: seq<Entry<R>>, keys: set<string>): seq<Entry<R>> {
    if entries == [] then []
    else
      var rest, last := Without(entries[..|entries| - 1], keys), entries[|entries| - 1];
      if last.key in keys then rest else rest + [last]
  }

  function Get<R>(entries: seq<Entry<R>>, key: string): Option<Entry<R>> {
    if entries == [] then None
    else if entries[|entries| - 1].key == key then Some(entries[|entries| - 1])
    else Get(entries[..|entries| - 1], key)
  }

  function ExpiredKeys<R>(entries: seq<Entry<R>>, now: real): set<string> {
    if entries == [] then {}
    else
      var rest, last := ExpiredKeys(entries[..|entries| - 1], now), entries[|entries| - 1];
      if last.expiresAt <= now then rest + {last.key} else rest
  }

  /** The last `max` entries. */
  function Newest<R>(entries: seq<Entry<R>>, max: nat): seq<Entry<R>> {
    if |entries| <= max then entries else entries[|entries| - max..]
  }

  // ---- the three steps, on values

  function Pruned<R>(entries: seq<Entry<R>>, now: real, max: nat): seq<Entry<R>> {
    Newest(Without(entries, ExpiredKeys(entries, now)), max)
  }

  predicate Hits<R>(entries: seq<Entry<R>>, key: string, now: real) {
    Get(entries, key).Some? && Get(entries, key).value.expiresAt > now
  }

  function Touched<R>(entries: seq<Entry<R>>, key: string, now: real): seq<Entry<R>> {
    if Hits(entries, key, now) then Without(entries, {key}) + [Get(entries, key).value] else entries
  }

  function Put<R>(entries: seq<Entry<R>>, e: Entry<R>): seq<Entry<R>> {
    Without(entries, {e.key}) + [e]
  }

  lemma {:induction false} WithoutTwice<R>(entries: seq<Entry<R>>, ks: set<string>, ks': set<string>)
    ensures Without(Without(entries, ks), ks') == Without(entries, ks + ks')
  {
    if entries != [] {
      var rest, last := entries[..|entries| - 1], entries[|entries| - 1];
      WithoutTwice(rest, ks, ks');
      WithoutSnoc(Without(rest, ks), last, ks');
    }
  }

  lemma WithoutSnoc<R>(entries: seq<Entry<R>>, e: Entry<R>, ks: set<string>)
    ensures Without(entries + [e], ks) == if e.key in ks then Without(entries, ks) else Without(entries, ks) + [e]
  {
    assert (entries + [e])[..|entries|] == entries;
  }

  lemma {:induction false} WithoutNone<R>(entries: seq<Entry<R>>)
    ensures Without(entries, {}) == entries
  {
    if entries != [] {
      WithoutNone(entries[..|entries| - 1]);
      SplitLast(entries);
    }
  }

  // ---- the cache

  class Cache<R> {
    var entries: seq<Entry<R>>

    constructor ()
      ensures entries == []
    {
      entries := [];
    }

    /** Collect the expired keys, pop them, then pop from the front down to `max`. */
    method Prune(now: real, max: nat)
      modifies this
      ensures entries == Pruned(old(entries), now, max)
    {
      var expired := Expired(now);
      PopAll(expired);
      Trim(max);
    }

    method Expired(now: real) returns (expired: seq<string>)
      ensures Elems(expired) == ExpiredKeys(entries, now)
    {
      expired := [];
      for i := 0 to |entries|
        invariant Elems(expired) == ExpiredKeys(entries[..i], now)
      {
        TakeTake(entries, i + 1, i);
        if entries[i].expiresAt <= now {
          assert (expired + [entries[i].key])[..|expired|] == expired;
          expired := expired + [entries[i].key];
        }
      }
      assert entries[..|entries|] == entries;
    }

    method PopAll(keys: seq<string>)
      modifies this
      ensures entries == Without(old(entries), Elems(keys))
    {
      WithoutNone(entries);
      for i := 0 to |keys|
        invariant entries == Without(old(entries), Elems(keys[..i]))
      {
        TakeTake(keys, i + 1, i);
        WithoutTwice(old(entries), Elems(keys[..i]), {keys[i]});
        entries := Without(entries, {keys[i]});
      }
      assert keys[..|keys|] == keys;
    }

    method Trim(max: nat)
      modifies this
      ensures entries == Newest(old(entries), max)
    {
      ghost var live := entries;
      while |entries| > max
        invariant |entries| <= |live| && entries == live[|live| - |entries|..]
        invariant |live| <= max ==> entries == live
        invariant |live| > max ==> |entries| >= max
      {
        entries := entries[1..];
      }
    }

    /** The locked lookup: a hit moves its entry to the end. */
    method Lookup(key: string, now: real) returns (response: Option<R>)
      modifies this
      ensures entries == Touched(old(entries), key, now)
      ensures response == if Hits(old(entries), key, now) then Some(Get(old(entries), key).value.response) else None
    {
      var cached := Get(entries, key);
      if cached.Some? && cached.value.expiresAt > now {
        entries := Without(entries, {key}) + [cached.value];
        return Some(cached.value.response);
      }
      return None;
    }

    /** The locked insert of a completed audit. */
    method Store(e: Entry<R>, now: real, max: nat)
      modifies this
      ensures entries == Pruned(Put(old(entries), e), now, max)
    {
      entries := Without(entries, {e.key}) + [e];
      Prune(now, max);
    }
  }

  // ---- runs of steps

  datatype Step<R> =
    | PruneStep(now: real, max: nat)
    | LookupStep(key: string, now: real)
    | StoreStep(entry: Entry<R>, now: real, max: nat)

  function Apply<R>(entries: seq<Entry<R>>, step: Step<R>): seq<Entry<R>> {
    match step
    case PruneStep(now, max) => Pruned(entries, now, max)
    case LookupStep(key, now) => Touched(entries, key, now)
    case StoreStep(e, now, max) => Pruned(Put(entries, e), now, max)
  }

  function After<R>(log: seq<Step<R>>): seq<Entry<R>> {
    if log == [] then [] else Apply(After(log[..|log| - 1]), log[|log| - 1])
  }

  /** The entry of the latest completed audit of a key. */
  function LastStored<R>(log: seq<Step<R>>, key: string): Option<Entry<R>> {
    if log == [] then None
    else
      var last := log[|log| - 1];
      if last.StoreStep? && last.entry.key == key then Some(last.entry) else LastStored(log[..|log| - 1], key)
  }

  predicate Uses<R>(entries: seq<Entry<R>>, step: Step<R>, key: string) {
    match step
    case PruneStep(_, _) => false
    case LookupStep(k, now) => k == key && Hits(entries, key, now)
    case StoreStep(e, _, _) => e.key == key
  }

  /** When a key was last stored or served; -1 if never. */
  function LastUse<R>(log: seq<Step<R>>, key: string): int {
    if log == [] then -1
    else if Uses(After(log[..|log| - 1]), log[|log| - 1], key) then |log| - 1
    else LastUse(log[..|log| - 1], key)
  }

  lemma {:induction false} LastUseInLog<R>(log: seq<Step<R>>, key: string)
    ensures -1 <= LastUse(log, key) < |log|
  {
    if log != [] {
      LastUseInLog(log[..|log| - 1], key);
    }
  }

  /** The dict holds the latest stored entry of each of its keys, in order of use. */
  ghost predicate InOrder<R>(log: seq<Step<R>>, entries: seq<Entry<R>>) {
    && (forall i :: 0 <= i < |entries| ==>
          LastStored(log, entries[i].key) == Some(entries[i]) && LastUse(log, entries[i].key) >= 0)
    && (forall i, j :: 0 <= i < j < |entries| ==> LastUse(log, entries[i].key) < LastUse(log, entries[j].key))
  }

  lemma {:induction false} WithoutMembers<R>(entries: seq<Entry<R>>, keys: set<string>)
    ensures forall e :: e in Without(entries, keys) <==> e in entries && e.key !in keys
  {
    if entries != [] {
      WithoutMembers(entries[..|entries| - 1], keys);
      SplitLast(entries);
    }
  }

  lemma {:induction false} WithoutAt<R>(entries: seq<Entry<R>>, keys: set<string>, i: nat) returns (j: nat)
    requires i < |Without(entries, keys)|
    ensures j < |entries| && entries[j] == Without(entries, keys)[i] && entries[j].key !in keys
  {
    var n := |entries| - 1;
    if i < |Without(entries[..n], keys)| {
      j := WithoutAt(entries[..n], keys, i);
    } else {
      j := n;
    }
  }

  lemma {:induction false} WithoutInOrder<R>(log: seq<Step<R>>, entries: seq<Entry<R>>, keys: set<string>)
    requires InOrder(log, entries)
    ensures InOrder(log, Without(entries, keys))
  {
    if entries != [] {
      var rest, last := entries[..|entries| - 1], entries[|entries| - 1];
      WithoutInOrder(log, rest, keys);
      var kept := Without(rest, keys);
      forall i | 0 <= i < |kept|
        ensures LastUse(log, kept[i].key) < LastUse(log, last.key)
      {
        var j := WithoutAt(rest, keys, i);
        assert entries[j] == rest[j];
      }
    }
  }

  lemma NewestInOrder<R>(log: seq<Step<R>>, entries: seq<Entry<R>>, max: nat)
    requires InOrder(log, entries)
    ensures InOrder(log, Newest(entries, max))
  {
  }

  lemma PrunedInOrder<R>(log: seq<Step<R>>, entries: seq<Entry<R>>, now: real, max: nat)
    requires InOrder(log, entries)
    ensures InOrder(log, Pruned(entries, now, max))
  {
    var keys := ExpiredKeys(entries, now);
    WithoutInOrder(log, entries, keys);
    NewestInOrder(log, Without(entries, keys), max);
  }

  /** A step that does not use the listed keys leaves their order alone. */
  lemma UnusedInOrder<R>(log: seq<Step<R>>, step: Step<R>, entries: seq<Entry<R>>)
    requires InOrder(log, entries)
    requires forall i :: 0 <= i < |entries| ==> !Uses(After(log), step, entries[i].key)
    ensures InOrder(log + [step], entries)
    ensures forall i :: 0 <= i < |entries| ==> LastUse(log + [step], entries[i].key) < |log|
  {
    var log' := log + [step];
    assert log'[..|log|] == log;
    forall i | 0 <= i < |entries|
      ensures LastStored(log', entries[i].key) == LastStored(log, entries[i].key)
      ensures LastUse(log', entries[i].key) == LastUse(log, entries[i].key) < |log|
    {
      LastUseInLog(log, entries[i].key);
    }
  }

  /** Moving the entry just used to the end keeps the order. */
  lemma MovedInOrder<R>(log: seq<Step<R>>, step: Step<R>, e: Entry<R>)
    requires InOrder(log, After(log)) && Uses(After(log), step, e.key)
    requires LastStored(log + [step], e.key) == Some(e)
    ensures InOrder(log + [step], Without(After(log), {e.key}) + [e])
  {
    var log', kept := log + [step], Without(After(log), {e.key});
    assert log'[..|log|] == log;
    WithoutInOrder(log, After(log), {e.key});
    forall i | 0 <= i < |kept|
      ensures !Uses(After(log), step, kept[i].key)
    {
      var _ := WithoutAt(After(log), {e.key}, i);
    }
    UnusedInOrder(log, step, kept);
    assert LastUse(log', e.key) == |log|;
  }

  lemma {:induction false} GetMember<R>(entries: seq<Entry<R>>, key: string)
    ensures Get(entries, key).Some? ==> Get(entries, key).value.key == key && Get(entries, key).value in entries
    ensures Get(entries, key).None? ==> forall i :: 0 <= i < |entries| ==> entries[i].key != key
  {
    if entries != [] {
      GetMember(entries[..|entries| - 1], key);
      SplitLast(entries);
    }
  }

  /** Over every run of steps the dict is ordered by last use and holds, for each of
      its keys, exactly what the latest completed audit of that key stored. */
  lemma {:induction false} CacheInOrder<R>(log: seq<Step<R>>)
    ensures InOrder(log, After(log))
  {
    if log != [] {
      var rest, step := log[..|log| - 1], log[|log| - 1];
      CacheInOrder(rest);
      SplitLast(log);
      match step
      case PruneStep(now, max) =>
        UnusedInOrder(rest, step, After(rest));
        PrunedInOrder(log, After(rest), now, max);
      case LookupStep(key, now) =>
        if Hits(After(rest), key, now) {
          GetMember(After(rest), key);
          MovedInOrder(rest, step, Get(After(rest), key).value);
        } else {
          UnusedInOrder(rest, step, After(rest));
        }
      case StoreStep(e, now, max) =>
        MovedInOrder(rest, step, e);
        PrunedInOrder(log, Put(After(rest), e), now, max);
    }
  }

  /** Every response served is what the latest completed audit of that key stored,
      unexpired at the clock the request sampled. */
  lemma HitServesLatestAudit<R>(log: seq<Step<R>>, key: string, now: real)
    requires Hits(After(log), key, now)
    ensures LastStored(log, key) == Some(Get(After(log), key).value)
    ensures LastStored(log, key).value.expiresAt > now
  {
    CacheInOrder(log);
    GetMember(After(log), key);
  }

  /** A step that prunes leaves at most `max` entries. */
  lemma CacheBounded<R>(log: seq<Step<R>>)
    requires log != [] && !log[|log| - 1].LookupStep?
    ensures |After(log)| <= log[|log| - 1].max
  {
  }

  /** The dict just before a step's prune. */
  function BeforePrune<R>(log: seq<Step<R>>): seq<Entry<R>>
    requires log != [] && !log[|log| - 1].LookupStep?
  {
    var entries, step := After(log[..|log| - 1]), log[|log| - 1];
    if step.StoreStep? then Put(entries, step.entry) else entries
  }

  lemma {:induction false} ExpiredExact<R>(entries: seq<Entry<R>>, now: real, e: Entry<R>)
    requires UniqueKeys(entries) && e in entries
    ensures e.key in ExpiredKeys(entries, now) <==> e.expiresAt <= now
  {
    var rest, last := entries[..|entries| - 1], entries[|entries| - 1];
    SplitLast(entries);
    if e in rest {
      ExpiredExact(rest, now, e);
    } else {
      ExpiredAbsent(rest, now, e.key);
    }
  }

  lemma {:induction false} ExpiredAbsent<R>(entries: seq<Entry<R>>, now: real, key: string)
    requires forall i :: 0 <= i < |entries| ==> entries[i].key != key
    ensures key !in ExpiredKeys(entries, now)
  {
    if entries != [] {
      ExpiredAbsent(entries[..|entries| - 1], now, key);
    }
  }

  /** A prune drops exactly the expired entries and, if more than `max` are left, the
      least recently used of those: whatever it drops unexpired was used before every
      survivor, and then exactly `max` survive. */
  lemma SurvivorsAreMostRecent<R>(log: seq<Step<R>>, e: Entry<R>)
    requires log != [] && !log[|log| - 1].LookupStep? && e in BeforePrune(log)
    ensures e in After(log) ==> e.expiresAt > log[|log| - 1].now
    ensures e !in After(log) && e.expiresAt > log[|log| - 1].now ==>
      && |After(log)| == log[|log| - 1].max
      && forall s :: s in After(log) ==> LastUse(log, e.key) < LastUse(log, s.key)
    ensures forall s :: s in After(log) ==> s in BeforePrune(log)
  {
    var entries, now, max := BeforePrune(log), log[|log| - 1].now, log[|log| - 1].max;
    BeforePruneInOrder(log);
    assert UniqueKeys(entries);
    var live := Without(entries, ExpiredKeys(entries, now));
    WithoutInOrder(log, entries, ExpiredKeys(entries, now));
    WithoutMembers(entries, ExpiredKeys(entries, now));
    ExpiredExact(entries, now, e);
    assert After(log) == Newest(live, max) by {
      assert log[..|log| - 1] + [log[|log| - 1]] == log;
    }
    NewestDropsOldest(log, live, max, e);
  }

  lemma NewestDropsOldest<R>(log: seq<Step<R>>, live: seq<Entry<R>>, max: nat, e: Entry<R>)
    requires InOrder(log, live)
    ensures forall s :: s in Newest(live, max) ==> s in live
    ensures e in live && e !in Newest(live, max) ==>
      && |Newest(live, max)| == max
      && forall s :: s in Newest(live, max) ==> LastUse(log, e.key) < LastUse(log, s.key)
  {
    var n := if |live| <= max then 0 else |live| - max;
    var kept := Newest(live, max);
    assert kept == live[n..];
    if e in live && e !in kept {
      var i := DroppedAt(live, n, e);
      forall s | s in kept
        ensures LastUse(log, e.key) < LastUse(log, s.key)
      {
        var j := KeptAt(live, n, s);
      }
    }
  }

  lemma DroppedAt<T>(s: seq<T>, n: nat, x: T) returns (i: nat)
    requires n <= |s| && x in s && x !in s[n..]
    ensures i < n && s[i] == x
  {
    i :| i < |s| && s[i] == x;
    assert forall j :: n <= j < |s| ==> s[j] == s[n..][j - n];
  }

  lemma KeptAt<T>(s: seq<T>, n: nat, x: T) returns (i: nat)
    requires n <= |s| && x in s[n..]
    ensures n <= i < |s| && s[i] == x
  {
    var j: nat :| j < |s[n..]| && s[n..][j] == x;
    i := n + j;
  }

  lemma BeforePruneInOrder<R>(log: seq<Step<R>>)
    requires log != [] && !log[|log| - 1].LookupStep?
    ensures InOrder(log, BeforePrune(log)) && UniqueKeys(BeforePrune(log))
  {
    var rest, step := log[..|log| - 1], log[|log| - 1];
    CacheInOrder(rest);
    SplitLast(log);
    if step.StoreStep? {
      MovedInOrder(rest, step, step.entry);
    } else {
      UnusedInOrder(rest, step, After(rest));
    }
  }

  // ---- which lookups hit

  /** The unexpired entries, just before a step's prune, that were used after `e`. */
  ghost function UsedSince<R>(log: seq<Step<R>>, e: Entry<R>): set<Entry<R>>
    requires log != [] && !log[|log| - 1].LookupStep?
  {
    set s | s in BeforePrune(log) && s.expiresAt > log[|log| - 1].now && LastUse(log, s.key) > LastUse(log, e.key)
  }

  /** The step's prune spares `e`: it has not expired, and fewer than `max` of those
      that have not were used after it. */
  ghost predicate Spares<R>(log: seq<Step<R>>, e: Entry<R>)
    requires log != [] && !log[|log| - 1].LookupStep?
  {
    e.expiresAt > log[|log| - 1].now && |UsedSince(log, e)| < log[|log| - 1].max
  }

  lemma PlaceCounts<R>(log: seq<Step<R>>, live: seq<Entry<R>>, i: nat, later: set<Entry<R>>)
    requires InOrder(log, live) && i < |live|
    requires forall s :: s in later ==> s in live && LastUse(log, s.key) > LastUse(log, live[i].key)
    requires forall s :: s in live && LastUse(log, s.key) > LastUse(log, live[i].key) ==> s in later
    ensures |later| == |live| - i - 1
  {
    var back := live[i + 1..];
    forall s | s in later
      ensures s in back
    {
      var j :| 0 <= j < |live| && live[j] == s;
      assert j > i && back[j - i - 1] == s;
    }
    forall j | 0 <= j < |back|
      ensures back[j] in later
    {
      assert live[i + 1 + j] in live;
    }
    InOrderDistinct(log, live, i + 1);
    MembersCardinality(back, later);
  }

  lemma InOrderDistinct<R>(log: seq<Step<R>>, live: seq<Entry<R>>, i: nat)
    requires InOrder(log, live) && i <= |live|
    ensures Distinct(live[i..])
  {
  }

  lemma NewestKeepsExactly<R>(log: seq<Step<R>>, live: seq<Entry<R>>, max: nat, e: Entry<R>, later: set<Entry<R>>)
    requires InOrder(log, live) && e in live
    requires forall s :: s in later ==> s in live && LastUse(log, s.key) > LastUse(log, e.key)
    requires forall s :: s in live && LastUse(log, s.key) > LastUse(log, e.key) ==> s in later
    ensures e in Newest(live, max) <==> |later| < max
  {
    var i: nat :| i < |live| && live[i] == e;
    PlaceCounts(log, live, i, later);
    InOrderDistinct(log, live, 0);
    assert live[0..] == live;
    var n := if |live| <= max then 0 else |live| - max;
    assert Newest(live, max) == live[n..];
    if e in live[n..] {
      var j := KeptAt(live, n, e);
      assert j == i;
    }
    if i >= n {
      assert live[n..][i - n] == e;
    }
  }

  /** The unexpired entries just before a step's prune, in order of use. */
  function Live<R>(log: seq<Step<R>>): seq<Entry<R>>
    requires log != [] && !log[|log| - 1].LookupStep?
  {
    Without(BeforePrune(log), ExpiredKeys(BeforePrune(log), log[|log| - 1].now))
  }

  lemma LiveExactly<R>(log: seq<Step<R>>)
    requires log != [] && !log[|log| - 1].LookupStep?
    ensures InOrder(log, Live(log))
    ensures forall s :: s in Live(log) ==> s in BeforePrune(log) && s.expiresAt > log[|log| - 1].now
    ensures forall s :: s in BeforePrune(log) && s.expiresAt > log[|log| - 1].now ==> s in Live(log)
  {
    var entries, now := BeforePrune(log), log[|log| - 1].now;
    BeforePruneInOrder(log);
    WithoutInOrder(log, entries, ExpiredKeys(entries, now));
    WithoutMembers(entries, ExpiredKeys(entries, now));
    var live := Live(log);
    forall i | 0 <= i < |live|
      ensures live[i] in entries && live[i].expiresAt > now
    {
      var j := WithoutAt(entries, ExpiredKeys(entries, now), i);
      ExpiredExact(entries, now, entries[j]);
    }
    forall s | s in entries && s.expiresAt > now
      ensures s in Live(log)
    {
      ExpiredExact(entries, now, s);
    }
  }

  lemma PruneIsNewest<R>(log: seq<Step<R>>)
    requires log != [] && !log[|log| - 1].LookupStep?
    ensures After(log) == Newest(Live(log), log[|log| - 1].max)
  {
  }

  /** A prune keeps exactly what it spares. */
  lemma PruneKeepsExactly<R>(log: seq<Step<R>>, e: Entry<R>)
    requires log != [] && !log[|log| - 1].LookupStep? && e in BeforePrune(log)
    ensures e in After(log) <==> Spares(log, e)
  {
    LiveExactly(log);
    PruneIsNewest(log);
    if e in Live(log) {
      NewestKeepsExactly(log, Live(log), log[|log| - 1].max, e, UsedSince(log, e));
    } else {
      NewestDropsOldest(log, Live(log), log[|log| - 1].max, e);
    }
  }

  /** How many steps were over when the key was last stored; 0 if it never was. */
  function StoredBy<R>(log: seq<Step<R>>, key: string): (n: nat)
    ensures n <= |log|
  {
    if log == [] then 0
    else if log[|log| - 1].StoreStep? && log[|log| - 1].entry.key == key then |log|
    else StoredBy(log[..|log| - 1], key)
  }

  /** Every prune from the one that came with the `n`th step on spared `e`. */
  ghost predicate SparedSince<R>(log: seq<Step<R>>, e: Entry<R>, n: nat) {
    forall k :: 0 < k <= |log| && n <= k && !log[k - 1].LookupStep? ==> Spares(log[..k], e)
  }

  lemma SparedStep<R>(log: seq<Step<R>>, e: Entry<R>, n: nat)
    requires log != [] && n < |log|
    ensures SparedSince(log, e, n) <==>
              SparedSince(log[..|log| - 1], e, n) && (log[|log| - 1].LookupStep? || Spares(log, e))
  {
    var front := log[..|log| - 1];
    assert log[..|log|] == log;
    forall k | 0 < k <= |front|
      ensures log[..k] == front[..k] && log[k - 1] == front[k - 1]
    {
    }
    if SparedSince(log, e, n) {
      forall k | 0 < k <= |front| && n <= k && !front[k - 1].LookupStep?
        ensures Spares(front[..k], e)
      {
        assert Spares(log[..k], e);
      }
    }
  }

  lemma TouchedMembers<R>(entries: seq<Entry<R>>, key: string, now: real, e: Entry<R>)
    requires UniqueKeys(entries)
    ensures e in Touched(entries, key, now) <==> e in entries
  {
    WithoutMembers(entries, {key});
    GetMember(entries, key);
    if Hits(entries, key, now) && e in entries && e.key == key {
      assert e == Get(entries, key).value;
    }
  }

  lemma JustStored<R>(log: seq<Step<R>>, e: Entry<R>)
    requires log != [] && log[|log| - 1].StoreStep? && log[|log| - 1].entry == e
    ensures e in After(log) <==> SparedSince(log, e, |log|)
  {
    assert log[..|log|] == log;
    assert e in BeforePrune(log);
    PruneKeepsExactly(log, e);
    assert SparedSince(log, e, |log|) <==> Spares(log, e);
  }

  lemma StaysStep<R>(log: seq<Step<R>>, e: Entry<R>)
    requires log != [] && (log[|log| - 1].StoreStep? ==> log[|log| - 1].entry.key != e.key)
    ensures e in After(log) <==> e in After(log[..|log| - 1]) && (log[|log| - 1].LookupStep? || Spares(log, e))
  {
    var front, step := log[..|log| - 1], log[|log| - 1];
    CacheInOrder(front);
    if step.LookupStep? {
      TouchedMembers(After(front), step.key, step.now, e);
    } else {
      if step.StoreStep? {
        WithoutMembers(After(front), {step.entry.key});
      }
      assert e in BeforePrune(log) <==> e in After(front);
      if e in BeforePrune(log) {
        PruneKeepsExactly(log, e);
      } else {
        DroppedBefore(log, e);
      }
    }
  }

  /** Over every run: the last stored entry of a key is still in the dict exactly when
      every prune since, its own included, has spared it. */
  lemma {:induction false} StaysExactly<R>(log: seq<Step<R>>, key: string)
    requires LastStored(log, key).Some?
    ensures LastStored(log, key).value in After(log) <==>
              SparedSince(log, LastStored(log, key).value, StoredBy(log, key))
  {
    var front, step, e := log[..|log| - 1], log[|log| - 1], LastStored(log, key).value;
    LastStoredKey(log, key);
    if step.StoreStep? && step.entry.key == key {
      JustStored(log, e);
    } else {
      StaysExactly(front, key);
      StaysStep(log, e);
      SparedStep(log, e, StoredBy(front, key));
    }
  }

  lemma DroppedBefore<R>(log: seq<Step<R>>, e: Entry<R>)
    requires log != [] && !log[|log| - 1].LookupStep? && e !in BeforePrune(log)
    ensures e !in After(log)
  {
    LiveExactly(log);
    PruneIsNewest(log);
    NewestDropsOldest(log, Live(log), log[|log| - 1].max, e);
  }

  lemma {:induction false} LastStoredKey<R>(log: seq<Step<R>>, key: string)
    ensures LastStored(log, key).Some? ==> LastStored(log, key).value.key == key
  {
    if log != [] {
      LastStoredKey(log[..|log| - 1], key);
    }
  }

  /** So a lookup hits exactly when its key was stored, what was stored last has not
      expired at the sampled clock, and every prune since has spared it. */
  lemma HitsExactly<R>(log: seq<Step<R>>, key: string, now: real)
    ensures Hits(After(log), key, now) <==>
              && LastStored(log, key).Some? && LastStored(log, key).value.expiresAt > now
              && SparedSince(log, LastStored(log, key).value, StoredBy(log, key))
  {
    CacheInOrder(log);
    GetMember(After(log), key);
    LastStoredKey(log, key);
    if LastStored(log, key).Some? {
      StaysExactly(log, key);
    }
  }

  // ---- the cache key

  const NUL := "\0"

  /** What the key hashes; the digest is taken to be injective. */
  function KeyText(base: string, head: string, root: string, hint: string): string {
    base + NUL + head + NUL + root + NUL + hint
  }

  function FirstNul(s: string): nat {
    if s == "" || s[0] == '\0' then 0 else 1 + FirstNul(s[1..])
  }

  lemma {:induction false} FirstNulEndsField(a: string, x: string)
    requires '\0' !in a
    ensures FirstNul(a + NUL + x) == |a|
  {
    if a != "" {
      assert (a + NUL + x)[1..] == a[1..] + NUL + x;
      FirstNulEndsField(a[1..], x);
    }
  }

  lemma FirstField(a: string, x: string, b: string, y: string)
    requires '\0' !in a && '\0' !in b && a + NUL + x == b + NUL + y
    ensures a == b && x == y
  {
    FirstNulEndsField(a, x);
    FirstNulEndsField(b, y);
    var s := a + NUL + x;
    assert a == s[..|a|] && x == s[|a| + 1..];
    assert b == s[..|b|] && y == s[|b| + 1..];
  }

  /** Two audits share a key only if they agree on both commits, the root and the
      hint; commit ids and paths contain no NUL, and the hint may. */
  lemma KeyTextInjective(base: string, head: string, root: string, hint: string,
                         base': string, head': string, root': string, hint': string)
    requires '\0' !in base + head + root && '\0' !in base' + head' + root'
    requires KeyText(base, head, root, hint) == KeyText(base', head', root', hint')
    ensures base == base' && head == head' && root == root' && hint == hint'
  {
    var r, r' := root + NUL + hint, root' + NUL + hint';
    var h, h' := head + NUL + r, head' + NUL + r';
    assert KeyText(base, head, root, hint) == base + NUL + h;
    assert KeyText(base', head', root', hint') == base' + NUL + h';
    FirstField(base, h, base', h');
    FirstField(head, r, head', r');
    FirstField(root, hint, root', hint');
  }
}
