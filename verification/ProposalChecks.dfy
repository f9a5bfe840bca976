/** The two checks of the proposal queue against what they are for: which callers
    the limiter refuses and which bodies the duplicate index finds, exactly, and
    what the caps on the scan and on the index let through. */
module ProposalChecks {
  import opened Ordering
  import opened Proposals

  // ---- the limiter against its declarative meaning

  /** A caller's files stamped at `cutoff` or later. */
  ghost function RecentFiles(files: Files, caller: string, cutoff: int): set<Name> {
    set n | n in files && files[n].caller == Some(caller) && StampedSince(files[n], cutoff)
  }

  ghost function RecentNames(items: seq<Item>, caller: string, cutoff: int): set<Name> {
    set i | i in items && IsRecent(i.record, caller, cutoff) :: i.name
  }

  ghost predicate NamesDistinct(items: seq<Item>) {
    forall i, j :: 0 <= i < j < |items| ==> items[i].name != items[j].name
  }

  lemma ScanNamesDistinct(files: Files, items: seq<Item>)
    requires Faithful(files, items)
    ensures NamesDistinct(items)
  {
    forall i, j | 0 <= i < j < |items|
      ensures items[i].name != items[j].name
    {
      assert ItemIn(files, items[i]) && ItemIn(files, items[j]);
    }
  }

  lemma {:induction false} CountIsCardinality(items: seq<Item>, caller: string, cutoff: int)
    requires NamesDistinct(items)
    ensures CountRecent(items, caller, cutoff) == |RecentNames(items, caller, cutoff)|
  {
    if items == [] {
      assert RecentNames(items, caller, cutoff) == {};
    } else {
      var front, last := items[..|items| - 1], items[|items| - 1];
      CountIsCardinality(front, caller, cutoff);
      assert items == front + [last];
      assert RecentNames(items, caller, cutoff)
          == RecentNames(front, caller, cutoff) + if IsRecent(last.record, caller, cutoff) then {last.name} else {};
      assert last.name !in RecentNames(front, caller, cutoff);
    }
  }

  /** Every file stamped at `cutoff` or later is within the scan. A queue of at most
      `SCAN_LIMIT` files always is; a larger one is if the files that recent are
      among its highest numbers. */
  ghost predicate Covers(files: Files, cutoff: int) {
    forall n :: n in files && StampedSince(files[n], cutoff) ==> Reached(files, n)
  }

  predicate StampedSince(r: Record, cutoff: int) {
    r.queuedAt.Some? && r.queuedAt.value >= cutoff
  }

  lemma SmallQueueCovers(files: Files, cutoff: int)
    requires |files| <= SCAN_LIMIT
    ensures Covers(files, cutoff)
  {
    forall n | n in files
      ensures Reached(files, n)
    {
      SmallQueueReached(files, n);
    }
  }

  ghost function ReachedFiles(files: Files, caller: string, cutoff: int): set<Name> {
    set n | n in RecentFiles(files, caller, cutoff) && Reached(files, n)
  }

  /** The limiter refuses a caller exactly when ten or more of the caller's records
      of the last hour are within the scan: a refusal is always deserved, and when
      the scan covers the last hour an admission is too. */
  lemma RateExact(files: Files, caller: string, now: nat)
    ensures RateExceeded(files, caller, now) <==> |ReachedFiles(files, caller, now - HOUR)| >= RATE_LIMIT
    ensures RateExceeded(files, caller, now) ==> |RecentFiles(files, caller, now - HOUR)| >= RATE_LIMIT
    ensures Covers(files, now - HOUR) ==>
              (RateExceeded(files, caller, now) <==> |RecentFiles(files, caller, now - HOUR)| >= RATE_LIMIT)
  {
    ScanFacts(files);
    CountExact(files, Scan(files), caller, now - HOUR);
    CoveredReached(files, caller, now - HOUR);
  }

  lemma CoveredReached(files: Files, caller: string, cutoff: int)
    ensures |ReachedFiles(files, caller, cutoff)| <= |RecentFiles(files, caller, cutoff)|
    ensures Covers(files, cutoff) ==> ReachedFiles(files, caller, cutoff) == RecentFiles(files, caller, cutoff)
  {
    SubsetCardinality(ReachedFiles(files, caller, cutoff), RecentFiles(files, caller, cutoff));
  }

  lemma CountExact(files: Files, items: seq<Item>, caller: string, cutoff: int)
    requires Faithful(files, items)
    ensures CountRecent(items, caller, cutoff) == |ReachedFiles(files, caller, cutoff)|
  {
    ScanNamesDistinct(files, items);
    CountIsCardinality(items, caller, cutoff);
    forall n | n in ReachedFiles(files, caller, cutoff)
      ensures n in RecentNames(items, caller, cutoff)
    {
      assert Item(n, files[n]) in items;
    }
    assert RecentNames(items, caller, cutoff) == ReachedFiles(files, caller, cutoff);
  }

  // ---- the duplicate index against its declarative meaning

  predicate CarriesSince(r: Record, hash: string, cutoff: int) {
    r.hash == Some(hash) && r.queuedAt.Some? && r.queuedAt.value >= cutoff
  }

  ghost predicate SomeFileCarries(files: Files, hash: string, cutoff: int) {
    exists n :: n in files && CarriesSince(files[n], hash, cutoff)
  }

  ghost function HashesSince(files: Files, cutoff: int): set<string> {
    set n | n in files && files[n].hash.Some? && CarriesSince(files[n], files[n].hash.value, cutoff)
      :: files[n].hash.value
  }

  // ---- the order of the scan

  /** Read before: of a later stamp, or of the same stamp and a higher number. */
  predicate Ahead(a: Item, b: Item) {
    Stamp(a) > Stamp(b) || (Stamp(a) == Stamp(b) && NameGe(a.name, b.name))
  }

  ghost predicate ByNumber(items: seq<Item>) {
    forall i, j :: 0 <= i < j < |items| ==> NameGe(items[i].name, items[j].name)
  }

  lemma {:induction false} InsertAhead(x: Item, s: seq<Item>)
    requires Ordered(s, Ahead) && forall y :: y in s ==> NameGe(x.name, y.name)
    ensures Ordered(Insert(x, s, StampGe), Ahead)
  {
    if s != [] && !StampGe(x, s[0]) {
      InsertAhead(x, s[1..]);
      InsertElements(x, s[1..], StampGe);
      var rest := Insert(x, s[1..], StampGe);
      forall j | 0 <= j < |rest|
        ensures Ahead(s[0], rest[j])
      {
        assert rest[j] == x || rest[j] in s[1..];
      }
    } else {
      forall j | 0 <= j < |s|
        ensures Ahead(x, s[j])
      {
        assert j == 0 || Ahead(s[0], s[j]);
      }
    }
  }

  /** The sort by stamp is stable, so equal stamps stay in the order of numbers. */
  lemma {:induction false} SortAhead(s: seq<Item>)
    requires ByNumber(s)
    ensures Ordered(Sort(s, StampGe), Ahead)
  {
    if s != [] {
      SortAhead(s[1..]);
      SortElements(s[1..], StampGe);
      InsertAhead(s[0], Sort(s[1..], StampGe));
    }
  }

  lemma ScanAhead(files: Files)
    ensures Ordered(Scan(files), Ahead)
  {
    var all := Sort(Enumerate(files.Keys), NameGe);
    NameGeIsTotal();
    SortOrdered(Enumerate(files.Keys), NameGe);
    FirstIsPrefix(all, SCAN_LIMIT);
    ItemsByNumber(ScannedNames(files), files);
    SortAhead(ItemsOf(ScannedNames(files), files));
  }

  lemma ItemsByNumber(names: seq<Name>, files: Files)
    requires Ordered(names, NameGe) && forall n :: n in names ==> n in files
    ensures ByNumber(ItemsOf(names, files))
  {
  }

  // ---- what the index holds

  predicate Stamped(r: Record) {
    r.hash.Some? && r.queuedAt.Some?
  }

  /** The different hashes of the stamped records of a list. */
  ghost function StampedHashes(items: seq<Item>): set<string> {
    set i | i in items && Stamped(i.record) :: i.record.hash.value
  }

  lemma {:induction false} IndexKeeps(items: seq<Item>, index: map<string, nat>, hash: string)
    requires hash in index
    ensures hash in IndexFrom(items, index) && IndexFrom(items, index)[hash] == index[hash]
  {
    if items != [] {
      IndexKeeps(items[1..], IndexInto(index, items[0]), hash);
    }
  }

  /** `items[k]` is in the window and reached before the index is full. */
  ghost predicate IndexedAt(items: seq<Item>, known: set<string>, hash: string, cutoff: int, k: nat) {
    k < |items| && CarriesSince(items[k].record, hash, cutoff) && |known + StampedHashes(items[..k])| < HASH_LIMIT
  }

  ghost predicate Holds(index: map<string, nat>, hash: string, cutoff: int) {
    hash in index && index[hash] >= cutoff
  }

  lemma HashesFront(items: seq<Item>, k: nat)
    requires 0 < k <= |items|
    ensures StampedHashes(items[..k])
         == StampedHashes(items[1..][..k - 1]) + if Stamped(items[0].record) then {items[0].record.hash.value} else {}
  {
    assert items[..k] == [items[0]] + items[1..][..k - 1];
  }

  lemma IndexedLater(items: seq<Item>, known: set<string>, next: set<string>, hash: string, cutoff: int, k: nat)
    requires 0 < k <= |items|
    requires next == known + if Stamped(items[0].record) then {items[0].record.hash.value} else {}
    ensures IndexedAt(items, known, hash, cutoff, k) <==> IndexedAt(items[1..], next, hash, cutoff, k - 1)
  {
    HashesFront(items, k);
    assert known + StampedHashes(items[..k]) == next + StampedHashes(items[1..][..k - 1]);
  }

  ghost predicate IndexedSomewhere(items: seq<Item>, known: set<string>, hash: string, cutoff: int) {
    exists k :: IndexedAt(items, known, hash, cutoff, k)
  }

  lemma SomewhereLater(items: seq<Item>, known: set<string>, next: set<string>, hash: string, cutoff: int)
    requires items != [] && !CarriesSince(items[0].record, hash, cutoff)
    requires next == known + if Stamped(items[0].record) then {items[0].record.hash.value} else {}
    ensures IndexedSomewhere(items, known, hash, cutoff) <==> IndexedSomewhere(items[1..], next, hash, cutoff)
  {
    if IndexedSomewhere(items, known, hash, cutoff) {
      var k: nat :| IndexedAt(items, known, hash, cutoff, k);
      IndexedLater(items, known, next, hash, cutoff, k);
    }
    if IndexedSomewhere(items[1..], next, hash, cutoff) {
      var k: nat :| IndexedAt(items[1..], next, hash, cutoff, k);
      IndexedLater(items, known, next, hash, cutoff, k + 1);
    }
  }

  lemma FullKnowsNothing(items: seq<Item>, known: set<string>, hash: string, cutoff: int)
    requires |known| >= HASH_LIMIT
    ensures !IndexedSomewhere(items, known, hash, cutoff)
  {
    forall k: nat | k < |items|
      ensures !IndexedAt(items, known, hash, cutoff, k)
    {
      SubsetCardinality(known, known + StampedHashes(items[..k]));
    }
  }

  lemma FirstStampDecides(items: seq<Item>, index: map<string, nat>, hash: string, cutoff: int)
    requires items != [] && Ordered(items, StampGe) && |index| < HASH_LIMIT
    requires Stamped(items[0].record) && items[0].record.hash.value == hash
    ensures IndexedSomewhere(items, index.Keys, hash, cutoff) <==> items[0].record.queuedAt.value >= cutoff
  {
    if items[0].record.queuedAt.value >= cutoff {
      assert index.Keys + StampedHashes(items[..0]) == index.Keys && |index.Keys| == |index|;
      assert IndexedAt(items, index.Keys, hash, cutoff, 0);
    } else {
      forall k: nat | 0 < k < |items|
        ensures !IndexedAt(items, index.Keys, hash, cutoff, k)
      {
        assert StampGe(items[0], items[k]);
      }
    }
  }

  /** On a list that is latest first, the index ends up with a stamp of the hash
      inside the window exactly when some record of the hash is inside it with
      fewer than `HASH_LIMIT` different hashes in front. */
  lemma {:induction false} IndexExact(items: seq<Item>, index: map<string, nat>, hash: string, cutoff: int)
    requires Ordered(items, StampGe) && hash !in index && |index| < HASH_LIMIT
    ensures Holds(IndexFrom(items, index), hash, cutoff) <==> IndexedSomewhere(items, index.Keys, hash, cutoff)
  {
    if items != [] {
      var next := IndexInto(index, items[0]);
      if hash in next {
        IndexKeeps(items[1..], next, hash);
        FirstStampDecides(items, index, hash, cutoff);
      } else {
        SomewhereLater(items, index.Keys, next.Keys, hash, cutoff);
        assert |next.Keys| == |next|;
        if next != index && |next| >= HASH_LIMIT {
          FullKnowsNothing(items[1..], next.Keys, hash, cutoff);
        } else {
          IndexExact(items[1..], next, hash, cutoff);
        }
      }
    }
  }

  // ---- in terms of files

  /** The hashes of the stamped files that the scan reads before `n`. */
  ghost function HashesAhead(files: Files, n: Name): set<string>
    requires n in files
  {
    set m | m in files && Reached(files, m) && m != n && Stamped(files[m])
            && Ahead(Item(m, files[m]), Item(n, files[n]))
      :: files[m].hash.value
  }

  /** `n` is within the scan and read before the index is full. */
  ghost predicate Seen(files: Files, n: Name) {
    n in files && Reached(files, n) && |HashesAhead(files, n)| < HASH_LIMIT
  }

  lemma HashesAheadOf(files: Files, items: seq<Item>, k: nat)
    requires Faithful(files, items) && Ordered(items, Ahead) && k < |items|
    ensures ItemIn(files, items[k]) && StampedHashes(items[..k]) == HashesAhead(files, items[k].name)
  {
    var n := items[k].name;
    assert items[k] in items;
    forall h | h in StampedHashes(items[..k])
      ensures h in HashesAhead(files, n)
    {
      var i :| i in items[..k] && Stamped(i.record) && i.record.hash.value == h;
      var j :| 0 <= j < k && items[j] == i;
      assert ItemIn(files, i) && Ahead(items[j], items[k]);
      assert i.name != n;
    }
    forall h | h in HashesAhead(files, n)
      ensures h in StampedHashes(items[..k])
    {
      var m :| m in files && Reached(files, m) && m != n && Stamped(files[m])
               && Ahead(Item(m, files[m]), Item(n, files[n])) && files[m].hash.value == h;
      assert Item(m, files[m]) in items;
      var j :| 0 <= j < |items| && items[j] == Item(m, files[m]);
      assert k < j ==> Ahead(items[k], items[j]);
      assert j < k && items[..k][j] == items[j];
    }
  }

  ghost predicate SomeSeenCarries(files: Files, hash: string, cutoff: int) {
    exists n :: Seen(files, n) && CarriesSince(files[n], hash, cutoff)
  }

  lemma IndexedFile(files: Files, items: seq<Item>, hash: string, cutoff: int, k: nat)
    requires Faithful(files, items) && Ordered(items, Ahead) && k < |items|
    ensures ItemIn(files, items[k])
    ensures IndexedAt(items, {}, hash, cutoff, k) <==>
              Seen(files, items[k].name) && CarriesSince(items[k].record, hash, cutoff)
  {
    assert items[k] in items;
    HashesAheadOf(files, items, k);
    assert {} + StampedHashes(items[..k]) == StampedHashes(items[..k]);
  }

  lemma IndexedFiles(files: Files, items: seq<Item>, hash: string, cutoff: int)
    requires Faithful(files, items) && Ordered(items, Ahead)
    ensures IndexedSomewhere(items, {}, hash, cutoff) <==> SomeSeenCarries(files, hash, cutoff)
  {
    if IndexedSomewhere(items, {}, hash, cutoff) {
      var k: nat :| IndexedAt(items, {}, hash, cutoff, k);
      IndexedFile(files, items, hash, cutoff, k);
    }
    if SomeSeenCarries(files, hash, cutoff) {
      var n :| Seen(files, n) && CarriesSince(files[n], hash, cutoff);
      var k := PositionOf(files, items, n);
      IndexedFile(files, items, hash, cutoff, k);
    }
  }

  lemma PositionOf(files: Files, items: seq<Item>, n: Name) returns (k: nat)
    requires Faithful(files, items) && n in files && Reached(files, n)
    ensures k < |items| && items[k] == Item(n, files[n])
  {
    assert Item(n, files[n]) in items;
    k :| k < |items| && items[k] == Item(n, files[n]);
  }

  /** A body is taken for a duplicate exactly when a file of its hash is stamped in
      the last day, is among the `SCAN_LIMIT` highest numbers, and has fewer than
      `HASH_LIMIT` different hashes read before it. So a positive answer is always
      right; a negative one is when the scan covers the last day and the index
      holds its hashes. */
  lemma DuplicateExact(files: Files, hash: string, now: nat)
    ensures IsDuplicate(files, hash, now) <==> SomeSeenCarries(files, hash, now - DAY)
    ensures IsDuplicate(files, hash, now) ==> SomeFileCarries(files, hash, now - DAY)
    ensures Covers(files, now - DAY) && |HashesSince(files, now - DAY)| <= HASH_LIMIT ==>
              (IsDuplicate(files, hash, now) <==> SomeFileCarries(files, hash, now - DAY))
  {
    ScanFacts(files);
    ScanAhead(files);
    IndexOverFiles(files, Scan(files), hash, now - DAY);
    if SomeFileCarries(files, hash, now - DAY) && Covers(files, now - DAY)
       && |HashesSince(files, now - DAY)| <= HASH_LIMIT {
      SmallWindowSeen(files, Scan(files), hash, now - DAY);
    }
  }

  lemma IndexOverFiles(files: Files, items: seq<Item>, hash: string, cutoff: int)
    requires Faithful(files, items) && Ordered(items, Ahead)
    ensures Holds(IndexFrom(items, map[]), hash, cutoff) <==> SomeSeenCarries(files, hash, cutoff)
  {
    var empty: map<string, nat> := map[];
    IndexExact(items, empty, hash, cutoff);
    assert empty.Keys == {};
    IndexedFiles(files, items, hash, cutoff);
  }

  /** The first record of the list that carries the hash. */
  lemma {:induction false} FirstCarrier(items: seq<Item>, hash: string, cutoff: int, k: nat) returns (j: nat)
    requires k < |items| && CarriesSince(items[k].record, hash, cutoff)
    ensures j <= k && CarriesSince(items[j].record, hash, cutoff)
    ensures forall i :: 0 <= i < j ==> !CarriesSince(items[i].record, hash, cutoff)
  {
    if i: nat :| i < k && CarriesSince(items[i].record, hash, cutoff) {
      j := FirstCarrier(items, hash, cutoff, i);
    } else {
      j := k;
    }
  }

  lemma SmallWindowSeen(files: Files, items: seq<Item>, hash: string, cutoff: int)
    requires Faithful(files, items) && Ordered(items, Ahead)
    requires SomeFileCarries(files, hash, cutoff) && Covers(files, cutoff) && |HashesSince(files, cutoff)| <= HASH_LIMIT
    ensures SomeSeenCarries(files, hash, cutoff)
  {
    var n :| n in files && CarriesSince(files[n], hash, cutoff);
    var k := PositionOf(files, items, n);
    var j := FirstCarrier(items, hash, cutoff, k);
    HashesBefore(files, items, hash, cutoff, j);
    assert items[j] in items;
    HashesAheadOf(files, items, j);
    assert Seen(files, items[j].name);
  }

  lemma HashesBefore(files: Files, items: seq<Item>, hash: string, cutoff: int, j: nat)
    requires Faithful(files, items) && j < |items| && CarriesSince(items[j].record, hash, cutoff)
    requires forall i :: 0 <= i < j ==> !CarriesSince(items[i].record, hash, cutoff)
    ensures |StampedHashes(items[..j])| < |HashesSince(files, cutoff)|
  {
    var window := HashesSince(files, cutoff);
    assert items[j] in items && ItemIn(files, items[j]) && hash in window;
    forall h | h in StampedHashes(items[..j])
      ensures h in window - {hash}
    {
      var x :| x in items[..j] && Stamped(x.record) && x.record.hash.value == h;
      var i :| 0 <= i < j && items[i] == x;
      assert items[i] in items && ItemIn(files, x) && StampGe(items[i], items[j]);
      assert CarriesSince(x.record, h, cutoff);
    }
    SubsetCardinality(StampedHashes(items[..j]), window - {hash});
  }
}
