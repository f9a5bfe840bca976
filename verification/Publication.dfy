/** Publishing several files as one: stage and back up, replace one by one, and on
    a failed replace put everything back. The faults are parameters: where staging
    raises and what it had written by then, the index of the write whose replacing or
    restoring raises, and the step of the clean-up whose unlink raises. */
module Publication {
  import opened Ordering

  /** The two kinds of temporary carry different suffixes. */
  datatype Path = Named(name: string) | Staged(serial: nat) | Backup(serial: nat)

  datatype Write<+C> = Write(target: string, content: C)

  datatype Outcome = Published | StagingFailed | RolledBack | RollbackFailed | CleanUpFailed

  /** Where staging raises: in making a staged file or a backup of write `index`,
      before the temporary exists or with something already in it. */
  datatype Stop<+C> =
    | Never
    | AtStaged(index: nat, left: Option<C>)
    | AtBackup(index: nat, left: Option<C>)

  predicate Stops<C>(stop: Stop<C>, count: nat) {
    !stop.Never? && stop.index < count
  }

  // ---- what the file map becomes

  function Applied<C>(files: map<Path, C>, writes: seq<Write<C>>): map<Path, C> {
    if writes == [] then files
    else
      var last := writes[|writes| - 1];
      Applied(files, writes[..|writes| - 1])[Named(last.target) := last.content]
  }

  function RestoreOne<C>(files: map<Path, C>, was: map<Path, C>, target: Path): map<Path, C> {
    if target in was then files[target := was[target]] else files - {target}
  }

  function Restored<C>(files: map<Path, C>, was: map<Path, C>, writes: seq<Write<C>>): map<Path, C> {
    if writes == [] then files
    else RestoreOne(Restored(files, was, writes[..|writes| - 1]), was, Named(writes[|writes| - 1].target))
  }

  /** The map after a publication whose replace number `k` and, if it comes to
      that, restore number `r` raises. */
  function PublishedFiles<C>(was: map<Path, C>, writes: seq<Write<C>>, k: nat, r: nat): map<Path, C> {
    if k >= |writes| then Applied(was, writes)
    else Restored(Applied(was, writes[..k]), was, writes[..if r < |writes| then r else |writes|])
  }

  ghost predicate Targets<C>(writes: seq<Write<C>>, p: Path) {
    exists i :: 0 <= i < |writes| && p == Named(writes[i].target)
  }

  ghost predicate AgreeAt<C>(f: map<Path, C>, g: map<Path, C>, p: Path) {
    (p in f <==> p in g) && (p in f ==> f[p] == g[p])
  }

  lemma {:induction false} AppliedElsewhere<C>(files: map<Path, C>, writes: seq<Write<C>>, p: Path)
    requires !Targets(writes, p)
    ensures AgreeAt(Applied(files, writes), files, p)
  {
    if writes != [] {
      var rest := writes[..|writes| - 1];
      forall i | 0 <= i < |rest|
        ensures p != Named(rest[i].target)
      {
        assert rest[i] == writes[i];
      }
      AppliedElsewhere(files, rest, p);
    }
  }

  lemma {:induction false} RestoredAt<C>(files: map<Path, C>, was: map<Path, C>, writes: seq<Write<C>>, p: Path)
    ensures Targets(writes, p) ==> AgreeAt(Restored(files, was, writes), was, p)
    ensures !Targets(writes, p) ==> AgreeAt(Restored(files, was, writes), files, p)
  {
    if writes != [] {
      var rest, last := writes[..|writes| - 1], writes[|writes| - 1];
      RestoredAt(files, was, rest, p);
      assert Targets(writes, p) <==> Targets(rest, p) || p == Named(last.target) by {
        if Targets(rest, p) {
          var i :| 0 <= i < |rest| && p == Named(rest[i].target);
          assert writes[i] == rest[i];
        }
        if p == Named(last.target) {
          assert p == Named(writes[|writes| - 1].target);
        }
      }
    }
  }

  lemma AgreeEverywhere<C>(f: map<Path, C>, g: map<Path, C>)
    requires forall p :: AgreeAt(f, g, p)
    ensures f == g
  {
    forall p
      ensures p in f <==> p in g
    {
      assert AgreeAt(f, g, p);
    }
    forall p | p in f
      ensures f[p] == g[p]
    {
      assert AgreeAt(f, g, p);
    }
  }

  /** A failed publication whose restores all succeed leaves the file map exactly as
      it was, wherever it failed; targets may even repeat. */
  lemma RollbackIsExact<C>(was: map<Path, C>, writes: seq<Write<C>>, k: nat, r: nat)
    requires k < |writes| <= r
    ensures PublishedFiles(was, writes, k, r) == was
  {
    var mid := Applied(was, writes[..k]);
    assert writes[..|writes|] == writes;
    forall p
      ensures AgreeAt(PublishedFiles(was, writes, k, r), was, p)
    {
      RestoredAt(mid, was, writes, p);
      if !Targets(writes, p) {
        PrefixTargets(writes, k, p);
        AppliedElsewhere(was, writes[..k], p);
      }
    }
    AgreeEverywhere(PublishedFiles(was, writes, k, r), was);
  }

  lemma PrefixTargets<C>(writes: seq<Write<C>>, k: nat, p: Path)
    requires k <= |writes|
    ensures Targets(writes[..k], p) ==> Targets(writes, p)
  {
    if Targets(writes[..k], p) {
      var i :| 0 <= i < k && p == Named(writes[..k][i].target);
      assert writes[i] == writes[..k][i];
    }
  }

  ghost predicate DistinctTargets<C>(writes: seq<Write<C>>) {
    forall i, j :: 0 <= i < j < |writes| ==> writes[i].target != writes[j].target
  }

  /** Of several writes to one target the last one counts. */
  lemma {:induction false} AppliedAt<C>(files: map<Path, C>, writes: seq<Write<C>>, i: nat)
    requires i < |writes| && forall j :: i < j < |writes| ==> writes[j].target != writes[i].target
    ensures Named(writes[i].target) in Applied(files, writes)
    ensures Applied(files, writes)[Named(writes[i].target)] == writes[i].content
  {
    if i < |writes| - 1 {
      AppliedAt(files, writes[..|writes| - 1], i);
    }
  }

  lemma TargetsOwn<C>(writes: seq<Write<C>>, k: nat, i: nat)
    requires DistinctTargets(writes) && k <= |writes| && i < |writes|
    ensures Targets(writes[..k], Named(writes[i].target)) <==> i < k
  {
    if i < k {
      assert writes[..k][i] == writes[i];
    }
  }

  /** The value of a target after a failed publication: restored or never written. */
  lemma FailedAt<C>(was: map<Path, C>, writes: seq<Write<C>>, k: nat, r: nat, i: nat)
    requires DistinctTargets(writes) && k < |writes| && i < |writes|
    ensures
      var p, out := Named(writes[i].target), PublishedFiles(was, writes, k, r);
      if r <= i < k then p in out && out[p] == writes[i].content else AgreeAt(out, was, p)
  {
    var p, r' := Named(writes[i].target), if r < |writes| then r else |writes|;
    RestoredAt(Applied(was, writes[..k]), was, writes[..r'], p);
    TargetsOwn(writes, r', i);
    TargetsOwn(writes, k, i);
    if i < k {
      AppliedAt(was, writes[..k], i);
    } else {
      AppliedElsewhere(was, writes[..k], p);
    }
  }

  /** The write leaves its target as it is. */
  ghost predicate Idle<C>(was: map<Path, C>, w: Write<C>) {
    Named(w.target) in was && was[Named(w.target)] == w.content
  }

  lemma FailedElsewhere<C>(was: map<Path, C>, writes: seq<Write<C>>, k: nat, r: nat, p: Path)
    requires k < |writes| && !Targets(writes, p)
    ensures AgreeAt(PublishedFiles(was, writes, k, r), was, p) && AgreeAt(Applied(was, writes), was, p)
  {
    var r' := if r < |writes| then r else |writes|;
    PrefixTargets(writes, k, p);
    PrefixTargets(writes, r', p);
    AppliedElsewhere(was, writes, p);
    AppliedElsewhere(was, writes[..k], p);
    RestoredAt(Applied(was, writes[..k]), was, writes[..r'], p);
  }

  /** A failed publication leaves nothing behind exactly when every write between the
      restores and the failure was idle. */
  lemma NothingExact<C>(was: map<Path, C>, writes: seq<Write<C>>, k: nat, r: nat)
    requires DistinctTargets(writes) && k < |writes|
    ensures PublishedFiles(was, writes, k, r) == was <==> forall i :: r <= i < k ==> Idle(was, writes[i])
  {
    var out := PublishedFiles(was, writes, k, r);
    if out == was {
      forall i | r <= i < k
        ensures Idle(was, writes[i])
      {
        FailedAt(was, writes, k, r, i);
      }
    }
    if forall i :: r <= i < k ==> Idle(was, writes[i]) {
      forall p
        ensures AgreeAt(out, was, p)
      {
        if Targets(writes, p) {
          var i :| 0 <= i < |writes| && p == Named(writes[i].target);
          FailedAt(was, writes, k, r, i);
        } else {
          FailedElsewhere(was, writes, k, r, p);
        }
      }
      AgreeEverywhere(out, was);
    }
  }

  /** And it has done everything exactly when every other write was idle. */
  lemma EverythingExact<C>(was: map<Path, C>, writes: seq<Write<C>>, k: nat, r: nat)
    requires DistinctTargets(writes) && k < |writes|
    ensures PublishedFiles(was, writes, k, r) == Applied(was, writes) <==>
              forall i :: 0 <= i < |writes| && !(r <= i < k) ==> Idle(was, writes[i])
  {
    var out, all := PublishedFiles(was, writes, k, r), Applied(was, writes);
    if out == all {
      forall i | 0 <= i < |writes| && !(r <= i < k)
        ensures Idle(was, writes[i])
      {
        FailedAt(was, writes, k, r, i);
        AppliedAt(was, writes, i);
      }
    }
    if forall i :: 0 <= i < |writes| && !(r <= i < k) ==> Idle(was, writes[i]) {
      forall p
        ensures AgreeAt(out, all, p)
      {
        if Targets(writes, p) {
          var i :| 0 <= i < |writes| && p == Named(writes[i].target);
          FailedAt(was, writes, k, r, i);
          AppliedAt(was, writes, i);
        } else {
          FailedElsewhere(was, writes, k, r, p);
        }
      }
      AgreeEverywhere(out, all);
    }
  }

  ghost predicate AllOrNothing<C>(was: map<Path, C>, writes: seq<Write<C>>, k: nat, r: nat) {
    PublishedFiles(was, writes, k, r) == was || PublishedFiles(was, writes, k, r) == Applied(was, writes)
  }

  /** The publication is all or nothing exactly when no replace fails, or every write
      that is left in place, from the failing restore to the failing replace, was
      idle, or every other one was. The backups are gone in every case, so an
      interrupted rollback loses the previous content for good. */
  lemma AllOrNothingExact<C>(was: map<Path, C>, writes: seq<Write<C>>, k: nat, r: nat)
    requires DistinctTargets(writes)
    ensures AllOrNothing(was, writes, k, r) <==>
              || k >= |writes|
              || (forall i :: r <= i < k ==> Idle(was, writes[i]))
              || (forall i :: 0 <= i < |writes| && !(r <= i < k) ==> Idle(was, writes[i]))
  {
    if k < |writes| {
      NothingExact(was, writes, k, r);
      EverythingExact(was, writes, k, r);
    }
  }

  /** When no write is idle, that is: exactly when no replace fails or the restores
      get at least as far as the replaces did. */
  lemma AllOrNothingOfNew<C>(was: map<Path, C>, writes: seq<Write<C>>, k: nat, r: nat)
    requires DistinctTargets(writes) && forall i :: 0 <= i < |writes| ==> !Idle(was, writes[i])
    ensures AllOrNothing(was, writes, k, r) <==> k >= |writes| || r >= k
  {
    AllOrNothingExact(was, writes, k, r);
    if k < |writes| && r < k {
      assert !Idle(was, writes[r]) && !Idle(was, writes[k]);
    }
  }

  /** The first unused serial numbers of the two kinds of temporary. */
  datatype Unused = Unused(staged: nat, backup: nat)

  predicate IsFrom(p: Path, base: Unused) {
    (p.Staged? && p.serial >= base.staged) || (p.Backup? && p.serial >= base.backup)
  }

  /** Exactly the targets that existed have a backup. */
  ghost predicate BackupNames<C>(before: map<Path, C>, base: Unused, writes: seq<Write<C>>,
                                 backups: seq<Option<Path>>)
  {
    && |backups| <= |writes|
    && forall j :: 0 <= j < |backups| ==>
      backups[j] == if Named(writes[j].target) in before then Some(Backup(base.backup + j)) else None
  }

  ghost predicate StagedNames(base: Unused, staged: seq<Path>) {
    forall j :: 0 <= j < |staged| ==> staged[j] == Staged(base.staged + j)
  }

  /** Everything except the temporaries made since `base`. */
  ghost function Outside<C>(files: map<Path, C>, base: Unused): map<Path, C> {
    map p | p in files && !IsFrom(p, base) :: files[p]
  }

  lemma OutsideAt<C>(files: map<Path, C>, base: Unused, p: Path)
    requires !IsFrom(p, base)
    ensures AgreeAt(Outside(files, base), files, p)
  {
  }

  lemma OutsideIgnoresTemps<C>(files: map<Path, C>, base: Unused, p: Path, content: C)
    requires IsFrom(p, base)
    ensures Outside(files[p := content], base) == Outside(files, base)
    ensures Outside(files - {p}, base) == Outside(files, base)
  {
  }

  ghost predicate StagedFrom<C>(files: map<Path, C>, writes: seq<Write<C>>, staged: seq<Path>, from: nat)
    requires |staged| <= |writes|
  {
    forall j :: from <= j < |staged| ==> staged[j] in files && files[staged[j]] == writes[j].content
  }

  /** From `from` on the backups are still there, holding the old contents. */
  ghost predicate BackedUp<C>(files: map<Path, C>, before: map<Path, C>, base: Unused, writes: seq<Write<C>>,
                              backups: seq<Option<Path>>, from: nat)
  {
    && BackupNames(before, base, writes, backups)
    && forall j :: from <= j < |backups| && backups[j].Some? ==>
      backups[j].value in files && files[backups[j].value] == before[Named(writes[j].target)]
  }

  /** Every temporary made since `base` is one of the first so many staged files or
      one of the backups actually made. */
  ghost predicate TempsWithin<C>(files: map<Path, C>, base: Unused, staged: nat, backups: seq<Option<Path>>) {
    && (forall s: nat :: Staged(s) in files ==> s < base.staged + staged)
    && (forall s: nat :: Backup(s) in files ==> s < base.backup + |backups|)
    && (forall j :: 0 <= j < |backups| && backups[j].None? ==> Backup(base.backup + j) !in files)
  }

  ghost predicate NoMoreTemps<C>(files: map<Path, C>, base: Unused, before: map<Path, C>) {
    forall p :: p in files && IsFrom(p, base) ==> p in before
  }

  /** `staged` and `backups` name the temporaries made for the first writes. */
  ghost predicate StagedUpTo<C>(files: map<Path, C>, before: map<Path, C>, base: Unused, writes: seq<Write<C>>,
                                staged: seq<Path>, backups: seq<Option<Path>>)
  {
    && |staged| <= |writes| && |backups| <= |writes|
    && Outside(files, base) == before
    && StagedNames(base, staged) && StagedFrom(files, writes, staged, 0)
    && BackedUp(files, before, base, writes, backups, 0) && TempsWithin(files, base, |staged|, backups)
  }

  lemma StagedAdded<C>(files: map<Path, C>, before: map<Path, C>, base: Unused, writes: seq<Write<C>>,
                       staged: seq<Path>, backups: seq<Option<Path>>)
    requires |staged| < |writes| && StagedUpTo(files, before, base, writes, staged, backups)
    ensures
      var p := Staged(base.staged + |staged|);
      StagedUpTo(files[p := writes[|staged|].content], before, base, writes, staged + [p], backups)
  {
    OutsideIgnoresTemps(files, base, Staged(base.staged + |staged|), writes[|staged|].content);
  }

  lemma BackupAdded<C>(files: map<Path, C>, before: map<Path, C>, base: Unused, writes: seq<Write<C>>,
                       staged: seq<Path>, backups: seq<Option<Path>>)
    requires |backups| < |writes| && StagedUpTo(files, before, base, writes, staged, backups)
    ensures
      var p, target := Backup(base.backup + |backups|), Named(writes[|backups|].target);
      if target in files then StagedUpTo(files[p := files[target]], before, base, writes, staged, backups + [Some(p)])
      else StagedUpTo(files, before, base, writes, staged, backups + [None])
  {
    var p, target := Backup(base.backup + |backups|), Named(writes[|backups|].target);
    OutsideAt(files, base, target);
    if target in files {
      OutsideIgnoresTemps(files, base, p, files[target]);
    }
  }

  /** Staging has left something behind exactly when some staged file exists. */
  lemma NothingStaged<C>(files: map<Path, C>, before: map<Path, C>, base: Unused, writes: seq<Write<C>>,
                         staged: seq<Path>, backups: seq<Option<Path>>)
    requires StagedUpTo(files, before, base, writes, staged, backups) && |backups| <= |staged|
    ensures files == before <==> staged == []
  {
    if staged == [] {
      forall p | p in files
        ensures !IsFrom(p, base)
      {
        assert p.Staged? ==> Staged(p.serial) in files;
        assert p.Backup? ==> Backup(p.serial) in files;
      }
      assert files == Outside(files, base);
    } else {
      assert staged[0] in files && staged[0] !in Outside(files, base);
    }
  }

  /** The staged files of `count` writes from `from` on are there. */
  ghost predicate StagedOn<C>(files: map<Path, C>, base: Unused, count: nat, from: nat) {
    forall s: nat :: base.staged <= s < base.staged + count ==> (Staged(s) in files <==> base.staged + from <= s)
  }

  /** The backups from `from` on are there, each for a target that was. */
  ghost predicate BackupsOn<C>(files: map<Path, C>, was: map<Path, C>, base: Unused, writes: seq<Write<C>>, from: nat) {
    forall s: nat :: base.backup <= s < base.backup + |writes| ==>
      (Backup(s) in files <==> base.backup + from <= s && Named(writes[s - base.backup].target) in was)
  }

  /** Taking back backup `i`, or finding there is none. */
  lemma BackupsNext<C>(files: map<Path, C>, next: map<Path, C>, was: map<Path, C>, base: Unused, writes: seq<Write<C>>,
                       backups: seq<Option<Path>>, i: nat)
    requires i < |writes| == |backups| && BackupsOn(files, was, base, writes, i)
    requires backups[i].Some? <==> Named(writes[i].target) in was
    requires forall s: nat ::
      Backup(s) in next <==> Backup(s) in files && (backups[i].None? || s != base.backup + i)
    ensures BackupsOn(next, was, base, writes, i + 1)
  {
    forall s: nat | base.backup <= s < base.backup + |writes|
      ensures Backup(s) in next <==> base.backup + (i + 1) <= s && Named(writes[s - base.backup].target) in was
    {
      if s == base.backup + i {
        assert writes[s - base.backup] == writes[i];
      }
    }
  }

  lemma AllOn<C>(files: map<Path, C>, before: map<Path, C>, base: Unused, writes: seq<Write<C>>,
                 staged: seq<Path>, backups: seq<Option<Path>>)
    requires |staged| == |backups| == |writes| && StagedUpTo(files, before, base, writes, staged, backups)
    ensures StagedOn(files, base, |writes|, 0) && BackupsOn(files, before, base, writes, 0)
  {
    forall s: nat | base.staged <= s < base.staged + |writes|
      ensures Staged(s) in files
    {
      assert staged[s - base.staged] == Staged(s);
    }
    forall s: nat | base.backup <= s < base.backup + |writes|
      ensures Backup(s) in files <==> Named(writes[s - base.backup].target) in before
    {
      var j := s - base.backup;
      assert backups[j] == if Named(writes[j].target) in before then Some(Backup(base.backup + j)) else None;
    }
  }

  /** The temporary that step `u` of the clean-up unlinks: first the staged files,
      then the backups. */
  function TempAt(base: Unused, count: nat, u: nat): Path {
    if u < count then Staged(base.staged + u) else Backup(base.backup + (u - count))
  }

  /** `p` is unlinked before step `u`. */
  predicate UnlinkedBy(base: Unused, count: nat, u: nat, p: Path) {
    || (p.Staged? && base.staged <= p.serial < base.staged + count && p.serial < base.staged + u)
    || (p.Backup? && base.backup <= p.serial < base.backup + count && count + (p.serial - base.backup) < u)
  }

  /** Whether it is still there: a staged file that was not moved to its target, or
      a backup that was not moved back. */
  ghost predicate LeftAt<C>(was: map<Path, C>, writes: seq<Write<C>>, k: nat, r: nat, u: nat) {
    if u < |writes| then k <= u
    else
      && u < 2 * |writes|
      && Named(writes[u - |writes|].target) in was && (k >= |writes| || r <= u - |writes|)
  }

  lemma LeftExactly<C>(files: map<Path, C>, was: map<Path, C>, base: Unused, writes: seq<Write<C>>,
                       k: nat, r: nat, u: nat)
    requires u < 2 * |writes| && StagedOn(files, base, |writes|, if k < |writes| then k else |writes|)
    requires BackupsOn(files, was, base, writes, if k >= |writes| then 0 else if r < |writes| then r else |writes|)
    ensures TempAt(base, |writes|, u) in files <==> LeftAt(was, writes, k, r, u)
  {
  }

  // ---- the file system

  class FileSystem<C> {
    var files: map<Path, C>
    var unused: Unused

    ghost predicate Valid()
      reads this
    {
      forall p :: p in files ==> !IsFrom(p, unused)
    }

    constructor (initial: map<Path, C>, unused: Unused)
      requires forall p :: p in initial ==> !IsFrom(p, unused)
      ensures Valid() && files == initial
    {
      files, this.unused := initial, unused;
    }

    /** NamedTemporaryFile picks a name that no file has. */
    method Stage(content: C) returns (p: Path)
      requires Valid()
      modifies this
      ensures Valid() && p == Staged(old(unused).staged) && unused == old(unused).(staged := p.serial + 1)
      ensures files == old(files)[p := content]
    {
      p := Staged(unused.staged);
      files, unused := files[p := content], unused.(staged := p.serial + 1);
    }

    method StageBackup(target: Path) returns (p: Option<Path>)
      requires Valid()
      modifies this
      ensures Valid() && unused == old(unused).(backup := old(unused).backup + 1)
      ensures p == if target in old(files) then Some(Backup(old(unused).backup)) else None
      ensures files == if target in old(files) then old(files)[Backup(old(unused).backup) := old(files)[target]]
                       else old(files)
    {
      var b := Backup(unused.backup);
      unused := unused.(backup := b.serial + 1);
      if target !in files {
        return None;
      }
      files := files[b := files[target]];
      return Some(b);
    }

    /** A staged file that raises before it is finished stays behind if it exists. */
    method AbandonStaged(left: Option<C>, ghost base: Unused)
      requires Valid() && base.staged <= unused.staged && base.backup <= unused.backup
      modifies this
      ensures Valid() && Outside(files, base) == Outside(old(files), base) && old(files.Keys) <= files.Keys
      ensures left.None? ==> files == old(files)
      ensures left.Some? ==> exists p :: p in files && IsFrom(p, base)
    {
      if left.Some? {
        OutsideIgnoresTemps(files, base, Staged(unused.staged), left.value);
        var p := Stage(left.value);
      }
    }

    /** So does a backup; none is begun for a target that is not there. */
    method AbandonBackup(target: Path, left: Option<C>, ghost base: Unused)
      requires Valid() && base.staged <= unused.staged && base.backup <= unused.backup
      modifies this
      ensures Valid() && Outside(files, base) == Outside(old(files), base) && old(files.Keys) <= files.Keys
    {
      if left.Some? && target in files {
        OutsideIgnoresTemps(files, base, Backup(unused.backup), left.value);
        files := files[Backup(unused.backup) := left.value];
        unused := unused.(backup := unused.backup + 1);
      }
    }

    /** os.replace */
    method Replace(source: Path, target: Path)
      requires Valid() && source in files && target.Named?
      modifies this`files
      ensures Valid() && files == old(files)[target := old(files)[source]] - {source}
    {
      files := files[target := files[source]] - {source};
    }

    method Unlink(p: Path)
      requires Valid()
      modifies this`files
      ensures Valid() && files == old(files) - {p}
    {
      if p in files {
        files := files - {p};
      }
      assert files == old(files) - {p};
    }

    /** The whole publication. A fault while staging leaves every target alone but
        leaks the temporaries made so far, unless there is none yet; after staging
        no temporary is left behind unless its own unlink raises, which is reported
        although the files are in place. */
    method WriteArtifactsAtomic(writes: seq<Write<C>>, stop: Stop<C>, k: nat, r: nat, u: nat)
      returns (outcome: Outcome)
      requires Valid()
      modifies this
      ensures Valid()
      ensures Stops(stop, |writes|) ==>
        && outcome == StagingFailed
        && Outside(files, old(unused)) == old(files)
        && (files == old(files) <==> stop == AtStaged(0, None))
      ensures !Stops(stop, |writes|) ==>
        && Outside(files, old(unused)) == PublishedFiles(old(files), writes, k, r)
        && (outcome == CleanUpFailed <==> LeftAt(old(files), writes, k, r, u))
      ensures !Stops(stop, |writes|) && outcome != CleanUpFailed ==>
        && files == PublishedFiles(old(files), writes, k, r)
        && outcome == if k >= |writes| then Published else if r >= |writes| then RolledBack else RollbackFailed
    {
      ghost var before, base := files, unused;
      var staged, backups, stopped := StageAll(writes, stop);
      if stopped {
        return StagingFailed;
      }
      outcome := Published;
      var failed := ReplaceAll(writes, staged, backups, before, base, k);
      if failed {
        outcome := RestoreTargets(writes, backups, before, base, k, r);
      }
      if u < 2 * |writes| {
        LeftExactly(files, before, base, writes, k, r, u);
      }
      var raised := CleanUp(staged, backups, base, u);
      if raised {
        outcome := CleanUpFailed;
      }
    }

    method StageAll(writes: seq<Write<C>>, stop: Stop<C>)
      returns (staged: seq<Path>, backups: seq<Option<Path>>, stopped: bool)
      requires Valid()
      modifies this
      ensures Valid() && stopped == Stops(stop, |writes|)
      ensures stopped ==>
        Outside(files, old(unused)) == old(files) && (files == old(files) <==> stop == AtStaged(0, None))
      ensures !stopped ==>
        |staged| == |backups| == |writes| && StagedUpTo(files, old(files), old(unused), writes, staged, backups)
    {
      ghost var before, base := files, unused;
      staged, backups, stopped := [], [], false;
      for i := 0 to |writes|
        invariant Valid() && !Stops(stop, i) && !stopped && |staged| == |backups| == i
        invariant unused == Unused(base.staged + i, base.backup + i)
        invariant StagedUpTo(files, before, base, writes, staged, backups)
      {
        staged, stopped := AddStaged(writes, stop, staged, backups, before, base);
        if stopped {
          return;
        }
        backups, stopped := AddBackup(writes, stop, staged, backups, before, base);
        if stopped {
          return;
        }
      }
    }

    /** Stages the next write. */
    method AddStaged(writes: seq<Write<C>>, stop: Stop<C>, staged: seq<Path>, ghost backups: seq<Option<Path>>,
                     ghost before: map<Path, C>, ghost base: Unused)
      returns (staged': seq<Path>, stopped: bool)
      requires Valid() && |backups| <= |staged| < |writes|
      requires StagedUpTo(files, before, base, writes, staged, backups)
      requires unused == Unused(base.staged + |staged|, base.backup + |backups|)
      modifies this
      ensures Valid() && stopped == (stop.AtStaged? && stop.index == |staged|)
      ensures stopped ==> Outside(files, base) == before && (files == before <==> stop == AtStaged(0, None))
      ensures !stopped ==>
        && unused == Unused(base.staged + |staged'|, base.backup + |backups|)
        && |staged'| == |staged| + 1 && StagedUpTo(files, before, base, writes, staged', backups)
    {
      stopped := stop.AtStaged? && stop.index == |staged|;
      NothingStaged(files, before, base, writes, staged, backups);
      if stopped {
        AbandonStaged(stop.left, base);
        return staged, true;
      }
      StagedAdded(files, before, base, writes, staged, backups);
      var p := Stage(writes[|staged|].content);
      staged' := staged + [p];
    }

    /** Backs up the next target. */
    method AddBackup(writes: seq<Write<C>>, stop: Stop<C>, ghost staged: seq<Path>, backups: seq<Option<Path>>,
                     ghost before: map<Path, C>, ghost base: Unused)
      returns (backups': seq<Option<Path>>, stopped: bool)
      requires Valid() && |backups| < |staged| <= |writes|
      requires StagedUpTo(files, before, base, writes, staged, backups)
      requires unused == Unused(base.staged + |staged|, base.backup + |backups|)
      modifies this
      ensures Valid() && stopped == (stop.AtBackup? && stop.index == |backups|)
      ensures stopped ==> Outside(files, base) == before && files != before
      ensures !stopped ==>
        && unused == Unused(base.staged + |staged|, base.backup + |backups'|)
        && |backups'| == |backups| + 1 && StagedUpTo(files, before, base, writes, staged, backups')
    {
      stopped := stop.AtBackup? && stop.index == |backups|;
      if stopped {
        assert staged[0] in files && staged[0] !in before;
        AbandonBackup(Named(writes[|backups|].target), stop.left, base);
        return backups, true;
      }
      BackupAdded(files, before, base, writes, staged, backups);
      var p := StageBackup(Named(writes[|backups|].target));
      backups' := backups + [p];
    }

    method ReplaceAll(writes: seq<Write<C>>, staged: seq<Path>, ghost backups: seq<Option<Path>>,
                      ghost before: map<Path, C>, ghost base: Unused, k: nat) returns (failed: bool)
      requires Valid() && |staged| == |backups| == |writes| && StagedUpTo(files, before, base, writes, staged, backups)
      modifies this`files
      ensures Valid() && failed == (k < |writes|)
      ensures Outside(files, base) == Applied(before, if failed then writes[..k] else writes)
      ensures TempsWithin(files, base, |staged|, backups) && BackedUp(files, before, base, writes, backups, 0)
      ensures StagedOn(files, base, |writes|, if failed then k else |writes|)
      ensures BackupsOn(files, before, base, writes, 0)
    {
      AllOn(files, before, base, writes, staged, backups);
      for i := 0 to |writes|
        invariant Valid() && i <= k
        invariant StagedFrom(files, writes, staged, i)
        invariant StagedOn(files, base, |writes|, i) && BackupsOn(files, before, base, writes, 0)
        invariant TempsWithin(files, base, |staged|, backups) && BackedUp(files, before, base, writes, backups, 0)
        invariant Outside(files, base) == Applied(before, writes[..i])
      {
        if i == k {
          return true;
        }
        ReplaceOne(writes, staged, backups, before, base, i);
        assert writes[..i + 1][..i] == writes[..i];
      }
      assert writes[..|writes|] == writes;
      return false;
    }

    method ReplaceOne(writes: seq<Write<C>>, staged: seq<Path>, ghost backups: seq<Option<Path>>,
                      ghost before: map<Path, C>, ghost base: Unused, i: nat)
      requires Valid() && i < |staged| == |writes| && StagedNames(base, staged) && StagedFrom(files, writes, staged, i)
      requires TempsWithin(files, base, |staged|, backups) && BackedUp(files, before, base, writes, backups, 0)
      modifies this`files
      ensures Valid() && StagedFrom(files, writes, staged, i + 1)
      ensures TempsWithin(files, base, |staged|, backups) && BackedUp(files, before, base, writes, backups, 0)
      ensures Outside(files, base) == Outside(old(files), base)[Named(writes[i].target) := writes[i].content]
      ensures forall s: nat :: Staged(s) in files <==> Staged(s) in old(files) && s != base.staged + i
      ensures forall s: nat :: Backup(s) in files <==> Backup(s) in old(files)
    {
      Replace(staged[i], Named(writes[i].target));
      assert Outside(files, base) == Outside(old(files), base)[Named(writes[i].target) := writes[i].content];
    }

    method RestoreTargets(writes: seq<Write<C>>, backups: seq<Option<Path>>,
                          ghost before: map<Path, C>, ghost base: Unused, ghost k: nat, r: nat)
      returns (outcome: Outcome)
      requires Valid() && k < |writes| == |backups|
      requires BackedUp(files, before, base, writes, backups, 0) && BackupsOn(files, before, base, writes, 0)
      requires Outside(files, base) == Applied(before, writes[..k])
      modifies this`files
      ensures Valid() && Outside(files, base) == PublishedFiles(before, writes, k, r)
      ensures NoMoreTemps(files, base, old(files))
      ensures forall s: nat :: Staged(s) in files <==> Staged(s) in old(files)
      ensures BackupsOn(files, before, base, writes, if r < |writes| then r else |writes|)
      ensures outcome == if r >= |writes| then RolledBack else RollbackFailed
    {
      for i := 0 to |writes|
        invariant Valid() && i <= r
        invariant BackedUp(files, before, base, writes, backups, i) && NoMoreTemps(files, base, old(files))
        invariant Outside(files, base) == Restored(Applied(before, writes[..k]), before, writes[..i])
        invariant forall s: nat :: Staged(s) in files <==> Staged(s) in old(files)
        invariant BackupsOn(files, before, base, writes, i)
      {
        if i == r {
          return RollbackFailed;
        }
        ghost var was := files;
        RestoreTarget(writes, backups, before, base, i);
        BackupsNext(was, files, before, base, writes, backups, i);
        assert writes[..i + 1][..i] == writes[..i];
      }
      return RolledBack;
    }

    method RestoreTarget(writes: seq<Write<C>>, backups: seq<Option<Path>>,
                         ghost before: map<Path, C>, ghost base: Unused, i: nat)
      requires Valid() && i < |writes| == |backups|
      requires BackedUp(files, before, base, writes, backups, i)
      modifies this`files
      ensures Valid() && Outside(files, base) == RestoreOne(Outside(old(files), base), before, Named(writes[i].target))
      ensures BackedUp(files, before, base, writes, backups, i + 1) && NoMoreTemps(files, base, old(files))
      ensures forall s: nat :: Staged(s) in files <==> Staged(s) in old(files)
      ensures forall s: nat ::
        Backup(s) in files <==> Backup(s) in old(files) && (backups[i].None? || s != base.backup + i)
    {
      var target := Named(writes[i].target);
      if backups[i].Some? {
        Replace(backups[i].value, target);
      } else if target in files {
        Unlink(target);
      }
      assert Outside(files, base) == RestoreOne(Outside(old(files), base), before, target);
    }

    /** The `finally` block: whatever temporaries are still there go, one by one, up
        to one whose unlink raises. */
    method CleanUp(staged: seq<Path>, backups: seq<Option<Path>>, ghost base: Unused, u: nat) returns (raised: bool)
      requires Valid() && TempsWithin(files, base, |staged|, backups) && StagedNames(base, staged)
      requires |staged| == |backups|
      requires forall j :: 0 <= j < |backups| && backups[j].Some? ==> backups[j].value == Backup(base.backup + j)
      modifies this`files
      ensures Valid() && Outside(files, base) == Outside(old(files), base)
      ensures raised <==> u < 2 * |staged| && TempAt(base, |staged|, u) in old(files)
      ensures raised ==> forall p :: p in files <==> p in old(files) && !UnlinkedBy(base, |staged|, u, p)
      ensures !raised ==> files == Outside(old(files), base)
    {
      raised := DiscardStaged(staged, base, u);
      if !raised {
        raised := DiscardBackups(backups, base, |staged|, u);
      }
      if !raised {
        forall p | p in files
          ensures !IsFrom(p, base)
        {
          assert p.Staged? ==> Staged(p.serial) in files;
          assert p.Backup? ==> Backup(p.serial) in files;
        }
        assert files == Outside(files, base);
      }
    }

    method DiscardStaged(staged: seq<Path>, ghost base: Unused, u: nat) returns (raised: bool)
      requires Valid() && StagedNames(base, staged)
      modifies this`files
      ensures Valid() && Outside(files, base) == Outside(old(files), base)
      ensures raised <==> u < |staged| && Staged(base.staged + u) in old(files)
      ensures forall p :: p in files <==>
        p in old(files) && !(p.Staged? && base.staged <= p.serial < base.staged + (if raised then u else |staged|))
    {
      for i := 0 to |staged|
        invariant Valid() && Outside(files, base) == Outside(old(files), base)
        invariant !(u < i && Staged(base.staged + u) in old(files))
        invariant forall p :: p in files <==>
          p in old(files) && !(p.Staged? && base.staged <= p.serial < base.staged + i)
      {
        if i == u && staged[i] in files {
          return true;
        }
        Discard(staged[i], base);
      }
      return false;
    }

    method DiscardBackups(backups: seq<Option<Path>>, ghost base: Unused, count: nat, u: nat) returns (raised: bool)
      requires Valid() && count == |backups|
      requires forall j :: 0 <= j < |backups| && backups[j].Some? ==> backups[j].value == Backup(base.backup + j)
      requires forall j :: 0 <= j < |backups| && backups[j].None? ==> Backup(base.backup + j) !in files
      modifies this`files
      ensures Valid() && Outside(files, base) == Outside(old(files), base)
      ensures raised <==> count <= u < 2 * count && Backup(base.backup + (u - count)) in old(files)
      ensures forall p :: p in files <==>
        p in old(files)
        && !(p.Backup? && base.backup <= p.serial < base.backup + (if raised then u - count else count))
    {
      for i := 0 to |backups|
        invariant Valid() && Outside(files, base) == Outside(old(files), base)
        invariant !(count <= u < count + i && Backup(base.backup + (u - count)) in old(files))
        invariant forall p :: p in files <==>
          p in old(files) && !(p.Backup? && base.backup <= p.serial < base.backup + i)
      {
        if backups[i].Some? {
          if count + i == u && backups[i].value in files {
            return true;
          }
          Discard(backups[i].value, base);
        } else {
          assert Backup(base.backup + i) !in old(files);
        }
      }
      return false;
    }

    method Discard(p: Path, ghost base: Unused)
      requires Valid() && IsFrom(p, base)
      modifies this`files
      ensures Valid() && files.Keys == old(files.Keys) - {p}
      ensures Outside(files, base) == Outside(old(files), base)
    {
      if p in files {
        OutsideIgnoresTemps(files, base, p, files[p]);
      }
      Unlink(p);
    }

    /** The two-file variant that writes the findings stores: both files are staged
        before either is backed up; the rest is the same, unrolled for two files. */
    method WritePair(first: Write<C>, second: Write<C>, stop: Stop<C>, k: nat, r: nat, u: nat)
      returns (outcome: Outcome)
      requires Valid()
      modifies this
      ensures Valid()
      ensures Stops(stop, 2) ==>
        && outcome == StagingFailed
        && Outside(files, old(unused)) == old(files)
        && (files == old(files) <==> stop == AtStaged(0, None))
      ensures !Stops(stop, 2) ==>
        && Outside(files, old(unused)) == PublishedFiles(old(files), [first, second], k, r)
        && (outcome == CleanUpFailed <==> LeftAt(old(files), [first, second], k, r, u))
      ensures !Stops(stop, 2) && outcome != CleanUpFailed ==>
        && files == PublishedFiles(old(files), [first, second], k, r)
        && outcome == if k >= 2 then Published else if r >= 2 then RolledBack else RollbackFailed
    {
      ghost var before, base := files, unused;
      var writes := [first, second];
      var staged, backups, stopped := StagePair(first, second, stop);
      if stopped {
        return StagingFailed;
      }
      outcome := Published;
      var failed := ReplaceAll(writes, staged, backups, before, base, k);
      if failed {
        outcome := RestoreTargets(writes, backups, before, base, k, r);
      }
      if u < 2 * |writes| {
        LeftExactly(files, before, base, writes, k, r, u);
      }
      var raised := CleanUp(staged, backups, base, u);
      if raised {
        outcome := CleanUpFailed;
      }
    }

    method StagePair(first: Write<C>, second: Write<C>, stop: Stop<C>)
      returns (staged: seq<Path>, backups: seq<Option<Path>>, stopped: bool)
      requires Valid()
      modifies this
      ensures Valid() && stopped == Stops(stop, 2)
      ensures stopped ==>
        Outside(files, old(unused)) == old(files) && (files == old(files) <==> stop == AtStaged(0, None))
      ensures !stopped ==>
        |staged| == |backups| == 2 && StagedUpTo(files, old(files), old(unused), [first, second], staged, backups)
    {
      ghost var before, base := files, unused;
      var writes := [first, second];
      staged, backups := [], [];
      assert Outside(files, base) == files;
      staged, stopped := AddStaged(writes, stop, staged, backups, before, base);
      if !stopped {
        staged, stopped := AddStaged(writes, stop, staged, backups, before, base);
      }
      if !stopped {
        backups, stopped := AddBackup(writes, stop, staged, backups, before, base);
      }
      if !stopped {
        backups, stopped := AddBackup(writes, stop, staged, backups, before, base);
      }
    }
  }

  // ---- a publication as a step of a run

  /** How a publication goes whose restores work: staging stops, or the replace with
      this index fails, if there is one. Either way some temporaries may be left. */
  datatype Course<+C> = Stopped(left: map<Path, C>) | Replacing(fault: nat, left: map<Path, C>)

  function Unnamed<C>(files: map<Path, C>): map<Path, C> {
    map p | p in files && !p.Named? :: files[p]
  }

  function Follow<C>(was: map<Path, C>, writes: seq<Write<C>>, course: Course<C>): map<Path, C> {
    match course
    case Stopped(left) => was + Unnamed(left)
    case Replacing(k, left) => PublishedFiles(was, writes, k, |writes|) + Unnamed(left)
  }

  predicate Completes<C>(writes: seq<Write<C>>, course: Course<C>) {
    course.Replacing? && course.fault >= |writes|
  }

  /** Unless the course completes, no named file changes; */
  lemma UnfinishedKeepsNamed<C>(was: map<Path, C>, writes: seq<Write<C>>, course: Course<C>)
    requires !Completes(writes, course)
    ensures forall name :: AgreeAt(Follow(was, writes, course), was, Named(name))
  {
    if course.Replacing? {
      RollbackIsExact(was, writes, course.fault, |writes|);
    }
  }

  /** and if it does they are all written. */
  lemma FinishedAppliesNamed<C>(was: map<Path, C>, writes: seq<Write<C>>, course: Course<C>)
    requires Completes(writes, course)
    ensures forall name :: AgreeAt(Follow(was, writes, course), Applied(was, writes), Named(name))
  {
  }

  /** What a publication leaves, whatever happens while it stages or cleans up, is a
      course of this kind. */
  lemma OutsideIsCourse<C>(was: map<Path, C>, writes: seq<Write<C>>, files: map<Path, C>, base: Unused, k: nat)
    ensures Outside(files, base) == was ==> files == Follow(was, writes, Stopped(files - was.Keys))
    ensures Outside(files, base) == PublishedFiles(was, writes, k, |writes|) ==>
              files == Follow(was, writes, Replacing(k, files - PublishedFiles(was, writes, k, |writes|).Keys))
  {
    SplitOff(files, base);
  }

  lemma SplitOff<C>(files: map<Path, C>, base: Unused)
    ensures files == Outside(files, base) + Unnamed(files - Outside(files, base).Keys)
  {
    forall p | p in files
      ensures p in Outside(files, base) || p in Unnamed(files - Outside(files, base).Keys)
    {
      SidesOf(files, base, p);
    }
  }

  lemma SidesOf<C>(files: map<Path, C>, base: Unused, p: Path)
    ensures !IsFrom(p, base) ==> AgreeAt(Outside(files, base), files, p)
    ensures IsFrom(p, base) ==> !p.Named? && p !in Outside(files, base)
  {
  }
}
