/** Reallocating one extent: staging its live stretches, pointing every holder at
    them, and checking that nothing still holds it. */
module Rewrite {
  import opened Sectors
  import opened Wrappers
  import opened Extents
  import opened Disks
  import opened Kernel
  import opened Planning
  import opened Redirect
  import opened Tables

  function IdOf(h: Holder): FileId {
    Inode(h.root, h.inode)
  }

  /** The holder's references are its file's, and are all the file's into extent `x`. */
  ghost predicate HolderTrue(d: Disk, x: Address, h: Holder) {
    && IdOf(h) in d.files
    && (forall r :: r in h.refs ==> FileOf(r) == IdOf(h) && RefTrue(d.files[IdOf(h)], x, r))
    && (forall s: nat :: s in d.files[IdOf(h)].sectors && d.files[IdOf(h)].sectors[s].extent == x ==> Backed(h.refs, s))
  }

  ghost predicate Distinct(holders: seq<Holder>) {
    forall i, j :: 0 <= i < j < |holders| ==> IdOf(holders[i]) != IdOf(holders[j])
  }

  ghost predicate IsHolder(holders: seq<Holder>, id: FileId) {
    exists h :: h in holders && IdOf(h) == id
  }

  ghost predicate HoldersTrue(d: Disk, x: Address, holders: seq<Holder>) {
    && ValidDisk(d) && x in d.extents
    && Distinct(holders)
    && forall h :: h in holders ==> HolderTrue(d, x, h)
  }

  /** No file but the holders has changed. */
  ghost predicate OthersKept(was: Disk, now: Disk, holders: seq<Holder>) {
    forall id :: id in was.files && !IsHolder(holders, id) ==> id in now.files && now.files[id] == was.files[id]
  }

  /** Every holder is as it was, but for sectors moved to where its table says. */
  ghost predicate HoldersRelocated(was: Disk, now: Disk, x: Address, holders: seq<Holder>, done: int,
                                   first: Table, rest: Table, complete: bool) {
    forall i :: 0 <= i < |holders| ==>
      && IdOf(holders[i]) in was.files && IdOf(holders[i]) in now.files
      && Relocated(was.files[IdOf(holders[i])], now.files[IdOf(holders[i])], x, if i < done then first else rest,
        complete)
  }

  /** What holds while copies are being staged, whatever the kernel does:
      `table` is where sectors have been staged. */
  ghost predicate Copying(was: Disk, now: Disk, x: Address, holders: seq<Holder>, table: Table, complete: bool) {
    && ValidDisk(now) && ExtentsGrow(was.extents, now.extents)
    && now.files.Keys == was.files.Keys
    && OthersKept(was, now, holders)
    && SoundTable(was.extents, now.extents, x, table)
    && HoldersRelocated(was, now, x, holders, |holders|, table, table, complete)
  }

  /** The references still describe what is not staged yet. */
  lemma StillDescribed(was: Disk, x: Address, h: Holder, now: FileState, table: Table, copy: LiveRange)
    requires HolderTrue(was, x, h)
    requires Relocated(was.files[IdOf(h)], now, x, table, false)
    requires forall e :: e in table ==> table[e].extent != x && !copy.Holds(e)
    ensures DescribesIn(now, x, h.refs, copy)
  {
    var f := was.files[IdOf(h)];
    forall r | r in h.refs
      ensures RefTrueIn(now, x, r, copy)
    {
      assert RefTrue(f, x, r);
    }
    forall s: nat | s in now.sectors && now.sectors[s].extent == x && copy.Holds(now.sectors[s].offset)
      ensures Backed(h.refs, s)
    {
      assert now.sectors[s] == f.sectors[s];
    }
  }

  /** What holds between two holders while one copy is staged. */
  ghost predicate Staging(was: Disk, now: Disk, x: Address, holders: seq<Holder>, done: int, table: Table,
                          temp: FileId, a: Address, copy: LiveRange, complete: bool) {
    && ValidDisk(now) && ExtentsGrow(was.extents, now.extents)
    && temp !in was.files && temp in now.files && now.files.Keys == was.files.Keys + {temp}
    && OthersKept(was, now, holders)
    && Staged(now.extents, now.files[temp], a, copy, x)
    && HoldersRelocated(was, now, x, holders, done, table + CopyTable(copy, a), table, complete)
  }

  ghost predicate StageResult(before: Disk, now: Disk, temp: FileId, a: Address, bytes: seq<Byte>) {
    && temp.Temp? && temp !in before.files && a !in before.extents
    && exists modified :: now == Disk(before.files[temp := TempFile(a, |bytes|, modified)],
      before.extents[a := Padded(bytes)])
  }

  lemma TempFileHolds(a: Address, copy: LiveRange, modified: nat)
    requires Aligned(copy.start) && Aligned(copy.end) && |copy.bytes| == copy.end - copy.start
    ensures TempHolds(TempFile(a, |copy.bytes|, modified), a, copy)
  {
  }

  /** A copy is whole sectors, so staging it adds nothing at its end. */
  lemma WholeUnpadded(copy: LiveRange, content: seq<Byte>)
    requires ValidCopy(copy, content)
    ensures Padded(copy.bytes) == copy.bytes
  {
    AlignedDifference(copy.start, copy.end);
  }

  /** A temporary just written holds its copy. */
  lemma StagedFresh(before: Disk, now: Disk, temp: FileId, a: Address, copy: LiveRange, x: Address)
    requires ValidDisk(now) && StageResult(before, now, temp, a, copy.bytes)
    requires x in before.extents && ValidCopy(copy, before.extents[x])
    ensures Staged(now.extents, now.files[temp], a, copy, x)
    ensures now.extents == before.extents[a := copy.bytes]
  {
    WholeUnpadded(copy, before.extents[x]);
    var modified :|
      now == Disk(before.files[temp := TempFile(a, |copy.bytes|, modified)], before.extents[a := Padded(copy.bytes)]);
    TempFileHolds(a, copy, modified);
  }

  lemma HoldersRelocatedStart(was: Disk, before: Disk, now: Disk, x: Address, holders: seq<Holder>, table: Table,
      wider: Table, complete: bool)
    requires HoldersRelocated(was, before, x, holders, |holders|, table, table, complete)
    requires forall id :: id in before.files ==> id in now.files && now.files[id] == before.files[id]
    ensures HoldersRelocated(was, now, x, holders, 0, wider, table, complete)
  {
  }

  lemma HoldersRelocatedNext(was: Disk, before: Disk, now: Disk, x: Address, holders: seq<Holder>, done: nat,
                             table: Table, added: Table, complete: bool)
    requires done < |holders| && Distinct(holders)
    requires HoldersRelocated(was, before, x, holders, done, table + added, table, complete)
    requires OnlyFile(before, now, IdOf(holders[done]))
    requires Relocated(before.files[IdOf(holders[done])], now.files[IdOf(holders[done])], x, added, complete)
    requires table.Keys !! added.Keys && forall e :: e in table ==> table[e].extent != x
    ensures HoldersRelocated(was, now, x, holders, done + 1, table + added, table, complete)
  {
    var id := IdOf(holders[done]);
    RelocatedCompose(was.files[id], before.files[id], now.files[id], x, table, added, complete);
  }

  lemma StagingStarts(was: Disk, before: Disk, now: Disk, x: Address, holders: seq<Holder>, table: Table,
                      temp: FileId, a: Address, copy: LiveRange, complete: bool)
    requires Copying(was, before, x, holders, table, complete) && x in was.extents
    requires ValidDisk(now) && StageResult(before, now, temp, a, copy.bytes)
    requires ValidCopy(copy, was.extents[x])
    ensures Staging(was, now, x, holders, 0, table, temp, a, copy, complete)
  {
    StagedFresh(before, now, temp, a, copy, x);
    HoldersRelocatedStart(was, before, now, x, holders, table, table + CopyTable(copy, a), complete);
  }

  lemma StagingSound(was: Disk, before: Disk, now: Disk, x: Address, table: Table, temp: FileId, a: Address,
      copy: LiveRange)
    requires SoundTable(was.extents, before.extents, x, table) && ExtentsGrow(was.extents, before.extents)
    requires ValidDisk(now) && StageResult(before, now, temp, a, copy.bytes)
    requires ValidCopy(copy, was.extents[x]) && table.Keys !! CopyTable(copy, a).Keys
    ensures SoundTable(was.extents, now.extents, x, table + CopyTable(copy, a))
  {
    StagedFresh(before, now, temp, a, copy, x);
    SoundTableAdds(was.extents, before.extents, now.extents, x, table, copy, a);
  }

  lemma OthersKeptStep(was: Disk, before: Disk, now: Disk, holders: seq<Holder>, i: nat)
    requires i < |holders| && OthersKept(was, before, holders) && OnlyFile(before, now, IdOf(holders[i]))
    ensures OthersKept(was, now, holders)
  {
    assert IsHolder(holders, IdOf(holders[i])) by { assert holders[i] in holders; }
  }

  lemma StagingStep(was: Disk, before: Disk, now: Disk, x: Address, holders: seq<Holder>, done: nat, table: Table,
                    job: Job, complete: bool)
    requires done < |holders| && Distinct(holders) && job.id == IdOf(holders[done])
    requires Staging(was, before, x, holders, done, table, job.temp, job.a, job.copy, complete)
    requires job.was == before.files[job.id] && job.x == x
    requires Advances(before, now, job) && Relocated(job.was, now.files[job.id], x, job.Destination(), complete)
    requires table.Keys !! job.Destination().Keys && forall e :: e in table ==> table[e].extent != x
    ensures Staging(was, now, x, holders, done + 1, table, job.temp, job.a, job.copy, complete)
  {
    HoldersRelocatedNext(was, before, now, x, holders, done, table, job.Destination(), complete);
    OthersKeptStep(was, before, now, holders, done);
  }

  lemma StagingFails(was: Disk, before: Disk, now: Disk, x: Address, holders: seq<Holder>, done: nat, table: Table,
                     job: Job, complete: bool)
    requires done < |holders| && Distinct(holders) && job.id == IdOf(holders[done])
    requires Staging(was, before, x, holders, done, table, job.temp, job.a, job.copy, complete)
    requires job.was == before.files[job.id] && job.x == x && Advances(before, now, job)
    requires table.Keys !! job.Destination().Keys && forall e :: e in table ==> table[e].extent != x
    ensures Staging(was, now, x, holders, done + 1, table, job.temp, job.a, job.copy, false)
  {
    HoldersRelocatedSome(was, before, x, holders, done, table + job.Destination(), table, complete);
    StagingStep(was, before, now, x, holders, done, table, job, false);
  }

  lemma HoldersRelocatedStep(was: Disk, now: Disk, x: Address, holders: seq<Holder>, done: int, first: Table,
      rest: Table)
    requires HoldersRelocated(was, now, x, holders, done, first, rest, false)
    requires forall e :: e in rest ==> e in first && first[e] == rest[e]
    ensures HoldersRelocated(was, now, x, holders, |holders|, first, first, false)
  {
    forall i | 0 <= i < |holders|
      ensures Relocated(was.files[IdOf(holders[i])], now.files[IdOf(holders[i])], x, first, false)
    {
      if done <= i {
        RelocatedWeaker(was.files[IdOf(holders[i])], now.files[IdOf(holders[i])], x, rest, first);
      }
    }
  }

  lemma HoldersRelocatedSome(was: Disk, now: Disk, x: Address, holders: seq<Holder>, done: nat, first: Table,
      rest: Table, complete: bool)
    requires HoldersRelocated(was, now, x, holders, done, first, rest, complete)
    ensures HoldersRelocated(was, now, x, holders, done, first, rest, false)
  {
  }

  /** Once the temporary is closed, its copy is one more stretch staged: for every
      holder, or, if a call failed, for those done so far. */
  lemma StagingEnds(was: Disk, before: Disk, now: Disk, x: Address, holders: seq<Holder>, done: int, table: Table,
                    temp: FileId, a: Address, copy: LiveRange, complete: bool)
    requires Staging(was, before, x, holders, done, table, temp, a, copy, complete)
    requires SoundTable(was.extents, before.extents, x, table + CopyTable(copy, a))
    requires table.Keys !! CopyTable(copy, a).Keys
    requires now == Disk(before.files - {temp}, before.extents)
    requires complete ==> done == |holders|
    ensures Copying(was, now, x, holders, table + CopyTable(copy, a), complete)
  {
    var both := table + CopyTable(copy, a);
    if !complete {
      HoldersRelocatedStep(was, before, x, holders, done, both, table);
    }
    assert now.files.Keys == was.files.Keys;
  }

  ghost predicate Unstaged(table: Table, copy: LiveRange, x: Address) {
    forall e :: e in table ==> table[e].extent != x && !copy.Holds(e)
  }

  /** What every holder's size was before anything moved. */
  ghost predicate SizesOf(was: Disk, holders: seq<Holder>, sizes: seq<nat>) {
    && |sizes| == |holders|
    && forall i :: 0 <= i < |holders| ==> IdOf(holders[i]) in was.files && sizes[i] == was.files[IdOf(holders[i])].size
  }

  function JobFor(d: Disk, h: Holder, x: Address, temp: FileId, a: Address, copy: LiveRange): Job
    requires IdOf(h) in d.files
  {
    Job(IdOf(h), d.files[IdOf(h)], x, temp, a, copy)
  }

  lemma JobStarts(was: Disk, d: Disk, x: Address, holders: seq<Holder>, i: nat, table: Table, temp: FileId, a: Address,
                  copy: LiveRange, complete: bool)
    requires HoldersTrue(was, x, holders) && i < |holders| && Unstaged(table, copy, x)
    requires Staging(was, d, x, holders, i, table, temp, a, copy, complete)
    ensures Working(d, JobFor(d, holders[i], x, temp, a, copy))
    ensures DescribesIn(d.files[IdOf(holders[i])], x, holders[i].refs, copy)
    ensures d.files[IdOf(holders[i])].size == was.files[IdOf(holders[i])].size
  {
    var h := holders[i];
    assert HolderTrue(was, x, h);
    assert Relocated(was.files[IdOf(h)], d.files[IdOf(h)], x, table, complete);
    StillDescribed(was, x, h, d.files[IdOf(h)], table, copy);
  }

  lemma UnstagedDisjoint(table: Table, copy: LiveRange, x: Address, a: Address)
    requires Unstaged(table, copy, x)
    ensures table.Keys !! CopyTable(copy, a).Keys && forall e :: e in table ==> table[e].extent != x
  {
  }

  /** Points one holder at one staged copy. */
  method RedirectHolder(fs: Filesystem, ghost was: Disk, ghost x: Address, ghost holders: seq<Holder>, ghost i: nat,
                        holder: Holder, size: nat, copy: LiveRange, temp: FileId, ghost a: Address, ghost table: Table)
    returns (result: Outcome<()>)
    requires HoldersTrue(was, x, holders) && Unstaged(table, copy, x)
    requires i < |holders| && holder == holders[i] && IdOf(holder) in was.files && size == was.files[IdOf(holder)].size
    requires Staging(was, fs.disk, x, holders, i, table, temp, a, copy, fs.conduct != Lying)
    modifies fs`disk, fs`calls
    ensures old(fs.calls) <= fs.calls
    ensures fs.disk.extents == old(fs.disk).extents
    ensures Staging(was, fs.disk, x, holders, i + 1, table, temp, a, copy, fs.conduct != Lying && result.Ok?)
    ensures result.Err? ==> Explains(fs.calls, |old(fs.calls)|, result.error, fs.conduct)
  {
    ghost var last := fs.disk;
    JobStarts(was, last, x, holders, i, table, temp, a, copy, fs.conduct != Lying);
    UnstagedDisjoint(table, copy, x, a);
    ghost var job := JobFor(last, holder, x, temp, a, copy);
    result := RedirectChunks(fs, job, IdOf(holder), temp, copy, holder.refs, size);
    if result.Err? {
      StagingFails(was, last, fs.disk, x, holders, i, table, job, fs.conduct != Lying);
    } else {
      StagingStep(was, last, fs.disk, x, holders, i, table, job, fs.conduct != Lying);
    }
  }

  /** Points every holder at one staged copy. */
  method RedirectHolders(fs: Filesystem, ghost was: Disk, ghost x: Address, holders: seq<Holder>, sizes: seq<nat>,
                         copy: LiveRange, temp: FileId, ghost a: Address, ghost table: Table, ghost from: nat)
    returns (result: Outcome<()>, ghost done: nat)
    requires HoldersTrue(was, x, holders) && SizesOf(was, holders, sizes) && Unstaged(table, copy, x)
    requires Staging(was, fs.disk, x, holders, 0, table, temp, a, copy, fs.conduct != Lying)
    requires from <= |fs.calls|
    modifies fs`disk, fs`calls
    ensures old(fs.calls) <= fs.calls
    ensures fs.disk.extents == old(fs.disk).extents
    ensures Staging(was, fs.disk, x, holders, done, table, temp, a, copy, fs.conduct != Lying && result.Ok?)
    ensures result.Ok? ==> done == |holders|
    ensures result.Err? ==> Explains(fs.calls, from, result.error, fs.conduct)
  {
    done := 0;
    for i := 0 to |holders|
      invariant done == i
      invariant Staging(was, fs.disk, x, holders, i, table, temp, a, copy, fs.conduct != Lying)
      invariant fs.disk.extents == old(fs.disk).extents && old(fs.calls) <= fs.calls
    {
      result := RedirectHolder(fs, was, x, holders, i, holders[i], sizes[i], copy, temp, a, table);
      done := i + 1;
      if result.Err? {
        return;
      }
    }
    result := Ok(());
  }

  lemma CopyStarts(was: Disk, before: Disk, now: Disk, x: Address, holders: seq<Holder>, table: Table,
                   temp: FileId, a: Address, copy: LiveRange, complete: bool)
    requires Copying(was, before, x, holders, table, complete) && x in was.extents
    requires ValidDisk(now) && StageResult(before, now, temp, a, copy.bytes)
    requires ValidCopy(copy, was.extents[x]) && Unstaged(table, copy, x)
    ensures Staging(was, now, x, holders, 0, table, temp, a, copy, complete)
    ensures SoundTable(was.extents, now.extents, x, table + CopyTable(copy, a))
    ensures now.extents.Keys == before.extents.Keys + {a}
  {
    UnstagedDisjoint(table, copy, x, a);
    StagingStarts(was, before, now, x, holders, table, temp, a, copy, complete);
    StagingSound(was, before, now, x, table, temp, a, copy);
  }

  lemma CopyingSome(was: Disk, now: Disk, x: Address, holders: seq<Holder>, table: Table, complete: bool)
    requires Copying(was, now, x, holders, table, complete)
    ensures Copying(was, now, x, holders, table, false)
  {
    HoldersRelocatedSome(was, now, x, holders, |holders|, table, table, complete);
  }

  /** Stages one copy. */
  method StageCopy(fs: Filesystem, ghost was: Disk, ghost x: Address, ghost holders: seq<Holder>, copy: LiveRange,
                   ghost table: Table)
    returns (staged: Outcome<FileId>, ghost a: Address)
    requires Copying(was, fs.disk, x, holders, table, fs.conduct != Lying) && x in was.extents
    requires ValidCopy(copy, was.extents[x]) && Unstaged(table, copy, x)
    modifies fs`disk, fs`calls
    ensures old(fs.calls) <= fs.calls
    ensures staged.Ok? ==>
      Staging(was, fs.disk, x, holders, 0, table, staged.value, a, copy, fs.conduct != Lying)
      && SoundTable(was.extents, fs.disk.extents, x, table + CopyTable(copy, a))
      && fs.disk.extents.Keys == old(fs.disk).extents.Keys + {a}
    ensures staged.Err? ==> Copying(was, fs.disk, x, holders, table, false)
    ensures staged.Err? ==> Explains(fs.calls, |old(fs.calls)|, staged.error, fs.conduct)
  {
    ghost var before := fs.disk;
    staged, a := fs.Stage(copy.bytes);
    if staged.Ok? {
      CopyStarts(was, before, fs.disk, x, holders, table, staged.value, a, copy, fs.conduct != Lying);
    } else {
      CopyingSome(was, before, x, holders, table, fs.conduct != Lying);
    }
  }

  /** Closes the temporary a copy was staged in. */
  method DropCopy(fs: Filesystem, ghost was: Disk, ghost x: Address, ghost holders: seq<Holder>, ghost done: nat,
                  ghost table: Table, ghost now: Table, temp: FileId, ghost a: Address, ghost copy: LiveRange,
                  ghost complete: bool)
    requires Staging(was, fs.disk, x, holders, done, table, temp, a, copy, complete) && Unstaged(table, copy, x)
    requires now == table + CopyTable(copy, a) && SoundTable(was.extents, fs.disk.extents, x, now)
    requires complete ==> done == |holders|
    modifies fs`disk
    ensures Copying(was, fs.disk, x, holders, now, complete) && fs.disk.extents == old(fs.disk).extents
  {
    ghost var before := fs.disk;
    fs.Drop(temp);
    UnstagedDisjoint(table, copy, x, a);
    StagingEnds(was, before, fs.disk, x, holders, done, table, temp, a, copy, complete);
  }

  /** Stages one copy, points every holder at it, and closes the temporary. */
  method RewriteCopy(fs: Filesystem, ghost was: Disk, ghost x: Address, holders: seq<Holder>, sizes: seq<nat>,
                     copy: LiveRange, ghost table: Table)
    returns (result: Outcome<()>, ghost now: Table, ghost a: Address)
    requires HoldersTrue(was, x, holders) && SizesOf(was, holders, sizes)
    requires Copying(was, fs.disk, x, holders, table, fs.conduct != Lying)
    requires ValidCopy(copy, was.extents[x]) && Unstaged(table, copy, x)
    modifies fs`disk, fs`calls
    ensures old(fs.calls) <= fs.calls
    ensures Copying(was, fs.disk, x, holders, now, fs.conduct != Lying && result.Ok?)
    ensures result.Ok? ==> now == table + CopyTable(copy, a) && fs.disk.extents.Keys == old(fs.disk).extents.Keys + {a}
    ensures result.Err? ==> Explains(fs.calls, |old(fs.calls)|, result.error, fs.conduct)
  {
    var staged;
    staged, a := StageCopy(fs, was, x, holders, copy, table);
    if staged.Err? {
      result, now := Err(staged.error), table;
      return;
    }
    var temp := staged.value;
    ghost var done;
    result, done := RedirectHolders(fs, was, x, holders, sizes, copy, temp, a, table, |old(fs.calls)|);
    now := table + CopyTable(copy, a);
    DropCopy(fs, was, x, holders, done, table, now, temp, a, copy, fs.conduct != Lying && result.Ok?);
  }
}
