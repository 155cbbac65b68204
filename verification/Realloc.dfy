/** Reallocating one extent, from reading its live stretches to checking that
    every holder let go of it. */
module Realloc {
  import opened Sectors
  import opened Wrappers
  import opened Extents
  import opened Disks
  import opened Kernel
  import opened Planning
  import opened Redirect
  import opened Tables
  import opened Tails
  import opened Rewrite

  lemma AllRefsTrue(d: Disk, x: Address, holders: seq<Holder>)
    requires HoldersTrue(d, x, holders)
    ensures RefsTrue(d, x, AllRefs(holders))
  {
    forall r | r in AllRefs(holders)
      ensures FileOf(r) in d.files && RefTrue(d.files[FileOf(r)], x, r)
    {
      InAllRefs(holders, r);
      var h :| h in holders && r in h.refs;
      assert HolderTrue(d, x, h);
    }
  }

  /** The table holds what the copies hold. */
  ghost predicate TableOf(table: Table, copies: seq<LiveRange>) {
    forall e: nat :: e in table <==> Aligned(e) && Holding(copies, e)
  }

  lemma TableOfNext(table: Table, now: Table, copies: seq<LiveRange>, k: nat, a: Address)
    requires k < |copies| && TableOf(table, copies[..k]) && now == table + CopyTable(copies[k], a)
    ensures TableOf(now, copies[..k + 1])
  {
    forall e: nat
      ensures Holding(copies[..k + 1], e) <==> Holding(copies[..k], e) || copies[k].Holds(e)
    {
      if Holding(copies[..k], e) {
        var j :| 0 <= j < k && copies[..k][j].Holds(e);
        assert copies[..k + 1][j].Holds(e);
      }
      if copies[k].Holds(e) {
        assert copies[..k + 1][k].Holds(e);
      }
      if Holding(copies[..k + 1], e) {
        var j :| 0 <= j < k + 1 && copies[..k + 1][j].Holds(e);
        assert j < k ==> copies[..k][j].Holds(e);
      }
    }
  }

  lemma NextUnstaged(was: Disk, x: Address, table: Table, now: Disks.Extents, copies: seq<LiveRange>, k: nat)
    requires k < |copies| && TableOf(table, copies[..k]) && GoodTable(was.extents, now, x, table)
    requires forall i, j :: 0 <= i < j < |copies| ==> copies[i].end <= copies[j].start
    ensures Unstaged(table, copies[k], x)
  {
    forall e | e in table
      ensures !copies[k].Holds(e)
    {
      var j :| 0 <= j < k && copies[..k][j].Holds(e);
      assert copies[j].end <= copies[k].start;
    }
  }

  lemma CopyingStarts(was: Disk, x: Address, holders: seq<Holder>, complete: bool)
    requires HoldersTrue(was, x, holders)
    ensures Copying(was, was, x, holders, map[], complete)
  {
    forall i | 0 <= i < |holders|
      ensures IdOf(holders[i]) in was.files
      ensures Relocated(was.files[IdOf(holders[i])], was.files[IdOf(holders[i])], x, map[], complete)
    {
      assert HolderTrue(was, x, holders[i]);
    }
  }

  /** Every extent made since `before` is one the table sends some sector to. */
  ghost predicate ForCopies(before: Disks.Extents, now: Disks.Extents, table: Table) {
    forall a :: a in now && a !in before ==> exists e :: e in table && table[e].extent == a
  }

  lemma ForCopiesNext(before: Disks.Extents, mid: Disks.Extents, now: Disks.Extents, table: Table, copy: LiveRange,
                      a: Address)
    requires ForCopies(before, mid, table) && now.Keys == mid.Keys + {a}
    requires Aligned(copy.start) && copy.start < copy.end && table.Keys !! CopyTable(copy, a).Keys
    ensures ForCopies(before, now, table + CopyTable(copy, a))
  {
    var both := table + CopyTable(copy, a);
    assert both[copy.start].extent == a;
    forall b | b in now && b !in before
      ensures exists e :: e in both && both[e].extent == b
    {
      if b != a {
        var e :| e in table && table[e].extent == b;
        assert both[e].extent == b;
      }
    }
  }

  /** Stages the copies one at a time, and points every holder at each. */
  method RewriteCopies(fs: Filesystem, ghost x: Address, holders: seq<Holder>, sizes: seq<nat>, copies: seq<LiveRange>)
    returns (result: Outcome<()>, ghost table: Table)
    requires HoldersTrue(fs.disk, x, holders) && SizesOf(fs.disk, holders, sizes)
    requires ValidCopies(copies, fs.disk.extents[x])
    modifies fs`disk, fs`calls
    ensures old(fs.calls) <= fs.calls
    ensures Copying(old(fs.disk), fs.disk, x, holders, table, fs.conduct != Lying && result.Ok?)
    ensures result.Ok? ==> TableOf(table, copies) && ForCopies(old(fs.disk).extents, fs.disk.extents, table)
    ensures result.Err? ==> Explains(fs.calls, |old(fs.calls)|, result.error, fs.conduct)
  {
    ghost var was := fs.disk;
    table := map[];
    CopyingStarts(was, x, holders, fs.conduct != Lying);
    for k := 0 to |copies|
      invariant Copying(was, fs.disk, x, holders, table, fs.conduct != Lying)
      invariant TableOf(table, copies[..k]) && ForCopies(was.extents, fs.disk.extents, table)
      invariant old(fs.calls) <= fs.calls
    {
      NextUnstaged(was, x, table, fs.disk.extents, copies, k);
      ghost var before, mid := table, fs.disk.extents;
      ghost var a;
      result, table, a := RewriteCopy(fs, was, x, holders, sizes, copies[k], before);
      if result.Err? {
        return;
      }
      TableOfNext(before, table, copies, k, a);
      UnstagedDisjoint(before, copies[k], x, a);
      ForCopiesNext(was.extents, mid, fs.disk.extents, before, copies[k], a);
    }
    assert copies[..|copies|] == copies;
    result := Ok(());
  }

  // ----- The last sector of each holder -----

  /** `s` is where an unaligned file's last, partial sector starts. */
  ghost predicate IsTail(f: FileState, s: nat) {
    s == Floor(f.size) && s < f.size
  }

  /** `now` is `was` with sectors of extent `x` moved: whole ones to where
      `table` says, and the last part sector to a copy of its own. */
  ghost predicate Finished(was: FileState, now: FileState, before: Disks.Extents, after: Disks.Extents, x: Address,
      table: Table)
    requires ValidFile(was, after) && ValidFile(now, after)
  {
    && now.size == was.size && now.modified == was.modified
    && now.sectors.Keys == was.sectors.Keys
    && forall s: nat :: s in was.sectors && now.sectors[s] != was.sectors[s] ==>
         || (Eligible(was, x, table, s) && now.sectors[s] == table[was.sectors[s].offset])
         || (IsTail(was, s) && was.sectors[s].extent == x && now.sectors[s].extent !in before
             && SameSector(after, was.sectors[s], now.sectors[s], was.size - s))
  }

  /** Whether the file has let go of every whole sector of extent `x` it can read. */
  ghost predicate WholeEmptied(was: FileState, now: FileState, x: Address) {
    forall s: nat :: s in was.sectors && s in now.sectors && s + SECTORSIZE <= was.size ==> now.sectors[s].extent != x
  }

  /** Whether the file has let go of every sector of extent `x` that starts inside it. */
  ghost predicate Emptied(was: FileState, now: FileState, x: Address) {
    forall s: nat :: s in was.sectors && s in now.sectors && s < was.size ==> now.sectors[s].extent != x
  }

  lemma FinishedByChunks(was: FileState, now: FileState, before: Disks.Extents, after: Disks.Extents, x: Address,
      table: Table)
    requires ValidFile(was, after) && ValidFile(now, after)
    requires Relocated(was, now, x, table, false)
    ensures Finished(was, now, before, after, x, table)
  {
  }

  /** Moving the tail as well finishes the file. */
  lemma FinishedByTail(was: FileState, mid: FileState, now: FileState, before: Disks.Extents, between: Disks.Extents,
                       after: Disks.Extents, x: Address, table: Table, a: Address, moved: bool)
    requires ValidFile(was, after) && ValidFile(mid, after) && ValidFile(now, after)
    requires Relocated(was, mid, x, table, false)
    requires IsTail(was, Floor(was.size)) && Floor(was.size) in was.sectors
    requires was.sectors[Floor(was.size)].extent == x
    requires TailFile(mid, now, Floor(was.size), a, moved)
    requires before.Keys <= between.Keys
    requires moved ==> TailExtent(between, after, mid, Floor(was.size), a)
    ensures Finished(was, now, before, after, x, table)
  {
    TailUnmoved(was, mid, x, table);
    forall s: nat | s in was.sectors && s != Floor(was.size)
      ensures now.sectors[s] == mid.sectors[s]
    {
    }
  }

  /** Part of a sector is none that dedupes from the copies move. */
  lemma TailUnmoved(was: FileState, mid: FileState, x: Address, table: Table)
    requires Relocated(was, mid, x, table, false) && Floor(was.size) in was.sectors
    ensures mid.sectors[Floor(was.size)] == was.sectors[Floor(was.size)]
  {
  }

  /** What holds while holders are finished one by one, whatever the kernel does. */
  ghost predicate Finishing(was: Disk, now: Disk, x: Address, holders: seq<Holder>, done: nat, table: Table) {
    && ValidDisk(now) && ExtentsGrow(was.extents, now.extents)
    && now.files.Keys == was.files.Keys
    && OthersKept(was, now, holders)
    && (forall i :: 0 <= i < |holders| ==> HolderFinished(was, now, x, holders[i], table))
    && (forall i :: done <= i < |holders| ==>
          Relocated(was.files[IdOf(holders[i])], now.files[IdOf(holders[i])], x, table, false))
  }

  ghost predicate HolderFinished(was: Disk, now: Disk, x: Address, h: Holder, table: Table) {
    && IdOf(h) in was.files && IdOf(h) in now.files
    && ValidFile(was.files[IdOf(h)], now.extents) && ValidFile(now.files[IdOf(h)], now.extents)
    && Finished(was.files[IdOf(h)], now.files[IdOf(h)], was.extents, now.extents, x, table)
  }

  lemma FinishingStarts(was: Disk, now: Disk, x: Address, holders: seq<Holder>, table: Table, complete: bool)
    requires HoldersTrue(was, x, holders) && Copying(was, now, x, holders, table, complete)
    ensures Finishing(was, now, x, holders, 0, table)
  {
    forall i | 0 <= i < |holders|
      ensures HolderFinished(was, now, x, holders[i], table)
    {
      var id := IdOf(holders[i]);
      FinishedByChunks(was.files[id], now.files[id], was.extents, now.extents, x, table);
    }
  }

  /** What a file finished once stays finished when other files change. */
  lemma FinishedKept(f: FileState, g: FileState, before: Disks.Extents, mid: Disks.Extents, after: Disks.Extents,
      x: Address, table: Table)
    requires ValidFile(f, mid) && ValidFile(g, mid) && ExtentsGrow(mid, after)
    requires Finished(f, g, before, mid, x, table)
    ensures ValidFile(f, after) && ValidFile(g, after) && Finished(f, g, before, after, x, table)
  {
    forall s: nat | s in f.sectors && g.sectors[s] != f.sectors[s]
                    && !(Eligible(f, x, table, s) && g.sectors[s] == table[f.sectors[s].offset])
      ensures SameSector(after, f.sectors[s], g.sectors[s], f.size - s)
    {
      SameSectorGrows(mid, after, f.sectors[s], g.sectors[s], f.size - s);
    }
  }

  /** The tail sector is one the references stand for exactly if extent `x` holds it. */
  lemma TailHeld(d: Disk, x: Address, h: Holder)
    requires HolderTrue(d, x, h)
    ensures var tail := Floor(d.files[IdOf(h)].size);
      (exists r :: r in h.refs && r.fileOffset <= tail < r.FileEnd()) <==>
      tail in d.files[IdOf(h)].sectors && d.files[IdOf(h)].sectors[tail].extent == x
  {
    var tail := Floor(d.files[IdOf(h)].size);
    if r :| r in h.refs && r.fileOffset <= tail < r.FileEnd() {
      assert InRef(r, tail);
    }
    if tail in d.files[IdOf(h)].sectors && d.files[IdOf(h)].sectors[tail].extent == x {
      assert Backed(h.refs, tail);
    }
  }

  /** One holder's tail done, every other holder is as it was. */
  lemma FinishingStep(was: Disk, mid: Disk, now: Disk, x: Address, holders: seq<Holder>, i: nat, table: Table,
                      a: Address, moved: bool)
    requires HoldersTrue(was, x, holders) && i < |holders| && Finishing(was, mid, x, holders, i, table)
    requires TailRedirected(mid, now, IdOf(holders[i]), Floor(was.files[IdOf(holders[i])].size), a, moved)
    requires IsTail(was.files[IdOf(holders[i])], Floor(was.files[IdOf(holders[i])].size))
    requires Floor(was.files[IdOf(holders[i])].size) in was.files[IdOf(holders[i])].sectors
    requires was.files[IdOf(holders[i])].sectors[Floor(was.files[IdOf(holders[i])].size)].extent == x
    ensures Finishing(was, now, x, holders, i + 1, table)
  {
    ThisIsFinished(was, mid, now, x, holders[i], table, a, moved);
    forall j | 0 <= j < |holders| && j != i
      ensures HolderFinished(was, now, x, holders[j], table)
      ensures i < j ==> Relocated(was.files[IdOf(holders[j])], now.files[IdOf(holders[j])], x, table, false)
    {
      OtherStaysFinished(was, mid, now, x, holders, i, j, table);
    }
    OthersKeptTail(was, mid, now, holders, i);
  }

  lemma ThisIsFinished(was: Disk, mid: Disk, now: Disk, x: Address, h: Holder, table: Table, a: Address, moved: bool)
    requires IdOf(h) in was.files && HolderFinished(was, mid, x, h, table) && was.extents.Keys <= mid.extents.Keys
    requires Relocated(was.files[IdOf(h)], mid.files[IdOf(h)], x, table, false)
    requires TailRedirected(mid, now, IdOf(h), Floor(was.files[IdOf(h)].size), a, moved)
    requires IsTail(was.files[IdOf(h)], Floor(was.files[IdOf(h)].size))
    requires Floor(was.files[IdOf(h)].size) in was.files[IdOf(h)].sectors
    requires was.files[IdOf(h)].sectors[Floor(was.files[IdOf(h)].size)].extent == x
    ensures HolderFinished(was, now, x, h, table)
  {
    var id := IdOf(h);
    ValidLater(was.files[id], mid.extents, now.extents);
    FinishedByTail(was.files[id], mid.files[id], now.files[id], was.extents, mid.extents, now.extents, x, table, a,
      moved);
  }

  lemma ValidLater(f: FileState, before: Disks.Extents, after: Disks.Extents)
    requires ValidFile(f, before) && ExtentsGrow(before, after)
    ensures ValidFile(f, after)
  {
  }

  lemma OtherStaysFinished(was: Disk, mid: Disk, now: Disk, x: Address, holders: seq<Holder>, i: nat, j: nat,
      table: Table)
    requires Distinct(holders) && i < |holders| && j < |holders| && j != i
    requires HolderFinished(was, mid, x, holders[j], table) && ExtentsGrow(mid.extents, now.extents)
    requires forall other :: other in mid.files && other != IdOf(holders[i]) ==>
               other in now.files && now.files[other] == mid.files[other]
    ensures HolderFinished(was, now, x, holders[j], table)
    ensures now.files[IdOf(holders[j])] == mid.files[IdOf(holders[j])]
  {
    var other := IdOf(holders[j]);
    assert other != IdOf(holders[i]);
    FinishedKept(was.files[other], mid.files[other], was.extents, mid.extents, now.extents, x, table);
  }

  lemma OthersKeptTail(was: Disk, mid: Disk, now: Disk, holders: seq<Holder>, i: nat)
    requires i < |holders| && OthersKept(was, mid, holders)
    requires forall other :: other in mid.files && other != IdOf(holders[i]) ==>
               other in now.files && now.files[other] == mid.files[other]
    ensures OthersKept(was, now, holders)
  {
    assert IsHolder(holders, IdOf(holders[i])) by { assert holders[i] in holders; }
  }

  lemma FinishingSkip(was: Disk, now: Disk, x: Address, holders: seq<Holder>, i: nat, table: Table)
    requires Finishing(was, now, x, holders, i, table)
    ensures Finishing(was, now, x, holders, i + 1, table)
  {
  }

  /** Once the tail has moved, or was never held, the file has let go of
      everything it can. */
  lemma EmptiedByTail(was: FileState, mid: FileState, now: FileState, x: Address, a: Address)
    requires WholeEmptied(was, mid, x) && a != x
    requires forall s :: s in was.sectors ==> Aligned(s)
    requires mid.sectors.Keys == was.sectors.Keys && TailFile(mid, now, Floor(was.size), a, true)
    ensures Emptied(was, now, x)
  {
    TailIsLast(was);
  }

  lemma TailEffect(was: FileState, mid: FileState, now: FileState, x: Address, table: Table, a: Address, moved: bool)
    requires Relocated(was, mid, x, table, false) && forall s :: s in was.sectors ==> Aligned(s)
    requires IsTail(was, Floor(was.size)) && Floor(was.size) in was.sectors && was.sectors[Floor(was.size)].extent == x
    requires TailFile(mid, now, Floor(was.size), a, moved) && (moved ==> a != x)
    ensures moved && WholeEmptied(was, mid, x) ==> Emptied(was, now, x)
    ensures !moved ==> Holds(now, x)
  {
    if moved && WholeEmptied(was, mid, x) {
      EmptiedByTail(was, mid, now, x, a);
    } else if !moved {
      assert now.sectors[Floor(was.size)] == was.sectors[Floor(was.size)];
    }
  }

  lemma EmptiedWithoutTail(was: FileState, mid: FileState, x: Address)
    requires WholeEmptied(was, mid, x) && mid.sectors.Keys == was.sectors.Keys
    requires forall s :: s in was.sectors ==> Aligned(s)
    requires IsTail(was, Floor(was.size)) && Floor(was.size) in was.sectors ==> mid.sectors[Floor(was.size)].extent != x
    ensures Emptied(was, mid, x)
  {
    TailIsLast(was);
  }

  /** A sector that starts inside the file lies wholly inside it or is its tail. */
  lemma TailIsLast(f: FileState)
    requires forall s :: s in f.sectors ==> Aligned(s)
    ensures forall s: nat :: s in f.sectors && s < f.size ==> s + SECTORSIZE <= f.size || IsTail(f, s)
  {
    forall s: nat | s in f.sectors && s < f.size && f.size < s + SECTORSIZE
      ensures IsTail(f, s)
    {
      FloorIs(s, f.size);
    }
  }

  /** Extent `a` is one sector, made for the holder's tail: it is there, or where it was. */
  ghost predicate TailOf(was: Disk, now: Disk, x: Address, h: Holder, a: Address) {
    && IdOf(h) in was.files && IdOf(h) in now.files && a in now.extents && |now.extents[a]| == SECTORSIZE
    && var tail, g := Floor(was.files[IdOf(h)].size), now.files[IdOf(h)];
      tail in g.sectors && (g.sectors[tail] == Loc(a, 0) || g.sectors[tail].extent == x)
  }

  /** Extent `x` holds the part of a sector that the holder's file ends in. */
  ghost predicate HasTail(d: Disk, h: Holder, x: Address) {
    && IdOf(h) in d.files
    && var f := d.files[IdOf(h)];
      IsTail(f, Floor(f.size)) && Floor(f.size) in f.sectors && f.sectors[Floor(f.size)].extent == x
  }

  /** It did, and is elsewhere now. */
  ghost predicate TailMoved(was: Disk, now: Disk, h: Holder, x: Address) {
    && HasTail(was, h, x) && IdOf(h) in now.files
    && var tail := Floor(was.files[IdOf(h)].size);
      tail in now.files[IdOf(h)].sectors && now.files[IdOf(h)].sectors[tail].extent != x
  }

  ghost function TailLoc(was: Disk, now: Disk, h: Holder, x: Address): Loc
    requires TailMoved(was, now, h, x)
  {
    now.files[IdOf(h)].sectors[Floor(was.files[IdOf(h)].size)]
  }

  /** A tail moved since `mid` went to an extent made since. */
  ghost predicate TailFresh(was: Disk, mid: Disk, now: Disk, h: Holder, x: Address) {
    TailMoved(was, now, h, x) ==> TailLoc(was, now, h, x).extent !in mid.extents
  }

  /** The first `done` holders' tails that moved are each in an extent of their own, made
      since `before`. */
  ghost predicate TailsApart(was: Disk, before: Disks.Extents, now: Disk, x: Address, holders: seq<Holder>, done: nat)
    requires done <= |holders|
  {
    forall i :: 0 <= i < done && TailMoved(was, now, holders[i], x) ==>
      && TailLoc(was, now, holders[i], x).extent !in before
      && forall j :: 0 <= j < i && TailMoved(was, now, holders[j], x) ==>
           TailLoc(was, now, holders[j], x).extent != TailLoc(was, now, holders[i], x).extent
  }

  /** Another holder's tail is where it was, and so in an extent there was already. */
  lemma OtherTailStays(was: Disk, mid: Disk, now: Disk, x: Address, holders: seq<Holder>, i: nat, j: nat)
    requires i < |holders| && j < |holders| && j != i && Distinct(holders) && ValidDisk(mid)
    requires mid.files.Keys == was.files.Keys
    requires forall id :: id in was.files && id != IdOf(holders[i]) ==>
      id in now.files && now.files[id] == mid.files[id]
    requires TailMoved(was, now, holders[j], x)
    ensures TailMoved(was, mid, holders[j], x) && TailLoc(was, mid, holders[j], x) == TailLoc(was, now, holders[j], x)
    ensures TailLoc(was, now, holders[j], x).extent in mid.extents
  {
    assert IdOf(holders[j]) != IdOf(holders[i]);
    assert ValidFile(mid.files[IdOf(holders[j])], mid.extents);
  }

  lemma TailsApartNext(was: Disk, before: Disks.Extents, mid: Disk, now: Disk, x: Address, holders: seq<Holder>, i: nat)
    requires i < |holders| && Distinct(holders) && ValidDisk(mid) && mid.files.Keys == was.files.Keys
    requires TailsApart(was, before, mid, x, holders, i) && ExtentsGrow(before, mid.extents)
    requires forall id :: id in was.files && id != IdOf(holders[i]) ==>
      id in now.files && now.files[id] == mid.files[id]
    requires TailFresh(was, mid, now, holders[i], x)
    ensures TailsApart(was, before, now, x, holders, i + 1)
  {
    forall k | 0 <= k < i + 1 && TailMoved(was, now, holders[k], x)
      ensures TailLoc(was, now, holders[k], x).extent !in before
      ensures forall j :: 0 <= j < k && TailMoved(was, now, holders[j], x) ==>
                TailLoc(was, now, holders[j], x).extent != TailLoc(was, now, holders[k], x).extent
    {
      if k < i {
        OtherTailStays(was, mid, now, x, holders, i, k);
      }
      forall j | 0 <= j < k && TailMoved(was, now, holders[j], x)
        ensures TailLoc(was, now, holders[j], x).extent != TailLoc(was, now, holders[k], x).extent
      {
        OtherTailStays(was, mid, now, x, holders, i, j);
      }
    }
  }

  /** Every extent made since `before` is one of the first `done` holders' tails. */
  ghost predicate ForTails(was: Disk, before: Disks.Extents, now: Disk, x: Address, holders: seq<Holder>, done: nat) {
    forall a :: a in now.extents && a !in before ==> MadeForTail(was, now, x, holders, done, a)
  }

  ghost predicate MadeForTail(was: Disk, now: Disk, x: Address, holders: seq<Holder>, done: nat, a: Address) {
    exists j :: 0 <= j < done && j < |holders| && TailOf(was, now, x, holders[j], a)
  }

  lemma TailOfKept(was: Disk, mid: Disk, now: Disk, x: Address, holders: seq<Holder>, i: nat, a: Address)
    requires i < |holders| && Distinct(holders) && MadeForTail(was, mid, x, holders, i, a)
    requires ExtentsGrow(mid.extents, now.extents) && now.files.Keys == was.files.Keys
    requires forall id :: id in was.files && id != IdOf(holders[i]) ==>
      id in mid.files && now.files[id] == mid.files[id]
    ensures MadeForTail(was, now, x, holders, i + 1, a)
  {
    var j :| 0 <= j < i && TailOf(was, mid, x, holders[j], a);
    assert IdOf(holders[j]) != IdOf(holders[i]);
    assert TailOf(was, now, x, holders[j], a);
  }

  lemma ForTailsNext(was: Disk, before: Disks.Extents, mid: Disk, now: Disk, x: Address, holders: seq<Holder>, i: nat)
    requires i < |holders| && Distinct(holders) && ForTails(was, before, mid, x, holders, i)
    requires ExtentsGrow(mid.extents, now.extents) && now.files.Keys == was.files.Keys
    requires forall id :: id in was.files && id != IdOf(holders[i]) ==>
      id in mid.files && now.files[id] == mid.files[id]
    requires forall a :: a in now.extents && a !in mid.extents ==> TailOf(was, now, x, holders[i], a)
    ensures ForTails(was, before, now, x, holders, i + 1)
  {
    forall a | a in now.extents && a !in before
      ensures MadeForTail(was, now, x, holders, i + 1, a)
    {
      if a in mid.extents {
        TailOfKept(was, mid, now, x, holders, i, a);
      } else {
        assert TailOf(was, now, x, holders[i], a);
      }
    }
  }

  /** What a holder looked like before anything moved. */
  datatype HolderBefore = HolderBefore(fileSize: nat, modified: nat)

  ghost predicate BeforeOf(was: Disk, h: Holder, before: HolderBefore) {
    && IdOf(h) in was.files
    && before == HolderBefore(was.files[IdOf(h)].size, was.files[IdOf(h)].modified)
  }

  /** What finishing one holder leaves, whether or not a tail had to be moved. */
  ghost predicate HolderLeft(was: Disk, mid: Disk, now: Disk, x: Address, h: Holder, honest: bool, short: bool)
    requires IdOf(h) in was.files && IdOf(h) in mid.files && IdOf(h) in now.files
  {
    && (honest && !short && WholeEmptied(was.files[IdOf(h)], mid.files[IdOf(h)], x)
        ==> Emptied(was.files[IdOf(h)], now.files[IdOf(h)], x))
    && (honest && short ==> Holds(now.files[IdOf(h)], x))
    && TailFresh(was, mid, now, h, x)
    && forall a :: a in now.extents && a !in mid.extents ==> TailOf(was, now, x, h, a)
  }

  lemma TailLeft(was: Disk, mid: Disk, now: Disk, x: Address, h: Holder, table: Table, a: Address, moved: bool,
      honest: bool, short: bool)
    requires HolderTrue(was, x, h) && ValidDisk(was) && IdOf(h) in mid.files && IdOf(h) in now.files
    requires Relocated(was.files[IdOf(h)], mid.files[IdOf(h)], x, table, false)
    requires IsTail(was.files[IdOf(h)], Floor(was.files[IdOf(h)].size))
    requires Floor(was.files[IdOf(h)].size) in was.files[IdOf(h)].sectors
    requires was.files[IdOf(h)].sectors[Floor(was.files[IdOf(h)].size)].extent == x
    requires TailFile(mid.files[IdOf(h)], now.files[IdOf(h)], Floor(was.files[IdOf(h)].size), a, moved) && a != x
    requires a !in mid.extents && now.extents.Keys == mid.extents.Keys + {a} && |now.extents[a]| == SECTORSIZE
    requires honest ==> moved == !short
    ensures HolderLeft(was, mid, now, x, h, honest, short)
  {
    TailEffect(was.files[IdOf(h)], mid.files[IdOf(h)], now.files[IdOf(h)], x, table, a, moved);
    assert TailOf(was, now, x, h, a);
  }

  /** Redirects the tail of a holder that holds it. */
  method FinishTail(fs: Filesystem, ghost was: Disk, ghost x: Address, ghost holders: seq<Holder>, ghost i: nat,
                    id: FileId, tailStart: nat, size: nat, ghost table: Table)
    returns (result: Outcome<()>, ghost short: bool)
    requires HoldersTrue(was, x, holders) && i < |holders| && id == IdOf(holders[i]) && id in was.files
    requires Finishing(was, fs.disk, x, holders, i, table)
    requires size == was.files[id].size && tailStart == Floor(size) && tailStart < size
    requires tailStart in was.files[id].sectors && was.files[id].sectors[tailStart].extent == x
    modifies fs`disk, fs`calls
    ensures old(fs.calls) <= fs.calls
    ensures Finishing(was, fs.disk, x, holders, i + 1, table)
    ensures ExtentsGrow(old(fs.disk).extents, fs.disk.extents)
    ensures forall other :: other in was.files && other != id ==> fs.disk.files[other] == old(fs.disk).files[other]
    ensures result.Ok? ==> HolderLeft(was, old(fs.disk), fs.disk, x, holders[i], fs.conduct != Lying, short)
    ensures short ==> fs.conduct != Exact && !AllFine(fs.calls, |old(fs.calls)|)
    ensures result.Err? ==> result.error.Io? && Explains(fs.calls, |old(fs.calls)|, result.error, fs.conduct)
  {
    ghost var mid := fs.disk;
    assert HolderTrue(was, x, holders[i]) by { assert holders[i] in holders; }
    assert Relocated(was.files[id], mid.files[id], x, table, false);
    ghost var a, moved;
    result, a, moved, short := RedirectTail(fs, id, tailStart, size);
    FinishingStep(was, mid, fs.disk, x, holders, i, table, a, moved);
    if result.Ok? {
      TailLeft(was, mid, fs.disk, x, holders[i], table, a, moved, fs.conduct != Lying, short);
    }
  }

  /** What finishing holder `i` has done to the filesystem since `mid`. */
  ghost predicate StepDone(was: Disk, mid: Disk, now: Disk, x: Address, holders: seq<Holder>, i: nat, table: Table)
    requires i < |holders| && was.files.Keys <= mid.files.Keys
  {
    && Finishing(was, now, x, holders, i + 1, table) && ExtentsGrow(mid.extents, now.extents)
    && forall id :: id in was.files && id != IdOf(holders[i]) ==> now.files[id] == mid.files[id]
  }

  /** Nothing but dedupes has touched the holder, so it looks as it did before. */
  lemma LooksAsBefore(was: Disk, now: Disk, x: Address, holders: seq<Holder>, i: nat, table: Table,
                      before: HolderBefore)
    requires i < |holders| && BeforeOf(was, holders[i], before) && Finishing(was, now, x, holders, i + 1, table)
    ensures IdOf(holders[i]) in now.files
    ensures now.files[IdOf(holders[i])].size == before.fileSize
    ensures now.files[IdOf(holders[i])].modified == before.modified
  {
    assert HolderFinished(was, now, x, holders[i], table);
  }

  /** Redirects the holder's tail, if the extent holds it. */
  method FinishAnyTail(fs: Filesystem, ghost was: Disk, ghost x: Address, ghost holders: seq<Holder>, ghost i: nat,
                       holder: Holder, before: HolderBefore, ghost table: Table)
    returns (result: Outcome<()>, ghost short: bool)
    requires HoldersTrue(was, x, holders) && i < |holders| && holder == holders[i] && BeforeOf(was, holder, before)
    requires Finishing(was, fs.disk, x, holders, i, table)
    modifies fs`disk, fs`calls
    ensures old(fs.calls) <= fs.calls
    ensures StepDone(was, old(fs.disk), fs.disk, x, holders, i, table)
    ensures result.Ok? ==> HolderLeft(was, old(fs.disk), fs.disk, x, holder, fs.conduct != Lying, short)
    ensures short ==> fs.conduct != Exact && !AllFine(fs.calls, |old(fs.calls)|)
    ensures result.Err? ==> result.error.Io? && Explains(fs.calls, |old(fs.calls)|, result.error, fs.conduct)
  {
    result, short := Ok(()), false;
    ghost var mid, f := fs.disk, was.files[IdOf(holder)];
    FinishingSkip(was, mid, x, holders, i, table);
    TailHeld(was, x, holder);
    var tailStart := RoundDown(before.fileSize);
    var holdsTail := exists r :: r in holder.refs && r.fileOffset <= tailStart < r.FileEnd();
    if tailStart != before.fileSize && holdsTail {
      result, short := FinishTail(fs, was, x, holders, i, IdOf(holder), tailStart, before.fileSize, table);
    } else if WholeEmptied(f, mid.files[IdOf(holder)], x) {
      EmptiedWithoutTail(f, mid.files[IdOf(holder)], x);
    }
  }

  /** Opens the holder and redirects its tail. */
  method FinishOpened(fs: Filesystem, ghost was: Disk, ghost x: Address, ghost holders: seq<Holder>, ghost i: nat,
                      holder: Holder, before: HolderBefore, ghost table: Table)
    returns (result: Outcome<()>, ghost short: bool)
    requires HoldersTrue(was, x, holders) && i < |holders| && holder == holders[i] && BeforeOf(was, holder, before)
    requires Finishing(was, fs.disk, x, holders, i, table)
    modifies fs`disk, fs`calls
    ensures old(fs.calls) <= fs.calls
    ensures StepDone(was, old(fs.disk), fs.disk, x, holders, i, table)
    ensures result.Ok? ==> HolderLeft(was, old(fs.disk), fs.disk, x, holder, fs.conduct != Lying, short)
    ensures short ==> fs.conduct != Exact && !AllFine(fs.calls, |old(fs.calls)|)
    ensures result.Err? ==> Explains(fs.calls, |old(fs.calls)|, result.error, fs.conduct)
  {
    var open := fs.Attempt();
    if open.Err? {
      FinishingSkip(was, fs.disk, x, holders, i, table);
      return Err(open.error), false;
    }
    ghost var calls := fs.calls;
    result, short := FinishAnyTail(fs, was, x, holders, i, holder, before, table);
    if short {
      NotFineStays(fs.calls, fs.calls, |calls|, |old(fs.calls)|);
    }
  }

  /** Redirects the holder's tail, and checks that its size and mtime have not
      changed. Dedupes change neither, so the check passes exactly if they are as they
      would be with no other writer. */
  method FinishHolder(fs: Filesystem, ghost was: Disk, ghost x: Address, ghost holders: seq<Holder>, ghost i: nat,
                      holder: Holder, before: HolderBefore, ghost table: Table)
    returns (result: Outcome<()>, ghost short: bool)
    requires HoldersTrue(was, x, holders) && i < |holders| && holder == holders[i] && BeforeOf(was, holder, before)
    requires Finishing(was, fs.disk, x, holders, i, table)
    modifies fs`disk, fs`calls
    ensures old(fs.calls) <= fs.calls
    ensures StepDone(was, old(fs.disk), fs.disk, x, holders, i, table)
    ensures result.Ok? ==> HolderLeft(was, old(fs.disk), fs.disk, x, holder, fs.conduct != Lying, short)
    ensures short ==> fs.conduct != Exact && !AllFine(fs.calls, |old(fs.calls)|)
    ensures result.Ok? ==> Adds(old(fs.calls), fs.calls, IdOf(holder), short)
    ensures result.Err? ==> Explains(fs.calls, |old(fs.calls)|, result.error, fs.conduct)
  {
    result, short := FinishOpened(fs, was, x, holders, i, holder, before, table);
    if result.Err? {
      return;
    }
    ghost var calls := fs.calls;
    LooksAsBefore(was, fs.disk, x, holders, i, table, before);
    result := CheckUnmodified(fs, IdOf(holder), before);
    if short {
      NotFineStays(calls, fs.calls, |old(fs.calls)|, |old(fs.calls)|);
    }
  }

  /** Looks at the file's size and mtime once more. */
  method CheckUnmodified(fs: Filesystem, id: FileId, before: HolderBefore) returns (result: Outcome<()>)
    requires id in fs.disk.files
    requires fs.disk.files[id].size == before.fileSize && fs.disk.files[id].modified == before.modified
    modifies fs`calls
    ensures old(fs.calls) < fs.calls
    ensures result.Ok? ==> fs.calls[|fs.calls| - 1] == Look(id, true)
    ensures result.Err? ==> Explains(fs.calls, |old(fs.calls)|, result.error, fs.conduct)
    ensures fs.calls[|fs.calls| - 1] == Look(id, false) ==> result == Err(Modified)
  {
    var metadata := fs.Metadata(id);
    if metadata.Err? {
      return Err(metadata.error);
    }
    if metadata.value.0 != before.fileSize || metadata.value.1 != before.modified {
      return Err(Modified);
    }
    result := Ok(());
  }

  ghost predicate BeforesOf(was: Disk, holders: seq<Holder>, befores: seq<HolderBefore>) {
    |befores| == |holders| && forall i :: 0 <= i < |holders| ==> BeforeOf(was, holders[i], befores[i])
  }

  ghost predicate HolderWholeEmptied(was: Disk, now: Disk, x: Address, h: Holder) {
    && IdOf(h) in was.files && IdOf(h) in now.files
    && WholeEmptied(was.files[IdOf(h)], now.files[IdOf(h)], x)
  }

  ghost predicate HolderEmptied(was: Disk, now: Disk, x: Address, h: Holder) {
    && IdOf(h) in was.files && IdOf(h) in now.files
    && Emptied(was.files[IdOf(h)], now.files[IdOf(h)], x)
  }

  /** Holders before `done` have let go of all they can, the rest of all but their tails. */
  ghost predicate EmptiedTo(was: Disk, now: Disk, x: Address, holders: seq<Holder>, done: nat) {
    && (forall i :: 0 <= i < done && i < |holders| ==> HolderEmptied(was, now, x, holders[i]))
    && (forall i :: done <= i < |holders| ==> HolderWholeEmptied(was, now, x, holders[i]))
  }

  lemma EmptiedStep(was: Disk, mid: Disk, now: Disk, x: Address, holders: seq<Holder>, i: nat)
    requires i < |holders| && Distinct(holders) && EmptiedTo(was, mid, x, holders, i)
    requires now.files.Keys == was.files.Keys
    requires forall id :: id in was.files && id != IdOf(holders[i]) ==>
      id in mid.files && now.files[id] == mid.files[id]
    requires HolderEmptied(was, now, x, holders[i])
    ensures EmptiedTo(was, now, x, holders, i + 1)
  {
    forall j | 0 <= j < |holders| && j != i
      ensures if j < i then HolderEmptied(was, now, x, holders[j]) else HolderWholeEmptied(was, now, x, holders[j])
    {
      assert IdOf(holders[j]) != IdOf(holders[i]);
      if j < i {
        assert HolderEmptied(was, mid, x, holders[j]);
      } else {
        assert HolderWholeEmptied(was, mid, x, holders[j]);
      }
    }
  }

  /** Some holder still points at the extent. */
  ghost predicate SomeHold(d: Disk, x: Address, holders: seq<Holder>) {
    exists i :: 0 <= i < |holders| && IdOf(holders[i]) in d.files && Holds(d.files[IdOf(holders[i])], x)
  }

  lemma SomeHoldStep(mid: Disk, now: Disk, x: Address, holders: seq<Holder>, i: nat)
    requires i < |holders| && Distinct(holders) && IdOf(holders[i]) in now.files
    requires forall id :: id in mid.files && id != IdOf(holders[i]) ==>
      id in now.files && now.files[id] == mid.files[id]
    requires SomeHold(mid, x, holders[..i]) || Holds(now.files[IdOf(holders[i])], x)
    ensures SomeHold(now, x, holders[..i + 1])
  {
    if SomeHold(mid, x, holders[..i]) {
      var j :| 0 <= j < i && IdOf(holders[..i][j]) in mid.files && Holds(mid.files[IdOf(holders[..i][j])], x);
      assert holders[..i + 1][j] == holders[j] && IdOf(holders[j]) != IdOf(holders[i]);
    } else {
      assert holders[..i + 1][i] == holders[i];
    }
  }

  /** What the first `done` holders have left: nothing, or, if a tail was cut short,
      something. */
  ghost predicate LeftAt(was: Disk, now: Disk, x: Address, holders: seq<Holder>, done: nat, short: bool)
    requires done <= |holders|
  {
    if short then SomeHold(now, x, holders[..done]) else EmptiedTo(was, now, x, holders, done)
  }

  lemma LeftStep(was: Disk, mid: Disk, now: Disk, x: Address, holders: seq<Holder>, i: nat, short: bool, cut: bool)
    requires i < |holders| && Distinct(holders) && LeftAt(was, mid, x, holders, i, short)
    requires mid.files.Keys == was.files.Keys && now.files.Keys == was.files.Keys && IdOf(holders[i]) in was.files
    requires forall id :: id in was.files && id != IdOf(holders[i]) ==> now.files[id] == mid.files[id]
    requires !cut && WholeEmptied(was.files[IdOf(holders[i])], mid.files[IdOf(holders[i])], x) ==>
               Emptied(was.files[IdOf(holders[i])], now.files[IdOf(holders[i])], x)
    requires cut ==> Holds(now.files[IdOf(holders[i])], x)
    ensures LeftAt(was, now, x, holders, i + 1, short || cut)
  {
    if short || cut {
      SomeHoldStep(mid, now, x, holders, i);
    } else {
      assert HolderWholeEmptied(was, mid, x, holders[i]);
      EmptiedStep(was, mid, now, x, holders, i);
    }
  }

  /** What the calls since the first `from` say of the first `done` holders: each was looked
      at and found unmodified, and a tail cut short is among them. */
  ghost predicate CallsSo(calls: seq<Call>, from: nat, holders: seq<Holder>, done: nat, short: bool) {
    && from <= |calls|
    && (forall j :: 0 <= j < done && j < |holders| ==> Looked(calls, from, IdOf(holders[j])))
    && (short ==> !AllFine(calls, from))
  }

  /** What finishing one holder adds to the calls: a look at it last of all, and if its tail
      was cut short, that. */
  ghost predicate Adds(calls: seq<Call>, later: seq<Call>, id: FileId, cut: bool) {
    && calls <= later && |calls| < |later| && later[|later| - 1] == Look(id, true)
    && (cut ==> !AllFine(later, |calls|))
  }

  lemma CallsNext(calls: seq<Call>, later: seq<Call>, from: nat, holders: seq<Holder>, i: nat, short: bool, cut: bool,
                     both: bool)
    requires CallsSo(calls, from, holders, i, short) && i < |holders| && Adds(calls, later, IdOf(holders[i]), cut)
    requires both == (short || cut)
    ensures CallsSo(later, from, holders, i + 1, both)
  {
    forall j | 0 <= j < i
      ensures Looked(later, from, IdOf(holders[j]))
    {
      LookedStays(calls, later, from, from, IdOf(holders[j]));
    }
    if short {
      NotFineStays(calls, later, from, from);
    } else if cut {
      NotFineStays(later, later, |calls|, from);
    }
  }

  /** So too if the last of them was an error. */
  lemma CallsFail(calls: seq<Call>, later: seq<Call>, from: nat, holders: seq<Holder>, i: nat, short: bool, cut: bool,
                      both: bool)
    requires CallsSo(calls, from, holders, i, short) && calls <= later && (cut ==> !AllFine(later, |calls|))
    requires both == (short || cut)
    ensures both ==> !AllFine(later, from)
  {
    if short {
      NotFineStays(calls, later, from, from);
    } else if cut {
      NotFineStays(later, later, |calls|, from);
    }
  }

  /** One more holder finished. */
  method FinishNext(fs: Filesystem, ghost was: Disk, ghost start: Disks.Extents, ghost from: nat, ghost x: Address,
                    ghost holders: seq<Holder>, ghost i: nat, holder: Holder, before: HolderBefore, ghost table: Table,
                    ghost short: bool)
    returns (result: Outcome<()>, ghost both: bool)
    requires HoldersTrue(was, x, holders) && i < |holders| && holder == holders[i] && BeforeOf(was, holder, before)
    requires FinishedSo(was, start, fs.disk, x, holders, i, table, fs.conduct, short)
    requires CallsSo(fs.calls, from, holders, i, short)
    modifies fs`disk, fs`calls
    ensures old(fs.calls) <= fs.calls && ExtentsGrow(old(fs.disk).extents, fs.disk.extents)
    ensures Finishing(was, fs.disk, x, holders, i + 1, table)
    ensures result.Ok? ==> FinishedSo(was, start, fs.disk, x, holders, i + 1, table, fs.conduct, both)
    ensures result.Ok? ==> CallsSo(fs.calls, from, holders, i + 1, both)
    ensures both ==> fs.conduct != Exact && !AllFine(fs.calls, from)
    ensures result.Err? ==> Explains(fs.calls, from, result.error, fs.conduct)
  {
    ghost var mid, calls := fs.disk, fs.calls;
    ghost var cut;
    result, cut := FinishHolder(fs, was, x, holders, i, holder, before, table);
    both := short || cut;
    if result.Err? {
      CallsFail(calls, fs.calls, from, holders, i, short, cut, both);
      return;
    }
    CallsNext(calls, fs.calls, from, holders, i, short, cut, both);
    FinishedSoNext(was, start, mid, fs.disk, x, holders, i, table, fs.conduct, short, cut, both);
  }

  method FinishHolders(fs: Filesystem, ghost was: Disk, ghost x: Address, holders: seq<Holder>,
      befores: seq<HolderBefore>, ghost table: Table)
    returns (result: Outcome<()>, ghost short: bool, ghost done: nat)
    requires HoldersTrue(was, x, holders) && BeforesOf(was, holders, befores)
    requires Finishing(was, fs.disk, x, holders, 0, table)
    requires fs.conduct != Lying ==> EmptiedTo(was, fs.disk, x, holders, 0)
    modifies fs`disk, fs`calls
    ensures old(fs.calls) <= fs.calls
    ensures Finishing(was, fs.disk, x, holders, done, table)
    ensures ExtentsGrow(old(fs.disk).extents, fs.disk.extents)
    ensures result.Ok? ==>
      FinishedSo(was, old(fs.disk).extents, fs.disk, x, holders, |holders|, table, fs.conduct, short)
    ensures result.Ok? ==> done == |holders| && CallsSo(fs.calls, |old(fs.calls)|, holders, |holders|, short)
    ensures short ==> fs.conduct != Exact && !AllFine(fs.calls, |old(fs.calls)|)
    ensures result.Err? ==> Explains(fs.calls, |old(fs.calls)|, result.error, fs.conduct)
  {
    short, done := false, 0;
    for i := 0 to |holders|
      invariant done == i && FinishedSo(was, old(fs.disk).extents, fs.disk, x, holders, i, table, fs.conduct, short)
      invariant old(fs.calls) <= fs.calls && CallsSo(fs.calls, |old(fs.calls)|, holders, i, short)
    {
      result, short := FinishNext(fs, was, old(fs.disk).extents, |old(fs.calls)|, x, holders, i, holders[i], befores[i],
                                  table, short);
      done := i + 1;
      if result.Err? {
        return;
      }
    }
    result := Ok(());
  }

  /** What the first `done` holders come to, since `before`. */
  ghost predicate FinishedSo(was: Disk, before: Disks.Extents, now: Disk, x: Address, holders: seq<Holder>, done: nat,
                             table: Table, conduct: Conduct, short: bool)
    requires done <= |holders|
  {
    && Finishing(was, now, x, holders, done, table) && ExtentsGrow(before, now.extents)
    && ForTails(was, before, now, x, holders, done) && TailsApart(was, before, now, x, holders, done)
    && (conduct != Lying ==> LeftAt(was, now, x, holders, done, short))
    && (short ==> conduct != Exact)
  }

  lemma FinishedSoNext(was: Disk, before: Disks.Extents, mid: Disk, now: Disk, x: Address, holders: seq<Holder>, i: nat,
                       table: Table, conduct: Conduct, short: bool, cut: bool, both: bool)
    requires i < |holders| && Distinct(holders) && IdOf(holders[i]) in was.files
    requires FinishedSo(was, before, mid, x, holders, i, table, conduct, short)
    requires StepDone(was, mid, now, x, holders, i, table)
    requires HolderLeft(was, mid, now, x, holders[i], conduct != Lying, cut) && (cut ==> conduct != Exact)
    requires both == (short || cut)
    ensures FinishedSo(was, before, now, x, holders, i + 1, table, conduct, both)
  {
    ForTailsNext(was, before, mid, now, x, holders, i);
    TailsApartNext(was, before, mid, now, x, holders, i);
    if conduct != Lying {
      LeftStep(was, mid, now, x, holders, i, short, cut);
    }
  }
}
