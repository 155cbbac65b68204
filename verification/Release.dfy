/** What reallocating an extent achieves. */
module Release {
  import opened Sectors
  import opened Sorting
  import opened Wrappers
  import opened Extents
  import opened Disks
  import opened Kernel
  import opened Planning
  import opened Redirect
  import opened Tables
  import opened Rewrite
  import opened Realloc
  import opened Items

  /** Whatever happens: contents are kept, and so is every file that is no holder. */
  ghost predicate Safe(was: Disk, now: Disk, x: Address, holders: seq<Holder>) {
    && Evolves(was, now, x)
    && now.files.Keys == was.files.Keys
    && OthersKept(was, now, holders)
  }

  /** No reference reaches past the sector its file ends in, so a dedupe can
      reach all of it. */
  ghost predicate PassesGate(was: Disk, holders: seq<Holder>) {
    forall h, r :: h in holders && r in h.refs ==> WithinFile(was, IdOf(h), r)
  }

  ghost predicate WithinFile(was: Disk, id: FileId, r: ExtentRef) {
    id in was.files && r.FileEnd() <= Ceil(was.files[id].size)
  }

  /** The table is exactly the sectors some file reads in full. */
  ghost predicate ExactTable(was: Disk, refs: seq<ExtentRef>, table: Table) {
    forall e: nat :: e in table <==> Aligned(e) && SomeReadsWhole(was, refs, e)
  }

  /** Each tail that moved is in an extent of its own, which the table sends nothing to. */
  ghost predicate TailsAlone(was: Disk, now: Disk, x: Address, holders: seq<Holder>, table: Table) {
    forall i :: 0 <= i < |holders| && TailMoved(was, now, holders[i], x) ==> TailAlone(was, now, x, holders, table, i)
  }

  ghost predicate TailAlone(was: Disk, now: Disk, x: Address, holders: seq<Holder>, table: Table, i: nat)
    requires i < |holders| && TailMoved(was, now, holders[i], x)
  {
    var l := TailLoc(was, now, holders[i], x);
    && l.extent !in was.extents
    && (forall e :: e in table ==> table[e].extent != l.extent)
    && forall j :: 0 <= j < i && TailMoved(was, now, holders[j], x) ==>
         TailLoc(was, now, holders[j], x).extent != l.extent
  }

  lemma ApartIsAlone(was: Disk, before: Disks.Extents, now: Disk, x: Address, holders: seq<Holder>, table: Table)
    requires TailsApart(was, before, now, x, holders, |holders|) && GoodTable(was.extents, before, x, table)
    requires ExtentsGrow(was.extents, before)
    ensures TailsAlone(was, now, x, holders, table)
  {
    forall i | 0 <= i < |holders| && TailMoved(was, now, holders[i], x)
      ensures TailAlone(was, now, x, holders, table, i)
    {
      var l := TailLoc(was, now, holders[i], x);
      forall e | e in table
        ensures table[e].extent != l.extent
      {
        assert ValidLoc(table[e], before);
      }
    }
  }

  /** The extent is reallocated: `table` says where its sectors went, every
      holder's whole sectors are there, tails are each in a place of their own, and no
      holder points at it any more. */
  ghost predicate Rewritten(was: Disk, now: Disk, x: Address, holders: seq<Holder>, table: Table) {
    && SoundTable(was.extents, now.extents, x, table)
    && ExactTable(was, AllRefs(holders), table)
    && (forall h :: h in holders ==> HolderFinished(was, now, x, h, table) && !Holds(now.files[IdOf(h)], x))
    && OthersKept(was, now, holders) && now.files.Keys == was.files.Keys
    && TailsAlone(was, now, x, holders, table)
  }

  lemma FinishedEvolves(was: FileState, now: FileState, before: Disks.Extents, after: Disks.Extents, x: Address,
      table: Table)
    requires ValidFile(was, after) && ValidFile(now, after)
    requires Finished(was, now, before, after, x, table) && GoodTable(before, after, x, table)
    ensures FileEvolves(was, now, before, after, x)
  {
    forall s | s in was.sectors && now.sectors[s] != was.sectors[s]
      ensures SameSector(after, was.sectors[s], now.sectors[s], Visible(was, s))
    {
      if Eligible(was, x, table, s) && now.sectors[s] == table[was.sectors[s].offset] {
        assert was.sectors[s] == Loc(x, was.sectors[s].offset);
      }
    }
  }

  lemma FinishingIsSafe(was: Disk, now: Disk, x: Address, holders: seq<Holder>, done: nat, table: Table)
    requires HoldersTrue(was, x, holders) && Finishing(was, now, x, holders, done, table)
    requires GoodTable(was.extents, now.extents, x, table)
    ensures Safe(was, now, x, holders)
  {
    forall id | id in was.files
      ensures ValidFile(was.files[id], now.extents)
      ensures FileEvolves(was.files[id], now.files[id], was.extents, now.extents, x)
    {
      ValidGrows(was.files[id], was.extents, now.extents);
      if IsHolder(holders, id) {
        var h :| h in holders && IdOf(h) == id;
        var i :| 0 <= i < |holders| && holders[i] == h;
        assert HolderFinished(was, now, x, holders[i], table);
        FinishedEvolves(was.files[id], now.files[id], was.extents, now.extents, x, table);
      }
    }
  }

  lemma ValidGrows(f: FileState, before: Disks.Extents, after: Disks.Extents)
    requires ValidFile(f, before) && ExtentsGrow(before, after)
    ensures ValidFile(f, after)
  {
  }

  lemma CopyingIsSafe(was: Disk, now: Disk, x: Address, holders: seq<Holder>, table: Table, complete: bool)
    requires HoldersTrue(was, x, holders) && Copying(was, now, x, holders, table, complete)
    ensures Safe(was, now, x, holders)
  {
    FinishingStarts(was, now, x, holders, table, complete);
    FinishingIsSafe(was, now, x, holders, 0, table);
  }

  /** The sector a reference stands for, read in full, is one the plan stages. */
  lemma WholeIsStaged(was: Disk, x: Address, h: Holder, r: ExtentRef, s: nat)
    requires HolderTrue(was, x, h) && r in h.refs && InRef(r, s)
    requires s + SECTORSIZE <= was.files[IdOf(h)].size
    ensures ReadsWhole(was, r, OffsetOf(r, s))
  {
    assert RefTrue(was.files[IdOf(h)], x, r);
    OffsetAligned(r, s);
    AlignedSum(r.fileOffset, r.numBytes);
    AlignedStep(s, r.FileEnd());
  }

  /** With every staged sector moved, no whole sector is left behind. */
  lemma CompleteEmpties(was: Disk, now: FileState, x: Address, holders: seq<Holder>, h: Holder, table: Table,
                        extents: Disks.Extents)
    requires HoldersTrue(was, x, holders) && h in holders && ExactTable(was, AllRefs(holders), table)
    requires GoodTable(was.extents, extents, x, table)
    requires IdOf(h) in was.files && Relocated(was.files[IdOf(h)], now, x, table, true)
    ensures WholeEmptied(was.files[IdOf(h)], now, x)
  {
    var f := was.files[IdOf(h)];
    assert HolderTrue(was, x, h);
    forall s: nat | s in f.sectors && s + SECTORSIZE <= f.size && f.sectors[s].extent == x
      ensures now.sectors[s].extent != x
    {
      assert Backed(h.refs, s);
      var r :| r in h.refs && InRef(r, s);
      assert RefTrue(f, x, r);
      WholeIsStaged(was, x, h, r, s);
      InAllRefs(holders, r);
      assert SomeReadsWhole(was, AllRefs(holders), OffsetOf(r, s));
      assert Eligible(f, x, table, s);
    }
  }

  /** A holder that passes the gate and has let go of all it can holds nothing. */
  lemma EmptiedLetsGo(was: Disk, now: Disk, x: Address, holders: seq<Holder>, h: Holder, table: Table)
    requires HoldersTrue(was, x, holders) && h in holders && PassesGate(was, holders)
    requires HolderFinished(was, now, x, h, table) && HolderEmptied(was, now, x, h)
    requires GoodTable(was.extents, now.extents, x, table)
    ensures !Holds(now.files[IdOf(h)], x)
  {
    var f, g := was.files[IdOf(h)], now.files[IdOf(h)];
    assert HolderTrue(was, x, h);
    forall s: nat | s in g.sectors
      ensures g.sectors[s].extent != x
    {
      if f.sectors[s].extent == x && f.size <= s {
        assert Backed(h.refs, s);
        var r :| r in h.refs && InRef(r, s);
        assert WithinFile(was, IdOf(h), r);
        CeilLeast(s, f.size);
      }
    }
  }

  lemma LastSector(r: ExtentRef, end: nat) returns (s: nat)
    requires ValidRef(r) && Aligned(end) && end < r.FileEnd()
    ensures InRef(r, s) && end <= s
  {
    AlignedSum(r.fileOffset, r.numBytes);
    AlignedStep(end, r.FileEnd());
    AlignedStep(r.fileOffset, r.FileEnd());
    AlignedSum(SECTORSIZE, 0);
    AlignedDifference(SECTORSIZE, r.FileEnd());
    s := r.FileEnd() - SECTORSIZE;
  }

  /** A reference reaching past its file's last sector keeps the extent held,
      whatever is moved. */
  lemma PastEndHolds(was: Disk, now: Disk, x: Address, h: Holder, r: ExtentRef, table: Table)
    requires HolderTrue(was, x, h) && HolderFinished(was, now, x, h, table)
    requires r in h.refs && Ceil(was.files[IdOf(h)].size) < r.FileEnd()
    ensures Holds(now.files[IdOf(h)], x)
  {
    var f := was.files[IdOf(h)];
    assert RefTrue(f, x, r);
    var s := LastSector(r, Ceil(f.size));
    assert !Eligible(f, x, table, s) && !IsTail(f, s);
    assert now.files[IdOf(h)].sectors[s] == f.sectors[s];
  }

  /** The window the check searches: from the first of the holder's references to the end of the last. */
  ghost predicate Window(h: Holder, from: nat, to: nat) {
    forall r :: r in h.refs ==> from <= r.fileOffset && r.FileEnd() <= to + 1
  }

  method WindowOf(refs: seq<ExtentRef>) returns (from: nat, to: nat)
    requires forall r :: r in refs ==> 0 < r.numBytes
    ensures forall r :: r in refs ==> from <= r.fileOffset && r.FileEnd() <= to + 1
  {
    from, to := 0, 0;
    for i := 0 to |refs|
      invariant forall j :: 0 <= j < i ==> from <= refs[j].fileOffset && refs[j].FileEnd() <= to + 1
    {
      var r := refs[i];
      assert r in refs;
      from := if i == 0 then r.fileOffset else Min(from, r.fileOffset);
      to := Max(to, r.FileEnd() - 1);
    }
  }

  /** What is left of the extent in a holder lies in the window, because sectors
      leave the extent but none join it. */
  lemma LeftWithin(was: Disk, now: Disk, x: Address, h: Holder, table: Table, from: nat, to: nat)
    requires HolderTrue(was, x, h) && HolderFinished(was, now, x, h, table) && x in was.extents
    requires GoodTable(was.extents, now.extents, x, table)
    requires Window(h, from, to)
    ensures Within(now.files[IdOf(h)], x, from, to)
  {
    var f, g := was.files[IdOf(h)], now.files[IdOf(h)];
    forall s: nat | s in g.sectors && g.sectors[s].extent == x
      ensures from <= s <= to
    {
      assert g.sectors[s] == f.sectors[s];
      assert Backed(h.refs, s);
      var r :| r in h.refs && InRef(r, s);
    }
  }

  ghost predicate LetsGo(d: Disk, x: Address, h: Holder) {
    IdOf(h) in d.files && !Holds(d.files[IdOf(h)], x)
  }

  ghost predicate AllLetGo(d: Disk, x: Address, holders: seq<Holder>) {
    forall h :: h in holders ==> LetsGo(d, x, h)
  }

  /** A holder whose references' window takes in everything it holds of the extent. */
  ghost predicate Watched(d: Disk, x: Address, h: Holder) {
    && ValidDisk(d) && IdOf(h) in d.files
    && (forall r :: r in h.refs ==> 0 < r.numBytes)
    && forall from: nat, to: nat :: Window(h, from, to) ==> Within(d.files[IdOf(h)], x, from, to)
  }

  lemma HolderWatched(was: Disk, now: Disk, x: Address, holders: seq<Holder>, table: Table, i: nat)
    requires HoldersTrue(was, x, holders) && Finishing(was, now, x, holders, |holders|, table)
    requires GoodTable(was.extents, now.extents, x, table) && i < |holders|
    ensures Watched(now, x, holders[i])
  {
    var h := holders[i];
    assert h in holders;
    forall r | r in h.refs
      ensures 0 < r.numBytes
    {
      assert RefTrue(was.files[IdOf(h)], x, r);
    }
    forall from: nat, to: nat | Window(h, from, to)
      ensures Within(now.files[IdOf(h)], x, from, to)
    {
      LeftWithin(was, now, x, h, table, from, to);
    }
  }

  /** Asks one holder whether it still points at the extent. */
  method CheckHolder(fs: Filesystem, x: Address, holder: Holder) returns (holds: Outcome<bool>)
    requires Watched(fs.disk, x, holder)
    modifies fs`calls
    ensures old(fs.calls) <= fs.calls
    ensures holds.Ok? ==> holds.value == !LetsGo(fs.disk, x, holder)
    ensures holds.Err? ==> holds.error.Io? && Explains(fs.calls, |old(fs.calls)|, holds.error, fs.conduct)
  {
    var from, to := WindowOf(holder.refs);
    assert Window(holder, from, to);
    holds := InodeHoldsExtent(fs, IdOf(holder), from, to, x);
  }

  /** Asks every holder whether it still points at the extent. */
  method CheckHolders(fs: Filesystem, x: Address, holders: seq<Holder>) returns (result: Outcome<()>)
    requires forall i :: 0 <= i < |holders| ==> Watched(fs.disk, x, holders[i])
    modifies fs`calls
    ensures old(fs.calls) <= fs.calls
    ensures result.Ok? ==> AllLetGo(fs.disk, x, holders)
    ensures result.Err? ==> (result.error.Io? && Explains(fs.calls, |old(fs.calls)|, result.error, fs.conduct))
                            || (result.error.StillHolds? && !AllLetGo(fs.disk, x, holders))
  {
    for i := 0 to |holders|
      invariant old(fs.calls) <= fs.calls && forall j :: 0 <= j < i ==> LetsGo(fs.disk, x, holders[j])
    {
      var holds := CheckHolder(fs, x, holders[i]);
      if holds.Err? {
        return Err(holds.error);
      }
      if holds.value {
        assert holders[i] in holders;
        return Err(StillHolds);
      }
    }
    result := Ok(());
  }

  method ReadBefore(fs: Filesystem, holders: seq<Holder>) returns (r: Outcome<seq<HolderBefore>>)
    requires forall i :: 0 <= i < |holders| ==> IdOf(holders[i]) in fs.disk.files
    modifies fs`calls
    ensures old(fs.calls) <= fs.calls
    ensures r.Ok? ==> BeforesOf(fs.disk, holders, r.value)
    ensures r.Err? ==> r.error.Io? && Explains(fs.calls, |old(fs.calls)|, r.error, fs.conduct)
  {
    var befores: seq<HolderBefore> := [];
    for i := 0 to |holders|
      invariant old(fs.calls) <= fs.calls
      invariant |befores| == i && forall j :: 0 <= j < i ==> BeforeOf(fs.disk, holders[j], befores[j])
    {
      var open := fs.Attempt();
      if open.Err? {
        return Err(open.error);
      }
      var file := fs.disk.files[IdOf(holders[i])];
      befores := befores + [HolderBefore(file.size, file.modified)];
    }
    r := Ok(befores);
  }

  lemma CopiedEmpties(was: Disk, now: Disk, x: Address, holders: seq<Holder>, table: Table)
    requires HoldersTrue(was, x, holders) && Copying(was, now, x, holders, table, true)
    requires ExactTable(was, AllRefs(holders), table)
    ensures EmptiedTo(was, now, x, holders, 0)
  {
    forall i | 0 <= i < |holders|
      ensures HolderWholeEmptied(was, now, x, holders[i])
    {
      CompleteEmpties(was, now.files[IdOf(holders[i])], x, holders, holders[i], table, now.extents);
    }
  }

  /** The holders let go exactly if every one of them passes the gate, once all
      that can move has. */
  lemma LetGoIfGate(was: Disk, now: Disk, x: Address, holders: seq<Holder>, table: Table)
    requires HoldersTrue(was, x, holders) && Finishing(was, now, x, holders, |holders|, table)
    requires GoodTable(was.extents, now.extents, x, table)
    ensures AllLetGo(now, x, holders) ==> PassesGate(was, holders)
    ensures EmptiedTo(was, now, x, holders, |holders|) && PassesGate(was, holders) ==> AllLetGo(now, x, holders)
  {
    forall h, r | AllLetGo(now, x, holders) && h in holders && r in h.refs
      ensures WithinFile(was, IdOf(h), r)
    {
      assert HolderTrue(was, x, h) && LetsGo(now, x, h);
      if Ceil(was.files[IdOf(h)].size) < r.FileEnd() {
        PastEndHolds(was, now, x, h, r, table);
      }
    }
    forall h | EmptiedTo(was, now, x, holders, |holders|) && PassesGate(was, holders) && h in holders
      ensures LetsGo(now, x, h)
    {
      var i :| 0 <= i < |holders| && holders[i] == h;
      assert HolderEmptied(was, now, x, holders[i]);
      EmptiedLetsGo(was, now, x, holders, h, table);
    }
  }

  /** What the check at the end comes to: with a kernel that does not lie, it passes
      exactly if no tail fell short and every holder passes the gate. */
  lemma GateDecides(was: Disk, now: Disk, x: Address, holders: seq<Holder>, table: Table, conduct: Conduct, short: bool)
    requires HoldersTrue(was, x, holders) && Finishing(was, now, x, holders, |holders|, table)
    requires GoodTable(was.extents, now.extents, x, table)
    requires conduct != Lying && !short ==> EmptiedTo(was, now, x, holders, |holders|)
    requires conduct != Lying && short ==> SomeHold(now, x, holders)
    ensures AllLetGo(now, x, holders) ==> PassesGate(was, holders)
    ensures conduct != Lying ==> (AllLetGo(now, x, holders) <==> !short && PassesGate(was, holders))
  {
    LetGoIfGate(was, now, x, holders, table);
    if SomeHold(now, x, holders) {
      var i :| 0 <= i < |holders| && IdOf(holders[i]) in now.files && Holds(now.files[IdOf(holders[i])], x);
      assert holders[i] in holders && !LetsGo(now, x, holders[i]);
    }
  }

  lemma PlanIsExact(was: Disk, x: Address, holders: seq<Holder>, copies: seq<LiveRange>, table: Table)
    requires x in was.extents && ExactCopies(was, x, AllRefs(holders), copies) && TableOf(table, copies)
    ensures ExactTable(was, AllRefs(holders), table)
  {
  }

  /** Every holder was looked at, and found to be as it was before. */
  ghost predicate AllLooked(calls: seq<Call>, from: nat, holders: seq<Holder>) {
    forall i :: 0 <= i < |holders| ==> Looked(calls, from, IdOf(holders[i]))
  }

  lemma AllLookedStays(calls: seq<Call>, later: seq<Call>, from: nat, first: nat, holders: seq<Holder>)
    requires AllLooked(calls, from, holders) && calls <= later && first <= from
    ensures AllLooked(later, first, holders)
  {
    forall i | 0 <= i < |holders|
      ensures Looked(later, first, IdOf(holders[i]))
    {
      LookedStays(calls, later, from, first, IdOf(holders[i]));
    }
  }

  /** Stages the extent's live stretches, and points every holder at them. */
  method MoveCopies(fs: Filesystem, x: Address, ranges: seq<Range>, holders: seq<Holder>)
    returns (result: Outcome<seq<HolderBefore>>, ghost table: Table)
    requires HoldersTrue(fs.disk, x, holders) && LiveRangesOf(ranges, AllRefs(holders))
    modifies fs`disk, fs`calls
    ensures old(fs.calls) <= fs.calls
    ensures Safe(old(fs.disk), fs.disk, x, holders)
    ensures result.Ok? ==> BeforesOf(old(fs.disk), holders, result.value)
    ensures result.Ok? ==> exists complete :: Copying(old(fs.disk), fs.disk, x, holders, table, complete)
    ensures result.Ok? && fs.conduct != Lying ==> EmptiedTo(old(fs.disk), fs.disk, x, holders, 0)
    ensures result.Ok? ==> ForCopies(old(fs.disk).extents, fs.disk.extents, table)
                           && ExactTable(old(fs.disk), AllRefs(holders), table)
    ensures result.Err? ==> Explains(fs.calls, |old(fs.calls)|, result.error, fs.conduct)
  {
    ghost var was := fs.disk;
    table := map[];
    CopyingStarts(was, x, holders, false);
    CopyingIsSafe(was, was, x, holders, map[], false);
    AllRefsTrue(was, x, holders);
    var planned := ReadLiveRanges(fs, x, ranges, AllRefs(holders));
    if planned.Err? {
      return Err(planned.error), table;
    }
    forall i | 0 <= i < |holders|
      ensures IdOf(holders[i]) in was.files
    {
      assert HolderTrue(was, x, holders[i]);
    }
    var befores := ReadBefore(fs, holders);
    if befores.Err? {
      return Err(befores.error), table;
    }
    var sizes := seq(|holders|, i requires 0 <= i < |befores.value| => befores.value[i].fileSize);
    var copied;
    copied, table := RewriteCopies(fs, x, holders, sizes, planned.value);
    CopyingIsSafe(was, fs.disk, x, holders, table, fs.conduct != Lying && copied.Ok?);
    if copied.Err? {
      return Err(copied.error), table;
    }
    PlanIsExact(was, x, holders, planned.value, table);
    if fs.conduct != Lying {
      CopiedEmpties(was, fs.disk, x, holders, table);
    }
    result := befores;
  }

  /** Everything the rewrite does before its check: staging, redirecting, and
      finishing each holder. */
  method MoveHolders(fs: Filesystem, x: Address, ranges: seq<Range>, holders: seq<Holder>)
    returns (result: Outcome<()>, ghost table: Table, ghost short: bool)
    requires HoldersTrue(fs.disk, x, holders) && LiveRangesOf(ranges, AllRefs(holders))
    modifies fs`disk, fs`calls
    ensures old(fs.calls) <= fs.calls
    ensures Safe(old(fs.disk), fs.disk, x, holders)
    ensures result.Ok? ==> Finishing(old(fs.disk), fs.disk, x, holders, |holders|, table)
                           && SoundTable(old(fs.disk).extents, fs.disk.extents, x, table)
                           && ExactTable(old(fs.disk), AllRefs(holders), table)
                           && Purposed(old(fs.disk), fs.disk, x, holders, table)
                           && TailsAlone(old(fs.disk), fs.disk, x, holders, table)
    ensures result.Ok? && fs.conduct != Lying && !short ==> EmptiedTo(old(fs.disk), fs.disk, x, holders, |holders|)
    ensures result.Ok? && fs.conduct != Lying && short ==> SomeHold(fs.disk, x, holders)
    ensures short ==> fs.conduct != Exact && !AllFine(fs.calls, |old(fs.calls)|)
    ensures result.Ok? ==> AllLooked(fs.calls, |old(fs.calls)|, holders)
    ensures result.Err? ==> Explains(fs.calls, |old(fs.calls)|, result.error, fs.conduct)
  {
    ghost var was := fs.disk;
    var befores;
    befores, table := MoveCopies(fs, x, ranges, holders);
    if befores.Err? {
      return Err(befores.error), table, false;
    }
    ghost var calls := fs.calls;
    result, short := FinishCopied(fs, was, x, holders, befores.value, table);
    if result.Ok? {
      AllLookedStays(fs.calls, fs.calls, |calls|, |old(fs.calls)|, holders);
    }
    if short {
      NotFineStays(fs.calls, fs.calls, |calls|, |old(fs.calls)|);
    }
  }

  method FinishCopied(fs: Filesystem, ghost was: Disk, ghost x: Address, holders: seq<Holder>,
      befores: seq<HolderBefore>, ghost table: Table)
    returns (result: Outcome<()>, ghost short: bool)
    requires HoldersTrue(was, x, holders) && BeforesOf(was, holders, befores)
    requires exists complete :: Copying(was, fs.disk, x, holders, table, complete)
    requires fs.conduct != Lying ==> EmptiedTo(was, fs.disk, x, holders, 0)
    requires ForCopies(was.extents, fs.disk.extents, table)
    modifies fs`disk, fs`calls
    ensures old(fs.calls) <= fs.calls
    ensures result.Ok? ==> Purposed(was, fs.disk, x, holders, table) && TailsAlone(was, fs.disk, x, holders, table)
    ensures Safe(was, fs.disk, x, holders)
    ensures SoundTable(was.extents, fs.disk.extents, x, table)
    ensures result.Ok? ==> Finishing(was, fs.disk, x, holders, |holders|, table)
    ensures result.Ok? && fs.conduct != Lying && !short ==> EmptiedTo(was, fs.disk, x, holders, |holders|)
    ensures result.Ok? && fs.conduct != Lying && short ==> SomeHold(fs.disk, x, holders)
    ensures short ==> fs.conduct != Exact && !AllFine(fs.calls, |old(fs.calls)|)
    ensures result.Ok? ==> AllLooked(fs.calls, |old(fs.calls)|, holders)
    ensures result.Err? ==> Explains(fs.calls, |old(fs.calls)|, result.error, fs.conduct)
  {
    ghost var complete :| Copying(was, fs.disk, x, holders, table, complete);
    ghost var before := fs.disk.extents;
    FinishingStarts(was, fs.disk, x, holders, table, complete);
    ghost var done;
    result, short, done := FinishHolders(fs, was, x, holders, befores, table);
    SoundTableGrows(was.extents, before, fs.disk.extents, x, table);
    FinishingIsSafe(was, fs.disk, x, holders, done, table);
    if result.Ok? {
      BothPurposed(was, before, fs.disk, x, holders, table);
      ApartIsAlone(was, before, fs.disk, x, holders, table);
    }
  }

  lemma BothPurposed(was: Disk, mid: Disks.Extents, now: Disk, x: Address, holders: seq<Holder>, table: Table)
    requires ForCopies(was.extents, mid, table) && ForTails(was, mid, now, x, holders, |holders|)
    ensures Purposed(was, now, x, holders, table)
  {
    forall a | a in now.extents && a !in was.extents && a !in mid
      ensures MadeForTail(was, now, x, holders, |holders|, a)
    {
    }
  }

  /** Reallocates one extent. Whatever the kernel does, every file keeps its
      contents, and success means every holder let go of the extent. With a kernel
      that does all it is asked, it succeeds exactly if every holder passes the
      gate; with an honest one, the check at the end fails only if some holder does
      not pass the gate or the dedupe of some tail fell `short`. */
  method ReallocExtent(fs: Filesystem, x: Address, ranges: seq<Range>, holders: seq<Holder>)
    returns (result: Outcome<()>, ghost table: Table, ghost short: bool)
    requires HoldersTrue(fs.disk, x, holders) && LiveRangesOf(ranges, AllRefs(holders))
    modifies fs`disk, fs`calls
    ensures old(fs.calls) <= fs.calls
    ensures Safe(old(fs.disk), fs.disk, x, holders)
    ensures result.Ok? ==> Rewritten(old(fs.disk), fs.disk, x, holders, table) && PassesGate(old(fs.disk), holders)
    ensures result.Ok? ==> Purposed(old(fs.disk), fs.disk, x, holders, table)
    ensures result.Err? ==> Explains(fs.calls, |old(fs.calls)|, result.error, fs.conduct)
                            || (result.error.StillHolds?
                                && (fs.conduct == Lying || short || !PassesGate(old(fs.disk), holders)))
    ensures result.Ok? && fs.conduct != Lying ==> !short
    ensures result.Ok? ==> AllLooked(fs.calls, |old(fs.calls)|, holders)
    ensures short ==> fs.conduct != Exact && !AllFine(fs.calls, |old(fs.calls)|)
    ensures fs.conduct == Exact ==> (result.Ok? <==> PassesGate(old(fs.disk), holders))
    ensures fs.conduct != Lying && AllFine(fs.calls, |old(fs.calls)|) ==>
      (result.Ok? <==> PassesGate(old(fs.disk), holders))
  {
    ghost var was := fs.disk;
    result, table, short := MoveHolders(fs, x, ranges, holders);
    if result.Err? {
      ExplainedNotFine(fs.calls, |old(fs.calls)|, result.error, fs.conduct);
      return;
    }
    ghost var calls := fs.calls;
    // `CheckHolders` decides: with a `Lying` kernel nothing so far says what moved.
    forall i | 0 <= i < |holders|
      ensures Watched(fs.disk, x, holders[i])
    {
      HolderWatched(was, fs.disk, x, holders, table, i);
    }
    result := CheckHolders(fs, x, holders);
    AllLookedStays(calls, fs.calls, |old(fs.calls)|, |old(fs.calls)|, holders);
    if short {
      NotFineStays(calls, fs.calls, |old(fs.calls)|, |old(fs.calls)|);
    }
    if result.Err? && result.error.Io? {
      ExplainedNotFine(fs.calls, |old(fs.calls)|, result.error, fs.conduct);
    }
    GateDecides(was, fs.disk, x, holders, table, fs.conduct, short);
  }

  // ----- What a reallocated extent means for the filesystem -----

  /** Every file into the extent is among the holders. */
  ghost predicate HoldersComplete(d: Disk, x: Address, holders: seq<Holder>) {
    forall id :: id in d.files && Holds(d.files[id], x) ==> IsHolder(holders, id)
  }

  /** With every holder found, nothing on the filesystem references the extent
      any more, so it is freed. */
  lemma ExtentReleased(was: Disk, now: Disk, x: Address, holders: seq<Holder>, table: Table)
    requires HoldersComplete(was, x, holders) && Rewritten(was, now, x, holders, table)
    ensures !Referenced(now, x)
  {
    forall id | id in now.files
      ensures !Holds(now.files[id], x)
    {
      if IsHolder(holders, id) {
        var h :| h in holders && IdOf(h) == id;
      } else {
        assert now.files[id] == was.files[id];
      }
    }
  }

  /** Whatever became of the rewrite, every file reads the same as before. */
  lemma ContentsKept(was: Disk, now: Disk, x: Address, holders: seq<Holder>, id: FileId)
    requires Safe(was, now, x, holders) && id in was.files
    ensures id in now.files && now.files[id].size == was.files[id].size
      && now.files[id].modified == was.files[id].modified
    ensures forall p: nat :: p < was.files[id].size ==>
              ByteAt(now.files[id], now.extents, p) == ByteAt(was.files[id], was.extents, p)
  {
    forall p: nat | p < was.files[id].size
      ensures ByteAt(now.files[id], now.extents, p) == ByteAt(was.files[id], was.extents, p)
    {
      EvolvesKeepsContents(was, now, x, id, p);
    }
  }

  /** A whole sector of the extent that the holder has at `s`. */
  ghost predicate WholeSector(d: Disk, h: Holder, x: Address, s: nat) {
    && IdOf(h) in d.files && s in d.files[IdOf(h)].sectors
    && d.files[IdOf(h)].sectors[s].extent == x
    && s + SECTORSIZE <= d.files[IdOf(h)].size
  }

  /** Every whole sector goes where the table says: it left the extent, and that
      is the only place it can have gone. */
  lemma WholeSectorMoved(was: Disk, now: Disk, x: Address, holders: seq<Holder>, table: Table, h: Holder, s: nat)
    requires Rewritten(was, now, x, holders, table) && h in holders && WholeSector(was, h, x, s)
    ensures var e := was.files[IdOf(h)].sectors[s].offset;
      e in table && IdOf(h) in now.files && s in now.files[IdOf(h)].sectors && now.files[IdOf(h)].sectors[s] == table[e]
  {
    var f, g := was.files[IdOf(h)], now.files[IdOf(h)];
    assert HolderFinished(was, now, x, h, table);
    assert g.sectors[s].extent != x;
    assert !IsTail(f, s);
  }

  /** Deduplication is preserved, and nothing is deduplicated that was not: two
      whole sectors, of one holder or of two, share a place afterwards exactly if
      they shared one before. */
  lemma SharingKept(was: Disk, now: Disk, x: Address, holders: seq<Holder>, table: Table,
                    h: Holder, s: nat, k: Holder, t: nat)
    requires Rewritten(was, now, x, holders, table)
    requires h in holders && WholeSector(was, h, x, s) && k in holders && WholeSector(was, k, x, t)
    ensures IdOf(h) in now.files && s in now.files[IdOf(h)].sectors && IdOf(k) in now.files
      && t in now.files[IdOf(k)].sectors
    ensures was.files[IdOf(h)].sectors[s] == was.files[IdOf(k)].sectors[t] <==>
            now.files[IdOf(h)].sectors[s] == now.files[IdOf(k)].sectors[t]
  {
    WholeSectorMoved(was, now, x, holders, table, h, s);
    WholeSectorMoved(was, now, x, holders, table, k, t);
  }

  /** Some holder has its sector at `l`. */
  ghost predicate HeldAt(d: Disk, holders: seq<Holder>, l: Loc) {
    exists h, s :: h in holders && IdOf(h) in d.files && s in d.files[IdOf(h)].sectors
      && d.files[IdOf(h)].sectors[s] == l
  }

  /** The file's sector that reads sector `e` of the extent through the reference. */
  lemma SectorReading(d: Disk, r: ExtentRef, e: nat) returns (s: nat)
    requires FileOf(r) in d.files && ValidRef(r) && ReadsWhole(d, r, e)
    ensures InRef(r, s) && OffsetOf(r, s) == e && s + SECTORSIZE <= d.files[FileOf(r)].size
  {
    s := r.fileOffset + (e - r.extentOffset);
    AlignedDifference(r.extentOffset, e);
    AlignedSum(r.fileOffset, e - r.extentOffset);
  }

  /** A sector some file reads in full is a whole sector of some holder. */
  lemma ReaderOf(was: Disk, x: Address, holders: seq<Holder>, e: nat) returns (h: Holder, s: nat)
    requires HoldersTrue(was, x, holders) && SomeReadsWhole(was, AllRefs(holders), e)
    ensures h in holders && WholeSector(was, h, x, s) && was.files[IdOf(h)].sectors[s].offset == e
  {
    var r :| r in AllRefs(holders) && ReadsWhole(was, r, e);
    InAllRefs(holders, r);
    h :| h in holders && r in h.refs;
    assert HolderTrue(was, x, h);
    assert RefTrue(was.files[IdOf(h)], x, r);
    s := SectorReading(was, r, e);
  }

  lemma TableHeld(was: Disk, now: Disk, x: Address, holders: seq<Holder>, table: Table, e: nat)
    requires HoldersTrue(was, x, holders) && Rewritten(was, now, x, holders, table) && e in table
    ensures HeldAt(now, holders, table[e])
  {
    var h, s := ReaderOf(was, x, holders, e);
    WholeSectorMoved(was, now, x, holders, table, h, s);
  }

  /** Every extent the rewrite made is one the table sends sectors to, or one for a
      holder's tail. */
  ghost predicate Purposed(was: Disk, now: Disk, x: Address, holders: seq<Holder>, table: Table) {
    forall a :: a in now.extents && a !in was.extents ==>
      (exists e :: e in table && table[e].extent == a) || MadeForTail(was, now, x, holders, |holders|, a)
  }

  /** Every sector of an extent staged for live stretches is held by some holder. */
  lemma StagedHeld(was: Disk, now: Disk, x: Address, holders: seq<Holder>, table: Table, e: nat, o: nat)
    requires HoldersTrue(was, x, holders) && Rewritten(was, now, x, holders, table) && e in table
    requires Aligned(o) && table[e].extent in now.extents && o + SECTORSIZE <= |now.extents[table[e].extent]|
    ensures HeldAt(now, holders, Loc(table[e].extent, o))
  {
    assert Hits(table, Loc(table[e].extent, o));
    var d :| d in table && table[d] == Loc(table[e].extent, o);
    TableHeld(was, now, x, holders, table, d);
  }

  /** So is the one sector of an extent made for a tail, once its holder let go. */
  lemma TailIsHeld(was: Disk, now: Disk, x: Address, holders: seq<Holder>, table: Table, a: Address, o: nat)
    requires Rewritten(was, now, x, holders, table) && MadeForTail(was, now, x, holders, |holders|, a)
    requires Aligned(o) && a in now.extents && o + SECTORSIZE <= |now.extents[a]|
    ensures HeldAt(now, holders, Loc(a, o))
  {
    var j :| 0 <= j < |holders| && TailOf(was, now, x, holders[j], a);
    var h := holders[j];
    var g := now.files[IdOf(h)];
    assert h in holders && !Holds(g, x);
    assert g.sectors[Floor(was.files[IdOf(h)].size)] == Loc(a, o);
  }

  /** No new waste: every sector of every extent a rewrite makes is held by some holder. */
  lemma NoWaste(was: Disk, now: Disk, x: Address, holders: seq<Holder>, table: Table, a: Address, o: nat)
    requires HoldersTrue(was, x, holders) && Rewritten(was, now, x, holders, table)
    requires Purposed(was, now, x, holders, table) && a in now.extents && a !in was.extents
    requires Aligned(o) && o + SECTORSIZE <= |now.extents[a]|
    ensures HeldAt(now, holders, Loc(a, o))
  {
    if e :| e in table && table[e].extent == a {
      StagedHeld(was, now, x, holders, table, e, o);
    } else {
      TailIsHeld(was, now, x, holders, table, a, o);
    }
  }
}
