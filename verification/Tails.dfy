/** Moving the one sector a file may end inside of. */
module Tails {
  import opened Sectors
  import opened Wrappers
  import opened Disks
  import opened Kernel

  /** `now` is `was`, or `was` with its sector at `from` moved to extent `a`. */
  ghost predicate TailFile(was: FileState, now: FileState, from: nat, a: Address, moved: bool) {
    && from in was.sectors
    && now == if moved then was.(sectors := was.sectors[from := Loc(a, 0)]) else was
  }

  /** Extent `a` is newer than `before`, and starts with what the file holds at `from`. */
  ghost predicate TailExtent(before: Disks.Extents, now: Disks.Extents, f: FileState, from: nat, a: Address)
    requires ValidFile(f, now) && from in f.sectors && from <= f.size < from + SECTORSIZE
  {
    && a !in before && ValidLoc(Loc(a, 0), now)
    && SameSector(now, f.sectors[from], Loc(a, 0), f.size - from)
  }

  /** Everything redirecting a tail can do. */
  ghost predicate TailRedirected(was: Disk, now: Disk, id: FileId, from: nat, a: Address, moved: bool) {
    && ValidDisk(was) && ValidDisk(now)
    && ExtentsGrow(was.extents, now.extents)
    && id in was.files && now.files.Keys == was.files.Keys
    && (forall other :: other in was.files && other != id ==> now.files[other] == was.files[other])
    && TailFile(was.files[id], now.files[id], from, a, moved)
    && from <= was.files[id].size < from + SECTORSIZE
    && ValidFile(was.files[id], now.extents)
    && (moved ==> TailExtent(was.extents, now.extents, was.files[id], from, a))
  }

  /** The call that moves a tail ends both files, so the kernel takes it, and it
      can move that one sector and no other. */
  lemma TailCall(g: FileState, f: FileState, from: nat)
    requires from == Floor(f.size) && from < f.size && g.size == SECTORSIZE + (f.size - from)
    ensures Acceptable(g, SECTORSIZE, f.size - from, f, from)
    ensures WholeSectors(from, f.size - from) == {}
    ensures TailSector(g, SECTORSIZE, f.size - from, f, from) == {from}
  {
    AlignedSum(SECTORSIZE, 0);
  }

  lemma TailByte(extents: Disks.Extents, g: FileState, f: FileState, from: nat, a: Address, bytes: seq<Byte>, i: nat)
    requires ValidFile(g, extents) && ValidFile(f, extents) && |bytes| <= SECTORSIZE
    requires a in extents && extents[a] == Padded(bytes) && i < |bytes|
    requires SECTORSIZE in g.sectors && g.sectors[SECTORSIZE] == Loc(a, 0) && Aligned(SECTORSIZE)
    requires from in f.sectors && Aligned(from) && bytes[i] == ByteAt(f, extents, from + i)
    ensures SameByte(extents, g, SECTORSIZE, f, from, i)
    ensures At(extents, f.sectors[from], i) == At(extents, Loc(a, 0), i)
  {
    SectorByte(g, extents, SECTORSIZE, i);
    SectorByte(f, extents, from, i);
    assert Padded(bytes)[i] == bytes[i];
  }

  lemma TailBytes(extents: Disks.Extents, g: FileState, f: FileState, from: nat, a: Address, bytes: seq<Byte>)
    requires ValidFile(g, extents) && ValidFile(f, extents) && |bytes| <= SECTORSIZE
    requires a in extents && extents[a] == Padded(bytes)
    requires SECTORSIZE in g.sectors && g.sectors[SECTORSIZE] == Loc(a, 0) && Aligned(SECTORSIZE)
    requires from in f.sectors && Aligned(from)
    requires forall i: nat :: i < |bytes| ==> bytes[i] == ByteAt(f, extents, from + i)
    ensures SameBytes(extents, g, SECTORSIZE, |bytes|, f, from)
    ensures SameSector(extents, f.sectors[from], Loc(a, 0), |bytes|)
  {
    forall i: nat | i < |bytes|
      ensures SameByte(extents, g, SECTORSIZE, f, from, i)
      ensures At(extents, f.sectors[from], i) == At(extents, Loc(a, 0), i)
    {
      TailByte(extents, g, f, from, a, bytes, i);
    }
  }

  lemma TailRepointed(g: FileState, f: FileState, from: nat, a: Address, chosen: set<nat>, moved: bool)
    requires from in f.sectors && SECTORSIZE in g.sectors && g.sectors[SECTORSIZE] == Loc(a, 0)
    requires chosen <= {from} && moved == (from in chosen)
    ensures TailFile(f, Repoint(g, SECTORSIZE, f, from, chosen), from, a, moved)
  {
    var now := Repoint(g, SECTORSIZE, f, from, chosen);
    assert now.sectors == if moved then f.sectors[from := Loc(a, 0)] else f.sectors;
  }

  /** The temporary `temp` holds `bytes` in extent `a`. */
  ghost predicate TailStaged(was: Disk, mid: Disk, temp: FileId, a: Address, bytes: seq<Byte>) {
    && temp !in was.files && a !in was.extents
    && exists modified ::
         mid == Disk(was.files[temp := TempFile(a, |bytes|, modified)], was.extents[a := Padded(bytes)])
  }

  ghost predicate TailContext(was: Disk, mid: Disk, id: FileId, from: nat, temp: FileId, a: Address, bytes: seq<Byte>) {
    && ValidDisk(was) && ValidDisk(mid) && TailStaged(was, mid, temp, a, bytes)
    && id in was.files && from in was.files[id].sectors
    && from == Floor(was.files[id].size) && from + |bytes| == was.files[id].size && 0 < |bytes|
    && forall i: nat :: i < |bytes| ==> bytes[i] == ByteAt(was.files[id], was.extents, from + i)
  }

  lemma TailMovable(was: Disk, mid: Disk, id: FileId, from: nat, temp: FileId, a: Address, bytes: seq<Byte>)
    requires TailContext(was, mid, id, from, temp, a, bytes)
    ensures id in mid.files && temp in mid.files && mid.files[id] == was.files[id]
    ensures Acceptable(mid.files[temp], SECTORSIZE, |bytes|, mid.files[id], from)
    ensures WholeSectors(from, |bytes|) == {}
    ensures TailSector(mid.files[temp], SECTORSIZE, |bytes|, mid.files[id], from) == {from}
    ensures SECTORSIZE in mid.files[temp].sectors && mid.files[temp].sectors[SECTORSIZE] == Loc(a, 0)
  {
    AlignedSum(SECTORSIZE, 0);
    TailCall(mid.files[temp], mid.files[id], from);
  }

  lemma TailRead(was: Disk, mid: Disk, id: FileId, from: nat, temp: FileId, a: Address, bytes: seq<Byte>)
    requires TailContext(was, mid, id, from, temp, a, bytes)
    ensures id in mid.files && mid.files[id] == was.files[id]
    ensures forall i: nat :: i < |bytes| ==> bytes[i] == ByteAt(mid.files[id], mid.extents, from + i)
  {
    TailKept(was, mid, id, temp, a, bytes);
    ReadInBoth(was, mid, id, from, bytes);
  }

  /** Staging a temporary changes no file and no extent there was. */
  lemma TailKept(was: Disk, mid: Disk, id: FileId, temp: FileId, a: Address, bytes: seq<Byte>)
    requires TailStaged(was, mid, temp, a, bytes) && id in was.files
    ensures id in mid.files && mid.files[id] == was.files[id] && ExtentsGrow(was.extents, mid.extents)
    ensures mid.extents.Keys == was.extents.Keys + {a} && mid.extents[a] == Padded(bytes)
  {
  }

  lemma ReadInBoth(was: Disk, mid: Disk, id: FileId, from: nat, bytes: seq<Byte>)
    requires ValidDisk(was) && ValidDisk(mid) && ExtentsGrow(was.extents, mid.extents)
    requires id in was.files && id in mid.files && mid.files[id] == was.files[id]
    requires forall i: nat :: i < |bytes| ==> bytes[i] == ByteAt(was.files[id], was.extents, from + i)
    ensures forall i: nat :: i < |bytes| ==> bytes[i] == ByteAt(mid.files[id], mid.extents, from + i)
  {
    forall i: nat | i < |bytes|
      ensures bytes[i] == ByteAt(mid.files[id], mid.extents, from + i)
    {
      SameInBoth(was, mid, id, from + i);
    }
  }

  lemma TailSame(was: Disk, mid: Disk, id: FileId, from: nat, temp: FileId, a: Address, bytes: seq<Byte>)
    requires TailContext(was, mid, id, from, temp, a, bytes)
    ensures id in mid.files && temp in mid.files
    ensures SameBytes(mid.extents, mid.files[temp], SECTORSIZE, |bytes|, mid.files[id], from)
    ensures TailExtent(was.extents, mid.extents, was.files[id], from, a)
  {
    TailMovable(was, mid, id, from, temp, a, bytes);
    AlignedSum(SECTORSIZE, 0);
    TailRead(was, mid, id, from, temp, a, bytes);
    TailBytes(mid.extents, mid.files[temp], mid.files[id], from, a, bytes);
  }

  lemma SameInBoth(was: Disk, mid: Disk, id: FileId, p: nat)
    requires ValidDisk(was) && ValidDisk(mid) && ExtentsGrow(was.extents, mid.extents)
    requires id in was.files && id in mid.files && mid.files[id] == was.files[id]
    ensures ByteAt(mid.files[id], mid.extents, p) == ByteAt(was.files[id], was.extents, p)
  {
  }

  /** What is left once a dedupe into the file is done and the temporary is closed. */
  lemma AfterDrop(mid: Disk, late: Disk, now: Disk, id: FileId, temp: FileId, f: FileState)
    requires id in mid.files && temp in mid.files && id != temp
    requires late == mid.(files := mid.files[id := f]) && now == Disk(late.files - {temp}, late.extents)
    ensures now.extents == mid.extents && now.files.Keys == mid.files.Keys - {temp} && now.files[id] == f
    ensures forall other :: other in mid.files && other != id && other != temp ==> now.files[other] == mid.files[other]
  {
  }

  lemma TailMoves(was: Disk, mid: Disk, now: Disk, id: FileId, from: nat, temp: FileId, a: Address,
                  bytes: seq<Byte>, chosen: set<nat>)
    requires TailContext(was, mid, id, from, temp, a, bytes) && ValidDisk(now)
    requires id in mid.files && temp in mid.files
    requires chosen <= Movable(mid.files[temp], SECTORSIZE, |bytes|, mid.files[id], from)
    requires now.extents == mid.extents && now.files.Keys == mid.files.Keys - {temp} && id in now.files
    requires now.files[id] == Repoint(mid.files[temp], SECTORSIZE, mid.files[id], from, chosen)
    requires forall other :: other in mid.files && other != id && other != temp ==> now.files[other] == mid.files[other]
    ensures TailRedirected(was, now, id, from, a, from in chosen)
  {
    TailMovable(was, mid, id, from, temp, a, bytes);
    TailSame(was, mid, id, from, temp, a, bytes);
    TailKept(was, mid, id, temp, a, bytes);
    TailRepointed(mid.files[temp], mid.files[id], from, a, chosen, from in chosen);
    OnlyTailMoved(was, mid, now, id, temp, a, bytes);
    TailAssembled(was, now, id, from, a, from in chosen);
  }

  lemma TailAssembled(was: Disk, now: Disk, id: FileId, from: nat, a: Address, moved: bool)
    requires ValidDisk(was) && ValidDisk(now) && ExtentsGrow(was.extents, now.extents)
    requires id in was.files && now.files.Keys == was.files.Keys
    requires forall other :: other in was.files && other != id ==> now.files[other] == was.files[other]
    requires TailFile(was.files[id], now.files[id], from, a, moved) && from <= was.files[id].size < from + SECTORSIZE
    requires ValidFile(was.files[id], now.extents)
    requires moved ==> TailExtent(was.extents, now.extents, was.files[id], from, a)
    ensures TailRedirected(was, now, id, from, a, moved)
  {
  }

  /** With the temporary gone, the other files are as they were. */
  lemma OnlyTailMoved(was: Disk, mid: Disk, now: Disk, id: FileId, temp: FileId, a: Address, bytes: seq<Byte>)
    requires TailStaged(was, mid, temp, a, bytes) && id in was.files && now.files.Keys == mid.files.Keys - {temp}
    requires forall other :: other in mid.files && other != id && other != temp ==> now.files[other] == mid.files[other]
    ensures now.files.Keys == was.files.Keys
    ensures forall other :: other in was.files && other != id ==> now.files[other] == was.files[other]
  {
  }

  lemma TailReport(was: Disk, mid: Disk, id: FileId, from: nat, temp: FileId, a: Address, bytes: seq<Byte>,
                   conduct: Conduct, r: Outcome<nat>)
    requires TailContext(was, mid, id, from, temp, a, bytes)
    requires id in mid.files && temp in mid.files
    requires ReportAllowed(Acceptable(mid.files[temp], SECTORSIZE, |bytes|, mid.files[id], from),
                           SameBytes(mid.extents, mid.files[temp], SECTORSIZE, |bytes|, mid.files[id], from),
                           |bytes|, conduct, r)
    ensures r.Err? ==> r.error.Io? && conduct != Exact
    ensures r.Ok? && conduct == Exact ==> r.value == |bytes|
  {
    TailMovable(was, mid, id, from, temp, a, bytes);
    TailSame(was, mid, id, from, temp, a, bytes);
  }

  /** A part of a sector is deduped all or not at all; a report of less is no fine call. */
  lemma PartNotFine(calls: seq<Call>, len: nat, n: nat)
    requires n < len < SECTORSIZE
    ensures !AllFine(calls + [Move(len, Ok(n))], |calls|)
  {
    var all := calls + [Move(len, Ok(n))];
    assert !Aligned(n) || n == 0;
    assert all[|calls|] == Move(len, Ok(n)) && !Fine(all[|calls|]);
  }

  lemma TailTold(calls: seq<Call>, now: seq<Call>, len: nat, conduct: Conduct, r: Outcome<nat>)
    requires len < SECTORSIZE && now == calls + [Move(len, r)]
    requires r.Err? ==> r.error.Io? && conduct != Exact
    requires r.Ok? && conduct == Exact ==> r.value == len
    ensures r.Err? ==> Explains(now, |calls|, r.error, conduct)
    ensures r.Ok? && r.value < len ==> conduct != Exact && !AllFine(now, |calls|)
  {
    assert now[|now| - 1] == Move(len, r);
    if r.Ok? && r.value < len {
      PartNotFine(calls, len, r.value);
    }
  }

  /** Part of a sector takes up one. */
  lemma OneSector(len: nat)
    requires 0 < len < SECTORSIZE
    ensures Ceil(len) == SECTORSIZE
  {
    CeilLeast(SECTORSIZE, len);
    AlignedSum(SECTORSIZE, 0);
    AlignedStep(0, Ceil(len));
  }

  /** Points the tail at a temporary that holds it, and closes the temporary. */
  method DedupeTail(fs: Filesystem, ghost was: Disk, id: FileId, from: nat, temp: FileId, ghost a: Address,
      bytes: seq<Byte>)
    returns (result: Outcome<()>, ghost moved: bool, ghost short: bool)
    requires TailContext(was, fs.disk, id, from, temp, a, bytes)
    modifies fs`disk, fs`calls
    ensures old(fs.calls) <= fs.calls
    ensures fs.disk.extents == old(fs.disk).extents
    ensures TailRedirected(was, fs.disk, id, from, a, moved)
    ensures result.Ok? && fs.conduct != Lying ==> moved == !short
    ensures short ==> fs.conduct != Exact && !AllFine(fs.calls, |old(fs.calls)|)
    ensures result.Err? ==> result.error.Io? && Explains(fs.calls, |old(fs.calls)|, result.error, fs.conduct)
  {
    ghost var mid := fs.disk;
    TailMovable(was, mid, id, from, temp, a, bytes);
    var deduped;
    ghost var chosen;
    deduped, chosen := fs.Dedupe(temp, SECTORSIZE, |bytes|, id, from);
    ghost var late := fs.disk;
    fs.Drop(temp);
    AfterDrop(mid, late, fs.disk, id, temp, late.files[id]);
    TailMoves(was, mid, fs.disk, id, from, temp, a, bytes, chosen);
    TailReport(was, mid, id, from, temp, a, bytes, fs.conduct, deduped);
    TailTold(old(fs.calls), fs.calls, |bytes|, fs.conduct, deduped);
    moved := from in chosen;
    short := deduped.Ok? && deduped.value < |bytes|;
    result := if deduped.Ok? then Ok(()) else Err(deduped.error);
  }

  /** Moves the sector at `from` to a fresh extent, or leaves it, as `moved` says; no
      error here is for differing bytes. The reported length is not looked at: `short`
      says that it was less than asked, and so that an honest kernel moved nothing. */
  method RedirectTail(fs: Filesystem, id: FileId, from: nat, size: nat)
    returns (result: Outcome<()>, ghost a: Address, ghost moved: bool, ghost short: bool)
    requires ValidDisk(fs.disk) && id in fs.disk.files && from in fs.disk.files[id].sectors
    requires size == fs.disk.files[id].size && from == Floor(size) && from < size
    modifies fs`disk, fs`calls
    ensures old(fs.calls) <= fs.calls
    ensures TailRedirected(old(fs.disk), fs.disk, id, from, a, moved)
    ensures result.Ok? ==> a !in old(fs.disk).extents && fs.disk.extents.Keys == old(fs.disk).extents.Keys + {a}
    ensures result.Ok? ==> |fs.disk.extents[a]| == SECTORSIZE
    ensures result.Ok? && fs.conduct != Lying ==> moved == !short
    ensures short ==> fs.conduct != Exact && !AllFine(fs.calls, |old(fs.calls)|)
    ensures result.Err? ==> result.error.Io? && Explains(fs.calls, |old(fs.calls)|, result.error, fs.conduct)
  {
    ghost var was := fs.disk;
    moved, short := false, false;
    var staged, bytes;
    staged, bytes, a := StageTail(fs, id, from, size);
    if staged.Err? {
      return Err(staged.error), a, moved, short;
    }
    result, moved, short := DedupeTail(fs, was, id, from, staged.value, a, bytes);
  }

  /** Reads the file from `from` to its end. */
  method ReadTail(fs: Filesystem, id: FileId, from: nat, size: nat) returns (r: Outcome<seq<Byte>>)
    requires ValidDisk(fs.disk) && id in fs.disk.files && size == fs.disk.files[id].size && from < size
    modifies fs`calls
    ensures old(fs.calls) <= fs.calls
    ensures r.Err? ==> r.error.Io? && Explains(fs.calls, |old(fs.calls)|, r.error, fs.conduct)
    ensures r.Ok? ==> |r.value| == size - from
    ensures r.Ok? ==> forall i: nat :: i < |r.value| ==>
              r.value[i] == ByteAt(fs.disk.files[id], fs.disk.extents, from + i)
  {
    var tail := new Byte[size - from];
    var read := fs.ReadExactAt(id, from, tail, 0, size - from);
    if read.Err? {
      return Err(read.error);
    }
    r := Ok(tail[..]);
  }

  /** Reads a tail and writes it to a temporary. */
  method StageTail(fs: Filesystem, id: FileId, from: nat, size: nat)
    returns (staged: Outcome<FileId>, bytes: seq<Byte>, ghost a: Address)
    requires ValidDisk(fs.disk) && id in fs.disk.files && from in fs.disk.files[id].sectors
    requires size == fs.disk.files[id].size && from == Floor(size) && from < size
    modifies fs`disk, fs`calls
    ensures old(fs.calls) <= fs.calls
    ensures staged.Err? ==> fs.disk == old(fs.disk)
    ensures staged.Err? ==> staged.error.Io? && Explains(fs.calls, |old(fs.calls)|, staged.error, fs.conduct)
    ensures staged.Ok? ==> |bytes| == size - from && a !in old(fs.disk).extents
    ensures staged.Ok? ==> TailContext(old(fs.disk), fs.disk, id, from, staged.value, a, bytes)
    ensures staged.Ok? ==> fs.disk.extents.Keys == old(fs.disk).extents.Keys + {a} && |fs.disk.extents[a]| == SECTORSIZE
  {
    ghost var was := fs.disk;
    a, bytes := 0, [];
    var tail := ReadTail(fs, id, from, size);
    if tail.Err? {
      return Err(tail.error), bytes, a;
    }
    bytes := tail.value;
    staged, a := fs.Stage(bytes);
    if staged.Ok? {
      OneSector(size - from);
      TailKept(was, fs.disk, id, staged.value, a, bytes);
      TailReady(was, fs.disk, id, from, staged.value, a, bytes);
    }
  }

  lemma TailReady(was: Disk, mid: Disk, id: FileId, from: nat, temp: FileId, a: Address, bytes: seq<Byte>)
    requires ValidDisk(was) && ValidDisk(mid) && TailStaged(was, mid, temp, a, bytes)
    requires id in was.files && from in was.files[id].sectors && from == Floor(was.files[id].size)
    requires from + |bytes| == was.files[id].size && 0 < |bytes|
    requires forall i: nat :: i < |bytes| ==> bytes[i] == ByteAt(was.files[id], was.extents, from + i)
    ensures TailContext(was, mid, id, from, temp, a, bytes)
  {
  }

  // ----- A tail dedupe that stops short -----

  /** An honest kernel may report any less than was asked, having moved nothing, and
      the caller that does not look is none the wiser. */
  lemma ShortTailKept(was: Disk, mid: Disk, id: FileId, from: nat, temp: FileId, a: Address, bytes: seq<Byte>, n: nat)
    requires TailContext(was, mid, id, from, temp, a, bytes) && n < |bytes|
    ensures id in mid.files && temp in mid.files
    ensures Deduped(mid, mid, temp, SECTORSIZE, |bytes|, id, from, Honest, Ok(n), {})
  {
    TailMovable(was, mid, id, from, temp, a, bytes);
    TailSame(was, mid, id, from, temp, a, bytes);
    RepointNothing(mid, mid.files[temp], SECTORSIZE, id, from);
    assert WholeSectors(from, n) <= WholeSectors(from, |bytes|);
  }

  /** One byte of a file, one sector of an extent, and the holder still holds it after
      an honest dedupe that reports none of that byte. */
  lemma ShortTailHappens() returns (was: Disk, mid: Disk, id: FileId, temp: FileId, x: Address)
    requires 1 < SECTORSIZE
    ensures ValidDisk(mid) && id in mid.files && temp in mid.files && mid.files[id].size == 1
    ensures Deduped(mid, mid, temp, SECTORSIZE, 1, id, 0, Honest, Ok(0), {})
    ensures Holds(mid.files[id], x)
  {
    id, temp, x := Inode(5, 257), Temp(0), 0;
    var zeros := seq(SECTORSIZE, _ => 0 as Byte);
    was := Disk(map[id := FileState(1, 0, map[0 := Loc(x, 0)])], map[x := zeros]);
    var bytes: seq<Byte> := [0];
    mid := Disk(was.files[temp := TempFile(1, 1, 0)], was.extents[1 := Padded(bytes)]);
    TempFileValid(1, bytes, 0, mid.extents);
    FloorIs(0, 1);
    assert ValidFile(was.files[id], was.extents) && ValidFile(was.files[id], mid.extents);
    assert TailStaged(was, mid, temp, 1, bytes);
    assert ByteAt(was.files[id], was.extents, 0) == 0;
    ShortTailKept(was, mid, id, 0, temp, 1, bytes, 0);
    assert mid.files[id].sectors[0].extent == x;
  }
}
