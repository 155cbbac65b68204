/** Pointing a holder's sectors at a staged copy. */
module Redirect {
  import opened Sectors
  import opened Wrappers
  import opened Extents
  import opened Disks
  import opened Kernel
  import opened Planning

  /** Where the sectors of an extent go, by their offset in it. */
  type Table = map<nat, Loc>

  /** A sector of extent `x` that a dedupe from the copies in `table` can move:
      one the table holds, lying wholly inside the file. */
  predicate Eligible(f: FileState, x: Address, table: Table, s: nat) {
    && s in f.sectors && f.sectors[s].extent == x && f.sectors[s].offset in table
    && s + SECTORSIZE <= f.size
  }

  /** `now` is `was` with eligible sectors moved to where `table` says: some of
      them, or all if `complete`. Nothing else differs. */
  ghost predicate Relocated(was: FileState, now: FileState, x: Address, table: Table, complete: bool) {
    && now.size == was.size && now.modified == was.modified
    && now.sectors.Keys == was.sectors.Keys
    && (forall s: nat :: s in was.sectors ==>
          || now.sectors[s] == was.sectors[s]
          || (Eligible(was, x, table, s) && now.sectors[s] == table[was.sectors[s].offset]))
    && (complete ==> forall s: nat :: Eligible(was, x, table, s) ==> now.sectors[s] == table[was.sectors[s].offset])
  }

  /** Where a staged copy puts its sectors. */
  function CopyTable(copy: LiveRange, extent: Address): Table {
    map e: nat | copy.start <= e < copy.end && Aligned(e) :: Loc(extent, e - copy.start)
  }

  /** The extent offset of the file's sector at `s`, going by the reference. */
  function OffsetOf(r: ExtentRef, s: nat): nat
    requires r.fileOffset <= s
  {
    r.extentOffset + (s - r.fileOffset)
  }

  /** The reference is true of the sectors that fall in the copy. */
  ghost predicate RefTrueIn(f: FileState, x: Address, r: ExtentRef, copy: LiveRange) {
    && ValidRef(r)
    && (forall s: nat :: InRef(r, s) && copy.Holds(OffsetOf(r, s)) ==>
          s in f.sectors && f.sectors[s] == Loc(x, OffsetOf(r, s)))
    && forall s: nat :: InRef(r, s) && s in f.sectors && f.sectors[s].extent == x ==>
         f.sectors[s].offset == OffsetOf(r, s)
  }

  ghost predicate Backed(refs: seq<ExtentRef>, s: nat) {
    exists r :: r in refs && InRef(r, s)
  }

  /** The references are all the file's sectors of extent `x` that fall in the copy. */
  ghost predicate DescribesIn(f: FileState, x: Address, refs: seq<ExtentRef>, copy: LiveRange) {
    && (forall r :: r in refs ==> RefTrueIn(f, x, r, copy))
    && (forall s: nat :: s in f.sectors && f.sectors[s].extent == x && copy.Holds(f.sectors[s].offset) ==>
      Backed(refs, s))
  }

  /** Temporary `g` holds the copy one sector in, in extent `a`. */
  ghost predicate TempHolds(g: FileState, a: Address, copy: LiveRange) {
    forall e: nat :: copy.Holds(e) && Aligned(SourceOffset(copy, e)) ==>
      SourceOffset(copy, e) in g.sectors && g.sectors[SourceOffset(copy, e)] == Loc(a, e - copy.start)
  }

  /** The copy is staged in extent `a`, and temporary `g` holds it. */
  ghost predicate Staged(extents: Disks.Extents, g: FileState, a: Address, copy: LiveRange, x: Address) {
    && x in extents && a in extents && a != x
    && ValidCopy(copy, extents[x]) && extents[a] == copy.bytes
    && g.size == SECTORSIZE + |copy.bytes|
    && TempHolds(g, a, copy)
    && ValidFile(g, extents)
  }

  /** One call to dedupe: `len` bytes from where the cursor is at `at` in the extent. */
  ghost predicate Chunk(f: FileState, r: ExtentRef, copy: LiveRange, at: nat, len: nat) {
    && copy.start <= at && r.extentOffset <= at
    && at + len <= copy.end && at + len <= r.ExtentEnd()
    && r.fileOffset + (at - r.extentOffset) + len <= f.size
  }

  /** The offset in the temporary of what belongs at `at`. */
  function SourceOffset(copy: LiveRange, at: nat): nat
    requires copy.start <= at
  {
    SECTORSIZE + at - copy.start
  }

  function Cursor(r: ExtentRef, at: nat): nat
    requires r.extentOffset <= at
  {
    r.fileOffset + (at - r.extentOffset)
  }

  /** Offsets line up: the cursor's sectors match the temporary's, sector by sector. */
  lemma ChunkSector(f: FileState, x: Address, r: ExtentRef, copy: LiveRange, at: nat, len: nat, s: nat)
    requires RefTrueIn(f, x, r, copy) && Chunk(f, r, copy, at, len)
    requires Aligned(at) && Aligned(copy.start) && Aligned(s) && Cursor(r, at) <= s < Cursor(r, at) + len
    ensures Aligned(Cursor(r, at)) && Aligned(SourceOffset(copy, at))
    ensures s in f.sectors && f.sectors[s] == Loc(x, at + (s - Cursor(r, at)))
    ensures Aligned(at + (s - Cursor(r, at)))
    ensures Aligned(SourceOffset(copy, at) + (s - Cursor(r, at)))
  {
    CursorAligned(r, copy, at);
    AlignedDifference(Cursor(r, at), s);
    AlignedSum(at, s - Cursor(r, at));
    AlignedSum(SourceOffset(copy, at), s - Cursor(r, at));
    assert InRef(r, s) && OffsetOf(r, s) == at + (s - Cursor(r, at));
  }

  lemma CursorAligned(r: ExtentRef, copy: LiveRange, at: nat)
    requires ValidRef(r) && Aligned(at) && Aligned(copy.start)
    requires copy.start <= at && r.extentOffset <= at
    ensures Aligned(Cursor(r, at)) && Aligned(SourceOffset(copy, at))
  {
    AlignedDifference(r.extentOffset, at);
    AlignedSum(r.fileOffset, at - r.extentOffset);
    AlignedDifference(copy.start, at);
    AlignedSum(SECTORSIZE, at - copy.start);
  }

  /** The temporary's sector that matches the file's sector at `s`. */
  lemma ChunkSource(g: FileState, a: Address, f: FileState, x: Address, r: ExtentRef, copy: LiveRange,
                    at: nat, len: nat, s: nat)
    requires TempHolds(g, a, copy)
    requires RefTrueIn(f, x, r, copy) && Chunk(f, r, copy, at, len)
    requires Aligned(at) && Aligned(copy.start) && Aligned(s) && Cursor(r, at) <= s < Cursor(r, at) + len
    ensures var source := SourceOffset(copy, at) + (s - Cursor(r, at));
      && Aligned(source) && source in g.sectors
      && s in f.sectors && f.sectors[s].extent == x && f.sectors[s].offset in CopyTable(copy, a)
      && g.sectors[source] == CopyTable(copy, a)[f.sectors[s].offset]
  {
    ChunkSector(f, x, r, copy, at, len, s);
    assert SourceOffset(copy, at + (s - Cursor(r, at))) == SourceOffset(copy, at) + (s - Cursor(r, at));
  }

  /** Which sector of each file byte `i` of a chunk is in. */
  lemma ChunkPlaces(f: FileState, cur: FileState, g: FileState, a: Address, x: Address, r: ExtentRef, copy: LiveRange,
                    at: nat, len: nat, i: nat)
    returns (s: nat, e: nat, within: nat)
    requires TempHolds(g, a, copy) && RefTrueIn(f, x, r, copy) && Relocated(f, cur, x, CopyTable(copy, a), false)
    requires Chunk(f, r, copy, at, len) && Aligned(at) && Aligned(copy.start) && i < len
    ensures s + within == Cursor(r, at) + i && e + within == at + i && within < SECTORSIZE
    ensures copy.start <= e && Aligned(s) && Aligned(SourceOffset(copy, e))
    ensures SourceOffset(copy, e) in g.sectors && g.sectors[SourceOffset(copy, e)] == Loc(a, e - copy.start)
    ensures s in cur.sectors && (cur.sectors[s] == Loc(x, e) || cur.sectors[s] == Loc(a, e - copy.start))
  {
    CursorAligned(r, copy, at);
    s := Floor(Cursor(r, at) + i);
    FloorGreatest(Cursor(r, at), Cursor(r, at) + i);
    e := at + (s - Cursor(r, at));
    within := Cursor(r, at) + i - s;
    ChunkSector(f, x, r, copy, at, len, s);
    ChunkSource(g, a, f, x, r, copy, at, len, s);
  }

  /** A staged byte is the extent's own. */
  lemma SameByCopy(extents: Disks.Extents, copy: LiveRange, a: Address, x: Address, e: nat, i: nat)
    requires x in extents && a in extents && ValidCopy(copy, extents[x]) && extents[a] == copy.bytes
    requires copy.start <= e && e + i < copy.end
    ensures extents[a][e - copy.start + i] == extents[x][e + i]
  {
  }

  /** So the sector at `e` reads the same in the extent and in the copy. */
  lemma ChunkAt(extents: Disks.Extents, copy: LiveRange, a: Address, x: Address, e: nat, i: nat, l: Loc)
    requires x in extents && a in extents && ValidCopy(copy, extents[x]) && extents[a] == copy.bytes
    requires copy.start <= e && e + i < copy.end && i < SECTORSIZE
    requires l == Loc(x, e) || l == Loc(a, e - copy.start)
    requires ValidLoc(l, extents) && ValidLoc(Loc(a, e - copy.start), extents)
    ensures At(extents, l, i) == At(extents, Loc(a, e - copy.start), i)
  {
    SameByCopy(extents, copy, a, x, e, i);
  }

  lemma ChunkByte(extents: Disks.Extents, cur: FileState, g: FileState, a: Address, x: Address, copy: LiveRange,
                  s: nat, e: nat, within: nat, source: nat, cursor: nat, i: nat)
    requires ValidFile(cur, extents) && ValidFile(g, extents)
    requires x in extents && a in extents && ValidCopy(copy, extents[x]) && extents[a] == copy.bytes
    requires copy.start <= e && e + within < copy.end && within < SECTORSIZE
    requires cursor + i == s + within && source + i == SourceOffset(copy, e) + within
    requires Aligned(s) && Aligned(SourceOffset(copy, e))
    requires SourceOffset(copy, e) in g.sectors && g.sectors[SourceOffset(copy, e)] == Loc(a, e - copy.start)
    requires s in cur.sectors && (cur.sectors[s] == Loc(x, e) || cur.sectors[s] == Loc(a, e - copy.start))
    ensures SameByte(extents, g, source, cur, cursor, i)
  {
    SectorByte(g, extents, SourceOffset(copy, e), within);
    SectorByte(cur, extents, s, within);
    ChunkAt(extents, copy, a, x, e, within, cur.sectors[s]);
  }

  /** The temporary holds at the source offset the bytes the file holds at the
      cursor, whether or not the file's sector has moved. */
  lemma ChunkBytes(extents: Disks.Extents, f: FileState, cur: FileState, g: FileState, a: Address, x: Address,
      r: ExtentRef, copy: LiveRange, at: nat, len: nat)
    requires ValidFile(cur, extents) && Staged(extents, g, a, copy, x)
    requires RefTrueIn(f, x, r, copy) && Chunk(f, r, copy, at, len) && Aligned(at)
    requires Relocated(f, cur, x, CopyTable(copy, a), false)
    ensures SameBytes(extents, g, SourceOffset(copy, at), len, cur, Cursor(r, at))
  {
    var source, cursor := SourceOffset(copy, at), Cursor(r, at);
    forall i: nat | i < len
      ensures SameByte(extents, g, source, cur, cursor, i)
    {
      var s, e, within := ChunkPlaces(f, cur, g, a, x, r, copy, at, len, i);
      ChunkByte(extents, cur, g, a, x, copy, s, e, within, source, cursor, i);
    }
  }

  /** Whatever byte the cursor is at, the temporary holds at the source offset what
      the file holds there: the sector it is in lines up, and so the byte does. */
  lemma ChunkAnywhere(extents: Disks.Extents, f: FileState, cur: FileState, g: FileState, a: Address, x: Address,
                      r: ExtentRef, copy: LiveRange, low: nat, at: nat, len: nat)
    requires ValidFile(cur, extents) && Staged(extents, g, a, copy, x)
    requires RefTrueIn(f, x, r, copy) && Relocated(f, cur, x, CopyTable(copy, a), false)
    requires Aligned(low) && low <= at && Chunk(f, r, copy, low, len + (at - low))
    ensures SameBytes(extents, g, SourceOffset(copy, at), len, cur, Cursor(r, at))
  {
    ChunkBytes(extents, f, cur, g, a, x, r, copy, low, len + (at - low));
    SameFurtherOn(extents, g, SourceOffset(copy, low), SourceOffset(copy, at), cur, Cursor(r, low), Cursor(r, at), len,
                  at - low);
  }

  /** The chunk that starts where the cursor's sector does is one as well. */
  lemma ChunkLow(f: FileState, r: ExtentRef, copy: LiveRange, at: nat, len: nat)
    requires Aligned(r.extentOffset) && Aligned(copy.start) && Chunk(f, r, copy, at, len)
    ensures r.extentOffset <= Floor(at) && copy.start <= Floor(at)
    ensures Chunk(f, r, copy, Floor(at), len + (at - Floor(at)))
  {
    FloorGreatest(r.extentOffset, at);
    FloorGreatest(copy.start, at);
  }

  /** What matches from one place on matches from any place after it. */
  lemma SameFurtherOn(extents: Disks.Extents, g: FileState, source: nat, laterSource: nat, f: FileState, cursor: nat,
                      laterCursor: nat, len: nat, on: nat)
    requires ValidFile(g, extents) && ValidFile(f, extents)
    requires laterSource == source + on && laterCursor == cursor + on
    requires SameBytes(extents, g, source, len + on, f, cursor)
    ensures SameBytes(extents, g, laterSource, len, f, laterCursor)
  {
    forall i: nat | i < len
      ensures SameByte(extents, g, laterSource, f, laterCursor, i)
    {
      assert SameByte(extents, g, source, f, cursor, on + i);
    }
  }

  /** The temporary's matching sector is where the table says. */
  ghost predicate Supplies(g: FileState, source: nat, cursor: nat, f: FileState, x: Address, table: Table, s: nat) {
    && cursor <= s && source + s - cursor in g.sectors
    && Eligible(f, x, table, s)
    && g.sectors[source + s - cursor] == table[f.sectors[s].offset]
  }

  lemma RepointRelocates(f: FileState, cur: FileState, g: FileState, source: nat, cursor: nat, x: Address, table: Table,
                         moved: set<nat>)
    requires Relocated(f, cur, x, table, false)
    requires forall s :: s in moved ==> Supplies(g, source, cursor, f, x, table, s)
    ensures var next := Repoint(g, source, cur, cursor, moved);
      && Relocated(f, next, x, table, false)
      && (forall s: nat :: s in moved ==>
            Eligible(f, x, table, s) && s in next.sectors && next.sectors[s] == table[f.sectors[s].offset])
      && (forall s: nat :: s in f.sectors && s !in moved ==> next.sectors[s] == cur.sectors[s])
  {
    var next := Repoint(g, source, cur, cursor, moved);
    assert next.sectors.Keys == f.sectors.Keys;
  }

  /** A dedupe moves sectors only to where the table says. */
  lemma ChunkMoves(f: FileState, g: FileState, a: Address, x: Address, r: ExtentRef, copy: LiveRange,
                   at: nat, len: nat, moved: set<nat>)
    requires Aligned(copy.start) && TempHolds(g, a, copy)
    requires RefTrueIn(f, x, r, copy) && Chunk(f, r, copy, at, len) && Aligned(at)
    requires moved <= WholeSectors(Cursor(r, at), len)
    ensures forall s :: s in moved ==>
              Supplies(g, SourceOffset(copy, at), Cursor(r, at), f, x, CopyTable(copy, a), s)
  {
    forall s | s in moved
      ensures Supplies(g, SourceOffset(copy, at), Cursor(r, at), f, x, CopyTable(copy, a), s)
    {
      ChunkSource(g, a, f, x, r, copy, at, len, s);
    }
  }

  ghost predicate Moved(f: FileState, cur: FileState, table: Table, s: nat) {
    && s in f.sectors && s in cur.sectors && f.sectors[s].offset in table
    && cur.sectors[s] == table[f.sectors[s].offset]
  }

  /** Every sector of the reference that can move, and ends by `at` in the extent, has. */
  ghost predicate MovedBelow(f: FileState, cur: FileState, x: Address, table: Table, r: ExtentRef, at: nat) {
    forall s: nat :: InRef(r, s) && Eligible(f, x, table, s) && OffsetOf(r, s) + SECTORSIZE <= at ==>
      Moved(f, cur, table, s)
  }

  lemma OffsetAligned(r: ExtentRef, s: nat)
    requires ValidRef(r) && InRef(r, s)
    ensures Aligned(OffsetOf(r, s))
  {
    AlignedDifference(r.fileOffset, s);
    AlignedSum(r.extentOffset, s - r.fileOffset);
  }

  function Max(a: nat, b: nat): nat {
    if a <= b then b else a
  }

  lemma BoundsAligned(r: ExtentRef, copy: LiveRange)
    requires ValidRef(r) && Aligned(copy.start) && Aligned(copy.end)
    ensures Aligned(Max(r.extentOffset, copy.start)) && Aligned(Min(r.ExtentEnd(), copy.end)) && Aligned(r.FileEnd())
  {
    AlignedSum(r.extentOffset, r.numBytes);
    AlignedSum(r.fileOffset, r.numBytes);
  }

  /** A call made with the cursor on a sector boundary is one the kernel takes,
      and ends short of the temporary's end wherever it ends mid-sector. */
  lemma ChunkAcceptable(g: FileState, r: ExtentRef, copy: LiveRange, cur: FileState, at: nat, len: nat)
    requires ValidRef(r) && Aligned(copy.start) && Aligned(copy.end) && Aligned(at)
    requires g.size == SECTORSIZE + (copy.end - copy.start)
    requires Max(r.extentOffset, copy.start) <= at < Min(r.ExtentEnd(), copy.end)
    requires Cursor(r, at) < Min(r.FileEnd(), cur.size)
    requires len == Min(Min(r.ExtentEnd(), copy.end) - at, Min(r.FileEnd(), cur.size) - Cursor(r, at))
    ensures Chunk(cur, r, copy, at, len) && 0 < len
    ensures Acceptable(g, SourceOffset(copy, at), len, cur, Cursor(r, at))
    ensures TailSector(g, SourceOffset(copy, at), len, cur, Cursor(r, at)) == {}
    ensures Aligned(at + len) || Min(r.FileEnd(), cur.size) <= Cursor(r, at + len)
  {
    CursorAligned(r, copy, at);
    BoundsAligned(r, copy);
    AlignedSum(at, len);
    AlignedSum(Cursor(r, at), len);
    if at + len == copy.end {
      AlignedSum(at, len);
    }
  }

  lemma UnalignedSource(copy: LiveRange, at: nat)
    requires Aligned(copy.start) && copy.start <= at
    ensures Aligned(SourceOffset(copy, at)) ==> Aligned(at)
  {
    AlignedSum(SECTORSIZE, at - copy.start);
    AlignedSum(copy.start, at - copy.start);
  }

  /** Nothing of the reference lies below where its first call starts. */
  lemma NothingBelow(f: FileState, cur: FileState, x: Address, r: ExtentRef, copy: LiveRange, a: Address)
    requires RefTrueIn(f, x, r, copy)
    ensures MovedBelow(f, cur, x, CopyTable(copy, a), r, Max(r.extentOffset, copy.start))
  {
  }

  /** An honest dedupe takes the boundary of what has moved forward by what it reports. */
  lemma BoundaryMoves(f: FileState, cur: FileState, next: FileState, x: Address, table: Table, r: ExtentRef,
                      at: nat, n: nat, moved: set<nat>)
    requires ValidRef(r) && Aligned(at) && r.extentOffset <= at
    requires MovedBelow(f, cur, x, table, r, at) && moved == WholeSectors(Cursor(r, at), n)
    requires forall s: nat :: s in moved ==> Moved(f, next, table, s)
    requires next.sectors.Keys == cur.sectors.Keys
    requires forall s: nat :: s in cur.sectors && s !in moved ==> next.sectors[s] == cur.sectors[s]
    ensures MovedBelow(f, next, x, table, r, at + n)
  {
    forall s: nat | InRef(r, s) && Eligible(f, x, table, s) && OffsetOf(r, s) + SECTORSIZE <= at + n
      ensures Moved(f, next, table, s)
    {
      OffsetAligned(r, s);
      if OffsetOf(r, s) < at {
        AlignedStep(OffsetOf(r, s), at);
        assert Moved(f, cur, table, s);
      } else {
        assert s in moved;
      }
    }
  }

  /** Where the loop stops, the whole reference is done. */
  lemma AllBelow(f: FileState, cur: FileState, x: Address, r: ExtentRef, copy: LiveRange, a: Address, at: nat)
    requires RefTrueIn(f, x, r, copy) && Aligned(copy.start) && Aligned(copy.end)
    requires r.extentOffset <= at
    requires Min(r.ExtentEnd(), copy.end) <= at || Min(r.FileEnd(), f.size) <= Cursor(r, at)
    requires MovedBelow(f, cur, x, CopyTable(copy, a), r, at)
    ensures forall s: nat :: InRef(r, s) && Eligible(f, x, CopyTable(copy, a), s) ==>
      Moved(f, cur, CopyTable(copy, a), s)
  {
    forall s: nat | InRef(r, s) && Eligible(f, x, CopyTable(copy, a), s)
      ensures Moved(f, cur, CopyTable(copy, a), s)
    {
      OffsetAligned(r, s);
      BoundsAligned(r, copy);
      AlignedStep(OffsetOf(r, s), Min(r.ExtentEnd(), copy.end));
      AlignedStep(s, r.FileEnd());
    }
  }

  /** Nothing but the one file differs. */
  ghost predicate OnlyFile(was: Disk, now: Disk, id: FileId) {
    && id in was.files && id in now.files
    && now == was.(files := was.files[id := now.files[id]])
  }

  /** Pointing file `id` at the copy of extent `x` that `temp` holds in extent
      `a`. `was` is the file as it was before any of it moved there. */
  datatype Job = Job(id: FileId, was: FileState, x: Address, temp: FileId, a: Address, copy: LiveRange)
  {
    function Destination(): Table { CopyTable(copy, a) }

    ghost predicate For(id: FileId, temp: FileId, copy: LiveRange) {
      this.id == id && this.temp == temp && this.copy == copy
    }
  }

  /** What holds of the filesystem at every step of a job. */
  ghost predicate Working(d: Disk, job: Job) {
    && ValidDisk(d)
    && job.id in d.files && job.temp in d.files && job.id != job.temp
    && Staged(d.extents, d.files[job.temp], job.a, job.copy, job.x)
    && Relocated(job.was, d.files[job.id], job.x, job.Destination(), false)
  }

  ghost predicate HasMoved(d: Disk, job: Job, s: nat)
    requires job.id in d.files
  {
    Moved(job.was, d.files[job.id], job.Destination(), s)
  }

  ghost predicate HasMovedBelow(d: Disk, job: Job, r: ExtentRef, at: nat)
    requires job.id in d.files
  {
    MovedBelow(job.was, d.files[job.id], job.x, job.Destination(), r, at)
  }

  /** What a job does to the filesystem: it changes its one file, and takes back
      nothing it has moved. */
  ghost predicate Advances(was: Disk, now: Disk, job: Job) {
    && Working(now, job)
    && OnlyFile(was, now, job.id)
    && forall s: nat :: HasMoved(was, job, s) ==> HasMoved(now, job, s)
  }

  lemma AdvancesTrans(a: Disk, b: Disk, c: Disk, job: Job)
    requires Advances(a, b, job) && Advances(b, c, job)
    ensures Advances(a, c, job)
  {
  }

  /** The call the loop makes with its cursor at `at`. */
  ghost predicate Call(job: Job, r: ExtentRef, at: nat, len: nat) {
    && RefTrueIn(job.was, job.x, r, job.copy)
    && Max(r.extentOffset, job.copy.start) <= at < Min(r.ExtentEnd(), job.copy.end)
    && Cursor(r, at) < Min(r.FileEnd(), job.was.size)
    && len == Min(Min(r.ExtentEnd(), job.copy.end) - at, Min(r.FileEnd(), job.was.size) - Cursor(r, at))
  }

  /** At every iteration, wherever the last dedupe stopped, offsets line up: the two
      ranges a call names hold the same bytes. */
  lemma LinesUp(d: Disk, job: Job, r: ExtentRef, at: nat, len: nat)
    requires Working(d, job) && Call(job, r, at, len)
    ensures SameBytes(d.extents, d.files[job.temp], SourceOffset(job.copy, at), len, d.files[job.id], Cursor(r, at))
  {
    ChunkLow(job.was, r, job.copy, at, len);
    ChunkAnywhere(d.extents, job.was, d.files[job.id], d.files[job.temp], job.a, job.x, r, job.copy, Floor(at), at,
      len);
  }

  /** The kernel takes a call exactly if its cursor is on a sector boundary. */
  lemma CallTaken(d: Disk, job: Job, r: ExtentRef, at: nat, len: nat)
    requires Working(d, job) && Call(job, r, at, len)
    ensures Acceptable(d.files[job.temp], SourceOffset(job.copy, at), len, d.files[job.id], Cursor(r, at)) <==>
      Aligned(at)
  {
    if Aligned(at) {
      CallAccepted(d, job, r, at, len);
    } else {
      UnalignedSource(job.copy, at);
    }
  }

  /** From an aligned cursor the range is acceptable and has no `TailSector`, and the
      next cursor is aligned or past everything to be done. */
  lemma CallAccepted(d: Disk, job: Job, r: ExtentRef, at: nat, len: nat)
    requires Working(d, job) && Call(job, r, at, len) && Aligned(at)
    ensures Acceptable(d.files[job.temp], SourceOffset(job.copy, at), len, d.files[job.id], Cursor(r, at))
    ensures TailSector(d.files[job.temp], SourceOffset(job.copy, at), len, d.files[job.id], Cursor(r, at)) == {}
    ensures Chunk(job.was, r, job.copy, at, len) && 0 < len
    ensures Aligned(at + len) || Min(r.FileEnd(), job.was.size) <= Cursor(r, at + len)
  {
    ChunkAcceptable(d.files[job.temp], r, job.copy, d.files[job.id], at, len);
  }

  lemma CallMoves(was: Disk, now: Disk, job: Job, r: ExtentRef, at: nat, len: nat, moved: set<nat>)
    requires Working(was, job) && ValidDisk(now) && Call(job, r, at, len) && Aligned(at)
    requires moved <= Movable(was.files[job.temp], SourceOffset(job.copy, at), len, was.files[job.id], Cursor(r, at))
    requires now == was.(files := was.files[job.id := Repoint(was.files[job.temp], SourceOffset(job.copy, at),
                                                              was.files[job.id], Cursor(r, at), moved)])
    ensures Advances(was, now, job)
    ensures forall s: nat :: s in moved ==> HasMoved(now, job, s)
    ensures forall s: nat :: s in was.files[job.id].sectors && s !in moved ==>
              now.files[job.id].sectors[s] == was.files[job.id].sectors[s]
  {
    CallAccepted(was, job, r, at, len);
    ChunkStep(was.extents, job.was, was.files[job.id], now.files[job.id], was.files[job.temp], job.a, job.x, r,
      job.copy, at, len, moved);
    forall s: nat | HasMoved(was, job, s)
      ensures HasMoved(now, job, s)
    {
      if s !in moved {
        assert now.files[job.id].sectors[s] == was.files[job.id].sectors[s];
      }
    }
  }

  /** One step of the loop: what holds of the file after a dedupe. */
  lemma ChunkStep(extents: Disks.Extents, f: FileState, cur: FileState, next: FileState, g: FileState, a: Address,
      x: Address, r: ExtentRef, copy: LiveRange, at: nat, len: nat, moved: set<nat>)
    requires Staged(extents, g, a, copy, x) && RefTrueIn(f, x, r, copy)
    requires Relocated(f, cur, x, CopyTable(copy, a), false)
    requires Chunk(f, r, copy, at, len) && Aligned(at)
    requires moved <= WholeSectors(Cursor(r, at), len)
    requires next == Repoint(g, SourceOffset(copy, at), cur, Cursor(r, at), moved)
    ensures Relocated(f, next, x, CopyTable(copy, a), false)
    ensures forall s: nat :: s in moved ==> Moved(f, next, CopyTable(copy, a), s)
    ensures forall s: nat :: s in cur.sectors && s !in moved ==> next.sectors[s] == cur.sectors[s]
  {
    ChunkMoves(f, g, a, x, r, copy, at, len, moved);
    RepointRelocates(f, cur, g, SourceOffset(copy, at), Cursor(r, at), x, CopyTable(copy, a), moved);
  }

  /** An honest call takes the boundary of what has moved forward by what it reports. */
  lemma CallDone(was: Disk, now: Disk, job: Job, r: ExtentRef, at: nat, len: nat, n: nat, moved: set<nat>)
    requires Working(was, job) && ValidDisk(now) && Call(job, r, at, len) && Aligned(at)
    requires moved <= Movable(was.files[job.temp], SourceOffset(job.copy, at), len, was.files[job.id], Cursor(r, at))
    requires now == was.(files := was.files[job.id := Repoint(was.files[job.temp], SourceOffset(job.copy, at),
                                                              was.files[job.id], Cursor(r, at), moved)])
    requires moved == MovedBy(was.files[job.temp], SourceOffset(job.copy, at), len, was.files[job.id], Cursor(r, at), n)
    requires HasMovedBelow(was, job, r, at)
    ensures HasMovedBelow(now, job, r, at + n)
  {
    CallAccepted(was, job, r, at, len);
    assert moved == WholeSectors(Cursor(r, at), n);
    CallMoves(was, now, job, r, at, len, moved);
    BoundaryMoves(job.was, was.files[job.id], now.files[job.id], job.x, job.Destination(), r, at, n, moved);
  }

  /** What the loop learns from one call. */
  ghost predicate Reported(job: Job, r: ExtentRef, at: nat, conduct: Conduct, deduped: Outcome<nat>)
    requires r.extentOffset <= at
  {
    match deduped
    case Ok(n) =>
      && Aligned(at)
      && (conduct == Exact ==> 0 < n && (Aligned(at + n) || Min(r.FileEnd(), job.was.size) <= Cursor(r, at + n)))
    case Err(e) =>
      || (e.Io? && conduct != Exact)
      || (e.Misaligned? && !Aligned(at))
  }

  lemma CallAdvances(was: Disk, now: Disk, job: Job, r: ExtentRef, at: nat, len: nat, conduct: Conduct,
                     deduped: Outcome<nat>, moved: set<nat>)
    requires Working(was, job) && ValidDisk(now) && Call(job, r, at, len)
    requires Deduped(was, now, job.temp, SourceOffset(job.copy, at), len, job.id, Cursor(r, at), conduct, deduped,
      moved)
    ensures Advances(was, now, job)
  {
    if Aligned(at) {
      CallMoves(was, now, job, r, at, len, moved);
    } else {
      UnalignedSource(job.copy, at);
      RepointNothing(was, was.files[job.temp], SourceOffset(job.copy, at), job.id, Cursor(r, at));
    }
  }

  /** A dedupe the loop makes is never refused for differing bytes. */
  lemma CallReports(d: Disk, job: Job, r: ExtentRef, at: nat, len: nat, conduct: Conduct, deduped: Outcome<nat>)
    requires Working(d, job) && Call(job, r, at, len)
    requires ReportAllowed(
               Acceptable(d.files[job.temp], SourceOffset(job.copy, at), len, d.files[job.id], Cursor(r, at)),
               SameBytes(d.extents, d.files[job.temp], SourceOffset(job.copy, at), len, d.files[job.id], Cursor(r, at)),
               len, conduct, deduped)
    ensures Reported(job, r, at, conduct, deduped)
  {
    LinesUp(d, job, r, at, len);
    CallTaken(d, job, r, at, len);
    ReportMeans(job, r, at, len, conduct, deduped);
  }

  /** What a report says of a call whose bytes match, and that is taken if it is aligned. */
  lemma ReportMeans(job: Job, r: ExtentRef, at: nat, len: nat, conduct: Conduct, deduped: Outcome<nat>)
    requires Call(job, r, at, len) && Aligned(job.copy.start) && Aligned(job.copy.end)
    requires ReportAllowed(Aligned(at), true, len, conduct, deduped)
    ensures Reported(job, r, at, conduct, deduped)
  {
    if Aligned(at) {
      CallEnds(job, r, at, len);
    }
  }

  lemma CallEnds(job: Job, r: ExtentRef, at: nat, len: nat)
    requires Call(job, r, at, len) && Aligned(at) && Aligned(job.copy.start) && Aligned(job.copy.end)
    ensures 0 < len && (Aligned(at + len) || Min(r.FileEnd(), job.was.size) <= Cursor(r, at + len))
  {
    BoundsAligned(r, job.copy);
  }

  /** How far the loop has come with its cursor at `at`. */
  ghost predicate Going(d: Disk, job: Job, r: ExtentRef, at: nat, conduct: Conduct)
    requires job.id in d.files
  {
    && Max(r.extentOffset, job.copy.start) <= at
    && (conduct != Lying ==> HasMovedBelow(d, job, r, at))
    && (conduct == Exact ==> Aligned(at) || Min(r.FileEnd(), job.was.size) <= Cursor(r, at))
  }

  /** Where the loop is, and what it has done to the filesystem since `was`. */
  ghost predicate Along(was: Disk, d: Disk, job: Job, r: ExtentRef, at: nat, conduct: Conduct) {
    Advances(was, d, job) && Going(d, job, r, at, conduct)
  }

  lemma GoesOn(was: Disk, before: Disk, now: Disk, job: Job, r: ExtentRef, at: nat, n: nat, next: nat, conduct: Conduct)
    requires Along(was, before, job, r, at, conduct) && Advances(before, now, job)
    requires Reported(job, r, at, conduct, Ok(n)) && next == at + n
    requires conduct != Lying ==> HasMovedBelow(now, job, r, next)
    ensures Along(was, now, job, r, next, conduct)
  {
    AdvancesTrans(was, before, now, job);
  }

  /** Where a call that got somewhere leads. */
  lemma CallLeads(was: Disk, before: Disk, now: Disk, job: Job, r: ExtentRef, at: nat, len: nat, conduct: Conduct,
                  deduped: Outcome<nat>, moved: set<nat>, next: nat)
    requires ValidDisk(now) && Call(job, r, at, len) && Along(was, before, job, r, at, conduct)
    requires Deduped(before, now, job.temp, SourceOffset(job.copy, at), len, job.id, Cursor(r, at), conduct, deduped,
               moved)
    requires deduped.Ok? && next == at + deduped.value
    ensures Along(was, now, job, r, next, conduct)
  {
    CallAdvances(before, now, job, r, at, len, conduct, deduped, moved);
    CallReports(before, job, r, at, len, conduct, deduped);
    if conduct != Lying {
      CallDone(before, now, job, r, at, len, deduped.value, moved);
    }
    GoesOn(was, before, now, job, r, at, deduped.value, next, conduct);
  }

  /** What is left of a call that is an error or got nowhere. */
  lemma CallFails(was: Disk, before: Disk, now: Disk, job: Job, r: ExtentRef, at: nat, len: nat, conduct: Conduct,
                  deduped: Outcome<nat>, moved: set<nat>, e: Error)
    requires ValidDisk(now) && Call(job, r, at, len) && Along(was, before, job, r, at, conduct)
    requires deduped == Err(e) || (deduped == Ok(0) && e == NoProgress)
    requires Deduped(before, now, job.temp, SourceOffset(job.copy, at), len, job.id, Cursor(r, at), conduct, deduped,
               moved)
    ensures Advances(was, now, job)
  {
    CallAdvances(before, now, job, r, at, len, conduct, deduped, moved);
    AdvancesTrans(was, before, now, job);
  }

  /** Where the loop goes on from; a call that gets nowhere is an error. */
  function Onward(at: nat, deduped: Outcome<nat>): Outcome<nat> {
    match deduped
    case Err(e) => Err(e)
    case Ok(n) => if n == 0 then Err(NoProgress) else Ok(at + n)
  }

  lemma CallGoesOn(was: Disk, before: Disk, now: Disk, job: Job, r: ExtentRef, at: nat, len: nat, conduct: Conduct,
                   deduped: Outcome<nat>, moved: set<nat>, next: Outcome<nat>)
    requires ValidDisk(now) && Call(job, r, at, len) && Along(was, before, job, r, at, conduct)
    requires Deduped(before, now, job.temp, SourceOffset(job.copy, at), len, job.id, Cursor(r, at), conduct, deduped,
               moved)
    requires next == Onward(at, deduped)
    ensures next.Ok? ==> at < next.value && Along(was, now, job, r, next.value, conduct)
    ensures next.Err? ==> Advances(was, now, job)
  {
    if next.Ok? {
      CallLeads(was, before, now, job, r, at, len, conduct, deduped, moved, next.value);
    } else {
      CallFails(was, before, now, job, r, at, len, conduct, deduped, moved, next.error);
    }
  }

  /** The cursor is where a call is taken, or its loop is done, or the last call was cut
      short inside a sector. */
  ghost predicate Placed(job: Job, r: ExtentRef, at: nat, calls: seq<Call>, from: nat)
    requires r.extentOffset <= at
  {
    || Aligned(at) || Min(r.FileEnd(), job.was.size) <= Cursor(r, at)
    || (from < |calls| && Uneven(calls[|calls| - 1]))
  }

  /** A call that got somewhere leaves the cursor in such a place. */
  lemma CallPlaces(job: Job, r: ExtentRef, at: nat, len: nat, conduct: Conduct, n: nat, next: nat, calls: seq<Call>,
                   from: nat)
    requires Call(job, r, at, len) && Aligned(job.copy.start) && Aligned(job.copy.end)
    requires Reported(job, r, at, conduct, Ok(n)) && next == at + n
    requires from < |calls| && calls[|calls| - 1] == Move(len, Ok(n))
    ensures Placed(job, r, next, calls, from)
  {
    if n == len {
      CallEnds(job, r, at, len);
    } else if Aligned(n) {
      AlignedSum(at, n);
    }
  }

  /** A call that is an error or got nowhere accounts for that, with the call before it. */
  lemma CallExplains(job: Job, r: ExtentRef, at: nat, len: nat, conduct: Conduct, deduped: Outcome<nat>, e: Error,
                     calls: seq<Call>, from: nat)
    requires Call(job, r, at, len) && from <= |calls| && Placed(job, r, at, calls, from)
    requires Reported(job, r, at, conduct, deduped)
    requires conduct == Exact ==> Aligned(at) || Min(r.FileEnd(), job.was.size) <= Cursor(r, at)
    requires deduped == Err(e) || (deduped == Ok(0) && e == NoProgress)
    ensures Explains(calls + [Move(len, deduped)], from, e, conduct)
  {
    var all := calls + [Move(len, deduped)];
    assert all[|all| - 1] == Move(len, deduped);
    assert 0 < |calls| ==> all[|all| - 2] == calls[|calls| - 1];
  }

  lemma CallAnswers(d: Disk, job: Job, r: ExtentRef, at: nat, len: nat, conduct: Conduct, deduped: Outcome<nat>,
                    next: Outcome<nat>, calls: seq<Call>, now: seq<Call>, from: nat)
    requires Working(d, job) && Call(job, r, at, len) && Going(d, job, r, at, conduct)
    requires from <= |calls| && Placed(job, r, at, calls, from) && now == calls + [Move(len, deduped)]
    requires ReportAllowed(
               Acceptable(d.files[job.temp], SourceOffset(job.copy, at), len, d.files[job.id], Cursor(r, at)),
               SameBytes(d.extents, d.files[job.temp], SourceOffset(job.copy, at), len, d.files[job.id], Cursor(r, at)),
               len, conduct, deduped)
    requires next == Onward(at, deduped)
    ensures next.Ok? ==> Placed(job, r, next.value, now, from)
    ensures next.Err? ==> Explains(now, from, next.error, conduct)
  {
    CallReports(d, job, r, at, len, conduct, deduped);
    if next.Ok? {
      CallPlaces(job, r, at, len, conduct, deduped.value, next.value, now, from);
    } else {
      CallExplains(job, r, at, len, conduct, deduped, next.error, calls, from);
    }
  }

  /** One call, and where its loop goes on from. */
  method RedirectChunk(fs: Filesystem, ghost was: Disk, ghost job: Job, id: FileId, temp: FileId, copy: LiveRange,
                       r: ExtentRef, at: nat, len: nat, ghost from: nat)
    returns (next: Outcome<nat>)
    requires job.For(id, temp, copy) && Call(job, r, at, len) && Along(was, fs.disk, job, r, at, fs.conduct)
    requires from <= |fs.calls| && Placed(job, r, at, fs.calls, from)
    modifies fs`disk, fs`calls
    ensures old(fs.calls) <= fs.calls
    ensures next.Ok? ==> at < next.value && Along(was, fs.disk, job, r, next.value, fs.conduct)
    ensures next.Ok? ==> Placed(job, r, next.value, fs.calls, from)
    ensures next.Err? ==> Advances(was, fs.disk, job) && Explains(fs.calls, from, next.error, fs.conduct)
  {
    ghost var before := fs.disk;
    ghost var moved: set<nat>;
    var deduped;
    deduped, moved := fs.Dedupe(temp, SourceOffset(copy, at), len, id, Cursor(r, at));
    next := Onward(at, deduped);
    CallGoesOn(was, before, fs.disk, job, r, at, len, fs.conduct, deduped, moved, next);
    CallAnswers(before, job, r, at, len, fs.conduct, deduped, next, old(fs.calls), fs.calls, from);
  }

  /** Everything the reference stands for that the job can move has moved. */
  ghost predicate RefDone(d: Disk, job: Job, r: ExtentRef)
    requires job.id in d.files
  {
    forall s: nat :: InRef(r, s) && Eligible(job.was, job.x, job.Destination(), s) ==> HasMoved(d, job, s)
  }

  lemma LoopStarts(d: Disk, job: Job, r: ExtentRef, conduct: Conduct)
    requires Working(d, job) && RefTrueIn(job.was, job.x, r, job.copy)
    ensures Along(d, d, job, r, Max(r.extentOffset, job.copy.start), conduct)
  {
    NothingBelow(job.was, d.files[job.id], job.x, r, job.copy, job.a);
    BoundsAligned(r, job.copy);
  }

  lemma LoopEnds(was: Disk, d: Disk, job: Job, r: ExtentRef, at: nat, conduct: Conduct)
    requires Along(was, d, job, r, at, conduct) && RefTrueIn(job.was, job.x, r, job.copy)
    requires Min(r.ExtentEnd(), job.copy.end) <= at || Min(r.FileEnd(), job.was.size) <= Cursor(r, at)
    ensures Advances(was, d, job) && (conduct != Lying ==> RefDone(d, job, r))
  {
    if conduct != Lying {
      AllBelow(job.was, d.files[job.id], job.x, r, job.copy, job.a, at);
    }
  }

  /** Points the parts of one reference that fall inside the staged copy at it. */
  method RedirectRef(fs: Filesystem, ghost job: Job, id: FileId, temp: FileId, copy: LiveRange, r: ExtentRef, size: nat)
    returns (result: Outcome<()>)
    requires Working(fs.disk, job) && job.For(id, temp, copy)
    requires RefTrueIn(job.was, job.x, r, copy) && size == job.was.size
    modifies fs`disk, fs`calls
    ensures old(fs.calls) <= fs.calls
    ensures Advances(old(fs.disk), fs.disk, job)
    ensures result.Ok? && fs.conduct != Lying ==> RefDone(fs.disk, job, r)
    ensures result.Err? ==> Explains(fs.calls, |old(fs.calls)|, result.error, fs.conduct)
  {
    ghost var before := fs.disk;
    // `Call` asks for no byte past the file's end.
    var end := Min(r.FileEnd(), size);
    var at := Max(r.extentOffset, copy.start);
    var to := Min(r.ExtentEnd(), copy.end);
    LoopStarts(fs.disk, job, r, fs.conduct);
    BoundsAligned(r, copy);
    while at < to && Cursor(r, at) < end
      invariant r.extentOffset <= at && copy.start <= at && Along(before, fs.disk, job, r, at, fs.conduct)
      invariant old(fs.calls) <= fs.calls && Placed(job, r, at, fs.calls, |old(fs.calls)|)
      decreases if at < to then to - at else 0
    {
      var len := Min(to - at, end - Cursor(r, at));
      var next := RedirectChunk(fs, before, job, id, temp, copy, r, at, len, |old(fs.calls)|);
      if next.Err? {
        return Err(next.error);
      }
      at := next.value;
    }
    LoopEnds(before, fs.disk, job, r, at, fs.conduct);
    result := Ok(());
  }

  ghost predicate RefsDone(d: Disk, job: Job, refs: seq<ExtentRef>)
    requires job.id in d.files
  {
    forall r :: r in refs ==> RefDone(d, job, r)
  }

  lemma RefsDoneKept(was: Disk, now: Disk, job: Job, refs: seq<ExtentRef>, r: ExtentRef)
    requires job.id in was.files && Advances(was, now, job) && RefsDone(was, job, refs) && RefDone(now, job, r)
    ensures RefsDone(now, job, refs + [r])
  {
    forall q | q in refs + [r]
      ensures RefDone(now, job, q)
    {
      if q in refs {
        assert RefDone(was, job, q);
      }
    }
  }

  /** What the references so far come to, since `was`. */
  ghost predicate DoneWith(was: Disk, d: Disk, job: Job, refs: seq<ExtentRef>, conduct: Conduct) {
    Advances(was, d, job) && (conduct != Lying ==> RefsDone(d, job, refs))
  }

  lemma DoneWithNext(was: Disk, mid: Disk, now: Disk, job: Job, refs: seq<ExtentRef>, i: nat, conduct: Conduct)
    requires i < |refs| && DoneWith(was, mid, job, refs[..i], conduct) && Advances(mid, now, job)
    requires conduct != Lying ==> RefDone(now, job, refs[i])
    ensures DoneWith(was, now, job, refs[..i + 1], conduct)
  {
    AdvancesTrans(was, mid, now, job);
    assert refs[..i + 1] == refs[..i] + [refs[i]];
    if conduct != Lying {
      RefsDoneKept(mid, now, job, refs[..i], refs[i]);
    }
  }

  lemma DoneWithAll(was: Disk, d: Disk, job: Job, refs: seq<ExtentRef>, conduct: Conduct)
    requires DoneWith(was, d, job, refs, conduct) && DescribesIn(job.was, job.x, refs, job.copy)
    ensures Advances(was, d, job)
    ensures conduct != Lying ==> Relocated(job.was, d.files[job.id], job.x, job.Destination(), true)
  {
    if conduct != Lying {
      AllRefsDone(d, job, refs);
    }
  }

  lemma AdvancesRefl(d: Disk, job: Job)
    requires Working(d, job)
    ensures Advances(d, d, job)
  {
  }

  /** A reference that starts at or past the file's end has nothing to move. */
  lemma NothingToDo(d: Disk, job: Job, r: ExtentRef)
    requires Working(d, job) && ValidRef(r) && Min(r.FileEnd(), job.was.size) <= r.fileOffset
    ensures RefDone(d, job, r)
  {
  }

  lemma AllRefsDone(d: Disk, job: Job, refs: seq<ExtentRef>)
    requires Working(d, job) && DescribesIn(job.was, job.x, refs, job.copy)
    requires RefsDone(d, job, refs)
    ensures Relocated(job.was, d.files[job.id], job.x, job.Destination(), true)
  {
    forall s: nat | Eligible(job.was, job.x, job.Destination(), s)
      ensures d.files[job.id].sectors[s] == job.Destination()[job.was.sectors[s].offset]
    {
      assert Backed(refs, s);
      var r :| r in refs && InRef(r, s);
      assert RefDone(d, job, r);
      assert HasMoved(d, job, s);
    }
  }

  /** Carries out a job for all of a file's references. Sectors go only where its table
      says, under any conduct; unless the kernel lies, every eligible one goes. */
  method RedirectChunks(fs: Filesystem, ghost job: Job, id: FileId, temp: FileId, copy: LiveRange, refs: seq<ExtentRef>,
                        size: nat)
    returns (result: Outcome<()>)
    requires Working(fs.disk, job) && job.For(id, temp, copy)
    requires DescribesIn(job.was, job.x, refs, copy) && size == job.was.size
    modifies fs`disk, fs`calls
    ensures old(fs.calls) <= fs.calls
    ensures Advances(old(fs.disk), fs.disk, job)
    ensures result.Ok? && fs.conduct != Lying ==> Relocated(job.was, fs.disk.files[id], job.x, job.Destination(), true)
    ensures result.Err? ==> Explains(fs.calls, |old(fs.calls)|, result.error, fs.conduct)
  {
    ghost var before := fs.disk;
    var open := fs.Attempt();
    if open.Err? {
      return Err(open.error);
    }
    AdvancesRefl(before, job);
    for i := 0 to |refs|
      invariant DoneWith(before, fs.disk, job, refs[..i], fs.conduct) && old(fs.calls) <= fs.calls
    {
      var r := refs[i];
      assert RefTrueIn(job.was, job.x, r, copy);
      ghost var last := fs.disk;
      if Min(r.FileEnd(), size) <= r.fileOffset {
        // The file's size may be another by now, and then there may be nothing to move.
        NothingToDo(last, job, r);
        AdvancesRefl(last, job);
        DoneWithNext(before, last, last, job, refs, i, fs.conduct);
        continue;
      }
      var redirected := RedirectRef(fs, job, id, temp, copy, r, size);
      if redirected.Err? {
        AdvancesTrans(before, last, fs.disk, job);
        return Err(redirected.error);
      }
      DoneWithNext(before, last, fs.disk, job, refs, i, fs.conduct);
    }
    assert refs[..|refs|] == refs;
    DoneWithAll(before, fs.disk, job, refs, fs.conduct);
    result := Ok(());
  }
}
