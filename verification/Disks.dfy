/** What the filesystem holds, as far as a rewrite can see it: files that map
    sectors to places in extents, and the bytes of those extents. */
module Disks {
  import Bytes
  import opened Sectors

  type Byte = Bytes.Byte

  type Address = nat

  datatype FileId =
    | Inode(root: nat, inode: nat)
    | Temp(serial: nat)

  /** A sector-sized place in an extent. */
  datatype Loc = Loc(extent: Address, offset: nat)

  /** A file: its size and mtime, and where each sector it holds is. A sector is
      named by the file offset it starts at; one that is missing is a hole. */
  datatype FileState = FileState(size: nat, modified: nat, sectors: map<nat, Loc>)

  datatype Disk = Disk(files: map<FileId, FileState>, extents: map<Address, seq<Byte>>)

  type Extents = map<Address, seq<Byte>>

  ghost predicate ValidLoc(l: Loc, extents: Extents) {
    && l.extent in extents
    && Aligned(l.offset)
    && l.offset + SECTORSIZE <= |extents[l.extent]|
  }

  ghost predicate ValidFile(f: FileState, extents: Extents) {
    forall s :: s in f.sectors ==> Aligned(s) && ValidLoc(f.sectors[s], extents)
  }

  ghost predicate ValidDisk(d: Disk) {
    forall id :: id in d.files ==> ValidFile(d.files[id], d.extents)
  }

  /** Byte `i` of the sector at `l`. */
  function At(extents: Extents, l: Loc, i: nat): Byte
    requires ValidLoc(l, extents) && i < SECTORSIZE
  {
    extents[l.extent][l.offset + i]
  }

  /** The byte of the file at `p`: zero in a hole. */
  function ByteAt(f: FileState, extents: Extents, p: nat): Byte
    requires ValidFile(f, extents)
  {
    var s := Floor(p);
    if s in f.sectors then
      At(extents, f.sectors[s], p - s)
    else
      0
  }

  /** Any byte of a sector is found through it. */
  lemma SectorByte(f: FileState, extents: Extents, s: nat, within: nat)
    requires ValidFile(f, extents) && s in f.sectors && Aligned(s) && within < SECTORSIZE
    ensures ByteAt(f, extents, s + within) == At(extents, f.sectors[s], within)
  {
    FloorIs(s, s + within);
  }

  /** Whether the first `n` bytes of the sectors at `a` and `b` are the same. */
  ghost predicate SameSector(extents: Extents, a: Loc, b: Loc, n: nat)
    requires n <= SECTORSIZE && ValidLoc(a, extents) && ValidLoc(b, extents)
  {
    forall i: nat :: i < n ==> At(extents, a, i) == At(extents, b, i)
  }

  /** Bytes of the sector at `s` that lie inside the file. */
  function Visible(f: FileState, s: nat): (n: nat)
    ensures n <= SECTORSIZE
  {
    if s + SECTORSIZE <= f.size then SECTORSIZE else if s <= f.size then f.size - s else 0
  }

  /** `now` is `was` with some of the sectors it held in extent `x` moved to
      extents that did not exist when it was `was`, which hold the same bytes. */
  ghost predicate FileEvolves(was: FileState, now: FileState, before: Extents, after: Extents, x: Address)
    requires ValidFile(was, after) && ValidFile(now, after)
  {
    && now.size == was.size
    && now.modified == was.modified
    && now.sectors.Keys == was.sectors.Keys
    && forall s :: s in was.sectors && now.sectors[s] != was.sectors[s] ==>
         && was.sectors[s].extent == x
         && now.sectors[s].extent !in before
         && SameSector(after, was.sectors[s], now.sectors[s], Visible(was, s))
  }

  ghost predicate ExtentsGrow(before: Extents, after: Extents) {
    forall a :: a in before ==> a in after && after[a] == before[a]
  }

  /** Nothing is lost between `was` and `now`: no extent changes, and every file
      keeps its size, its mtime and its bytes, and its place everywhere but in
      extent `x`. */
  ghost predicate Evolves(was: Disk, now: Disk, x: Address) {
    && ValidDisk(was)
    && ValidDisk(now)
    && ExtentsGrow(was.extents, now.extents)
    && was.files.Keys <= now.files.Keys
    && forall id :: id in was.files ==>
         && ValidFile(was.files[id], now.extents)
         && FileEvolves(was.files[id], now.files[id], was.extents, now.extents, x)
  }

  lemma EvolvesRefl(d: Disk, x: Address)
    requires ValidDisk(d)
    ensures Evolves(d, d, x)
  {
  }

  lemma SameSectorGrows(before: Extents, after: Extents, a: Loc, b: Loc, n: nat)
    requires ExtentsGrow(before, after) && n <= SECTORSIZE
    requires ValidLoc(a, before) && ValidLoc(b, before) && SameSector(before, a, b, n)
    ensures ValidLoc(a, after) && ValidLoc(b, after) && SameSector(after, a, b, n)
  {
    forall i: nat | i < n
      ensures At(after, a, i) == At(after, b, i)
    {
      assert At(before, a, i) == At(before, b, i);
    }
  }

  /** Whatever evolves reads the same as before. */
  lemma EvolvesKeepsContents(was: Disk, now: Disk, x: Address, id: FileId, p: nat)
    requires Evolves(was, now, x) && id in was.files && p < was.files[id].size
    ensures now.files[id].size == was.files[id].size
    ensures ByteAt(now.files[id], now.extents, p) == ByteAt(was.files[id], was.extents, p)
  {
    var f, g := was.files[id], now.files[id];
    var s := Floor(p);
    if s in f.sectors && g.sectors[s] != f.sectors[s] {
      var i := p - s;
      assert i < Visible(f, s);
      assert SameSector(now.extents, f.sectors[s], g.sectors[s], Visible(f, s));
    }
  }

  /** Whether the file still holds a sector of extent `x`. */
  ghost predicate Holds(f: FileState, x: Address) {
    exists s :: s in f.sectors && f.sectors[s].extent == x
  }

  /** Whether any file still holds a sector of extent `x`. Once none does, the
      filesystem frees it. */
  ghost predicate Referenced(d: Disk, x: Address) {
    exists id :: id in d.files && Holds(d.files[id], x)
  }
}
