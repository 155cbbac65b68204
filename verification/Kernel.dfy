/** The filesystem calls a rewrite makes, each with the contract the program
    relies on. What the kernel is free to decide is decided nondeterministically,
    so what is proved of a caller holds however the kernel behaves. */
module Kernel {
  import opened Sectors
  import opened Disks
  import opened Wrappers

  /** How far the kernel can be trusted.
      - `Exact`: every call that can succeed does, and does all of it.
      - `Honest`: calls can fail, and a dedupe can stop short, but every whole
        sector it reports has moved.
      - `Lying`: a dedupe reports what it likes, having moved anything or nothing. */
  datatype Conduct = Exact | Honest | Lying

  datatype Error =
    | Io(fatal: bool)   // a foreign call failed
    | Differs           // the two ranges do not hold the same bytes
    | Misaligned        // the range given is not one the kernel dedupes
    | NoProgress        // a dedupe reported nothing done
    | Modified          // a file's size or mtime is not what it was
    | StillHolds        // a holder still points at the extent
    | Nameless          // no path leads to a holder

  /** What of a file's is no part of what it holds: whether it was deleted, has no
      path leading to it, or is overwritten in place. */
  datatype Attributes = Attributes(deleted: set<FileId>, nameless: set<FileId>, noDataCow: set<FileId>)

  type Outcome<T> = Result<T, Error>

  /** What an error of a rewrite means to the run. */
  function FaultOf(e: Error): Fault {
    match e
    case Io(fatal) => if fatal then Fatal else Other
    case Modified => InvalidData
    case _ => Other
  }

  /** Which ranges a dedupe takes: both aligned and inside their files, and of an
      aligned length unless `dest` ends with them. */
  predicate Acceptable(src: FileState, srcOffset: nat, len: nat, dest: FileState, destOffset: nat) {
    && Aligned(srcOffset) && Aligned(destOffset)
    && srcOffset + len <= src.size && destOffset + len <= dest.size
    && (Aligned(len) || destOffset + len == dest.size)
  }

  predicate SameByte(extents: Extents, src: FileState, srcOffset: nat, dest: FileState, destOffset: nat, i: nat)
    requires ValidFile(src, extents) && ValidFile(dest, extents)
  {
    ByteAt(src, extents, srcOffset + i) == ByteAt(dest, extents, destOffset + i)
  }

  predicate SameBytes(extents: Extents, src: FileState, srcOffset: nat, len: nat, dest: FileState, destOffset: nat)
    requires ValidFile(src, extents) && ValidFile(dest, extents)
  {
    forall i: nat | i < len :: SameByte(extents, src, srcOffset, dest, destOffset, i)
  }

  /** The sectors lying wholly in `[offset, offset + len)`. */
  function WholeSectors(offset: nat, len: nat): set<nat> {
    set s: nat | offset <= s < offset + len && s + SECTORSIZE <= offset + len && Aligned(s)
  }

  /** An unaligned range moves one sector more than the whole ones, if both files end
      with it: the one it ends in. */
  function TailSector(src: FileState, srcOffset: nat, len: nat, dest: FileState, destOffset: nat): set<nat> {
    if !Aligned(len) && srcOffset + len == src.size && destOffset + len == dest.size then
      {Floor(destOffset + len)}
    else
      {}
  }

  /** The sectors a dedupe of this range can move. */
  function Movable(src: FileState, srcOffset: nat, len: nat, dest: FileState, destOffset: nat): set<nat> {
    WholeSectors(destOffset, len) + TailSector(src, srcOffset, len, dest, destOffset)
  }

  /** The sectors an honest dedupe of `len` bytes has moved when it reports `n`. */
  function MovedBy(src: FileState, srcOffset: nat, len: nat, dest: FileState, destOffset: nat, n: nat): set<nat> {
    WholeSectors(destOffset, n) + if n == len then TailSector(src, srcOffset, len, dest, destOffset) else {}
  }

  /** `dest` with the sectors in `moved` where `src` has the matching ones. */
  function Repoint(src: FileState, srcOffset: nat, dest: FileState, destOffset: nat, moved: set<nat>): FileState {
    dest.(sectors := map s | s in dest.sectors.Keys + moved
      && (s in moved ==> srcOffset + s - destOffset in src.sectors)
                         :: if s in moved then src.sectors[srcOffset + s - destOffset] else dest.sectors[s])
  }

  lemma RepointValid(extents: Extents, src: FileState, srcOffset: nat, len: nat, dest: FileState, destOffset: nat,
                     moved: set<nat>)
    requires ValidFile(src, extents) && ValidFile(dest, extents)
    requires moved <= Movable(src, srcOffset, len, dest, destOffset)
    ensures ValidFile(Repoint(src, srcOffset, dest, destOffset, moved), extents)
  {
  }

  lemma RepointNothing(d: Disk, src: FileState, srcOffset: nat, dest: FileId, destOffset: nat)
    requires dest in d.files
    ensures d == d.(files := d.files[dest := Repoint(src, srcOffset, d.files[dest], destOffset, {})])
  {
    assert Repoint(src, srcOffset, d.files[dest], destOffset, {}).sectors == d.files[dest].sectors;
  }

  /** A call made of the kernel and what it came back with: one that asks for `len`
      bytes to be deduped, a look at a file's size and mtime that found them the `same` as
      they would be with no other writer, or any other. */
  datatype Call = Plain(r: Outcome<()>) | Move(len: nat, report: Outcome<nat>) | Look(id: FileId, same: bool)

  /** The call succeeded; and a dedupe got somewhere, and was not cut short inside a sector. */
  predicate Fine(c: Call) {
    match c
    case Plain(r) => r.Ok?
    case Move(len, report) => report.Ok? && 0 < report.value && (report.value == len || Aligned(report.value))
    case Look(_, same) => same
  }

  /** Every call since the first `from`. */
  ghost predicate AllFine(calls: seq<Call>, from: nat) {
    forall i :: from <= i < |calls| ==> Fine(calls[i])
  }

  predicate Failing(c: Call, e: Error) {
    match c
    case Plain(r) => r == Err(e)
    case Move(_, report) => report == Err(e)
    case Look(_, _) => false
  }

  /** A dedupe that was cut short inside a sector. */
  predicate Uneven(c: Call) {
    c.Move? && c.report.Ok? && !Aligned(c.report.value) && c.report.value != c.len
  }

  /** The calls since the first `from` account for the error: the last of them failed with
      it, reported nothing done, or found a file written to; and one refused for its range
      came right after one cut short inside a sector. None of this befalls a kernel that does all it is asked. */
  ghost predicate Explains(calls: seq<Call>, from: nat, e: Error, conduct: Conduct) {
    && conduct != Exact && from < |calls|
    && match e
       case Io(_) => Failing(calls[|calls| - 1], e)
       case NoProgress => calls[|calls| - 1].Move? && calls[|calls| - 1].report == Ok(0)
       case Modified => calls[|calls| - 1].Look? && !calls[|calls| - 1].same
       case Misaligned => Failing(calls[|calls| - 1], e) && from + 1 < |calls| && Uneven(calls[|calls| - 2])
       case _ => false
  }

  lemma CallsSince(calls: seq<Call>, from: nat, since: seq<Call>)
    requires from <= |calls| && since == calls[from..]
    ensures AllFine(since, 0) <==> AllFine(calls, from)
    ensures forall e, conduct :: Explains(calls, from, e, conduct) ==> Explains(since, 0, e, conduct)
  {
    if AllFine(since, 0) {
      forall i | from <= i < |calls|
        ensures Fine(calls[i])
      {
        assert since[i - from] == calls[i];
      }
    }
  }

  /** Since the first `from`, the file was looked at and found as it should be. */
  ghost predicate Looked(calls: seq<Call>, from: nat, id: FileId) {
    exists i :: from <= i < |calls| && calls[i] == Look(id, true)
  }

  lemma LookedStays(calls: seq<Call>, later: seq<Call>, from: nat, first: nat, id: FileId)
    requires calls <= later && first <= from && Looked(calls, from, id)
    ensures Looked(later, first, id)
  {
    var i :| from <= i < |calls| && calls[i] == Look(id, true);
    assert later[i] == calls[i];
  }

  lemma ExplainedNotFine(calls: seq<Call>, from: nat, e: Error, conduct: Conduct)
    requires Explains(calls, from, e, conduct)
    ensures !AllFine(calls, from)
  {
    assert !Fine(calls[|calls| - 1]);
  }

  /** Calls that were not all fine are not made so by more of them. */
  lemma NotFineStays(calls: seq<Call>, later: seq<Call>, from: nat, first: nat)
    requires calls <= later && first <= from && !AllFine(calls, from)
    ensures !AllFine(later, first)
  {
    var i :| from <= i < |calls| && !Fine(calls[i]);
    assert later[i] == calls[i];
  }

  /** What a dedupe can report of a range that is `acceptable`, or not, and holds
      the `same` bytes, or not. */
  ghost predicate ReportAllowed(acceptable: bool, same: bool, len: nat, conduct: Conduct, r: Outcome<nat>) {
    match r
    case Ok(n) => acceptable && same && n <= len && (conduct == Exact ==> n == len)
    case Err(Io(_)) => conduct != Exact
    case Err(Misaligned) => !acceptable
    case Err(Differs) => acceptable && !same
    case _ => false
  }

  /** Everything a dedupe can do: it moves sectors of `dest` only to where `src`
      has the same bytes, and reports what its conduct allows. */
  ghost predicate Deduped(was: Disk, now: Disk, src: FileId, srcOffset: nat, len: nat, dest: FileId, destOffset: nat,
                          conduct: Conduct, r: Outcome<nat>, moved: set<nat>)
    requires ValidDisk(was) && src in was.files && dest in was.files
  {
    var f, g := was.files[src], was.files[dest];
    && moved <= Movable(f, srcOffset, len, g, destOffset)
    && now == was.(files := was.files[dest := Repoint(f, srcOffset, g, destOffset, moved)])
    && (moved != {} ==>
          && Acceptable(f, srcOffset, len, g, destOffset)
          && SameBytes(was.extents, f, srcOffset, len, g, destOffset))
    && (r.Ok? && conduct != Lying ==> moved == MovedBy(f, srcOffset, len, g, destOffset, r.value))
    && ReportAllowed(Acceptable(f, srcOffset, len, g, destOffset),
                     SameBytes(was.extents, f, srcOffset, len, g, destOffset), len, conduct, r)
  }

  function Padded(bytes: seq<Byte>): (p: seq<Byte>)
    ensures |p| == Ceil(|bytes|) && bytes <= p
    ensures Aligned(|bytes|) ==> p == bytes
  {
    CeilLeast(if Aligned(|bytes|) then |bytes| else Ceil(|bytes|), |bytes|);
    bytes + seq(Ceil(|bytes|) - |bytes|, _ => 0)
  }

  /** A temporary holding `bytes` one sector in, in an extent of their own. */
  function TempFile(extent: Address, len: nat, modified: nat): FileState {
    FileState(SECTORSIZE + len, modified,
              map s: nat | SECTORSIZE <= s < SECTORSIZE + len && Aligned(s) :: Loc(extent, s - SECTORSIZE))
  }

  lemma TempOffset(len: nat, s: nat)
    requires SECTORSIZE <= s < SECTORSIZE + len && Aligned(s)
    ensures Aligned(s - SECTORSIZE) && s <= Ceil(len)
  {
    AlignedStep(s - SECTORSIZE, Ceil(len));
  }

  lemma TempLocValid(extent: Address, len: nat, extents: Extents, s: nat)
    requires extent in extents && |extents[extent]| == Ceil(len)
    requires SECTORSIZE <= s < SECTORSIZE + len && Aligned(s)
    ensures ValidLoc(Loc(extent, s - SECTORSIZE), extents)
  {
    TempOffset(len, s);
  }

  lemma TempFileValid(extent: Address, bytes: seq<Byte>, modified: nat, extents: Extents)
    requires extent in extents && extents[extent] == Padded(bytes)
    ensures ValidFile(TempFile(extent, |bytes|, modified), extents)
  {
    var f := TempFile(extent, |bytes|, modified);
    forall s: nat | s in f.sectors
      ensures Aligned(s) && ValidLoc(f.sectors[s], extents)
    {
      TempLocValid(extent, |bytes|, extents, s);
    }
  }

  lemma {:induction false} UnusedNat(used: set<nat>) returns (n: nat)
    ensures forall u :: u in used ==> u < n
  {
    if used == {} {
      n := 0;
    } else {
      var u :| u in used;
      var m := UnusedNat(used - {u});
      n := if m <= u then u + 1 else m;
      assert forall v :: v in used ==> v == u || v in used - {u};
    }
  }

  class Filesystem {
    const conduct: Conduct
    const attributes: Attributes
    var disk: Disk
    /** The calls made so far. */
    ghost var calls: seq<Call>

    constructor (conduct: Conduct, attributes: Attributes, disk: Disk)
      ensures this.conduct == conduct && this.attributes == attributes && this.disk == disk
    {
      this.conduct, this.attributes, this.disk, calls := conduct, attributes, disk, [];
    }

    /** A call that reads and can fail: opening a file, or reading its metadata. */
    method Attempt() returns (r: Outcome<()>)
      modifies this`calls
      ensures calls == old(calls) + [Plain(r)]
      ensures r.Err? ==> r.error.Io? && Explains(calls, |old(calls)|, r.error, conduct)
    {
      r := Whim();
      calls := calls + [Plain(r)];
    }

    /** Reads a file's size and mtime, which another writer may have changed by now. */
    method Metadata(id: FileId) returns (r: Outcome<(nat, nat)>)
      requires id in disk.files
      modifies this`calls
      ensures old(calls) < calls
      ensures r.Ok? ==> calls[|calls| - 1] == Look(id, r.value == (disk.files[id].size, disk.files[id].modified))
      ensures r.Ok? && conduct == Exact ==> r.value == (disk.files[id].size, disk.files[id].modified)
      ensures r.Err? ==> r.error.Io? && Explains(calls, |old(calls)|, r.error, conduct)
    {
      var tried := Attempt();
      if tried.Err? {
        return Err(tried.error);
      }
      var seen := (disk.files[id].size, disk.files[id].modified);
      if conduct != Exact {
        seen := *;
      }
      calls := calls + [Look(id, seen == (disk.files[id].size, disk.files[id].modified))];
      r := Ok(seen);
    }

    /** Whether a call that can fail does. */
    method Whim() returns (r: Outcome<()>)
      ensures r.Err? ==> r.error.Io? && conduct != Exact
    {
      var fails: bool, fatal: bool := *, *;
      r := if fails && conduct != Exact then Err(Io(fatal)) else Ok(());
    }

    /** Reads the file's bytes from `offset` on into `buf[lo..hi]`. */
    method ReadExactAt(id: FileId, offset: nat, buf: array<Byte>, lo: nat, hi: nat) returns (r: Outcome<()>)
      requires ValidDisk(disk) && id in disk.files
      requires lo <= hi <= buf.Length && offset + (hi - lo) <= disk.files[id].size
      modifies buf, this`calls
      ensures calls == old(calls) + [Plain(r)]
      ensures r.Err? ==> r.error.Io? && Explains(calls, |old(calls)|, r.error, conduct)
      ensures buf[..lo] == old(buf[..lo])
      ensures r.Ok? ==> forall i :: lo <= i < hi ==> buf[i] == ByteAt(disk.files[id], disk.extents, offset + (i - lo))
    {
      r := Attempt();
      if r.Err? {
        return;
      }
      for j := lo to hi
        invariant buf[..lo] == old(buf[..lo]) && calls == old(calls) + [Plain(r)]
        invariant forall i :: lo <= i < j ==> buf[i] == ByteAt(disk.files[id], disk.extents, offset + (i - lo))
      {
        buf[j] := ByteAt(disk.files[id], disk.extents, offset + (j - lo));
      }
    }

    /** Writes `bytes` to a new temporary, one sector in. */
    method Stage(bytes: seq<Byte>) returns (r: Outcome<FileId>, ghost extent: Address)
      requires ValidDisk(disk)
      modifies this`disk, this`calls
      ensures ValidDisk(disk) && old(calls) <= calls
      ensures r.Err? ==> disk == old(disk) && r.error.Io? && Explains(calls, |old(calls)|, r.error, conduct)
      ensures r.Ok? ==> r.value !in old(disk).files && r.value.Temp? && extent !in old(disk).extents
      ensures r.Ok? ==> exists modified ::
                disk == Disk(old(disk).files[r.value := TempFile(extent, |bytes|, modified)],
                             old(disk).extents[extent := Padded(bytes)])
    {
      extent := 0;
      var tried := Attempt();
      if tried.Err? {
        return Err(tried.error), extent;
      }
      ghost var top := UnusedNat(disk.extents.Keys);
      ghost var serials := set id | id in disk.files && id.Temp? :: id.serial;
      ghost var topSerial := UnusedNat(serials);
      forall t: nat | Temp(t) in disk.files
        ensures t in serials
      {
        assert Temp(t).serial == t;
      }
      assert Temp(topSerial) !in disk.files;
      assert top !in disk.extents;
      var address: nat :| address !in disk.extents;
      var serial: nat :| Temp(serial) !in disk.files;
      var modified: nat := *;
      extent := address;
      var extents := disk.extents[address := Padded(bytes)];
      TempFileValid(address, bytes, modified, extents);
      disk := Disk(disk.files[Temp(serial) := TempFile(address, |bytes|, modified)], extents);
      r := Ok(Temp(serial));
    }

    /** Closes a temporary, which deletes it. Its extent stays for as long as a
        file holds it. */
    method Drop(id: FileId)
      requires ValidDisk(disk)
      modifies this`disk
      ensures ValidDisk(disk)
      ensures disk == Disk(old(disk).files - {id}, old(disk).extents)
    {
      disk := Disk(disk.files - {id}, disk.extents);
    }

    /** Does to the disk, and reports, anything `Deduped` allows the kernel's conduct. */
    method Dedupe(src: FileId, srcOffset: nat, len: nat, dest: FileId, destOffset: nat)
      returns (r: Outcome<nat>, ghost moved: set<nat>)
      requires ValidDisk(disk) && src in disk.files && dest in disk.files
      modifies this`disk, this`calls
      ensures ValidDisk(disk) && calls == old(calls) + [Move(len, r)]
      ensures Deduped(old(disk), disk, src, srcOffset, len, dest, destOffset, conduct, r, moved)
    {
      var f, g := disk.files[src], disk.files[dest];
      moved := {};
      RepointNothing(disk, f, srcOffset, dest, destOffset);
      if !Acceptable(f, srcOffset, len, g, destOffset) {
        calls := calls + [Move(len, Err(Misaligned))];
        return Err(Misaligned), moved;
      }
      if !SameBytes(disk.extents, f, srcOffset, len, g, destOffset) {
        calls := calls + [Move(len, Err(Differs))];
        return Err(Differs), moved;
      }
      var tried := Whim();
      var n: nat := len;
      var chosen: set<nat> := *;
      if conduct != Exact {
        n :| n <= len;
      }
      if tried.Ok? && conduct != Lying {
        chosen := MovedBy(f, srcOffset, len, g, destOffset, n);
      }
      chosen := chosen * Movable(f, srcOffset, len, g, destOffset);
      moved := chosen;
      RepointValid(disk.extents, f, srcOffset, len, g, destOffset, chosen);
      disk := disk.(files := disk.files[dest := Repoint(f, srcOffset, g, destOffset, chosen)]);
      r := if tried.Ok? then Ok(n) else Err(tried.error);
      calls := calls + [Move(len, r)];
    }
  }
}
