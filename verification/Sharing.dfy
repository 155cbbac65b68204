/** Which sectors share a place once an extent has been reallocated, and how much
    that takes. */
module Sharing {
  import opened Sectors
  import opened Extents
  import opened Disks
  import opened Kernel
  import opened Planning
  import opened Redirect
  import opened Tables
  import opened Rewrite
  import opened Realloc
  import opened Release

  ghost predicate Has(d: Disk, id: FileId, s: nat) {
    id in d.files && s in d.files[id].sectors
  }

  ghost function Place(d: Disk, id: FileId, s: nat): Loc
    requires Has(d, id, s)
  {
    d.files[id].sectors[s]
  }

  /** The sector is of extent `x`, and the file ends inside it. */
  ghost predicate PartTail(d: Disk, id: FileId, s: nat, x: Address) {
    Has(d, id, s) && IsTail(d.files[id], s) && Place(d, id, s).extent == x
  }

  /** A rewrite that went through, with every holder given. */
  ghost predicate Done(was: Disk, now: Disk, x: Address, holders: seq<Holder>, table: Table) {
    && ValidDisk(was) && HoldersTrue(was, x, holders) && HoldersComplete(was, x, holders)
    && Rewritten(was, now, x, holders, table)
  }

  /** Where the sector of another extent is: where it was. */
  lemma Stays(was: Disk, now: Disk, x: Address, holders: seq<Holder>, table: Table, id: FileId, s: nat)
    requires Done(was, now, x, holders, table) && Has(was, id, s) && Place(was, id, s).extent != x
    ensures Has(now, id, s) && Place(now, id, s) == Place(was, id, s) && Place(was, id, s).extent in was.extents
  {
    assert ValidFile(was.files[id], was.extents);
    if IsHolder(holders, id) {
      var h :| h in holders && IdOf(h) == id;
      assert HolderFinished(was, now, x, h, table);
    }
  }

  lemma HolderAt(holders: seq<Holder>, id: FileId) returns (i: nat)
    requires IsHolder(holders, id)
    ensures i < |holders| && IdOf(holders[i]) == id
  {
    var h :| h in holders && IdOf(h) == id;
    i :| 0 <= i < |holders| && holders[i] == h;
  }

  /** Where the sector of extent `x` has gone: to the table's place for it, or, if the
      file ends inside it, to a place of its own. */
  lemma Goes(was: Disk, now: Disk, x: Address, holders: seq<Holder>, table: Table, id: FileId, s: nat) returns (i: nat)
    requires Done(was, now, x, holders, table) && Has(was, id, s) && Place(was, id, s).extent == x
    ensures i < |holders| && IdOf(holders[i]) == id && Has(now, id, s)
    ensures if PartTail(was, id, s, x) then
              TailMoved(was, now, holders[i], x) && Place(now, id, s) == TailLoc(was, now, holders[i], x)
            else Place(was, id, s).offset in table && Place(now, id, s) == table[Place(was, id, s).offset]
  {
    assert Holds(was.files[id], x);
    i := HolderAt(holders, id);
    assert HolderFinished(was, now, x, holders[i], table) && !Holds(now.files[id], x);
    assert Eligible(was.files[id], x, table, s) ==> !IsTail(was.files[id], s);
  }

  lemma StagedNew(was: Disk, now: Disk, x: Address, holders: seq<Holder>, table: Table, e: nat)
    requires Done(was, now, x, holders, table) && e in table
    ensures table[e].extent !in was.extents
  {
  }

  lemma TailNew(was: Disk, now: Disk, x: Address, holders: seq<Holder>, table: Table, i: nat)
    requires TailsAlone(was, now, x, holders, table) && i < |holders| && TailMoved(was, now, holders[i], x)
    ensures TailLoc(was, now, holders[i], x).extent !in was.extents
    ensures forall e :: e in table ==> table[e].extent != TailLoc(was, now, holders[i], x).extent
  {
    assert TailAlone(was, now, x, holders, table, i);
  }

  lemma TailsDiffer(was: Disk, now: Disk, x: Address, holders: seq<Holder>, table: Table, i: nat, j: nat)
    requires TailsAlone(was, now, x, holders, table) && i < |holders| && j < |holders| && i != j
    requires TailMoved(was, now, holders[i], x) && TailMoved(was, now, holders[j], x)
    ensures TailLoc(was, now, holders[i], x).extent != TailLoc(was, now, holders[j], x).extent
  {
    assert TailAlone(was, now, x, holders, table, i) && TailAlone(was, now, x, holders, table, j);
  }

  /** A sector's place before decides where it is now, but for a file's part of a sector,
      which gets a place no other sector is at. */
  lemma MovedTogether(was: Disk, now: Disk, x: Address, holders: seq<Holder>, table: Table,
                      id: FileId, s: nat, other: FileId, t: nat)
    requires Done(was, now, x, holders, table) && Has(was, id, s) && Has(was, other, t)
    requires Place(was, id, s).extent == x && Place(was, other, t).extent == x
    ensures Has(now, id, s) && Has(now, other, t)
    ensures Place(now, id, s) == Place(now, other, t) <==>
      (id == other && s == t)
      || (Place(was, id, s) == Place(was, other, t) && !PartTail(was, id, s, x) && !PartTail(was, other, t, x))
  {
    var i := Goes(was, now, x, holders, table, id, s);
    var j := Goes(was, now, x, holders, table, other, t);
    if PartTail(was, id, s, x) {
      TailNew(was, now, x, holders, table, i);
    }
    if PartTail(was, other, t, x) {
      TailNew(was, now, x, holders, table, j);
    }
    if PartTail(was, id, s, x) && PartTail(was, other, t, x) && i != j {
      TailsDiffer(was, now, x, holders, table, i, j);
      assert id != other;
    }
  }

  lemma MovedApart(was: Disk, now: Disk, x: Address, holders: seq<Holder>, table: Table,
                   id: FileId, s: nat, other: FileId, t: nat)
    requires Done(was, now, x, holders, table) && Has(was, id, s) && Has(was, other, t)
    requires Place(was, id, s).extent == x && Place(was, other, t).extent != x
    ensures Has(now, id, s) && Has(now, other, t) && Place(now, id, s) != Place(now, other, t)
  {
    var i := Goes(was, now, x, holders, table, id, s);
    Stays(was, now, x, holders, table, other, t);
    if PartTail(was, id, s, x) {
      TailNew(was, now, x, holders, table, i);
    } else {
      StagedNew(was, now, x, holders, table, Place(was, id, s).offset);
    }
  }

  /** Sharing, exactly: of all the sectors of all the files there are, two share a place
      afterwards if and only if they are the same sector, or shared one before and neither
      is a part of a sector that the extent held. */
  lemma SharingExact(was: Disk, now: Disk, x: Address, holders: seq<Holder>, table: Table,
                     id: FileId, s: nat, other: FileId, t: nat)
    requires Done(was, now, x, holders, table) && Has(was, id, s) && Has(was, other, t)
    ensures Has(now, id, s) && Has(now, other, t)
    ensures Place(now, id, s) == Place(now, other, t) <==>
      (id == other && s == t)
      || (Place(was, id, s) == Place(was, other, t) && !PartTail(was, id, s, x) && !PartTail(was, other, t, x))
  {
    if Place(was, id, s).extent == x && Place(was, other, t).extent == x {
      MovedTogether(was, now, x, holders, table, id, s, other, t);
    } else if Place(was, id, s).extent == x {
      MovedApart(was, now, x, holders, table, id, s, other, t);
    } else if Place(was, other, t).extent == x {
      MovedApart(was, now, x, holders, table, other, t, id, s);
    } else {
      Stays(was, now, x, holders, table, id, s);
      Stays(was, now, x, holders, table, other, t);
    }
  }

  // ----- Two files that end in one sector -----

  /** A reference of one sector, the extent's first. */
  function OneSectorRef(inode: nat): ExtentRef {
    ExtentRef(5, inode, 0, SECTORSIZE, SECTORSIZE, 0, 0, SECTORSIZE, 1)
  }

  const ONE_BYTE := FileState(1, 0, map[0 := Loc(0, 0)])

  /** Two files of one byte, the second reflinked from the first. */
  function Reflinked(): Disk {
    Disk(map[Inode(5, 257) := ONE_BYTE, Inode(5, 258) := ONE_BYTE], map[0 := seq(SECTORSIZE, _ => 0 as Byte)])
  }

  lemma OneSectorRefTrue(inode: nat)
    ensures RefTrue(ONE_BYTE, 0, OneSectorRef(inode)) && InRef(OneSectorRef(inode), 0)
  {
    AlignedSum(SECTORSIZE, 0);
  }

  lemma OneSectorHolder(inode: nat)
    requires inode == 257 || inode == 258
    ensures HolderTrue(Reflinked(), 0, Holder(5, inode, [OneSectorRef(inode)]))
  {
    OneSectorRefTrue(inode);
    assert Backed([OneSectorRef(inode)], 0) by { assert [OneSectorRef(inode)][0] == OneSectorRef(inode); }
  }

  /** The two files' holders. */
  ghost predicate Both(holders: seq<Holder>) {
    holders == [Holder(5, 257, [OneSectorRef(257)]), Holder(5, 258, [OneSectorRef(258)])]
  }

  lemma BothAre(holders: seq<Holder>)
    requires Both(holders)
    ensures holders[0] in holders && holders[1] in holders && Distinct(holders)
    ensures IsHolder(holders, Inode(5, 257)) && IsHolder(holders, Inode(5, 258))
    ensures forall h :: h in holders ==> h == holders[0] || h == holders[1]
  {
    assert IdOf(holders[0]) == Inode(5, 257) && IdOf(holders[1]) == Inode(5, 258);
    assert holders[0] in holders && holders[1] in holders;
  }

  lemma ReflinkedValid()
    ensures ValidDisk(Reflinked())
  {
    AlignedSum(SECTORSIZE, 0);
    assert ValidLoc(Loc(0, 0), Reflinked().extents);
    assert ValidFile(ONE_BYTE, Reflinked().extents);
  }

  lemma OneSectorWithin(id: FileId)
    requires id in Reflinked().files
    ensures forall inode :: WithinFile(Reflinked(), id, OneSectorRef(inode))
  {
    AlignedStep(0, Ceil(1));
  }

  lemma ReflinkedHeld(holders: seq<Holder>)
    requires Both(holders)
    ensures HoldersTrue(Reflinked(), 0, holders) && HoldersComplete(Reflinked(), 0, holders)
    ensures PassesGate(Reflinked(), holders)
  {
    BothAre(holders);
    ReflinkedValid();
    OneSectorHolder(257);
    OneSectorHolder(258);
    OneSectorWithin(Inode(5, 257));
    OneSectorWithin(Inode(5, 258));
  }

  /** They share a sector, they are all there is, they pass the gate, and no rewrite that
      goes through leaves them sharing. */
  lemma ReflinkedTailsPart(holders: seq<Holder>, now: Disk, table: Table)
    requires 1 < SECTORSIZE
    requires Both(holders)
    requires Rewritten(Reflinked(), now, 0, holders, table)
    ensures HoldersTrue(Reflinked(), 0, holders) && HoldersComplete(Reflinked(), 0, holders)
    ensures PassesGate(Reflinked(), holders)
    ensures Place(Reflinked(), Inode(5, 257), 0) == Place(Reflinked(), Inode(5, 258), 0)
    ensures Has(now, Inode(5, 257), 0) && Has(now, Inode(5, 258), 0)
    ensures Place(now, Inode(5, 257), 0) != Place(now, Inode(5, 258), 0)
  {
    ReflinkedHeld(holders);
    FloorIs(0, 1);
    SharingExact(Reflinked(), now, 0, holders, table, Inode(5, 257), 0, Inode(5, 258), 0);
  }

  lemma BothRefs(h: Holder, k: Holder)
    ensures AllRefs([h, k]) == h.refs + k.refs
  {
    assert [h, k][1..] == [k] && [k][1..] == [];
    assert AllRefs([k]) == k.refs + [];
  }

  lemma ReflinkedLive(holders: seq<Holder>)
    requires Both(holders)
    ensures LiveRangesOf([Range(0, SECTORSIZE)], AllRefs(holders))
  {
    var refs := [OneSectorRef(257), OneSectorRef(258)];
    BothRefs(holders[0], holders[1]);
    assert AllRefs(holders) == refs;
    forall b: nat
      ensures RangesCover([Range(0, SECTORSIZE)], b) <==> RefsCover(refs, b)
    {
      assert [Range(0, SECTORSIZE)][0].Covers(b) <==> refs[0].Covers(b);
      assert refs[0].Covers(b) <==> refs[1].Covers(b);
      assert refs[0] in refs;
    }
  }

  /** And one does go through: a kernel that does all it is asked parts the two. */
  method PartReflinked(fs: Filesystem)
    requires fs.conduct == Exact && fs.disk == Reflinked() && 1 < SECTORSIZE
    modifies fs`disk, fs`calls
    ensures old(fs.calls) <= fs.calls
    ensures Has(fs.disk, Inode(5, 257), 0) && Has(fs.disk, Inode(5, 258), 0)
    ensures Place(fs.disk, Inode(5, 257), 0) != Place(fs.disk, Inode(5, 258), 0)
  {
    var holders := [Holder(5, 257, [OneSectorRef(257)]), Holder(5, 258, [OneSectorRef(258)])];
    ReflinkedHeld(holders);
    ReflinkedLive(holders);
    var result;
    ghost var table, short;
    result, table, short := ReallocExtent(fs, 0, [Range(0, SECTORSIZE)], holders);
    ReflinkedTailsPart(holders, fs.disk, table);
  }
}
