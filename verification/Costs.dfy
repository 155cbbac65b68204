/** How much a rewrite allocates: a sector for each one staged, and one for each tail. */
module Costs {
  import opened Sectors
  import opened Extents
  import opened Disks
  import opened Planning
  import opened Redirect
  import opened Tables
  import opened Rewrite
  import opened Realloc
  import opened Release
  import opened Sharing
  import C = Counting

  /** The sectors of the extents made since `was`. */
  ghost function Made(was: Disk, now: Disk): set<Loc> {
    set a, o | a in now.extents && a !in was.extents && 0 <= o < |now.extents[a]| && Aligned(o)
               && o + SECTORSIZE <= |now.extents[a]| :: Loc(a, o)
  }

  /** Where each holder's tail went, by the holder's place in the list. */
  ghost function TailPlaces(was: Disk, now: Disk, x: Address, holders: seq<Holder>): map<nat, Loc> {
    map i: nat | 0 <= i < |holders| && TailMoved(was, now, holders[i], x) :: TailLoc(was, now, holders[i], x)
  }

  /** The tails to move, by the holder's place in the list. */
  ghost function Tails(was: Disk, x: Address, holders: seq<Holder>): set<nat> {
    set i: nat | 0 <= i < |holders| && HasTail(was, holders[i], x)
  }

  lemma TailsAllMove(was: Disk, now: Disk, x: Address, holders: seq<Holder>, table: Table)
    requires Done(was, now, x, holders, table)
    ensures TailPlaces(was, now, x, holders).Keys == Tails(was, x, holders)
  {
    forall i: nat | i < |holders| && HasTail(was, holders[i], x)
      ensures TailMoved(was, now, holders[i], x)
    {
      var f := was.files[IdOf(holders[i])];
      var j := Goes(was, now, x, holders, table, IdOf(holders[i]), Floor(f.size));
      assert i == j;
    }
  }

  /** A sector that went to an extent the table sends nothing to is the holder's tail. */
  lemma OnlyTail(was: FileState, now: FileState, before: Disks.Extents, after: Disks.Extents, x: Address, table: Table,
                 s: nat, a: Address)
    requires ValidFile(was, before) && ValidFile(was, after) && ValidFile(now, after)
    requires Finished(was, now, before, after, x, table)
    requires s in now.sectors && now.sectors[s].extent == a && a !in before
    requires forall e :: e in table ==> table[e].extent != a
    ensures s in was.sectors && IsTail(was, s) && was.sectors[s].extent == x && a != x
  {
    assert now.sectors[s] != was.sectors[s];
  }

  /** An extent made for a tail holds that and nothing else. */
  lemma TailFills(was: Disk, now: Disk, x: Address, holders: seq<Holder>, table: Table, a: Address) returns (i: nat)
    requires Done(was, now, x, holders, table) && MadeForTail(was, now, x, holders, |holders|, a)
    requires a !in was.extents && forall e :: e in table ==> table[e].extent != a
    ensures i < |holders| && TailMoved(was, now, holders[i], x) && TailLoc(was, now, holders[i], x) == Loc(a, 0)
    ensures a in now.extents && |now.extents[a]| == SECTORSIZE
  {
    i :| 0 <= i < |holders| && TailOf(was, now, x, holders[i], a);
    var id, h := IdOf(holders[i]), holders[i];
    LetGo(was, now, x, holders, table, i);
    OnlyTail(was.files[id], now.files[id], was.extents, now.extents, x, table, Floor(was.files[id].size), a);
  }

  lemma LetGo(was: Disk, now: Disk, x: Address, holders: seq<Holder>, table: Table, i: nat)
    requires Done(was, now, x, holders, table) && i < |holders|
    ensures HolderFinished(was, now, x, holders[i], table) && !Holds(now.files[IdOf(holders[i])], x)
    ensures ValidFile(was.files[IdOf(holders[i])], was.extents)
  {
    assert holders[i] in holders;
  }

  /** Where a tail went is the first sector of an extent of one. */
  lemma TailInMade(was: Disk, now: Disk, x: Address, holders: seq<Holder>, table: Table, i: nat)
    requires Done(was, now, x, holders, table) && Purposed(was, now, x, holders, table)
    requires i < |holders| && TailMoved(was, now, holders[i], x)
    ensures TailLoc(was, now, holders[i], x) in Made(was, now)
  {
    var l := TailLoc(was, now, holders[i], x);
    TailNew(was, now, x, holders, table, i);
    LetGo(was, now, x, holders, table, i);
    assert l.extent in now.extents;
    var j := TailFills(was, now, x, holders, table, l.extent);
    if i != j {
      TailsDiffer(was, now, x, holders, table, i, j);
    }
    FirstInMade(was, now, l.extent);
  }

  lemma FirstInMade(was: Disk, now: Disk, a: Address)
    requires a in now.extents && a !in was.extents && |now.extents[a]| == SECTORSIZE
    ensures Loc(a, 0) in Made(was, now)
  {
  }

  lemma StagedInMade(was: Disk, now: Disk, x: Address, holders: seq<Holder>, table: Table, e: nat)
    requires Done(was, now, x, holders, table) && e in table
    ensures table[e] in Made(was, now)
  {
    assert ValidLoc(table[e], now.extents);
  }

  /** Every sector made is one a live sector was staged in, or one a tail went to. */
  lemma MadeFor(was: Disk, now: Disk, x: Address, holders: seq<Holder>, table: Table, l: Loc)
    requires Done(was, now, x, holders, table) && Purposed(was, now, x, holders, table) && l in Made(was, now)
    ensures l in C.Image(table) || l in C.Image(TailPlaces(was, now, x, holders))
  {
    if e :| e in table && table[e].extent == l.extent {
      assert Hits(table, l);
    } else {
      var i := TailFills(was, now, x, holders, table, l.extent);
      assert TailPlaces(was, now, x, holders)[i] == l;
    }
  }

  lemma PlacesOneToOne(was: Disk, now: Disk, x: Address, holders: seq<Holder>, table: Table)
    requires TailsAlone(was, now, x, holders, table)
    ensures C.Injective(TailPlaces(was, now, x, holders))
    ensures C.Image(table) !! C.Image(TailPlaces(was, now, x, holders))
  {
    var places := TailPlaces(was, now, x, holders);
    forall i, j | i in places && j in places && places[i] == places[j]
      ensures i == j
    {
      if i != j {
        TailsDiffer(was, now, x, holders, table, i, j);
      }
    }
    forall i | i in places
      ensures places[i] !in C.Image(table)
    {
      TailNew(was, now, x, holders, table, i);
    }
  }

  lemma MadeIs(was: Disk, now: Disk, x: Address, holders: seq<Holder>, table: Table)
    requires Done(was, now, x, holders, table) && Purposed(was, now, x, holders, table)
    ensures Made(was, now) == C.Image(table) + C.Image(TailPlaces(was, now, x, holders))
  {
    var places := TailPlaces(was, now, x, holders);
    forall l | l in Made(was, now)
      ensures l in C.Image(table) + C.Image(places)
    {
      MadeFor(was, now, x, holders, table, l);
    }
    forall l | l in C.Image(table)
      ensures l in Made(was, now)
    {
      var e := C.ImageHas(table, l);
      StagedInMade(was, now, x, holders, table, e);
    }
    forall l | l in C.Image(places)
      ensures l in Made(was, now)
    {
      var i := C.ImageHas(places, l);
      TailInMade(was, now, x, holders, table, i);
    }
  }

  /** What a rewrite allocates, to the sector: as many as the table has, and one for each
      part of a sector that a holder ended in. */
  lemma MadeExactly(was: Disk, now: Disk, x: Address, holders: seq<Holder>, table: Table)
    requires Done(was, now, x, holders, table) && Purposed(was, now, x, holders, table)
    ensures |Made(was, now)| == |table| + |Tails(was, x, holders)|
  {
    var places := TailPlaces(was, now, x, holders);
    MadeIs(was, now, x, holders, table);
    TailsAllMove(was, now, x, holders, table);
    PlacesOneToOne(was, now, x, holders, table);
    assert C.Injective(table);
    C.BothImages(table, places);
    assert |places| == |places.Keys|;
  }

  /** The sectors of the extent that some reference covers. */
  ghost function Live(was: Disk, x: Address, holders: seq<Holder>): set<nat>
    requires x in was.extents
  {
    set e: nat | 0 <= e < |was.extents[x]| && Aligned(e) && RefsCover(AllRefs(holders), e)
  }

  /** Where in the extent a holder's tail was. */
  ghost function TailOffsets(was: Disk, x: Address, holders: seq<Holder>): map<nat, nat> {
    map i | i in Tails(was, x, holders) ::
      was.files[IdOf(holders[i])].sectors[Floor(was.files[IdOf(holders[i])].size)].offset
  }

  /** The sector a reference stands for, through which it covers this one of the extent. */
  lemma SectorCovering(r: ExtentRef, e: nat) returns (s: nat)
    requires ValidRef(r) && Aligned(e) && r.Covers(e)
    ensures InRef(r, s) && r.extentOffset + (s - r.fileOffset) == e
  {
    AlignedDifference(r.extentOffset, e);
    AlignedSum(r.fileOffset, e - r.extentOffset);
    s := r.fileOffset + (e - r.extentOffset);
  }

  lemma LiveHeld(was: Disk, x: Address, holders: seq<Holder>, e: nat) returns (id: FileId, s: nat)
    requires HoldersTrue(was, x, holders) && e in Live(was, x, holders)
    ensures IsHolder(holders, id) && Has(was, id, s) && Place(was, id, s) == Loc(x, e)
  {
    var r :| r in AllRefs(holders) && r.Covers(e);
    InAllRefs(holders, r);
    var h :| h in holders && r in h.refs;
    assert HolderTrue(was, x, h);
    assert RefTrue(was.files[IdOf(h)], x, r);
    s := SectorCovering(r, e);
    id := IdOf(h);
  }

  lemma TailOffsetOf(was: Disk, x: Address, holders: seq<Holder>, i: nat, s: nat)
    requires i < |holders| && PartTail(was, IdOf(holders[i]), s, x)
    ensures Place(was, IdOf(holders[i]), s).offset in C.Image(TailOffsets(was, x, holders))
  {
    assert TailOffsets(was, x, holders)[i] == Place(was, IdOf(holders[i]), s).offset;
  }

  /** A live sector that was not staged is one some holder ends in. */
  lemma LiveGoes(was: Disk, now: Disk, x: Address, holders: seq<Holder>, table: Table, e: nat)
    requires Done(was, now, x, holders, table) && e in Live(was, x, holders)
    ensures e in table.Keys + C.Image(TailOffsets(was, x, holders))
  {
    var id, s := LiveHeld(was, x, holders, e);
    var i := Goes(was, now, x, holders, table, id, s);
    if PartTail(was, id, s, x) {
      TailOffsetOf(was, x, holders, i, s);
    }
  }

  lemma RefCovers(f: FileState, x: Address, r: ExtentRef, s: nat)
    requires RefTrue(f, x, r) && InRef(r, s)
    ensures s in f.sectors && r.Covers(f.sectors[s].offset)
  {
  }

  /** The reference through which the holder has its sector. */
  lemma HeldThrough(was: Disk, x: Address, holders: seq<Holder>, h: Holder, s: nat) returns (r: ExtentRef)
    requires HoldersTrue(was, x, holders) && h in holders && Has(was, IdOf(h), s) && Place(was, IdOf(h), s).extent == x
    ensures r in AllRefs(holders) && r.Covers(Place(was, IdOf(h), s).offset)
  {
    assert HolderTrue(was, x, h);
    assert Backed(h.refs, s);
    r :| r in h.refs && InRef(r, s);
    RefCovers(was.files[IdOf(h)], x, r, s);
    InAllRefs(holders, r);
  }

  lemma SectorThere(d: Disk, id: FileId, s: nat)
    requires ValidDisk(d) && Has(d, id, s)
    ensures ValidLoc(Place(d, id, s), d.extents)
  {
    assert ValidFile(d.files[id], d.extents);
  }

  lemma HeldLive(was: Disk, x: Address, holders: seq<Holder>, h: Holder, s: nat)
    requires HoldersTrue(was, x, holders) && h in holders && Has(was, IdOf(h), s) && Place(was, IdOf(h), s).extent == x
    ensures Place(was, IdOf(h), s).offset in Live(was, x, holders)
  {
    var r := HeldThrough(was, x, holders, h, s);
    SectorThere(was, IdOf(h), s);
    assert RefsCover(AllRefs(holders), Place(was, IdOf(h), s).offset);
  }

  /** The live sectors are those staged and those some holder ends in. */
  lemma LiveIs(was: Disk, now: Disk, x: Address, holders: seq<Holder>, table: Table)
    requires Done(was, now, x, holders, table)
    ensures Live(was, x, holders) == table.Keys + C.Image(TailOffsets(was, x, holders))
  {
    var offsets := TailOffsets(was, x, holders);
    forall e | e in Live(was, x, holders)
      ensures e in table.Keys + C.Image(offsets)
    {
      LiveGoes(was, now, x, holders, table, e);
    }
    forall e | e in table
      ensures e in Live(was, x, holders)
    {
      var h, s := ReaderOf(was, x, holders, e);
      HeldLive(was, x, holders, h, s);
    }
    forall e | e in C.Image(offsets)
      ensures e in Live(was, x, holders)
    {
      var i := C.ImageHas(offsets, e);
      HeldLive(was, x, holders, holders[i], Floor(was.files[IdOf(holders[i])].size));
    }
  }

  lemma KeysAndImage(keys: set<nat>, offsets: map<nat, nat>, live: set<nat>, made: nat)
    requires live == keys + C.Image(offsets) && made == |keys| + |offsets|
    ensures |live| <= made
    ensures |live| == made <==> C.Injective(offsets) && keys !! C.Image(offsets)
  {
    C.ImageSmaller(offsets);
    assert keys + C.Image(offsets) == keys + (C.Image(offsets) - keys);
    assert C.Image(offsets) == (C.Image(offsets) - keys) + (C.Image(offsets) * keys);
    if !C.Injective(offsets) {
      var a, b :| a in offsets && b in offsets && offsets[a] == offsets[b] && a != b;
      C.RepeatedShrinks(offsets, a, b);
    }
  }

  /** So no less is allocated than is live; and no more exactly if no two holders end in
      one sector of the extent, nor one where another reads on. */
  lemma MadeCoversLive(was: Disk, now: Disk, x: Address, holders: seq<Holder>, table: Table)
    requires Done(was, now, x, holders, table) && Purposed(was, now, x, holders, table)
    ensures |Live(was, x, holders)| <= |Made(was, now)|
    ensures |Live(was, x, holders)| == |Made(was, now)| <==>
      C.Injective(TailOffsets(was, x, holders)) && table.Keys !! C.Image(TailOffsets(was, x, holders))
  {
    LiveIs(was, now, x, holders, table);
    MadeExactly(was, now, x, holders, table);
    OffsetsSize(was, x, holders);
    assert |table| == |table.Keys|;
    KeysAndImage(table.Keys, TailOffsets(was, x, holders), Live(was, x, holders), |Made(was, now)|);
  }

  lemma OffsetsSize(was: Disk, x: Address, holders: seq<Holder>)
    ensures |TailOffsets(was, x, holders)| == |Tails(was, x, holders)|
  {
    assert TailOffsets(was, x, holders).Keys == Tails(was, x, holders);
  }

  // ----- In bytes -----

  /** The length of `n` sectors. */
  function Length(n: nat): nat {
    if n == 0 then 0 else SECTORSIZE + Length(n - 1)
  }

  lemma {:induction false} LengthIs(n: nat)
    ensures Length(n) == SECTORSIZE * n
  {
    if n == 0 {
    } else {
      LengthIs(n - 1);
      assert SECTORSIZE * n == SECTORSIZE * (n - 1) + SECTORSIZE;
    }
  }

  /** `Floor`, as the sector a byte is in. */
  function SectorOf(b: nat): nat {
    Floor(b)
  }

  /** The bytes are those of the sectors. */
  ghost predicate BytesIn(bytes: set<nat>, sectors: set<nat>) {
    forall b: nat :: b in bytes <==> SectorOf(b) in sectors
  }

  ghost predicate AllAligned(sectors: set<nat>) {
    forall e {:trigger e in sectors} :: e in sectors ==> Aligned(e)
  }

  lemma InSector(e: nat, b: nat)
    requires Aligned(e)
    ensures e <= b < e + SECTORSIZE <==> SectorOf(b) == e
  {
    if e <= b < e + SECTORSIZE {
      FloorIs(e, b);
    }
  }

  /** The bytes of one sector. */
  lemma OneSectorBytes(e: nat) returns (these: set<nat>)
    requires Aligned(e)
    ensures BytesIn(these, {e}) && |these| == SECTORSIZE
  {
    these := Interval(e, e + SECTORSIZE);
    IntervalSize(e, e + SECTORSIZE);
    forall b: nat
      ensures b in these <==> SectorOf(b) == e
    {
      InSector(e, b);
    }
  }

  lemma BytesWithout(bytes: set<nat>, sectors: set<nat>, e: nat, these: set<nat>)
    requires BytesIn(bytes, sectors) && e in sectors && BytesIn(these, {e})
    ensures BytesIn(bytes - these, sectors - {e}) && |bytes| == |bytes - these| + |these|
  {
    forall b | b in these
      ensures b in bytes
    {
      assert SectorOf(b) in {e};
    }
    assert bytes == (bytes - these) + these;
  }

  lemma OneMore(n: nat, rest: nat, m: nat, all: nat)
    requires rest == Length(n) && m == n + 1 && all == rest + SECTORSIZE
    ensures all == Length(m)
  {
  }

  lemma {:induction false} SectorBytes(bytes: set<nat>, sectors: set<nat>)
    requires BytesIn(bytes, sectors) && AllAligned(sectors)
    ensures |bytes| == Length(|sectors|)
    decreases |sectors|
  {
    if sectors == {} {
      assert bytes == {};
    } else {
      var e :| e in sectors;
      var these := OneSectorBytes(e);
      BytesWithout(bytes, sectors, e, these);
      SectorBytes(bytes - these, sectors - {e});
      OneMore(|sectors - {e}|, |bytes - these|, |sectors|, |bytes|);
    }
  }

  lemma CoversSector(r: ExtentRef, b: nat)
    requires ValidRef(r)
    ensures r.Covers(b) <==> r.Covers(Floor(b))
  {
    AlignedSum(r.extentOffset, r.numBytes);
    if r.extentOffset <= b {
      FloorGreatest(r.extentOffset, b);
    }
    if Floor(b) < r.ExtentEnd() {
      AlignedStep(Floor(b), r.ExtentEnd());
    }
  }

  lemma LiveSector(was: Disk, x: Address, holders: seq<Holder>, b: nat)
    requires HoldersTrue(was, x, holders)
    ensures RefsCover(AllRefs(holders), b) <==> Floor(b) in Live(was, x, holders)
  {
    AllRefsTrue(was, x, holders);
    if r :| r in AllRefs(holders) && r.Covers(b) {
      assert RefTrue(was.files[FileOf(r)], x, r);
      CoversSector(r, b);
      var s := SectorCovering(r, Floor(b));
      assert ValidFile(was.files[FileOf(r)], was.extents);
    }
    if r :| r in AllRefs(holders) && r.Covers(Floor(b)) {
      assert RefTrue(was.files[FileOf(r)], x, r);
      CoversSector(r, b);
    }
  }

  /** What the report counts as copied is never more than was allocated, and falls short
      by a sector for each tail that shared one. */
  lemma CopiedIsNoMore(was: Disk, now: Disk, x: Address, holders: seq<Holder>, table: Table, ranges: seq<Range>)
    requires Done(was, now, x, holders, table) && Purposed(was, now, x, holders, table)
    requires LiveRangesOf(ranges, AllRefs(holders))
    ensures LiveBytes(ranges) == SECTORSIZE * |Live(was, x, holders)| <= SECTORSIZE * |Made(was, now)|
  {
    LiveBytesCount(ranges);
    forall b: nat
      ensures b in Covered(ranges) <==> SectorOf(b) in Live(was, x, holders)
    {
      CoveredMeaning(ranges, b);
      LiveSector(was, x, holders, b);
    }
    SectorBytes(Covered(ranges), Live(was, x, holders));
    LengthIs(|Live(was, x, holders)|);
    MadeCoversLive(was, now, x, holders, table);
    Product(|Live(was, x, holders)|, |Made(was, now)|, SECTORSIZE);
  }
}
