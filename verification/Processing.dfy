/** Everything done about one extent found worth rewriting. */
module Processing {
  import opened Sectors
  import opened Sorting
  import opened Wrappers
  import opened Extents
  import opened Disks
  import opened Kernel
  import opened Planning
  import opened Rewrite
  import opened Redirect
  import opened Release

  // ----- From an extent's references to its release -----

  /** The references name every sector of the extent that any file holds. */
  ghost predicate RefsComplete(d: Disk, x: Address, refs: seq<ExtentRef>) {
    forall id, s: nat :: id in d.files && s in d.files[id].sectors && d.files[id].sectors[s].extent == x ==>
      exists r :: r in refs && FileOf(r) == id && InRef(r, s)
  }

  lemma GroupedFile(holders: seq<Holder>, refs: seq<ExtentRef>, r: ExtentRef) returns (h: Holder)
    requires Grouped(holders, refs) && r in refs
    ensures h in holders && r in h.refs && IdOf(h) == FileOf(r)
  {
    SameElements(AllRefs(holders), refs);
    InAllRefs(holders, r);
    h :| h in holders && r in h.refs;
    assert ValidHolder(h);
  }

  lemma GroupedRefs(holders: seq<Holder>, refs: seq<ExtentRef>, h: Holder, r: ExtentRef)
    requires Grouped(holders, refs) && h in holders && r in h.refs
    ensures r in refs && FileOf(r) == IdOf(h)
  {
    assert ValidHolder(h);
    InAllRefs(holders, r);
    SameElements(AllRefs(holders), refs);
  }

  /** Grouping true references by file gives true holders, one a file. */
  lemma GroupedHoldersTrue(d: Disk, x: Address, holders: seq<Holder>, refs: seq<ExtentRef>)
    requires ValidDisk(d) && x in d.extents && RefsTrue(d, x, refs) && RefsComplete(d, x, refs)
    requires Grouped(holders, refs)
    ensures HoldersTrue(d, x, holders) && HoldersComplete(d, x, holders)
  {
    forall h | h in holders
      ensures HolderTrue(d, x, h)
    {
      GroupedHolderTrue(d, x, holders, refs, h);
    }
    forall id | id in d.files && Holds(d.files[id], x)
      ensures IsHolder(holders, id)
    {
      var s :| s in d.files[id].sectors && d.files[id].sectors[s].extent == x;
      var r :| r in refs && FileOf(r) == id && InRef(r, s);
      var h := GroupedFile(holders, refs, r);
    }
  }

  lemma GroupedHolderTrue(d: Disk, x: Address, holders: seq<Holder>, refs: seq<ExtentRef>, h: Holder)
    requires RefsTrue(d, x, refs) && RefsComplete(d, x, refs) && Grouped(holders, refs) && h in holders
    ensures HolderTrue(d, x, h)
  {
    assert ValidHolder(h);
    forall r | r in h.refs
      ensures FileOf(r) == IdOf(h) && IdOf(h) in d.files && RefTrue(d.files[IdOf(h)], x, r)
    {
      GroupedRefs(holders, refs, h, r);
    }
    assert h.refs[0] in h.refs;
    forall s: nat | s in d.files[IdOf(h)].sectors && d.files[IdOf(h)].sectors[s].extent == x
      ensures Backed(h.refs, s)
    {
      var r :| r in refs && FileOf(r) == IdOf(h) && InRef(r, s);
      var k := GroupedFile(holders, refs, r);
      SameGroup(holders, h, k);
    }
  }

  lemma SameGroup(holders: seq<Holder>, h: Holder, k: Holder)
    requires GroupsAscend(holders) && h in holders && k in holders && IdOf(h) == IdOf(k)
    ensures h == k
  {
    var i :| 0 <= i < |holders| && holders[i] == h;
    var j :| 0 <= j < |holders| && holders[j] == k;
    assert i < j ==> FileOrder(h.root, h.inode, k.root, k.inode);
    assert j < i ==> FileOrder(k.root, k.inode, h.root, h.inode);
  }

  lemma GroupedLiveRanges(ranges: seq<Range>, holders: seq<Holder>, refs: seq<ExtentRef>)
    requires Grouped(holders, refs) && LiveRangesOf(ranges, refs)
    ensures LiveRangesOf(ranges, AllRefs(holders))
  {
    SameElements(AllRefs(holders), refs);
    assert forall b: nat :: RefsCover(AllRefs(holders), b) <==> RefsCover(refs, b);
  }

  // ----- Finding the holders -----

  predicate ReachesPastEnd(d: Disk, h: Holder) {
    IdOf(h) in d.files && exists r :: r in h.refs && r.FileEnd() > Ceil(d.files[IdOf(h)].size)
  }

  /** What about one holder keeps its extent from being rewritten, if anything does:
      a reason to leave it alone, or a failure. */
  function ObstacleOf(attributes: Attributes, d: Disk, h: Holder): Option<Outcome<LeftAlone>> {
    if IdOf(h) in attributes.nameless then Some(Err(Nameless))
    else if IdOf(h) in attributes.deleted then Some(Ok(Deleted))
    else if IdOf(h) in attributes.noDataCow then Some(Ok(NoDataCow))
    else if ReachesPastEnd(d, h) then Some(Ok(PastEnd))
    else None
  }

  /** Some reference goes on past a sector boundary the file does not reach beyond. */
  ghost predicate GoesPast(h: Holder, size: nat) {
    exists r, end: nat :: r in h.refs && Aligned(end) && size <= end < r.fileOffset + r.numBytes
  }

  lemma PastIsPast(d: Disk, h: Holder)
    requires IdOf(h) in d.files
    ensures ReachesPastEnd(d, h) <==> GoesPast(h, d.files[IdOf(h)].size)
  {
    var size := d.files[IdOf(h)].size;
    if ReachesPastEnd(d, h) {
      var r :| r in h.refs && r.FileEnd() > Ceil(size);
      assert Aligned(Ceil(size)) && size <= Ceil(size) < r.fileOffset + r.numBytes;
    }
    if GoesPast(h, size) {
      var r, end: nat :| r in h.refs && Aligned(end) && size <= end < r.fileOffset + r.numBytes;
      CeilLeast(end, size);
      assert r.FileEnd() > Ceil(size);
    }
  }

  /** Which obstacle it is, by what is so of the file: a name is looked for first, then
      whether it was deleted, whether it is overwritten in place, and where it ends. */
  lemma ObstacleExactly(attributes: Attributes, d: Disk, h: Holder)
    requires IdOf(h) in d.files
    ensures var o, id := ObstacleOf(attributes, d, h), IdOf(h);
      && (o == Some(Err(Nameless)) <==> id in attributes.nameless)
      && (o == Some(Ok(Deleted)) <==> id !in attributes.nameless && id in attributes.deleted)
      && (o == Some(Ok(NoDataCow)) <==>
            id !in attributes.nameless + attributes.deleted && id in attributes.noDataCow)
      && (o == Some(Ok(PastEnd)) <==>
            id !in attributes.nameless + attributes.deleted + attributes.noDataCow && GoesPast(h, d.files[id].size))
  {
    PastIsPast(d, h);
  }

  ghost predicate NoObstacle(attributes: Attributes, d: Disk, holders: seq<Holder>) {
    forall i :: 0 <= i < |holders| ==> ObstacleOf(attributes, d, holders[i]) == None
  }

  /** The first holder there is an obstacle with has this one. */
  ghost predicate FirstObstacle(attributes: Attributes, d: Disk, holders: seq<Holder>, o: Outcome<LeftAlone>) {
    exists i :: 0 <= i < |holders| && ObstacleOf(attributes, d, holders[i]) == Some(o)
      && NoObstacle(attributes, d, holders[..i])
  }

  lemma FirstIs(attributes: Attributes, d: Disk, holders: seq<Holder>, i: nat, o: Outcome<LeftAlone>)
    requires i < |holders| && ObstacleOf(attributes, d, holders[i]) == Some(o)
    requires forall j :: 0 <= j < i ==> ObstacleOf(attributes, d, holders[j]) == None
    ensures FirstObstacle(attributes, d, holders, o) && !NoObstacle(attributes, d, holders)
  {
    assert NoObstacle(attributes, d, holders[..i]);
  }

  lemma NoObstaclePasses(attributes: Attributes, d: Disk, holders: seq<Holder>)
    requires NoObstacle(attributes, d, holders) && forall h :: h in holders ==> IdOf(h) in d.files
    ensures PassesGate(d, holders)
  {
    forall h, r | h in holders && r in h.refs
      ensures WithinFile(d, IdOf(h), r)
    {
      var i :| 0 <= i < |holders| && holders[i] == h;
      assert ObstacleOf(attributes, d, holders[i]) == None;
    }
  }

  /** Goes over the holders until one of them keeps the extent from being rewritten. */
  method LocateHolders(fs: Filesystem, holders: seq<Holder>) returns (r: Outcome<Option<LeftAlone>>)
    requires forall h :: h in holders ==> IdOf(h) in fs.disk.files
    modifies fs`calls
    ensures old(fs.calls) <= fs.calls
    ensures r == Ok(None) ==> NoObstacle(fs.attributes, fs.disk, holders)
    ensures r.Ok? && r.value.Some? ==> FirstObstacle(fs.attributes, fs.disk, holders, Ok(r.value.value))
    ensures r.Err? ==> (r.error.Io? && Explains(fs.calls, |old(fs.calls)|, r.error, fs.conduct))
                       || (r.error == Nameless && FirstObstacle(fs.attributes, fs.disk, holders, Err(Nameless)))
    ensures r.Ok? && r.value.Some? ==> r.value.value in {NoDataCow, PastEnd, Deleted}
  {
    for i := 0 to |holders|
      invariant old(fs.calls) <= fs.calls
      invariant forall j :: 0 <= j < i ==> ObstacleOf(fs.attributes, fs.disk, holders[j]) == None
    {
      var id := IdOf(holders[i]);
      var named := fs.Attempt();
      if named.Err? {
        return Err(named.error);
      }
      if id in fs.attributes.nameless {
        FirstIs(fs.attributes, fs.disk, holders, i, Err(Nameless));
        return Err(Nameless);
      }
      if id in fs.attributes.deleted {
        FirstIs(fs.attributes, fs.disk, holders, i, Ok(Deleted));
        return Ok(Some(Deleted));
      }
      var open := fs.Attempt();
      if open.Err? {
        return Err(open.error);
      }
      if id in fs.attributes.noDataCow {
        FirstIs(fs.attributes, fs.disk, holders, i, Ok(NoDataCow));
        return Ok(Some(NoDataCow));
      }
      var end := RoundUp(fs.disk.files[id].size);
      if exists r :: r in holders[i].refs && r.FileEnd() > end {
        FirstIs(fs.attributes, fs.disk, holders, i, Ok(PastEnd));
        return Ok(Some(PastEnd));
      }
    }
    r := Ok(None);
  }

  /** Nothing about any file the references are of keeps their extent from being rewritten. */
  ghost predicate Clear(attributes: Attributes, d: Disk, refs: seq<ExtentRef>) {
    forall r :: r in refs ==>
      && FileOf(r) !in attributes.nameless + attributes.deleted + attributes.noDataCow
      && WithinFile(d, FileOf(r), r)
  }

  lemma ClearHolders(attributes: Attributes, d: Disk, holders: seq<Holder>, refs: seq<ExtentRef>)
    requires Grouped(holders, refs) && forall h :: h in holders ==> IdOf(h) in d.files
    ensures Clear(attributes, d, refs) <==> NoObstacle(attributes, d, holders)
  {
    if NoObstacle(attributes, d, holders) {
      forall r | r in refs
        ensures FileOf(r) !in attributes.nameless + attributes.deleted + attributes.noDataCow
        ensures WithinFile(d, FileOf(r), r)
      {
        var h := GroupedFile(holders, refs, r);
        var i :| 0 <= i < |holders| && holders[i] == h;
        assert ObstacleOf(attributes, d, holders[i]) == None;
      }
    }
    if Clear(attributes, d, refs) {
      forall i | 0 <= i < |holders|
        ensures ObstacleOf(attributes, d, holders[i]) == None
      {
        ClearHolder(attributes, d, holders, refs, holders[i]);
      }
    }
  }

  lemma ClearHolder(attributes: Attributes, d: Disk, holders: seq<Holder>, refs: seq<ExtentRef>, h: Holder)
    requires Grouped(holders, refs) && Clear(attributes, d, refs) && h in holders && IdOf(h) in d.files
    ensures ObstacleOf(attributes, d, h) == None
  {
    assert ValidHolder(h);
    assert h.refs[0] in h.refs;
    GroupedRefs(holders, refs, h, h.refs[0]);
    if ReachesPastEnd(d, h) {
      var r :| r in h.refs && r.FileEnd() > Ceil(d.files[IdOf(h)].size);
      GroupedRefs(holders, refs, h, r);
    }
  }

  /** The first file that stands in the way, going by the holders the references group into. */
  ghost predicate Obstructed(attributes: Attributes, d: Disk, refs: seq<ExtentRef>, o: Outcome<LeftAlone>) {
    exists holders :: Grouped(holders, refs) && FirstObstacle(attributes, d, holders, o)
  }

  /** What processing an extent does to the filesystem: nothing is lost, nothing is
      touched if it is left alone or this is a dry run, and if it is rewritten in earnest
      nothing refers to it any more. */
  ghost predicate Settled(was: Disk, now: Disk, x: Address, apply: bool, rewritten: bool, left: bool) {
    && Evolves(was, now, x) && now.files.Keys == was.files.Keys
    && (!apply || left ==> now == was)
    && (apply && rewritten ==> !Referenced(now, x))
  }

  /** Reallocates one extent, given every reference to it, or on a dry run does
      nothing; or says why it is left alone. A kernel that does all it is asked leaves
      alone only what a holder stands in the way of. */
  method Process(fs: Filesystem, extent: Extent, apply: bool)
    returns (r: Outcome<Option<LeftAlone>>)
    requires ValidDisk(fs.disk) && extent.diskAddress in fs.disk.extents && extent.Valid()
    requires RefsTrue(fs.disk, extent.diskAddress, extent.refs)
      && RefsComplete(fs.disk, extent.diskAddress, extent.refs)
    modifies fs`disk, fs`calls
    ensures old(fs.calls) <= fs.calls
    ensures Settled(old(fs.disk), fs.disk, extent.diskAddress, apply, r == Ok(None), r.Ok? && r.value.Some?)
    ensures r == Ok(None) ==> Clear(fs.attributes, old(fs.disk), extent.refs)
    ensures r.Ok? && r.value.Some? ==> Obstructed(fs.attributes, old(fs.disk), extent.refs, Ok(r.value.value))
    ensures fs.conduct == Exact && r.Err? ==> Obstructed(fs.attributes, old(fs.disk), extent.refs, Err(r.error))
    ensures fs.conduct == Exact ==> (r == Ok(None) <==> Clear(fs.attributes, old(fs.disk), extent.refs))
    ensures fs.conduct == Exact && r.Err? ==> r.error == Nameless
    ensures fs.conduct == Honest && AllFine(fs.calls, |old(fs.calls)|) ==>
      (r == Ok(None) <==> Clear(fs.attributes, old(fs.disk), extent.refs))
      && (r.Err? ==> r.error == Nameless && Obstructed(fs.attributes, old(fs.disk), extent.refs, Err(Nameless)))
    ensures r.Err? ==>
      || Explains(fs.calls, |old(fs.calls)|, r.error, fs.conduct)
      || (r.error == Nameless && Obstructed(fs.attributes, old(fs.disk), extent.refs, Err(Nameless)))
      || (r.error == StillHolds && fs.conduct != Exact)
    ensures r.Ok? && r.value.Some? ==> r.value.value in {NoDataCow, PastEnd, Deleted}
  {
    ghost var was, x := fs.disk, extent.diskAddress;
    EvolvesRefl(was, x);
    var found := HoldersOf(extent.refs);
    GroupedHoldersTrue(was, x, found, extent.refs);
    HoldersThere(was, x, found);
    ClearHolders(fs.attributes, was, found, extent.refs);
    var located := LocateHolders(fs, found);
    if located.Err? || located.value.Some? {
      return located;
    }
    if apply {
      NoObstaclePasses(fs.attributes, was, found);
      GroupedLiveRanges(extent.liveRanges, found, extent.refs);
      var result;
      ghost var table, short;
      result, table, short := ReallocExtent(fs, extent.diskAddress, extent.liveRanges, found);
      if result.Err? {
        return Err(result.error);
      }
      ExtentReleased(was, fs.disk, x, found, table);
    }
    r := Ok(None);
  }

  lemma HoldersThere(d: Disk, x: Address, holders: seq<Holder>)
    requires HoldersTrue(d, x, holders)
    ensures forall h :: h in holders ==> IdOf(h) in d.files
  {
    forall h | h in holders
      ensures IdOf(h) in d.files
    {
      assert HolderTrue(d, x, h);
    }
  }
}
