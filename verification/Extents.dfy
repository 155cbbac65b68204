/** One extent, every reference to it, and how much of it is still live. */
module Extents {
  import opened Sorting
  import opened Wrappers

  /** What a file extent item says, with the generation of the leaf it was in. */
  datatype ExtentRef = ExtentRef(
    root: nat,
    inode: nat,
    diskAddress: nat,
    diskBytes: nat,
    uncompressedBytes: nat,
    fileOffset: nat,
    extentOffset: nat,
    numBytes: nat,
    leafGeneration: nat)
  {
    /** Where in the extent the reference ends. */
    function ExtentEnd(): nat { extentOffset + numBytes }

    /** Where in the file the reference ends. */
    function FileEnd(): nat { fileOffset + numBytes }

    predicate Covers(b: nat) { extentOffset <= b < ExtentEnd() }
  }

  /** A file, by its subvolume and inode, and some references of its own. */
  datatype Holder = Holder(root: nat, inode: nat, refs: seq<ExtentRef>)

  datatype Range = Range(start: nat, end: nat)
  {
    predicate Covers(b: nat) { start <= b < end }

    function Size(): nat { if start <= end then end - start else 0 }
  }

  ghost predicate RefsCover(refs: seq<ExtentRef>, b: nat) {
    exists r :: r in refs && r.Covers(b)
  }

  ghost predicate RangesCover(ranges: seq<Range>, b: nat) {
    exists i :: 0 <= i < |ranges| && ranges[i].Covers(b)
  }

  ghost predicate NonEmptyRefs(refs: seq<ExtentRef>) {
    forall r :: r in refs ==> 0 < r.numBytes
  }

  /** Non-empty stretches, in order, with a gap between each and the next. */
  ghost predicate Merged(ranges: seq<Range>) {
    && (forall i :: 0 <= i < |ranges| ==> ranges[i].start < ranges[i].end)
    && (forall i, j :: 0 <= i < j < |ranges| ==> ranges[i].end < ranges[j].start)
  }

  /** The live ranges of `refs`: the merged stretches that cover what they cover. */
  ghost predicate LiveRangesOf(ranges: seq<Range>, refs: seq<ExtentRef>) {
    && Merged(ranges)
    && forall b: nat :: RangesCover(ranges, b) <==> RefsCover(refs, b)
  }

  predicate RangeOrder(a: Range, b: Range) {
    a.start < b.start || (a.start == b.start && a.end <= b.end)
  }

  function RefRange(r: ExtentRef): Range {
    Range(r.extentOffset, r.ExtentEnd())
  }

  /** The canonical cover of the references, whatever order they come in. */
  method LiveRanges(refs: seq<ExtentRef>) returns (merged: seq<Range>)
    requires NonEmptyRefs(refs)
    ensures LiveRangesOf(merged, refs)
  {
    var unsorted := seq(|refs|, i requires 0 <= i < |refs| => RefRange(refs[i]));
    var ranges := SortUnstable(unsorted, RangeOrder);
    SameCover(refs, unsorted, ranges);
    InOrder(refs, unsorted, ranges);
    merged := MergeSorted(ranges);
  }

  ghost predicate Ascending(ranges: seq<Range>) {
    && (forall i :: 0 <= i < |ranges| ==> ranges[i].start < ranges[i].end)
    && (forall i, j :: 0 <= i < j < |ranges| ==> ranges[i].start <= ranges[j].start)
  }

  method MergeSorted(ranges: seq<Range>) returns (merged: seq<Range>)
    requires Ascending(ranges)
    ensures Merged(merged)
    ensures forall b: nat :: RangesCover(merged, b) <==> RangesCover(ranges, b)
  {
    merged := [];
    for i := 0 to |ranges|
      invariant Merged(merged)
      invariant forall b: nat :: RangesCover(merged, b) <==> RangesCover(ranges[..i], b)
      invariant merged != [] ==> 0 < i && merged[|merged| - 1].start <= ranges[i - 1].start
    {
      ghost var before := merged;
      var range := ranges[i];
      if merged != [] && range.start <= merged[|merged| - 1].end {
        var last := merged[|merged| - 1];
        var end := if last.end < range.end then range.end else last.end;
        merged := merged[|merged| - 1 := Range(last.start, end)];
      } else {
        merged := merged + [range];
      }
      MergeStep(before, merged, range);
      forall b: nat
        ensures RangesCover(merged, b) <==> RangesCover(ranges[..i + 1], b)
      {
        CoverAppend(ranges[..i], range, b);
        assert ranges[..i + 1] == ranges[..i] + [range];
      }
    }
    assert ranges[..|ranges|] == ranges;
  }

  /** What one step of the merge does to the covered bytes. */
  lemma MergeStep(before: seq<Range>, after: seq<Range>, range: Range)
    requires before != [] ==> before[|before| - 1].start <= range.start
    requires
      if before != [] && range.start <= before[|before| - 1].end then
        var last := before[|before| - 1];
        after == before[|before| - 1 := Range(last.start, if last.end < range.end then range.end else last.end)]
      else
        after == before + [range]
    ensures forall b: nat :: RangesCover(after, b) <==> RangesCover(before, b) || range.Covers(b)
  {
    forall b: nat
      ensures RangesCover(after, b) <==> RangesCover(before, b) || range.Covers(b)
    {
      if before != [] && range.start <= before[|before| - 1].end {
        var prefix := before[..|before| - 1];
        assert before == prefix + [before[|before| - 1]];
        assert after == prefix + [after[|after| - 1]];
        CoverAppend(prefix, before[|before| - 1], b);
        CoverAppend(prefix, after[|after| - 1], b);
      } else {
        CoverAppend(before, range, b);
      }
    }
  }

  lemma InOrder(refs: seq<ExtentRef>, unsorted: seq<Range>, ranges: seq<Range>)
    requires NonEmptyRefs(refs)
    requires |unsorted| == |refs| && forall i :: 0 <= i < |refs| ==> unsorted[i] == RefRange(refs[i])
    requires multiset(unsorted) == multiset(ranges) && Sorted(ranges, RangeOrder)
    ensures Ascending(ranges)
  {
    SameElements(unsorted, ranges);
    forall i | 0 <= i < |ranges|
      ensures ranges[i].start < ranges[i].end
    {
      assert ranges[i] in unsorted;
      var j :| 0 <= j < |unsorted| && unsorted[j] == ranges[i];
      assert refs[j] in refs;
    }
    forall i, j | 0 <= i < j < |ranges|
      ensures ranges[i].start <= ranges[j].start
    {
      assert RangeOrder(ranges[i], ranges[j]);
    }
  }

  lemma CoverAppend(ranges: seq<Range>, r: Range, b: nat)
    ensures RangesCover(ranges + [r], b) <==> RangesCover(ranges, b) || r.Covers(b)
  {
    var all := ranges + [r];
    if RangesCover(ranges, b) {
      var i :| 0 <= i < |ranges| && ranges[i].Covers(b);
      assert all[i].Covers(b);
    }
    if r.Covers(b) {
      assert all[|ranges|].Covers(b);
    }
    if RangesCover(all, b) {
      var i :| 0 <= i < |all| && all[i].Covers(b);
      assert i < |ranges| ==> ranges[i].Covers(b);
    }
  }

  lemma SameCover(refs: seq<ExtentRef>, unsorted: seq<Range>, ranges: seq<Range>)
    requires |unsorted| == |refs| && forall i :: 0 <= i < |refs| ==> unsorted[i] == RefRange(refs[i])
    requires multiset(unsorted) == multiset(ranges)
    ensures forall b: nat :: RangesCover(ranges, b) <==> RefsCover(refs, b)
  {
    SameElements(unsorted, ranges);
    forall b: nat
      ensures RangesCover(ranges, b) <==> RefsCover(refs, b)
    {
      if RangesCover(ranges, b) {
        var i :| 0 <= i < |ranges| && ranges[i].Covers(b);
        assert ranges[i] in unsorted;
        var j :| 0 <= j < |unsorted| && unsorted[j] == ranges[i];
        assert refs[j] in refs && refs[j].Covers(b);
      }
      if RefsCover(refs, b) {
        var r :| r in refs && r.Covers(b);
        var j :| 0 <= j < |refs| && refs[j] == r;
        assert unsorted[j] in ranges;
        var i :| 0 <= i < |ranges| && ranges[i] == unsorted[j];
        assert ranges[i].Covers(b);
      }
    }
  }

  // ----- The result of merging is the only one there is -----

  lemma FirstStart(ranges: seq<Range>, b: nat)
    requires Merged(ranges) && ranges != [] && RangesCover(ranges, b)
    ensures ranges[0].start <= b
  {
  }

  lemma FirstGap(ranges: seq<Range>)
    requires Merged(ranges) && ranges != []
    ensures RangesCover(ranges, ranges[0].start)
    ensures !RangesCover(ranges, ranges[0].end)
    ensures forall b :: ranges[0].Covers(b) ==> RangesCover(ranges, b)
  {
    assert ranges[0].Covers(ranges[0].start);
  }

  lemma CoverTail(ranges: seq<Range>, b: nat)
    requires Merged(ranges) && ranges != []
    ensures RangesCover(ranges[1..], b) <==> RangesCover(ranges, b) && !ranges[0].Covers(b)
  {
    var tail := ranges[1..];
    if RangesCover(tail, b) {
      var i :| 0 <= i < |tail| && tail[i].Covers(b);
      assert ranges[i + 1].Covers(b);
    }
    if RangesCover(ranges, b) && !ranges[0].Covers(b) {
      var i :| 0 <= i < |ranges| && ranges[i].Covers(b);
      assert tail[i - 1].Covers(b);
    }
  }

  /** Merging is canonical: two merged lists covering the same bytes are the
      same list, whatever order the references came in. */
  lemma {:induction false} MergedUnique(a: seq<Range>, b: seq<Range>)
    requires Merged(a) && Merged(b)
    requires forall x: nat :: RangesCover(a, x) <==> RangesCover(b, x)
    ensures a == b
  {
    if a == [] && b == [] {
    } else if a == [] {
      FirstGap(b);
    } else if b == [] {
      FirstGap(a);
    } else {
      FirstGap(a);
      FirstGap(b);
      FirstStart(a, b[0].start);
      FirstStart(b, a[0].start);
      assert !a[0].Covers(b[0].end) && !b[0].Covers(a[0].end);
      assert a[0] == b[0];
      forall x: nat
        ensures RangesCover(a[1..], x) <==> RangesCover(b[1..], x)
      {
        CoverTail(a, x);
        CoverTail(b, x);
      }
      MergedUnique(a[1..], b[1..]);
      assert a == [a[0]] + a[1..] && b == [b[0]] + b[1..];
    }
  }

  /** The live ranges depend on which references there are, not on their order, or
      on how often each comes up. */
  lemma LiveRangesOrderIndependent(a: seq<Range>, b: seq<Range>, refs: seq<ExtentRef>, shuffled: seq<ExtentRef>)
    requires forall r :: r in refs <==> r in shuffled
    requires LiveRangesOf(a, refs) && LiveRangesOf(b, shuffled)
    ensures a == b
  {
    assert forall x: nat :: RefsCover(refs, x) <==> RefsCover(shuffled, x);
    MergedUnique(a, b);
  }

  // ----- Live bytes -----

  /** Uncompressed bytes still referenced, counted once. */
  function LiveBytes(ranges: seq<Range>): nat {
    if ranges == [] then 0 else ranges[0].Size() + LiveBytes(ranges[1..])
  }

  function Interval(start: nat, end: nat): (s: set<nat>)
    ensures forall b :: b in s <==> start <= b < end
    decreases end - start
  {
    if end <= start then {} else {start} + Interval(start + 1, end)
  }

  lemma {:induction false} IntervalSize(start: nat, end: nat)
    requires start <= end
    ensures |Interval(start, end)| == end - start
    decreases end - start
  {
    if end <= start {
    } else {
      IntervalSize(start + 1, end);
    }
  }

  function Covered(ranges: seq<Range>): set<nat> {
    if ranges == [] then {} else Interval(ranges[0].start, ranges[0].end) + Covered(ranges[1..])
  }

  lemma {:induction false} CoveredMeaning(ranges: seq<Range>, b: nat)
    ensures b in Covered(ranges) <==> RangesCover(ranges, b)
  {
    if ranges == [] {
    } else {
      CoveredMeaning(ranges[1..], b);
      if RangesCover(ranges[1..], b) {
        var i :| 0 <= i < |ranges| - 1 && ranges[1..][i].Covers(b);
        assert ranges[i + 1].Covers(b);
      }
      if RangesCover(ranges, b) {
        var i :| 0 <= i < |ranges| && ranges[i].Covers(b);
        assert i == 0 || ranges[1..][i - 1].Covers(b);
      }
      if ranges[0].Covers(b) {
        assert RangesCover(ranges, b);
      }
    }
  }

  /** Live bytes are the size of the covered set. */
  lemma {:induction false} LiveBytesCount(ranges: seq<Range>)
    requires Merged(ranges)
    ensures LiveBytes(ranges) == |Covered(ranges)|
  {
    if ranges == [] {
    } else {
      LiveBytesCount(ranges[1..]);
      IntervalSize(ranges[0].start, ranges[0].end);
      forall b | b in Covered(ranges[1..])
        ensures b !in Interval(ranges[0].start, ranges[0].end)
      {
        CoveredMeaning(ranges[1..], b);
        CoverTail(ranges, b);
      }
    }
  }

  lemma {:induction false} SubsetSize(a: set<nat>, b: set<nat>)
    requires a <= b
    ensures |a| <= |b|
  {
    if a == {} {
    } else {
      var x :| x in a;
      SubsetSize(a - {x}, b - {x});
    }
  }

  /** More references never leave fewer live bytes. */
  lemma LiveBytesMonotone(a: seq<Range>, b: seq<Range>, fewer: seq<ExtentRef>, more: seq<ExtentRef>)
    requires LiveRangesOf(a, fewer) && LiveRangesOf(b, more)
    requires forall r :: r in fewer ==> r in more
    ensures LiveBytes(a) <= LiveBytes(b)
  {
    LiveBytesCount(a);
    LiveBytesCount(b);
    forall x | x in Covered(a)
      ensures x in Covered(b)
    {
      CoveredMeaning(a, x);
      CoveredMeaning(b, x);
      assert RefsCover(fewer, x);
      var r :| r in fewer && r.Covers(x);
      assert r in more;
    }
    SubsetSize(Covered(a), Covered(b));
  }

  // ----- Holders -----

  function AllRefs(holders: seq<Holder>): seq<ExtentRef> {
    if holders == [] then [] else holders[0].refs + AllRefs(holders[1..])
  }

  lemma {:induction false} InAllRefs(holders: seq<Holder>, r: ExtentRef)
    ensures r in AllRefs(holders) <==> exists h :: h in holders && r in h.refs
  {
    if holders == [] {
    } else {
      InAllRefs(holders[1..], r);
      assert forall h :: h in holders <==> h == holders[0] || h in holders[1..];
    }
  }

  lemma {:induction false} AllRefsAppend(a: seq<Holder>, b: seq<Holder>)
    ensures AllRefs(a + b) == AllRefs(a) + AllRefs(b)
  {
    if a == [] {
      assert a + b == b;
    } else {
      AllRefsAppend(a[1..], b);
      var all := a + b;
      assert all[1..] == a[1..] + b;
      assert AllRefs(all) == all[0].refs + AllRefs(all[1..]);
    }
  }

  lemma {:induction false} AllRefsOne(h: Holder)
    ensures AllRefs([h]) == h.refs
  {
    assert AllRefs([h][1..]) == [];
  }

  predicate SameFile(h: Holder, r: ExtentRef) {
    h.root == r.root && h.inode == r.inode
  }

  predicate FileOrder(root: nat, inode: nat, otherRoot: nat, otherInode: nat) {
    root < otherRoot || (root == otherRoot && inode < otherInode)
  }

  /** By subvolume, then inode, then file offset. */
  predicate HolderOrder(a: ExtentRef, b: ExtentRef) {
    || FileOrder(a.root, a.inode, b.root, b.inode)
    || (a.root == b.root && a.inode == b.inode && a.fileOffset <= b.fileOffset)
  }

  ghost predicate InFileOrder(refs: seq<ExtentRef>) {
    forall i, j :: 0 <= i < j < |refs| ==> refs[i].fileOffset <= refs[j].fileOffset
  }

  /** Not empty, all of one file, and sorted by where they start in it. */
  ghost predicate ValidHolder(h: Holder) {
    h.refs != [] && InFileOrder(h.refs) && forall r :: r in h.refs ==> SameFile(h, r)
  }

  ghost predicate GroupsAscend(holders: seq<Holder>) {
    && (forall h :: h in holders ==> ValidHolder(h))
    && (forall i, j :: 0 <= i < j < |holders| ==>
          FileOrder(holders[i].root, holders[i].inode, holders[j].root, holders[j].inode))
  }

  /** The references of `refs`, every one in the group of its file, a group a file. */
  ghost predicate Grouped(holders: seq<Holder>, refs: seq<ExtentRef>) {
    GroupsAscend(holders) && multiset(AllRefs(holders)) == multiset(refs)
  }

  ghost predicate LastHolds(holders: seq<Holder>, r: ExtentRef) {
    && holders != []
    && SameFile(holders[|holders| - 1], r)
    && holders[|holders| - 1].refs != []
    && holders[|holders| - 1].refs[|holders[|holders| - 1].refs| - 1] == r
  }

  lemma {:induction false} GroupsSorted(holders: seq<Holder>)
    requires GroupsAscend(holders)
    ensures Sorted(AllRefs(holders), HolderOrder)
  {
    if holders == [] {
      assert AllRefs(holders) == [];
    } else {
      var first, rest := holders[0], holders[1..];
      assert forall h :: h in rest ==> h in holders;
      GroupsSorted(rest);
      assert ValidHolder(first);
      forall r, q | r in first.refs && q in AllRefs(rest)
        ensures HolderOrder(r, q)
      {
        InAllRefs(rest, q);
        var h :| h in rest && q in h.refs;
        var i :| 0 <= i < |rest| && rest[i] == h;
        assert ValidHolder(h) && holders[i + 1] == h;
      }
      forall i, j | 0 <= i < j < |AllRefs(holders)|
        ensures HolderOrder(AllRefs(holders)[i], AllRefs(holders)[j])
      {
        var n := |first.refs|;
        assert AllRefs(holders) == first.refs + AllRefs(rest);
        if n <= i {
          assert HolderOrder(AllRefs(rest)[i - n], AllRefs(rest)[j - n]);
        } else if j < n {
          assert SameFile(first, first.refs[i]) && SameFile(first, first.refs[j]);
        }
      }
    }
  }

  /** The first group of each is as long as its file's references go on. */
  lemma {:induction false} FirstGroup(a: seq<Holder>, b: seq<Holder>)
    requires GroupsAscend(a) && GroupsAscend(b) && a != [] && b != [] && AllRefs(a) == AllRefs(b)
    ensures |a[0].refs| <= |b[0].refs| && a[0].root == b[0].root && a[0].inode == b[0].inode
  {
    var all, m, n := AllRefs(a), |a[0].refs|, |b[0].refs|;
    assert all == a[0].refs + AllRefs(a[1..]) && all == b[0].refs + AllRefs(b[1..]);
    assert ValidHolder(a[0]) && ValidHolder(b[0]);
    assert all[0] == a[0].refs[0] && all[0] == b[0].refs[0];
    assert SameFile(a[0], all[0]) && SameFile(b[0], all[0]);
    forall q | q in AllRefs(b[1..])
      ensures !SameFile(b[0], q)
    {
      InAllRefs(b[1..], q);
      var h :| h in b[1..] && q in h.refs;
      var i :| 0 <= i < |b[1..]| && b[1..][i] == h;
      assert ValidHolder(h) && b[i + 1] == h;
    }
    assert n < |all| ==> all[n] in AllRefs(b[1..]) && !SameFile(b[0], all[n]);
    assert forall i :: 0 <= i < m ==> all[i] == a[0].refs[i] && SameFile(a[0], all[i]);
  }

  /** The groups are as the references they hold in order make them. */
  lemma {:induction false} GroupsFromRefs(a: seq<Holder>, b: seq<Holder>)
    requires GroupsAscend(a) && GroupsAscend(b) && AllRefs(a) == AllRefs(b)
    ensures a == b
  {
    assert a != [] ==> a[0] in a && AllRefs(a) == a[0].refs + AllRefs(a[1..]) && ValidHolder(a[0]);
    assert b != [] ==> b[0] in b && AllRefs(b) == b[0].refs + AllRefs(b[1..]) && ValidHolder(b[0]);
    if a != [] && b != [] {
      FirstGroup(a, b);
      FirstGroup(b, a);
      assert a[0].refs == AllRefs(a)[..|a[0].refs|] && b[0].refs == AllRefs(b)[..|b[0].refs|];
      assert AllRefs(a[1..]) == AllRefs(a)[|a[0].refs|..] && AllRefs(b[1..]) == AllRefs(b)[|b[0].refs|..];
      assert forall h :: h in a[1..] ==> h in a;
      assert forall h :: h in b[1..] ==> h in b;
      GroupsFromRefs(a[1..], b[1..]);
    }
  }

  /** References at one place of a file are one and the same. */
  ghost predicate OneAPlace(refs: seq<ExtentRef>) {
    forall r, q :: r in refs && q in refs && r.root == q.root && r.inode == q.inode && r.fileOffset == q.fileOffset ==>
      r == q
  }

  /** The holders do not depend on the order of the references either. */
  lemma GroupedUnique(a: seq<Holder>, b: seq<Holder>, refs: seq<ExtentRef>, shuffled: seq<ExtentRef>)
    requires multiset(refs) == multiset(shuffled) && OneAPlace(refs)
    requires Grouped(a, refs) && Grouped(b, shuffled)
    ensures a == b
  {
    GroupsSorted(a);
    GroupsSorted(b);
    SameElements(AllRefs(a), refs);
    SameElements(AllRefs(b), refs);
    SortedSame(AllRefs(a), AllRefs(b), HolderOrder);
    GroupsFromRefs(a, b);
  }

  lemma {:induction false} LastRefs(init: seq<Holder>, h: Holder)
    ensures AllRefs(init + [h]) == AllRefs(init) + h.refs
  {
    AllRefsAppend(init, [h]);
    AllRefsOne(h);
  }

  lemma HolderGrows(h: Holder, last: ExtentRef, r: ExtentRef)
    requires ValidHolder(h) && h.refs[|h.refs| - 1] == last && SameFile(h, r) && last.fileOffset <= r.fileOffset
    ensures ValidHolder(h.(refs := h.refs + [r]))
  {
  }

  /** Adds a reference to the last group. */
  lemma {:induction false} GroupGrows(holders: seq<Holder>, last: ExtentRef, r: ExtentRef)
    requires GroupsAscend(holders) && LastHolds(holders, last)
    requires SameFile(holders[|holders| - 1], r) && last.fileOffset <= r.fileOffset
    ensures var h := holders[|holders| - 1];
      var grown := holders[|holders| - 1 := h.(refs := h.refs + [r])];
      GroupsAscend(grown) && LastHolds(grown, r) && AllRefs(grown) == AllRefs(holders) + [r]
  {
    var h := holders[|holders| - 1];
    var init := holders[..|holders| - 1];
    var g := h.(refs := h.refs + [r]);
    assert holders[|holders| - 1 := g] == init + [g] && holders == init + [h];
    LastRefs(init, h);
    LastRefs(init, g);
    assert h in holders;
    HolderGrows(h, last, r);
  }

  /** Starts a new group. */
  lemma {:induction false} GroupStarts(holders: seq<Holder>, r: ExtentRef)
    requires GroupsAscend(holders)
    requires holders != [] ==> FileOrder(holders[|holders| - 1].root, holders[|holders| - 1].inode, r.root, r.inode)
    ensures var grown := holders + [Holder(r.root, r.inode, [r])];
      GroupsAscend(grown) && LastHolds(grown, r) && AllRefs(grown) == AllRefs(holders) + [r]
  {
    var g := Holder(r.root, r.inode, [r]);
    AllRefsAppend(holders, [g]);
    AllRefsOne(g);
    assert ValidHolder(g);
  }

  /** Groups the references by file: sorting brings each file's together, and the loop
      extends the last group or starts one. */
  method HoldersOf(refs: seq<ExtentRef>) returns (holders: seq<Holder>)
    ensures Grouped(holders, refs)
  {
    var sorted := SortUnstable(refs, HolderOrder);
    holders := [];
    for i := 0 to |sorted|
      invariant GroupsAscend(holders) && AllRefs(holders) == sorted[..i]
      invariant if i == 0 then holders == [] else LastHolds(holders, sorted[i - 1])
    {
      var r := sorted[i];
      assert sorted[..i + 1] == sorted[..i] + [r];
      if holders != [] && SameFile(holders[|holders| - 1], r) {
        var h := holders[|holders| - 1];
        assert HolderOrder(sorted[i - 1], r);
        GroupGrows(holders, sorted[i - 1], r);
        holders := holders[|holders| - 1 := h.(refs := h.refs + [r])];
      } else {
        if 0 < i {
          assert HolderOrder(sorted[i - 1], r);
        }
        GroupStarts(holders, r);
        holders := holders + [Holder(r.root, r.inode, [r])];
      }
    }
    assert sorted[..|sorted|] == sorted;
  }

  // ----- What rewriting frees, and what it costs -----

  /** The share of `disk` that `live` of `uncompressed` bytes account for. */
  function UsedBytes(live: nat, uncompressed: nat, disk: nat): nat {
    if uncompressed == 0 then 0
    else (if live <= uncompressed then live else uncompressed) * disk / uncompressed
  }

  lemma ProductMonotone(a: nat, b: nat, d: nat)
    requires a <= b
    ensures a * d <= b * d
  {
  }

  lemma QuotientMonotone(a: nat, b: nat, u: nat)
    requires a <= b && 0 < u
    ensures a / u <= b / u
  {
    if b / u < a / u {
      ProductMonotone(b / u + 1, a / u, u);
    }
  }

  lemma QuotientBound(a: nat, d: nat, u: nat)
    requires 0 < u && a <= u * d
    ensures a / u <= d
  {
    if d < a / u {
      ProductMonotone(d + 1, a / u, u);
    }
  }

  /** Used bytes never exceed the extent, and never fall as more of it is live. */
  lemma UsedBytesBounds(live: nat, more: nat, uncompressed: nat, disk: nat)
    requires live <= more
    ensures UsedBytes(live, uncompressed, disk) <= UsedBytes(more, uncompressed, disk) <= disk
  {
    if uncompressed != 0 {
      var a := if live <= uncompressed then live else uncompressed;
      var b := if more <= uncompressed then more else uncompressed;
      ProductMonotone(a, b, disk);
      ProductMonotone(b, uncompressed, disk);
      QuotientMonotone(a * disk, b * disk, uncompressed);
      QuotientBound(b * disk, disk, uncompressed);
    }
  }

  lemma QuotientExact(p: nat, u: nat)
    requires 0 < u
    ensures p / u * u <= p < (p / u + 1) * u
  {
  }

  lemma QuotientOf(p: nat, u: nat, d: nat)
    requires 0 < u && p == u * d
    ensures p / u == d
  {
    QuotientExact(p, u);
    if p / u < d {
      ProductMonotone(p / u + 1, d, u);
    }
    QuotientBound(p, d, u);
  }

  /** Used bytes are the extent's length on disk in the proportion that is live,
      rounded down to a byte: all of it when all of it is live, none when none is. */
  lemma UsedBytesExact(live: nat, uncompressed: nat, disk: nat)
    requires 0 < uncompressed
    ensures var used := UsedBytes(live, uncompressed, disk);
      used * uncompressed <= (if live <= uncompressed then live else uncompressed) * disk < (used + 1) * uncompressed
    ensures uncompressed <= live ==> UsedBytes(live, uncompressed, disk) == disk
    ensures live == 0 ==> UsedBytes(live, uncompressed, disk) == 0
  {
    var part := if live <= uncompressed then live else uncompressed;
    QuotientExact(part * disk, uncompressed);
    if uncompressed <= live {
      QuotientOf(part * disk, uncompressed, disk);
    }
    if live == 0 {
      QuotientOf(0, uncompressed, 0);
    }
  }

  /** The least worth reclaiming in an extent, and the most copied to free a byte. */
  const MIN_RECLAIM_BYTES: nat := 65536
  const MAX_COPY_RATIO: nat := 4

  /** The reasons a run leaves an extent as it is. */
  datatype LeftAlone =
    | TooLittleToFree | TooMuchToCopy | NoDataCow | PastEnd | Changed | Unresolved | Failed | Deleted

  /** An extent with its references, and the cover `LiveRanges` makes of them. */
  datatype Extent = Extent(diskAddress: nat, diskBytes: nat, uncompressedBytes: nat, refs: seq<ExtentRef>,
                           liveRanges: seq<Range>)
  {
    function LiveUncompressedBytes(): nat { LiveBytes(liveRanges) }

    function DiskUsedBytes(): nat { UsedBytes(LiveUncompressedBytes(), uncompressedBytes, diskBytes) }

    function DiskFreeBytes(): nat
    {
      UsedBytesBounds(LiveUncompressedBytes(), LiveUncompressedBytes(), uncompressedBytes, diskBytes);
      diskBytes - DiskUsedBytes()
    }

    /** A reason to leave the extent alone for what rewriting frees and copies; none
        if it passes both thresholds. */
    function NotWorthRewriting(): Option<LeftAlone> {
      if DiskFreeBytes() < MIN_RECLAIM_BYTES then Some(TooLittleToFree)
      else if DiskFreeBytes() * MAX_COPY_RATIO < LiveUncompressedBytes() then Some(TooMuchToCopy)
      else None
    }

    /** Its address and both its lengths are what its first reference gives. */
    ghost predicate Valid() {
      && refs != [] && NonEmptyRefs(refs) && LiveRangesOf(liveRanges, refs)
      && diskAddress == refs[0].diskAddress && diskBytes == refs[0].diskBytes
      && uncompressedBytes == refs[0].uncompressedBytes
    }
  }

  predicate AddressesAscend(extents: seq<Extent>) {
    forall i, j :: 0 <= i < j < |extents| ==> extents[i].diskAddress < extents[j].diskAddress
  }

  /** An extent made of references; the first one's address and lengths stand for all. */
  method FromRefs(refs: seq<ExtentRef>) returns (extent: Extent)
    requires refs != [] && NonEmptyRefs(refs)
    ensures extent.Valid() && extent.refs == refs
    ensures extent.diskAddress == refs[0].diskAddress && extent.diskBytes == refs[0].diskBytes
    ensures extent.uncompressedBytes == refs[0].uncompressedBytes
  {
    var ranges := LiveRanges(refs);
    extent := Extent(refs[0].diskAddress, refs[0].diskBytes, refs[0].uncompressedBytes, refs, ranges);
  }

  /** Adding references to an extent never raises what rewriting it frees, and the
      order they come in changes nothing. */
  lemma FreeNeverRises(a: Extent, b: Extent)
    requires a.Valid() && b.Valid()
    requires a.diskBytes == b.diskBytes && a.uncompressedBytes == b.uncompressedBytes
    requires forall r :: r in a.refs ==> r in b.refs
    ensures b.DiskFreeBytes() <= a.DiskFreeBytes() <= a.diskBytes
    ensures (forall r :: r in b.refs ==> r in a.refs) ==> a.DiskFreeBytes() == b.DiskFreeBytes()
  {
    LiveBytesMonotone(a.liveRanges, b.liveRanges, a.refs, b.refs);
    UsedBytesBounds(a.LiveUncompressedBytes(), b.LiveUncompressedBytes(), a.uncompressedBytes, a.diskBytes);
    if forall r :: r in b.refs ==> r in a.refs {
      LiveBytesMonotone(b.liveRanges, a.liveRanges, b.refs, a.refs);
    }
  }

  /** An extent not worth rewriting is not made so by more references to it. */
  lemma WorthNeverReturns(a: Extent, b: Extent)
    requires a.Valid() && b.Valid()
    requires a.diskBytes == b.diskBytes && a.uncompressedBytes == b.uncompressedBytes
    requires forall r :: r in a.refs ==> r in b.refs
    ensures b.NotWorthRewriting() == None ==> a.NotWorthRewriting() == None
    ensures a.NotWorthRewriting() == Some(TooLittleToFree) ==> b.NotWorthRewriting() == Some(TooLittleToFree)
  {
    FreeNeverRises(a, b);
    LiveBytesMonotone(a.liveRanges, b.liveRanges, a.refs, b.refs);
  }

  // ----- The figures, from the references alone -----

  /** The bytes of the extent that the references cover. */
  ghost function BytesOf(refs: set<ExtentRef>): set<nat> {
    set r, b | r in refs && b in Interval(r.extentOffset, r.ExtentEnd()) :: b
  }

  lemma LiveIsBytes(e: Extent, refs: set<ExtentRef>)
    requires e.Valid() && forall r :: r in refs <==> r in e.refs
    ensures e.LiveUncompressedBytes() == |BytesOf(refs)|
  {
    LiveBytesCount(e.liveRanges);
    forall b: nat
      ensures b in Covered(e.liveRanges) <==> b in BytesOf(refs)
    {
      CoveredMeaning(e.liveRanges, b);
      InBytesOf(refs, e.refs, b);
    }
    assert Covered(e.liveRanges) == BytesOf(refs);
  }

  lemma InBytesOf(refs: set<ExtentRef>, listed: seq<ExtentRef>, b: nat)
    requires forall r :: r in refs <==> r in listed
    ensures b in BytesOf(refs) <==> RefsCover(listed, b)
  {
    if r :| r in listed && r.Covers(b) {
      assert r in refs && b in Interval(r.extentOffset, r.ExtentEnd());
    }
    if b in BytesOf(refs) {
      var r :| r in refs && b in Interval(r.extentOffset, r.ExtentEnd());
      assert r.Covers(b);
    }
  }

  /** What is live of the extent, in bytes of the length on disk, rounded down. */
  ghost predicate Share(used: nat, live: nat, uncompressed: nat, disk: nat) {
    used * uncompressed <= (if live <= uncompressed then live else uncompressed) * disk < (used + 1) * uncompressed
  }

  /** `free` is what is left of the length on disk when the live share of it, rounded down,
      is taken away; and all of it if the extent has no uncompressed length. */
  ghost predicate LeftFree(free: nat, live: nat, uncompressed: nat, disk: nat) {
    if uncompressed == 0 then free == disk
    else exists used: nat :: free + used == disk && Share(used, live, uncompressed, disk)
  }

  lemma OneShare(used: nat, other: nat, live: nat, uncompressed: nat, disk: nat)
    requires Share(used, live, uncompressed, disk) && Share(other, live, uncompressed, disk)
    ensures used == other
  {
    if used < other {
      ProductMonotone(used + 1, other, uncompressed);
    }
    if other < used {
      ProductMonotone(other + 1, used, uncompressed);
    }
  }

  lemma UsedIsShare(e: Extent)
    requires e.Valid() && 0 < e.uncompressedBytes
    ensures Share(e.DiskUsedBytes(), e.LiveUncompressedBytes(), e.uncompressedBytes, e.diskBytes)
    ensures e.DiskFreeBytes() + e.DiskUsedBytes() == e.diskBytes
  {
    var live := e.LiveUncompressedBytes();
    UsedBytesExact(live, e.uncompressedBytes, e.diskBytes);
    UsedBytesBounds(live, live, e.uncompressedBytes, e.diskBytes);
  }

  /** There is one such figure, and it is the extent's. */
  lemma FreeExactly(e: Extent, refs: set<ExtentRef>, free: nat)
    requires e.Valid() && forall r :: r in refs <==> r in e.refs
    ensures LeftFree(free, |BytesOf(refs)|, e.uncompressedBytes, e.diskBytes) <==> free == e.DiskFreeBytes()
  {
    LiveIsBytes(e, refs);
    var live, whole, disk := e.LiveUncompressedBytes(), e.uncompressedBytes, e.diskBytes;
    if 0 < whole {
      UsedIsShare(e);
      if LeftFree(free, live, whole, disk) {
        var used: nat :| free + used == disk && Share(used, live, whole, disk);
        OneShare(used, e.DiskUsedBytes(), live, whole, disk);
      }
    }
  }

  /** The extent's lengths are those all these references give, and what is live of it and
      what is free are what they come to. */
  ghost predicate Measures(e: Extent, refs: set<ExtentRef>) {
    && (forall r :: r in refs ==> r.diskBytes == e.diskBytes && r.uncompressedBytes == e.uncompressedBytes)
    && e.LiveUncompressedBytes() == |BytesOf(refs)|
    && LeftFree(e.DiskFreeBytes(), |BytesOf(refs)|, e.uncompressedBytes, e.diskBytes)
  }

  lemma MeasuresAll(e: Extent, refs: set<ExtentRef>)
    requires e.Valid() && multiset(e.refs) == multiset(refs)
    requires forall r, q :: r in refs && q in refs ==>
      r.diskBytes == q.diskBytes && r.uncompressedBytes == q.uncompressedBytes
    ensures Measures(e, refs)
  {
    forall r
      ensures r in refs <==> r in e.refs
    {
      assert r in multiset(refs) <==> r in multiset(e.refs);
    }
    assert e.refs[0] in refs;
    LiveIsBytes(e, refs);
    FreeExactly(e, refs, e.DiskFreeBytes());
  }

  /** Why an extent is not worth rewriting, and when it is, by the references to it: it is
      if at least 65536 bytes would be freed, and no more than four times as many copied. */
  lemma WorthExactly(e: Extent, refs: set<ExtentRef>, free: nat)
    requires e.Valid() && forall r :: r in refs <==> r in e.refs
    requires LeftFree(free, |BytesOf(refs)|, e.uncompressedBytes, e.diskBytes)
    ensures e.NotWorthRewriting() == None <==> 65536 <= free && |BytesOf(refs)| <= 4 * free
    ensures e.NotWorthRewriting() == Some(TooLittleToFree) <==> free < 65536
    ensures e.NotWorthRewriting() == Some(TooMuchToCopy) <==> 65536 <= free && 4 * free < |BytesOf(refs)|
  {
    LiveIsBytes(e, refs);
    FreeExactly(e, refs, free);
  }
}
