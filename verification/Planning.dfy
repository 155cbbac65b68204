/** Which stretches of an extent are copied: every whole sector some file can
    read, and nothing else. */
module Planning {
  import opened Sectors
  import opened Wrappers
  import opened Sorting
  import opened Extents
  import opened Disks
  import opened Kernel

  function FileOf(r: ExtentRef): FileId {
    Inode(r.root, r.inode)
  }

  /** Aligned at both ends, in the file and in the extent, and not empty. */
  ghost predicate ValidRef(r: ExtentRef) {
    && Aligned(r.fileOffset) && Aligned(r.extentOffset) && Aligned(r.numBytes)
    && 0 < r.numBytes
  }

  /** Whether sector `s` of the file is one the reference stands for. */
  ghost predicate InRef(r: ExtentRef, s: nat) {
    Aligned(s) && r.fileOffset <= s < r.FileEnd()
  }

  /** What the reference says of the file is so. */
  ghost predicate RefTrue(f: FileState, x: Address, r: ExtentRef) {
    && ValidRef(r)
    && forall s: nat :: InRef(r, s) ==>
         s in f.sectors && f.sectors[s] == Loc(x, r.extentOffset + (s - r.fileOffset))
  }

  ghost predicate RefsTrue(d: Disk, x: Address, refs: seq<ExtentRef>) {
    forall r :: r in refs ==> FileOf(r) in d.files && RefTrue(d.files[FileOf(r)], x, r)
  }

  /** Whether the file can read byte `b` of the extent through the reference. */
  ghost predicate Reads(d: Disk, r: ExtentRef, b: nat)
  {
    && FileOf(r) in d.files
    && r.Covers(b)
    && r.fileOffset + (b - r.extentOffset) < d.files[FileOf(r)].size
  }

  /** Whether the file can read the whole sector at `e` of the extent. */
  ghost predicate ReadsWhole(d: Disk, r: ExtentRef, e: nat)
  {
    Aligned(e) && r.extentOffset <= e && Reads(d, r, e + SECTORSIZE - 1)
  }

  ghost predicate Readable(d: Disk, refs: seq<ExtentRef>, b: nat)
  {
    exists r :: r in refs && Reads(d, r, b)
  }

  /** A byte read through a reference is the extent's own. */
  lemma RefByte(d: Disk, x: Address, r: ExtentRef, b: nat)
    requires ValidDisk(d) && FileOf(r) in d.files && RefTrue(d.files[FileOf(r)], x, r)
    requires r.Covers(b)
    ensures x in d.extents && b < |d.extents[x]|
    ensures ByteAt(d.files[FileOf(r)], d.extents, r.fileOffset + (b - r.extentOffset)) == d.extents[x][b]
  {
    var p := r.fileOffset + (b - r.extentOffset);
    FloorGreatest(r.fileOffset, p);
    assert InRef(r, Floor(p));
  }

  predicate ByExtentOffset(a: ExtentRef, b: ExtentRef) {
    a.extentOffset <= b.extentOffset
  }

  /** `bytes` starts with the extent's bytes in `[start, at)`, each of which some file reads. */
  ghost predicate Filled(d: Disk, x: Address, refs: seq<ExtentRef>, start: nat, at: nat, bytes: seq<Byte>)
    requires x in d.extents
  {
    && start <= at <= start + |bytes|
    && (start < at ==> at <= |d.extents[x]| && bytes[..at - start] == d.extents[x][start..at])
    && forall b: nat :: start <= b < at ==> Readable(d, refs, b)
  }

  /** One read through `ref` takes the pass from `at` to `to`. */
  lemma FillStep(d: Disk, x: Address, refs: seq<ExtentRef>, ref: ExtentRef, start: nat, at: nat, to: nat,
                 fileOffset: nat, before: seq<Byte>, after: seq<Byte>)
    requires ValidDisk(d) && x in d.extents && RefsTrue(d, x, refs) && ref in refs
    requires Filled(d, x, refs, start, at, before)
    requires at < to <= start + |after|
    requires |after| == |before| && after[..at - start] == before[..at - start]
    requires Reads(d, ref, at) && Reads(d, ref, to - 1)
    requires fileOffset == ref.fileOffset + (at - ref.extentOffset)
    requires forall i :: at - start <= i < to - start ==>
               after[i] == ByteAt(d.files[FileOf(ref)], d.extents, fileOffset + (i - (at - start)))
    ensures Filled(d, x, refs, start, to, after)
  {
    RefByte(d, x, ref, to - 1);
    forall i: nat | i < to - start
      ensures after[i] == d.extents[x][start + i]
    {
      if i < at - start {
        assert after[..at - start][i] == before[..at - start][i] == d.extents[x][start..at][i];
      } else {
        RefByte(d, x, ref, start + i);
        assert fileOffset + (i - (at - start)) == ref.fileOffset + (start + i - ref.extentOffset);
      }
    }
    assert after[..to - start] == d.extents[x][start..to];
    forall b: nat | start <= b < to
      ensures Readable(d, refs, b)
    {
      if at <= b {
        assert Reads(d, ref, b);
      }
    }
  }

  /** None of the first `i` references reads byte `at`. */
  ghost predicate PassedBy(d: Disk, refs: seq<ExtentRef>, i: nat, at: nat) {
    forall j :: 0 <= j < i && j < |refs| ==> !Reads(d, refs[j], at)
  }

  /** Once the pass has read all it can through a reference, no earlier one reads on
      from there: they start no later, and none read where it began. */
  lemma GreedyStep(d: Disk, refs: seq<ExtentRef>, i: nat, at: nat, to: nat)
    requires Sorted(refs, ByExtentOffset) && i < |refs| && PassedBy(d, refs, i, at)
    requires refs[i].extentOffset <= at < to && !Reads(d, refs[i], to)
    ensures PassedBy(d, refs, i + 1, to)
  {
    forall j | 0 <= j < i + 1
      ensures !Reads(d, refs[j], to)
    {
      if j < i {
        assert ByExtentOffset(refs[j], refs[i]);
        assert !Reads(d, refs[j], at);
      }
    }
  }

  lemma PassedAll(d: Disk, refs: seq<ExtentRef>, at: nat)
    requires PassedBy(d, refs, |refs|, at)
    ensures !Readable(d, refs, at)
  {
  }

  /** How far one reference, its file and the stretch let a read from `at` go. */
  function ReadableTo(ref: ExtentRef, size: nat, end: nat, at: nat): nat
    requires ref.Covers(at)
  {
    var fileOffset := ref.fileOffset + (at - ref.extentOffset);
    Min(Min(end, ref.ExtentEnd()), at + if fileOffset <= size then size - fileOffset else 0)
  }

  lemma ReadableExactly(d: Disk, ref: ExtentRef, end: nat, at: nat)
    requires ref.Covers(at) && at < end && FileOf(ref) in d.files
    ensures var to := ReadableTo(ref, d.files[FileOf(ref)].size, end, at);
      && at <= to <= end
      && (at < to ==> Reads(d, ref, at) && Reads(d, ref, to - 1))
      && (at < to ==> ref.fileOffset + (to - ref.extentOffset) <= d.files[FileOf(ref)].size)
      && (to < end ==> !Reads(d, ref, to))
  {
  }

  /** Reads on from `at` through one reference that covers it, as far as that
      reference, its file and the stretch go. */
  method ReadThrough(fs: Filesystem, x: Address, ghost refs: seq<ExtentRef>, ref: ExtentRef, start: nat, end: nat,
      at: nat, buf: array<Byte>)
    returns (r: Outcome<nat>)
    requires ValidDisk(fs.disk) && x in fs.disk.extents && RefsTrue(fs.disk, x, refs) && ref in refs
    requires ref.Covers(at) && at < end && buf.Length == end - start
    requires Filled(fs.disk, x, refs, start, at, buf[..])
    modifies buf, fs`calls
    ensures old(fs.calls) <= fs.calls
    ensures r.Err? ==> r.error.Io? && Explains(fs.calls, |old(fs.calls)|, r.error, fs.conduct)
    ensures r.Ok? ==> at <= r.value <= end && Filled(fs.disk, x, refs, start, r.value, buf[..])
    ensures r.Ok? && r.value < end ==> !Reads(fs.disk, ref, r.value)
  {
    var open := fs.Attempt();
    if open.Err? {
      return Err(open.error);
    }
    var size := fs.disk.files[FileOf(ref)].size;
    var fileOffset := ref.fileOffset + (at - ref.extentOffset);
    var to := ReadableTo(ref, size, end, at);
    ReadableExactly(fs.disk, ref, end, at);
    if to <= at {
      return Ok(at);
    }
    ghost var before := buf[..];
    var read := fs.ReadExactAt(FileOf(ref), fileOffset, buf, at - start, to - start);
    if read.Err? {
      return Err(read.error);
    }
    FillStep(fs.disk, x, refs, ref, start, at, to, fileOffset, before, buf[..]);
    r := Ok(to);
  }

  /** The greedy pass. `PassedBy` is its invariant: no reference it has gone by reads on
      from where it has got to. So it ends exactly where nothing reads the next byte. */
  method Fill(fs: Filesystem, x: Address, refs: seq<ExtentRef>, start: nat, end: nat, buf: array<Byte>)
    returns (r: Outcome<nat>)
    requires ValidDisk(fs.disk) && x in fs.disk.extents && RefsTrue(fs.disk, x, refs)
    requires Sorted(refs, ByExtentOffset)
    requires start < end && buf.Length == end - start
    modifies buf, fs`calls
    ensures old(fs.calls) <= fs.calls
    ensures r.Err? ==> r.error.Io? && Explains(fs.calls, |old(fs.calls)|, r.error, fs.conduct)
    ensures r.Ok? ==> start <= r.value <= end
    ensures r.Ok? ==> Filled(fs.disk, x, refs, start, r.value, buf[..])
    ensures r.Ok? && r.value < end ==> !Readable(fs.disk, refs, r.value)
  {
    ghost var d := fs.disk;
    var at := start;
    var i := 0;
    while i < |refs| && at < end
      invariant 0 <= i <= |refs| && start <= at <= end
      invariant old(fs.calls) <= fs.calls && Filled(d, x, refs, start, at, buf[..])
      invariant at < end ==> PassedBy(d, refs, i, at)
    {
      var ref := refs[i];
      i := i + 1;
      if ref.extentOffset > at || ref.ExtentEnd() <= at {
        continue;
      }
      var to := ReadThrough(fs, x, refs, ref, start, end, at, buf);
      if to.Err? {
        return Err(to.error);
      }
      if at < to.value < end {
        GreedyStep(d, refs, i - 1, at, to.value);
      }
      at := to.value;
    }
    if at < end {
      PassedAll(d, refs, at);
    }
    r := Ok(at);
  }

  function Min(a: nat, b: nat): nat {
    if a <= b then a else b
  }

  /** A stretch of the extent together with its bytes. */
  datatype LiveRange = LiveRange(start: nat, end: nat, bytes: seq<Byte>)
  {
    predicate Holds(e: nat) { start <= e < end }
  }

  ghost predicate Holding(copies: seq<LiveRange>, e: nat) {
    exists k :: 0 <= k < |copies| && copies[k].Holds(e)
  }

  function CopyOf(content: seq<Byte>, start: nat, end: nat): LiveRange
    requires start <= end <= |content|
  {
    LiveRange(start, end, content[start..end])
  }

  ghost predicate ValidCopy(copy: LiveRange, content: seq<Byte>) {
    && Aligned(copy.start) && Aligned(copy.end)
    && copy.start < copy.end <= |content|
    && copy.bytes == content[copy.start..copy.end]
  }

  /** Whole sectors of the extent, each in one copy at most, in order. */
  ghost predicate ValidCopies(copies: seq<LiveRange>, content: seq<Byte>) {
    && (forall k :: 0 <= k < |copies| ==> ValidCopy(copies[k], content))
    && (forall j, k :: 0 <= j < k < |copies| ==> copies[j].end <= copies[k].start)
  }

  ghost predicate SomeReadsWhole(d: Disk, refs: seq<ExtentRef>, e: nat)
  {
    exists r :: r in refs && ReadsWhole(d, r, e)
  }

  /** The copies hold exactly the sectors that some file reads in full. */
  ghost predicate ExactCopies(d: Disk, x: Address, refs: seq<ExtentRef>, copies: seq<LiveRange>)
    requires x in d.extents
  {
    && ValidCopies(copies, d.extents[x])
    && forall e: nat :: Aligned(e) ==> (Holding(copies, e) <==> SomeReadsWhole(d, refs, e))
  }

  /** The plan so far: sound, and complete below `done`. */
  ghost predicate PlannedTo(d: Disk, x: Address, refs: seq<ExtentRef>, copies: seq<LiveRange>, done: nat)
    requires x in d.extents
  {
    && ValidCopies(copies, d.extents[x])
    && (forall e: nat :: Aligned(e) && Holding(copies, e) ==> SomeReadsWhole(d, refs, e))
    && (forall e: nat :: SomeReadsWhole(d, refs, e) && e < done ==> Holding(copies, e))
  }

  /** A live range starts where some reference does and ends where some reference does. */
  lemma RangeAligned(d: Disk, x: Address, ranges: seq<Range>, refs: seq<ExtentRef>, i: nat)
    requires RefsTrue(d, x, refs) && LiveRangesOf(ranges, refs) && i < |ranges|
    ensures Aligned(ranges[i].start) && Aligned(ranges[i].end)
  {
    var range := ranges[i];
    assert range.Covers(range.start) && range.Covers(range.end - 1);
    assert RangesCover(ranges, range.start) && RangesCover(ranges, range.end - 1);
    var first :| first in refs && first.Covers(range.start);
    var last :| last in refs && last.Covers(range.end - 1);
    if 0 < range.start {
      assert !RangesCover(ranges, range.start - 1);
      assert !RefsCover(refs, range.start - 1);
      assert !first.Covers(range.start - 1);
    }
    assert !RangesCover(ranges, range.end);
    assert !last.Covers(range.end);
    AlignedSum(last.extentOffset, last.numBytes);
  }

  /** A whole sector some file reads lies inside one live range. */
  lemma WholeSectorInRange(d: Disk, x: Address, ranges: seq<Range>, refs: seq<ExtentRef>, e: nat) returns (i: nat)
    requires RefsTrue(d, x, refs) && LiveRangesOf(ranges, refs) && SomeReadsWhole(d, refs, e)
    ensures i < |ranges| && ranges[i].start <= e && e + SECTORSIZE <= ranges[i].end
  {
    var r :| r in refs && ReadsWhole(d, r, e);
    assert r.Covers(e);
    assert RefsCover(refs, e);
    i :| 0 <= i < |ranges| && ranges[i].Covers(e);
    RangeAligned(d, x, ranges, refs, i);
    AlignedStep(e, ranges[i].end);
  }

  /** Which lies past every range before it, and ends by the end of the last. */
  lemma WholeSectorPlace(d: Disk, x: Address, ranges: seq<Range>, refs: seq<ExtentRef>, e: nat, i: nat)
    requires RefsTrue(d, x, refs) && LiveRangesOf(ranges, refs) && SomeReadsWhole(d, refs, e)
    requires i <= |ranges| && (i < |ranges| ==> e < ranges[i].start)
    ensures 0 < i && e < ranges[i - 1].end
  {
    var j := WholeSectorInRange(d, x, ranges, refs, e);
    assert j < i - 1 ==> ranges[j].end < ranges[i - 1].start;
  }

  lemma PlannedNextRange(d: Disk, x: Address, ranges: seq<Range>, refs: seq<ExtentRef>,
                         copies: seq<LiveRange>, i: nat)
    requires x in d.extents && RefsTrue(d, x, refs) && LiveRangesOf(ranges, refs)
    requires i < |ranges| && PlannedTo(d, x, refs, copies, if i == 0 then 0 else ranges[i - 1].end)
    ensures PlannedTo(d, x, refs, copies, ranges[i].start)
  {
    forall e: nat | SomeReadsWhole(d, refs, e) && e < ranges[i].start
      ensures Holding(copies, e)
    {
      WholeSectorPlace(d, x, ranges, refs, e, i);
    }
  }

  lemma PlannedAll(d: Disk, x: Address, ranges: seq<Range>, refs: seq<ExtentRef>, copies: seq<LiveRange>, done: nat)
    requires x in d.extents && RefsTrue(d, x, refs) && LiveRangesOf(ranges, refs)
    requires done == if ranges == [] then 0 else ranges[|ranges| - 1].end
    requires PlannedTo(d, x, refs, copies, done)
    ensures ExactCopies(d, x, refs, copies)
  {
    forall e: nat | SomeReadsWhole(d, refs, e)
      ensures Holding(copies, e)
    {
      WholeSectorPlace(d, x, ranges, refs, e, |ranges|);
    }
  }

  /** The plan depends on which references there are, not on their order. */
  lemma SameRefs(d: Disk, x: Address, ranges: seq<Range>, a: seq<ExtentRef>, b: seq<ExtentRef>)
    requires multiset(a) == multiset(b)
    requires x in d.extents && RefsTrue(d, x, a) && LiveRangesOf(ranges, a)
    ensures RefsTrue(d, x, b) && LiveRangesOf(ranges, b)
    ensures forall e: nat :: SomeReadsWhole(d, a, e) <==> SomeReadsWhole(d, b, e)
  {
    SameElements(a, b);
    forall e: nat
      ensures RefsCover(a, e) <==> RefsCover(b, e)
      ensures SomeReadsWhole(d, a, e) <==> SomeReadsWhole(d, b, e)
    {
    }
  }

  /** Every whole sector below where the pass stopped is read in full by one file. */
  lemma FilledIsWhole(d: Disk, x: Address, refs: seq<ExtentRef>, start: nat, read: nat, e: nat)
    requires RefsTrue(d, x, refs)
    requires forall b :: start <= b < read ==> Readable(d, refs, b)
    requires Aligned(e) && start <= e < Floor(read)
    ensures SomeReadsWhole(d, refs, e)
  {
    AlignedStep(e, Floor(read));
    var b := e + SECTORSIZE - 1;
    assert Readable(d, refs, b);
    var r :| r in refs && Reads(d, r, b);
    if e < r.extentOffset {
      AlignedStep(e, r.extentOffset);
    }
    assert ReadsWhole(d, r, e);
  }

  /** What lies between where the pass stopped and where the next one starts, no
      file reads in full. */
  lemma GapIsUnreadable(d: Disk, x: Address, refs: seq<ExtentRef>, end: nat, read: nat, next: nat, e: nat)
    requires RefsTrue(d, x, refs)
    requires read < end ==> !Readable(d, refs, read)
    requires forall r :: r in refs && read < r.extentOffset ==> next <= r.extentOffset
    requires SomeReadsWhole(d, refs, e) && e < next && e + SECTORSIZE <= end
    ensures e < Floor(read)
  {
    var r :| r in refs && ReadsWhole(d, r, e);
    if read < end {
      assert !Reads(d, r, read);
    }
    AlignedSum(e, SECTORSIZE);
    FloorGreatest(e + SECTORSIZE, read);
  }

  lemma HoldingStep(content: seq<Byte>, before: seq<LiveRange>, start: nat, end: nat, e: nat)
    requires start <= end <= |content|
    ensures Holding(before + [CopyOf(content, start, end)], e) <==> Holding(before, e) || start <= e < end
  {
    var copies := before + [CopyOf(content, start, end)];
    if Holding(before, e) {
      var k :| 0 <= k < |before| && before[k].Holds(e);
      assert copies[k].Holds(e);
    }
    if start <= e < end {
      assert copies[|before|].Holds(e);
    }
  }

  /** From `start` to `done`, the sectors some file reads in full are those up to `to`. */
  ghost predicate ReadFrom(d: Disk, refs: seq<ExtentRef>, start: nat, to: nat, done: nat) {
    && (forall e: nat :: Aligned(e) && start <= e < to ==> SomeReadsWhole(d, refs, e))
    && (forall e: nat :: SomeReadsWhole(d, refs, e) && start <= e < done ==> e < to)
  }

  /** What one pass and the step to the next reference take in, sector by sector. */
  lemma PlannedSectors(d: Disk, x: Address, ranges: seq<Range>, refs: seq<ExtentRef>, end: nat,
                       start: nat, read: nat, next: nat)
    requires RefsTrue(d, x, refs) && LiveRangesOf(ranges, refs)
    requires start <= read <= end
    requires exists i :: 0 <= i < |ranges| && ranges[i].end == end
    requires forall b: nat :: start <= b < read ==> Readable(d, refs, b)
    requires read < end ==> !Readable(d, refs, read)
    requires forall r :: r in refs && read < r.extentOffset ==> next <= r.extentOffset
    ensures ReadFrom(d, refs, start, Floor(read), Min(next, end))
  {
    forall e: nat | Aligned(e) && start <= e < Floor(read)
      ensures SomeReadsWhole(d, refs, e)
    {
      FilledIsWhole(d, x, refs, start, read, e);
    }
    forall e: nat | SomeReadsWhole(d, refs, e) && start <= e < Min(next, end)
      ensures e < Floor(read)
    {
      var j := WholeSectorInRange(d, x, ranges, refs, e);
      var i :| 0 <= i < |ranges| && ranges[i].end == end;
      assert ranges[j].end <= end;
      GapIsUnreadable(d, x, refs, end, read, next, e);
    }
  }

  lemma CopiesStep(content: seq<Byte>, before: seq<LiveRange>, start: nat, end: nat)
    requires ValidCopies(before, content) && EndBy(before, start)
    requires Aligned(start) && Aligned(end) && start < end <= |content|
    ensures ValidCopies(before + [CopyOf(content, start, end)], content)
  {
  }

  lemma PlannedStep(d: Disk, x: Address, refs: seq<ExtentRef>, before: seq<LiveRange>, copies: seq<LiveRange>,
                    start: nat, end: nat, done: nat)
    requires x in d.extents && PlannedTo(d, x, refs, before, start) && EndBy(before, start)
    requires Aligned(start) && Aligned(end) && (start < end ==> end <= |d.extents[x]|)
    requires copies == if start < end then before + [CopyOf(d.extents[x], start, end)] else before
    requires ReadFrom(d, refs, start, end, done)
    ensures PlannedTo(d, x, refs, copies, done)
  {
    if start < end {
      CopiesStep(d.extents[x], before, start, end);
      forall e: nat
        ensures Holding(copies, e) <==> Holding(before, e) || start <= e < end
      {
        HoldingStep(d.extents[x], before, start, end, e);
      }
    }
  }

  ghost predicate EndBy(copies: seq<LiveRange>, end: nat) {
    forall k :: 0 <= k < |copies| ==> copies[k].end <= end
  }

  /** Where the next stretch past `read` starts: the first reference beyond it. */
  method NextStart(refs: seq<ExtentRef>, read: nat, end: nat) returns (next: nat)
    ensures next == end || (read < next && exists r :: r in refs && r.extentOffset == next)
    ensures forall r :: r in refs && read < r.extentOffset ==> next <= r.extentOffset
  {
    var found := false;
    next := end;
    for i := 0 to |refs|
      invariant found ==> read < next && exists r :: r in refs && r.extentOffset == next
      invariant !found ==> next == end
      invariant forall j :: 0 <= j < i && read < refs[j].extentOffset ==> found && next <= refs[j].extentOffset
    {
      var offset := refs[i].extentOffset;
      if read < offset && (!found || offset < next) {
        assert refs[i] in refs;
        found, next := true, offset;
      }
    }
  }

  lemma CopyMade(content: seq<Byte>, bytes: seq<Byte>, start: nat, to: nat, read: nat)
    requires start <= to <= read <= |content| && read - start <= |bytes|
    requires bytes[..read - start] == content[start..read]
    ensures LiveRange(start, to, bytes[..to - start]) == CopyOf(content, start, to)
  {
    assert bytes[..to - start] == bytes[..read - start][..to - start];
  }

  lemma StretchPlanned(d: Disk, x: Address, ranges: seq<Range>, refs: seq<ExtentRef>, before: seq<LiveRange>,
                       after: seq<LiveRange>, start: nat, end: nat, read: nat, next: nat)
    requires x in d.extents && RefsTrue(d, x, refs) && LiveRangesOf(ranges, refs)
    requires exists i :: 0 <= i < |ranges| && ranges[i].end == end
    requires start < end && Aligned(start)
    requires PlannedTo(d, x, refs, before, start) && EndBy(before, start)
    requires start <= read <= end && (start < read ==> read <= |d.extents[x]|)
    requires forall b: nat :: start <= b < read ==> Readable(d, refs, b)
    requires read < end ==> !Readable(d, refs, read)
    requires read < next || next == end
    requires forall r :: r in refs && read < r.extentOffset ==> next <= r.extentOffset
    requires after == if start < Floor(read) then before + [CopyOf(d.extents[x], start, Floor(read))] else before
    ensures PlannedTo(d, x, refs, after, Min(next, end)) && EndBy(after, Min(next, end))
  {
    FloorGreatest(start, read);
    PlannedSectors(d, x, ranges, refs, end, start, read, next);
    PlannedStep(d, x, refs, before, after, start, Floor(read), Min(next, end));
  }

  /** Reads one stretch of a live range, from `start` on, and finds where the
      next one starts. */
  method ReadStretch(fs: Filesystem, x: Address, ghost ranges: seq<Range>, refs: seq<ExtentRef>, start: nat, end: nat,
                     copies: seq<LiveRange>)
    returns (r: Outcome<(seq<LiveRange>, nat)>)
    requires ValidDisk(fs.disk) && x in fs.disk.extents && RefsTrue(fs.disk, x, refs)
    requires Sorted(refs, ByExtentOffset) && LiveRangesOf(ranges, refs)
    requires exists i :: 0 <= i < |ranges| && ranges[i].end == end
    requires start < end && Aligned(start) && Aligned(end)
    requires PlannedTo(fs.disk, x, refs, copies, start) && EndBy(copies, start)
    modifies fs`calls
    ensures old(fs.calls) <= fs.calls
    ensures r.Err? ==> r.error.Io? && Explains(fs.calls, |old(fs.calls)|, r.error, fs.conduct)
    ensures r.Ok? ==> start < r.value.1 && Aligned(r.value.1)
    ensures r.Ok? ==>
      PlannedTo(fs.disk, x, refs, r.value.0, Min(r.value.1, end)) && EndBy(r.value.0, Min(r.value.1, end))
  {
    var buf := new Byte[end - start];
    var filled := Fill(fs, x, refs, start, end, buf);
    if filled.Err? {
      return Err(filled.error);
    }
    var read := filled.value;
    // `ReadFrom` is about whole sectors, so only those read in full are kept.
    var to := RoundDown(read);
    FloorGreatest(start, read);
    var after := copies;
    if to > start {
      CopyMade(fs.disk.extents[x], buf[..], start, to, read);
      after := copies + [LiveRange(start, to, buf[..to - start])];
    }
    var next := NextStart(refs, read, end);
    StretchPlanned(fs.disk, x, ranges, refs, copies, after, start, end, read, next);
    r := Ok((after, next));
  }

  /** Makes the copies `ExactCopies` describes: the sectors some file reads in full,
      each in one copy, stretch after stretch. */
  method ReadLiveRanges(fs: Filesystem, x: Address, ranges: seq<Range>, unsorted: seq<ExtentRef>)
    returns (r: Outcome<seq<LiveRange>>)
    requires ValidDisk(fs.disk) && x in fs.disk.extents && RefsTrue(fs.disk, x, unsorted)
    requires LiveRangesOf(ranges, unsorted)
    modifies fs`calls
    ensures old(fs.calls) <= fs.calls
    ensures r.Err? ==> r.error.Io? && Explains(fs.calls, |old(fs.calls)|, r.error, fs.conduct)
    ensures r.Ok? ==> ExactCopies(fs.disk, x, unsorted, r.value)
  {
    var refs := SortUnstable(unsorted, ByExtentOffset);
    SameRefs(fs.disk, x, ranges, unsorted, refs);
    var copies: seq<LiveRange> := [];
    ghost var done := 0;
    for i := 0 to |ranges|
      invariant done == if i == 0 then 0 else ranges[i - 1].end
      invariant old(fs.calls) <= fs.calls
      invariant PlannedTo(fs.disk, x, refs, copies, done) && EndBy(copies, done)
    {
      var range := ranges[i];
      var start := range.start;
      RangeAligned(fs.disk, x, ranges, refs, i);
      PlannedNextRange(fs.disk, x, ranges, refs, copies, i);
      while start < range.end
        invariant old(fs.calls) <= fs.calls && Aligned(start) && range.start <= start
        invariant PlannedTo(fs.disk, x, refs, copies, Min(start, range.end))
        invariant EndBy(copies, Min(start, range.end))
        decreases range.end - start
      {
        var stretch := ReadStretch(fs, x, ranges, refs, start, range.end, copies);
        if stretch.Err? {
          return Err(stretch.error);
        }
        copies, start := stretch.value.0, stretch.value.1;
      }
      done := range.end;
    }
    PlannedAll(fs.disk, x, ranges, refs, copies, done);
    r := Ok(copies);
  }
}
