/** The accounts of a scan: totals by extent size, and what was left alone by reason. */
module Accounts {
  import opened Wrappers
  import opened Extents
  import opened Words

  datatype Bucket = Bucket(count: nat, allocatedBytes: nat, usedBytes: nat, unreachableBytes: nat)

  const ZERO := Bucket(0, 0, 0, 0)

  function Plus(a: Bucket, b: Bucket): Bucket {
    Bucket(a.count + b.count, a.allocatedBytes + b.allocatedBytes, a.usedBytes + b.usedBytes,
           a.unreachableBytes + b.unreachableBytes)
  }

  /** What one extent adds. */
  function Of(e: Extent): Bucket {
    Bucket(1, e.diskBytes, e.DiskUsedBytes(), e.DiskFreeBytes())
  }

  /** An amount added to one bucket of a row. */
  datatype Entry = Entry(slot: nat, amount: Bucket)

  /** All the entries together, and those of one bucket. */
  function Sum(log: seq<Entry>): Bucket {
    if log == [] then ZERO else Plus(Sum(log[..|log| - 1]), log[|log| - 1].amount)
  }

  function SumIn(log: seq<Entry>, slot: nat): Bucket {
    if log == [] then ZERO
    else
      var rest := SumIn(log[..|log| - 1], slot);
      if log[|log| - 1].slot == slot then Plus(rest, log[|log| - 1].amount) else rest
  }

  /** The first `n` buckets of a row, added together. */
  function Row(log: seq<Entry>, n: nat): Bucket {
    if n == 0 then ZERO else Plus(Row(log, n - 1), SumIn(log, n - 1))
  }

  predicate WithinRow(log: seq<Entry>, n: nat) {
    forall i :: 0 <= i < |log| ==> log[i].slot < n
  }

  lemma {:induction false} RowNext(log: seq<Entry>, e: Entry, n: nat)
    ensures Row(log + [e], n) == if e.slot < n then Plus(Row(log, n), e.amount) else Row(log, n)
  {
    assert (log + [e])[..|log|] == log;
    if n != 0 {
      RowNext(log, e, n - 1);
    }
  }

  /** A row adds up to everything entered in it. */
  lemma {:induction false} RowIsSum(log: seq<Entry>, n: nat)
    requires WithinRow(log, n)
    ensures Row(log, n) == Sum(log)
    decreases |log|
  {
    if log == [] {
      EmptyRow(n);
    } else {
      var init := log[..|log| - 1];
      assert log == init + [log[|log| - 1]];
      RowIsSum(init, n);
      RowNext(init, log[|log| - 1], n);
    }
  }

  lemma {:induction false} EmptyRow(n: nat)
    ensures Row([], n) == ZERO
  {
    if n == 0 {
    } else {
      EmptyRow(n - 1);
      assert SumIn([], n - 1) == ZERO;
    }
  }

  // ----- Size classes -----

  function Power2(i: nat): (p: nat)
    ensures 0 < p
  {
    if i == 0 then 1 else 2 * Power2(i - 1)
  }

  /** How many times `n` halves before it is 1. */
  function Log2(n: nat): nat
    requires 0 < n
  {
    if n == 1 then 0 else 1 + Log2(n / 2)
  }

  lemma {:induction false} PowerSum(i: nat, j: nat)
    ensures Power2(i + j) == Power2(i) * Power2(j)
  {
    if j == 0 {
    } else {
      PowerSum(i, j - 1);
    }
  }

  lemma SixtyFour()
    ensures Power2(64) == TWO64
  {
    Sixteen();
    PowerSum(16, 16);
    PowerSum(32, 32);
  }

  lemma Sixteen()
    ensures Power2(16) == 0x1_0000
  {
    assert Power2(4) == 2 * Power2(3) == 4 * Power2(2) == 8 * Power2(1) == 16;
    PowerSum(4, 4);
    PowerSum(8, 8);
  }

  predicate InClass(size: nat, i: nat) {
    Power2(i) <= size < Power2(i + 1) || (size == 0 && i == 0)
  }

  function ClassOf(size: nat): nat {
    Log2(if size < 1 then 1 else size)
  }

  lemma {:induction false} PowersAscend(i: nat, j: nat)
    requires i < j
    ensures Power2(i + 1) <= Power2(j)
  {
    if j <= i + 1 {
    } else {
      PowersAscend(i, j - 1);
    }
  }

  lemma {:induction false} Log2Exact(n: nat)
    requires 0 < n
    ensures Power2(Log2(n)) <= n < Power2(Log2(n) + 1)
  {
    if n == 1 {
    } else {
      Log2Exact(n / 2);
    }
  }

  /** Every size is of one class, and every 64-bit size of one of 64. */
  lemma ClassExact(size: nat, i: nat)
    ensures InClass(size, i) <==> i == ClassOf(size)
    ensures size < TWO64 ==> ClassOf(size) < 64
  {
    var n := if size < 1 then 1 else size;
    var c := ClassOf(size);
    Log2Exact(n);
    if i < c {
      PowersAscend(i, c);
    } else if c < i {
      PowersAscend(c, i);
    }
    if 64 <= c {
      PowersAscend(63, c);
    }
    SixtyFour();
    FirstPowers();
  }

  lemma FirstPowers()
    ensures Power2(0) == 1 && Power2(1) == 2
  {
  }

  function SizeEntry(e: Extent): Entry { Entry(ClassOf(e.diskBytes), Of(e)) }

  function SizeEntries(extents: seq<Extent>): (log: seq<Entry>)
    ensures |log| == |extents|
  {
    seq(|extents|, i requires 0 <= i < |extents| => SizeEntry(extents[i]))
  }

  /** One size class of them, counted together. */
  function OfClass(extents: seq<Extent>, i: nat): Bucket {
    if extents == [] then ZERO
    else
      var rest := OfClass(extents[..|extents| - 1], i);
      if InClass(extents[|extents| - 1].diskBytes, i) then Plus(rest, Of(extents[|extents| - 1])) else rest
  }

  function OfAll(extents: seq<Extent>): Bucket {
    Sum(SizeEntries(extents))
  }

  lemma EntriesNext(extents: seq<Extent>, e: Extent)
    ensures SizeEntries(extents + [e]) == SizeEntries(extents) + [SizeEntry(e)]
  {
  }

  lemma SumNext(log: seq<Entry>, e: Entry, slot: nat)
    ensures Sum(log + [e]) == Plus(Sum(log), e.amount)
    ensures SumIn(log + [e], slot) == if e.slot == slot then Plus(SumIn(log, slot), e.amount) else SumIn(log, slot)
  {
    assert (log + [e])[..|log|] == log;
  }

  /** Bucket `i` holds exactly the extents from `2^i` bytes up to `2^(i+1)`, and
      the first one the empty ones too. */
  lemma {:induction false} BucketExact(extents: seq<Extent>, i: nat)
    ensures SumIn(SizeEntries(extents), i) == OfClass(extents, i)
    decreases |extents|
  {
    if extents == [] {
    } else {
      var init, e := extents[..|extents| - 1], extents[|extents| - 1];
      assert extents == init + [e];
      BucketExact(init, i);
      EntriesNext(init, e);
      SumNext(SizeEntries(init), SizeEntry(e), i);
      ClassExact(e.diskBytes, i);
    }
  }

  predicate Fits64(extents: seq<Extent>) {
    forall i :: 0 <= i < |extents| ==> extents[i].diskBytes < TWO64
  }

  /** Used and unreachable bytes add up to what is allocated, over all extents and
      in every bucket, and the 64 buckets add up to the totals. */
  lemma {:induction false} TotalsConserved(extents: seq<Extent>)
    requires Fits64(extents)
    ensures var all := OfAll(extents);
      all.usedBytes + all.unreachableBytes == all.allocatedBytes && all.count == |extents|
    ensures Row(SizeEntries(extents), 64) == OfAll(extents)
  {
    SumConserved(extents);
    forall i | 0 <= i < |extents|
      ensures SizeEntries(extents)[i].slot < 64
    {
      ClassExact(extents[i].diskBytes, 0);
    }
    RowIsSum(SizeEntries(extents), 64);
  }

  lemma {:induction false} SumConserved(extents: seq<Extent>)
    ensures var all := OfAll(extents);
      all.usedBytes + all.unreachableBytes == all.allocatedBytes && all.count == |extents|
    decreases |extents|
  {
    if extents == [] {
    } else {
      var init, e := extents[..|extents| - 1], extents[|extents| - 1];
      assert extents == init + [e];
      SumConserved(init);
      EntriesNext(init, e);
      SumNext(SizeEntries(init), SizeEntry(e), 0);
    }
  }

  lemma {:induction false} BucketConserved(extents: seq<Extent>, i: nat)
    ensures var b := OfClass(extents, i); b.usedBytes + b.unreachableBytes == b.allocatedBytes
    decreases |extents|
  {
    if extents == [] {
    } else {
      BucketConserved(extents[..|extents| - 1], i);
    }
  }

  /** The buckets hold what was entered in each. */
  ghost predicate Rowed(buckets: seq<Bucket>, log: seq<Entry>) {
    WithinRow(log, |buckets|) && forall i :: 0 <= i < |buckets| ==> buckets[i] == SumIn(log, i)
  }

  lemma RowedNext(buckets: seq<Bucket>, log: seq<Entry>, e: Entry)
    requires Rowed(buckets, log) && e.slot < |buckets|
    ensures Rowed(buckets[e.slot := Plus(buckets[e.slot], e.amount)], log + [e])
  {
    forall i: nat | i < |buckets|
      ensures SumIn(log + [e], i) == if i == e.slot then Plus(buckets[i], e.amount) else buckets[i]
    {
      SumNext(log, e, i);
    }
  }

  lemma CountedNext(counted: seq<Extent>, e: Extent)
    ensures SizeEntries(counted + [e]) == SizeEntries(counted) + [SizeEntry(e)]
    ensures OfAll(counted + [e]) == Plus(OfAll(counted), Of(e))
  {
    EntriesNext(counted, e);
    SumNext(SizeEntries(counted), SizeEntry(e), 0);
  }

  class Totals {
    var allocatedBytes: nat
    var usedBytes: nat
    var unreachableBytes: nat
    const buckets: array<Bucket>
    ghost var counted: seq<Extent>

    ghost predicate Valid()
      reads this, buckets
    {
      && buckets.Length == 64 && Fits64(counted) && Rowed(buckets[..], SizeEntries(counted))
      && Bucket(|counted|, allocatedBytes, usedBytes, unreachableBytes) == OfAll(counted)
    }

    constructor ()
      ensures Valid() && counted == [] && fresh(buckets)
    {
      allocatedBytes, usedBytes, unreachableBytes, counted := 0, 0, 0, [];
      buckets := new Bucket[64](_ => ZERO);
      new;
      assert SizeEntries([]) == [];
    }

    /** One more extent counted; `RowedNext` keeps every bucket true to the history. */
    method Add(e: Extent)
      requires Valid() && e.diskBytes < TWO64
      modifies this, buckets
      ensures Valid() && counted == old(counted) + [e]
    {
      ghost var entry, before := SizeEntry(e), buckets[..];
      ghost var log := SizeEntries(counted);
      var used := e.DiskUsedBytes();
      var free := e.DiskFreeBytes();
      assert entry.amount == Bucket(1, e.diskBytes, used, free);
      ClassExact(e.diskBytes, 0);
      RowedNext(before, log, entry);
      CountedNext(counted, e);
      allocatedBytes := allocatedBytes + e.diskBytes;
      usedBytes := usedBytes + used;
      unreachableBytes := unreachableBytes + free;
      var c := Log2(if e.diskBytes < 1 then 1 else e.diskBytes);
      var bucket := buckets[c];
      buckets[c] := Bucket(bucket.count + 1, bucket.allocatedBytes + e.diskBytes, bucket.usedBytes + used,
                           bucket.unreachableBytes + free);
      assert buckets[..] == before[c := Plus(before[c], entry.amount)];
      counted := counted + [e];
    }
  }

  // ----- Left alone -----

  const REASONS: nat := 8

  function Index(reason: LeftAlone): (i: nat)
    ensures i < REASONS
  {
    match reason
    case TooLittleToFree => 0
    case TooMuchToCopy => 1
    case NoDataCow => 2
    case PastEnd => 3
    case Changed => 4
    case Unresolved => 5
    case Failed => 6
    case Deleted => 7
  }

  /** An extent left alone, counted with no bytes if it never was resolved. */
  function LeftEntry(reason: LeftAlone, extent: Option<Extent>): Entry {
    Entry(Index(reason), match extent case Some(e) => Of(e) case None => Bucket(1, 0, 0, 0))
  }

  class LeftAloneStats {
    const reasons: array<Bucket>
    ghost var log: seq<Entry>

    ghost predicate Valid()
      reads this, reasons
    {
      reasons.Length == REASONS && Rowed(reasons[..], log)
    }

    constructor ()
      ensures Valid() && log == [] && fresh(reasons)
    {
      log := [];
      reasons := new Bucket[REASONS](_ => ZERO);
    }

    method Add(reason: LeftAlone, extent: Option<Extent>)
      requires Valid()
      modifies this, reasons
      ensures Valid() && log == old(log) + [LeftEntry(reason, extent)]
    {
      var i := Index(reason);
      ghost var before, entry := reasons[..], LeftEntry(reason, extent);
      RowedNext(before, log, entry);
      var bucket := reasons[i];
      match extent {
        case None =>
          reasons[i] := bucket.(count := bucket.count + 1);
        case Some(e) =>
          reasons[i] := Bucket(bucket.count + 1, bucket.allocatedBytes + e.diskBytes,
            bucket.usedBytes + e.DiskUsedBytes(), bucket.unreachableBytes + e.DiskFreeBytes());
      }
      assert reasons[..] == before[i := Plus(before[i], entry.amount)];
      log := log + [entry];
    }

    /** Every reason added together, which is everything that was left alone. */
    method Total() returns (total: Bucket)
      requires Valid()
      ensures total == Sum(log)
    {
      total := ZERO;
      for i := 0 to REASONS
        invariant total == Row(log, i)
      {
        total := Plus(total, reasons[i]);
      }
      RowIsSum(log, REASONS);
    }
  }
}
