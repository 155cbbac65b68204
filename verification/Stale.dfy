/** What a last snapshot that is no longer the last lets pass. */
module Stale {
  import opened Extents
  import opened Cow
  import opened References
  import opened Completeness
  import opened Resolve
  import T = Tallies

  /** The trees once `root` has been snapshotted into a new subvolume. */
  function Snapped(st: State, root: nat, into: nat): State {
    Next(st, Snapshot(root, into))
  }

  /** What a snapshot adds is only in the new subvolume, and only what the old one has. */
  lemma SnappedTree(st: State, root: nat, into: nat, r: nat, leaf: nat, item: FileItem)
    requires root in st.subvolumes && into !in st.subvolumes
    ensures InTree(Snapped(st, root, into), r, leaf, item) <==> InTree(st, if r == into then root else r, leaf, item)
  {
  }

  lemma SnappedKeys(st: State, root: nat, into: nat)
    requires UniqueKeys(st) && root in st.subvolumes && into !in st.subvolumes
    ensures UniqueKeys(Snapped(st, root, into))
  {
    var now := Snapped(st, root, into);
    forall r, leaf, item, other, that |
      InTree(now, r, leaf, item) && InTree(now, r, other, that)
      && item.inode == that.inode && item.fileOffset == that.fileOffset
      ensures leaf == other && item == that
    {
      SnappedTree(st, root, into, r, leaf, item);
      SnappedTree(st, root, into, r, other, that);
    }
  }

  /** A snapshot adds no record: the leaves reached are the same. */
  lemma SnappedRecords(st: State, root: nat, into: nat, address: nat)
    requires root in st.subvolumes && into !in st.subvolumes
    ensures Records(Snapped(st, root, into), address) == Records(st, address)
  {
    var now := Snapped(st, root, into);
    forall p | p in Records(now, address)
      ensures p in Records(st, address)
    {
      var r := RecordReached(now, address, p);
      SnappedTree(st, root, into, r, p.0, p.1);
    }
    forall p | p in Records(st, address)
      ensures p in Records(now, address)
    {
      var r := RecordReached(st, address, p);
      SnappedTree(st, root, into, r, p.0, p.1);
      assert InTree(now, r, p.0, p.1);
    }
  }

  lemma SnappedRef(st: State, root: nat, into: nat, address: nat, r: ExtentRef)
    requires root in st.subvolumes && into !in st.subvolumes && r.root != into
    ensures r in EveryRef(Snapped(st, root, into), address) <==> r in EveryRef(st, address)
  {
    var now := Snapped(st, root, into);
    if r in EveryRef(now, address) {
      var leaf, item :| InTree(now, r.root, leaf, item) && item.diskAddress == address
                        && r == RefOf(r.root, now.leaves[leaf].generation, item);
      SnappedTree(st, root, into, r.root, leaf, item);
    }
    if r in EveryRef(st, address) {
      var leaf, item :| InTree(st, r.root, leaf, item) && item.diskAddress == address
                        && r == RefOf(r.root, st.leaves[leaf].generation, item);
      SnappedTree(st, root, into, r.root, leaf, item);
    }
  }

  lemma SnappedBelonging(st: State, root: nat, into: nat, address: nat, diskBytes: nat, d: T.DataRef)
    requires root in st.subvolumes && into !in st.subvolumes && d.root in st.subvolumes
    ensures Belonging(Snapped(st, root, into), address, diskBytes, d) == Belonging(st, address, diskBytes, d)
  {
    forall r: ExtentRef | r.root == d.root
      ensures r in EveryRef(Snapped(st, root, into), address) <==> r in EveryRef(st, address)
    {
      SnappedRef(st, root, into, address, r);
    }
  }

  lemma {:induction false} SnappedCollected(st: State, root: nat, into: nat, address: nat, diskBytes: nat,
                                            ds: seq<T.DataRef>)
    requires root in st.subvolumes && into !in st.subvolumes && AddsUp(st, address, diskBytes, ds)
    ensures AddsUp(Snapped(st, root, into), address, diskBytes, ds)
    ensures Collected(Snapped(st, root, into), address, diskBytes, ds) == Collected(st, address, diskBytes, ds)
    decreases |ds|
  {
    if ds == [] {
    } else {
      var init, d := ds[..|ds| - 1], ds[|ds| - 1];
      assert ds == init + [d];
      AddsUpNext(st, address, diskBytes, init, d);
      SnappedCollected(st, root, into, address, diskBytes, init);
      SnappedBelonging(st, root, into, address, diskBytes, d);
      AddsUpNext(Snapped(st, root, into), address, diskBytes, init, d);
    }
  }

  /** A list rightly taken to be complete, and what was remembered of every subvolume it
      led to. One of those is snapshotted, and the list still adds up, still passes by
      what is remembered, and is complete no more. */
  lemma StaleListPasses(st: State, root: nat, into: nat, leaf: nat, item: FileItem, diskBytes: nat,
                        refs: seq<ExtentRef>, ds: seq<T.DataRef>, remembered: map<nat, nat>)
    requires Valid(st) && UniqueKeys(st) && into !in st.subvolumes && InTree(st, root, leaf, item)
    requires CountsAll(st, item.diskAddress, ds) && Gathered(refs, st, item.diskAddress, diskBytes, ds)
    requires Current(remembered, st) && forall r :: r in refs ==> r.root in remembered && Newer(st, r)
    ensures multiset(refs) == multiset(EveryRef(st, item.diskAddress))
    ensures var now := Snapped(st, root, into);
      && CountsAll(now, item.diskAddress, ds) && Gathered(refs, now, item.diskAddress, diskBytes, ds)
      && (forall r :: r in refs ==> Trusted(remembered, now, r))
      && multiset(refs) != multiset(EveryRef(now, item.diskAddress))
  {
    var now := Snapped(st, root, into);
    ListIsComplete(st, item.diskAddress, diskBytes, refs, ds);
    SnappedKeys(st, root, into);
    SnappedRecords(st, root, into, item.diskAddress);
    SnappedCollected(st, root, into, item.diskAddress, diskBytes, ds);
    SnapshotHides(st, now, root, into, leaf, item, diskBytes, refs, ds);
  }
}
