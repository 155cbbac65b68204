/** When the extent tree's own list of holders leads to every reference. */
module Completeness {
  import opened Counting
  import opened Extents
  import opened Cow
  import opened References
  import opened Backreferences
  import T = Tallies

  // ----- What the extent tree's own list collects -----

  /** Every entry gives a base, and no two the same one for the same inode. */
  ghost predicate DistinctKeys(ds: seq<T.DataRef>) {
    && (forall i :: 0 <= i < |ds| ==> ds[i].at.Base?)
    && forall i, j :: 0 <= i < j < |ds| ==> (ds[i].root, ds[i].inode, ds[i].at) != (ds[j].root, ds[j].inode, ds[j].at)
  }

  predicate KeyOf(d: T.DataRef, r: ExtentRef) {
    (d.root, d.inode, d.at) == (r.root, r.inode, T.Base(BaseOf(r)))
  }

  /** An entry's items are its own: no other entry's window finds them. */
  lemma {:induction false} CollectedOnce(st: State, address: nat, diskBytes: nat, ds: seq<T.DataRef>, r: ExtentRef)
    requires DistinctKeys(ds)
    ensures Collected(st, address, diskBytes, ds)[r] <= 1
    ensures r in Collected(st, address, diskBytes, ds) ==>
              r in EveryRef(st, address) && exists i :: 0 <= i < |ds| && KeyOf(ds[i], r)
    decreases |ds|
  {
    if ds == [] {
    } else {
      var init, d := ds[..|ds| - 1], ds[|ds| - 1];
      CollectedOnce(st, address, diskBytes, init, r);
      if r in Collected(st, address, diskBytes, init) {
        var i :| 0 <= i < |init| && KeyOf(init[i], r);
        assert ds[i] == init[i];
      }
      assert r in Belonging(st, address, diskBytes, d) ==> KeyOf(d, r);
    }
  }

  lemma {:induction false} CollectedCount(st: State, address: nat, diskBytes: nat, ds: seq<T.DataRef>)
    requires AddsUp(st, address, diskBytes, ds)
    ensures |Collected(st, address, diskBytes, ds)| == T.Sum(ds)
    decreases |ds|
  {
    if ds == [] {
    } else {
      var init, d := ds[..|ds| - 1], ds[|ds| - 1];
      assert ds == init + [d];
      AddsUpNext(st, address, diskBytes, init, d);
      CollectedCount(st, address, diskBytes, init);
      T.SumNext(init, d);
    }
  }

  function Elements(m: multiset<ExtentRef>): set<ExtentRef> {
    set r | r in m
  }

  lemma CollectedSet(st: State, address: nat, diskBytes: nat, ds: seq<T.DataRef>)
    requires AddsUp(st, address, diskBytes, ds) && DistinctKeys(ds)
    ensures var found := Collected(st, address, diskBytes, ds);
      && multiset(Elements(found)) == found
      && |Elements(found)| == T.Sum(ds)
      && Elements(found) <= EveryRef(st, address)
  {
    var found := Collected(st, address, diskBytes, ds);
    forall r
      ensures multiset(Elements(found))[r] == found[r]
      ensures r in found ==> r in EveryRef(st, address)
    {
      CollectedOnce(st, address, diskBytes, ds, r);
    }
    CollectedCount(st, address, diskBytes, ds);
    assert |multiset(Elements(found))| == |Elements(found)|;
  }

  // ----- When that is everything: the pigeonhole -----

  /** The leaf and item a reference was read from. */
  ghost function PlaceOf(st: State, address: nat, r: ExtentRef): (p: (nat, FileItem))
    requires r in EveryRef(st, address)
    ensures InTree(st, r.root, p.0, p.1) && p.1.diskAddress == address
    ensures r == RefOf(r.root, st.leaves[p.0].generation, p.1)
  {
    var root, leaf, item :| InTree(st, root, leaf, item) && item.diskAddress == address
                            && r == RefOf(root, st.leaves[leaf].generation, item);
    (leaf, item)
  }

  ghost function PlaceMap(st: State, address: nat, refs: set<ExtentRef>): (f: map<ExtentRef, (nat, FileItem)>)
    requires refs <= EveryRef(st, address)
    ensures f.Keys == refs && |f| == |refs|
  {
    var f := map r | r in refs :: PlaceOf(st, address, r);
    assert f.Keys == refs;
    f
  }

  lemma PlaceRecorded(st: State, address: nat, r: ExtentRef)
    requires r in EveryRef(st, address)
    ensures PlaceOf(st, address, r) in Records(st, address)
  {
    var p := PlaceOf(st, address, r);
    assert InTree(st, r.root, p.0, p.1) && p == (p.0, p.1);
  }

  lemma RecordReached(st: State, address: nat, p: (nat, FileItem)) returns (root: nat)
    requires p in Records(st, address)
    ensures InTree(st, root, p.0, p.1) && p.1.diskAddress == address
  {
    var r, leaf, item :|
      r in st.subvolumes && leaf in st.subvolumes[r].leaves && leaf in st.leaves
      && item in st.leaves[leaf].items && item.diskAddress == address && p == (leaf, item);
    root := r;
  }

  lemma PlacesRecorded(st: State, address: nat, refs: set<ExtentRef>)
    requires refs <= EveryRef(st, address)
    ensures Image(PlaceMap(st, address, refs)) <= Records(st, address)
  {
    var f := PlaceMap(st, address, refs);
    forall p | p in Image(f)
      ensures p in Records(st, address)
    {
      var r :| r in f && f[r] == p;
      PlaceRecorded(st, address, r);
    }
  }

  /** Every leaf the references were read from is reached by one tree only. */
  ghost predicate Private(st: State, address: nat, refs: set<ExtentRef>)
    requires refs <= EveryRef(st, address)
  {
    forall r, root :: r in refs && Reaches(st, root, PlaceOf(st, address, r).0) ==> root == r.root
  }

  lemma NewerPrivate(st: State, address: nat, refs: set<ExtentRef>)
    requires Valid(st) && refs <= EveryRef(st, address) && forall r :: r in refs ==> Newer(st, r)
    ensures Private(st, address, refs)
  {
    forall r, root | r in refs && Reaches(st, root, PlaceOf(st, address, r).0)
      ensures root == r.root
    {
      assert Reaches(st, r.root, PlaceOf(st, address, r).0);
    }
  }

  lemma PrivateOneToOne(st: State, address: nat, refs: set<ExtentRef>)
    requires refs <= EveryRef(st, address) && Private(st, address, refs)
    ensures Injective(PlaceMap(st, address, refs))
  {
    var f := PlaceMap(st, address, refs);
    forall a, b | a in f && b in f && f[a] == f[b]
      ensures a == b
    {
      assert Reaches(st, a.root, f[a].0);
    }
  }

  /** As many references as the extent tree counts, each from a leaf one tree
      alone reaches, leave no room for another: they are all there are. */
  lemma CountedIsAll(st: State, address: nat, refs: set<ExtentRef>)
    requires refs <= EveryRef(st, address) && |refs| == |Records(st, address)| && Private(st, address, refs)
    ensures refs == EveryRef(st, address)
  {
    PlacesRecorded(st, address, refs);
    PrivateOneToOne(st, address, refs);
    OneToOneIsOnto(PlaceMap(st, address, refs), Records(st, address));
    forall r | r in EveryRef(st, address)
      ensures r in refs
    {
      PlaceTaken(st, address, refs, r);
    }
  }

  lemma PlaceTaken(st: State, address: nat, refs: set<ExtentRef>, r: ExtentRef)
    requires refs <= EveryRef(st, address) && Private(st, address, refs) && r in EveryRef(st, address)
    requires Image(PlaceMap(st, address, refs)) == Records(st, address)
    ensures r in refs
  {
    PlaceRecorded(st, address, r);
    var found := PlaceHolder(st, address, refs, PlaceOf(st, address, r));
    SamePlaceSame(st, address, refs, found, r);
  }

  lemma PlaceHolder(st: State, address: nat, refs: set<ExtentRef>, p: (nat, FileItem)) returns (found: ExtentRef)
    requires refs <= EveryRef(st, address) && p in Image(PlaceMap(st, address, refs))
    ensures found in refs && PlaceOf(st, address, found) == p
  {
    found := ImageHas(PlaceMap(st, address, refs), p);
  }

  lemma SamePlaceSame(st: State, address: nat, refs: set<ExtentRef>, found: ExtentRef, r: ExtentRef)
    requires refs <= EveryRef(st, address) && Private(st, address, refs) && found in refs && r in EveryRef(st, address)
    requires PlaceOf(st, address, found) == PlaceOf(st, address, r)
    ensures found == r
  {
    assert Reaches(st, r.root, PlaceOf(st, address, found).0);
  }

  /** No item pointing at the extent is in a leaf two trees reach. */
  ghost predicate Unshared(st: State, address: nat) {
    forall root, other, leaf, item ::
      InTree(st, root, leaf, item) && item.diskAddress == address && Reaches(st, other, leaf) ==>
        root == other
  }

  lemma PlaceUnique(st: State, address: nat, root: nat, leaf: nat, item: FileItem)
    requires UniqueKeys(st) && InTree(st, root, leaf, item) && item.diskAddress == address
    ensures RefOf(root, st.leaves[leaf].generation, item) in EveryRef(st, address)
    ensures PlaceOf(st, address, RefOf(root, st.leaves[leaf].generation, item)) == (leaf, item)
  {
  }

  lemma AllPlaces(st: State, address: nat)
    requires UniqueKeys(st)
    ensures Image(PlaceMap(st, address, EveryRef(st, address))) == Records(st, address)
  {
    var f := PlaceMap(st, address, EveryRef(st, address));
    PlacesRecorded(st, address, EveryRef(st, address));
    forall p | p in Records(st, address)
      ensures p in Image(f)
    {
      var root := RecordReached(st, address, p);
      PlaceUnique(st, address, root, p.0, p.1);
      assert RefOf(root, st.leaves[p.0].generation, p.1) in f;
    }
  }

  /** There are as many references as the extent tree counts exactly if none of
      them is in a leaf two trees reach; a shared leaf hides the others'. */
  lemma CountMeansUnshared(st: State, address: nat)
    requires UniqueKeys(st)
    ensures |Records(st, address)| <= |EveryRef(st, address)|
    ensures |Records(st, address)| == |EveryRef(st, address)| <==> Unshared(st, address)
  {
    var all := EveryRef(st, address);
    var f := PlaceMap(st, address, all);
    AllPlaces(st, address);
    ImageSmaller(f);
    if Unshared(st, address) {
      PrivateOneToOne(st, address, all);
    }
    if |Records(st, address)| == |all| {
      OneToOneIsOnto(f, Records(st, address));
      forall root, other, leaf, item | InTree(st, root, leaf, item)
        && item.diskAddress == address && Reaches(st, other, leaf)
        ensures root == other
      {
        PlaceUnique(st, address, root, leaf, item);
        PlaceUnique(st, address, other, leaf, item);
        assert f[RefOf(root, st.leaves[leaf].generation, item)] == f[RefOf(other, st.leaves[leaf].generation, item)];
      }
    }
  }

  /** The extent tree's list: an entry for every base, counting every reference
      it records once. */
  ghost predicate CountsAll(st: State, address: nat, ds: seq<T.DataRef>) {
    DistinctKeys(ds) && T.Sum(ds) == |Records(st, address)|
  }

  /** A true list that adds up and led to `Newer` references only has led to them all. */
  lemma ListIsComplete(st: State, address: nat, diskBytes: nat, refs: seq<ExtentRef>, ds: seq<T.DataRef>)
    requires Valid(st) && CountsAll(st, address, ds) && Gathered(refs, st, address, diskBytes, ds)
    requires forall r :: r in refs ==> Newer(st, r)
    ensures multiset(refs) == multiset(EveryRef(st, address))
  {
    var found := Elements(Collected(st, address, diskBytes, ds));
    CollectedSet(st, address, diskBytes, ds);
    assert forall r :: r in found ==> r in multiset(refs);
    NewerPrivate(st, address, found);
    CountedIsAll(st, address, found);
  }

  /** Whatever the leaves' generations, a list that adds up has led to every
      reference exactly if no leaf holding one is shared. */
  lemma ListIsCompleteExactly(st: State, address: nat, diskBytes: nat, refs: seq<ExtentRef>, ds: seq<T.DataRef>)
    requires UniqueKeys(st) && CountsAll(st, address, ds) && Gathered(refs, st, address, diskBytes, ds)
    ensures multiset(refs) == multiset(EveryRef(st, address)) <==> Unshared(st, address)
  {
    var found := Elements(Collected(st, address, diskBytes, ds));
    var all := EveryRef(st, address);
    CollectedSet(st, address, diskBytes, ds);
    CountMeansUnshared(st, address);
    if Unshared(st, address) {
      Fills(found, all);
    }
    if multiset(refs) == multiset(all) {
      assert |multiset(found)| == |found| && |multiset(all)| == |all|;
    }
  }

  /** If some leaf is shared, a list that adds up is incomplete, and among what it led
      to is a reference that is not `Newer`: the check never lets it pass. */
  lemma SharedIsCaught(st: State, address: nat, diskBytes: nat, refs: seq<ExtentRef>, ds: seq<T.DataRef>)
    requires Valid(st) && UniqueKeys(st) && !Unshared(st, address)
    requires CountsAll(st, address, ds) && Gathered(refs, st, address, diskBytes, ds)
    ensures multiset(refs) != multiset(EveryRef(st, address)) && exists r :: r in refs && !Newer(st, r)
  {
    ListIsCompleteExactly(st, address, diskBytes, refs, ds);
    if forall r :: r in refs ==> Newer(st, r) {
      ListIsComplete(st, address, diskBytes, refs, ds);
    }
  }

  /** A snapshot just taken hides references from the extent tree's list, which
      still adds up; no leaf read is newer than it. */
  lemma SnapshotHides(st: State, now: State, root: nat, into: nat, leaf: nat, item: FileItem, diskBytes: nat,
                      refs: seq<ExtentRef>, ds: seq<T.DataRef>)
    requires Valid(st) && InTree(st, root, leaf, item) && into !in st.subvolumes
      && now == Next(st, Snapshot(root, into))
    requires UniqueKeys(now)
    requires CountsAll(now, item.diskAddress, ds) && Gathered(refs, now, item.diskAddress, diskBytes, ds)
    ensures multiset(refs) != multiset(EveryRef(now, item.diskAddress)) && exists r :: r in refs && !Newer(now, r)
  {
    SnapshotKeepsValid(st, root, into);
    assert InTree(now, root, leaf, item) && Reaches(now, into, leaf) && root != into;
    SharedIsCaught(now, item.diskAddress, diskBytes, refs, ds);
  }

  /** What `d` stands for, going by its key alone. */
  function Keyed(st: State, address: nat, d: T.DataRef): set<ExtentRef> {
    set r | r in EveryRef(st, address) && KeyOf(d, r)
  }

  /** A list with an entry for the base of every reference, and true counts. */
  ghost predicate NamesAll(st: State, address: nat, ds: seq<T.DataRef>) {
    && DistinctKeys(ds)
    && (forall i :: 0 <= i < |ds| ==> ds[i].count == |Keyed(st, address, ds[i])| && 0 < ds[i].count)
    && forall r :: r in EveryRef(st, address) ==> exists i :: 0 <= i < |ds| && KeyOf(ds[i], r)
  }

  lemma KeyedBelong(st: State, address: nat, diskBytes: nat, d: T.DataRef)
    requires ValidTrees(st, address, diskBytes) && d.at.Base?
    ensures Belonging(st, address, diskBytes, d) == Keyed(st, address, d)
  {
    forall r | r in EveryRef(st, address)
      ensures r in Belonging(st, address, diskBytes, d) <==> KeyOf(d, r)
    {
      BaseExact(st, address, diskBytes, r, d);
    }
  }

  lemma {:induction false} CollectedHas(st: State, address: nat, diskBytes: nat, ds: seq<T.DataRef>, i: nat,
      r: ExtentRef)
    requires i < |ds| && r in Belonging(st, address, diskBytes, ds[i])
    ensures r in Collected(st, address, diskBytes, ds)
    decreases |ds|
  {
    if i == |ds| - 1 {
    } else {
      CollectedHas(st, address, diskBytes, ds[..|ds| - 1], i, r);
    }
  }

  lemma NamedAddsUp(st: State, address: nat, diskBytes: nat, ds: seq<T.DataRef>)
    requires ValidTrees(st, address, diskBytes) && NamesAll(st, address, ds)
    ensures AddsUp(st, address, diskBytes, ds)
  {
    forall i | 0 <= i < |ds|
      ensures Matches(st, address, diskBytes, ds[i])
    {
      KeyedBelong(st, address, diskBytes, ds[i]);
      RootThere(st, address, diskBytes, ds[i]);
    }
  }

  lemma NamedHas(st: State, address: nat, diskBytes: nat, ds: seq<T.DataRef>, r: ExtentRef)
    requires ValidTrees(st, address, diskBytes) && NamesAll(st, address, ds) && r in EveryRef(st, address)
    ensures r in Collected(st, address, diskBytes, ds)
  {
    var i :| 0 <= i < |ds| && KeyOf(ds[i], r);
    BaseExact(st, address, diskBytes, r, ds[i]);
    CollectedHas(st, address, diskBytes, ds, i, r);
  }

  /** Such a list is found to add up, and collects every reference once. */
  lemma NamedIsCollected(st: State, address: nat, diskBytes: nat, ds: seq<T.DataRef>)
    requires ValidTrees(st, address, diskBytes) && NamesAll(st, address, ds)
    ensures AddsUp(st, address, diskBytes, ds)
    ensures Collected(st, address, diskBytes, ds) == multiset(EveryRef(st, address))
    ensures T.Sum(ds) == |EveryRef(st, address)|
  {
    NamedAddsUp(st, address, diskBytes, ds);
    CollectedSet(st, address, diskBytes, ds);
    var found := Elements(Collected(st, address, diskBytes, ds));
    forall r | r in EveryRef(st, address)
      ensures r in found
    {
      NamedHas(st, address, diskBytes, ds, r);
    }
    assert found == EveryRef(st, address);
  }

  /** The two ways of finding holders agree: searching around each base the extent
      tree names, and searching between the first and last offsets the walk gives.
      Where no leaf is shared, both count what the extent tree counts. */
  lemma WaysAgree(st: State, address: nat, diskBytes: nat, ds: seq<T.DataRef>, all: seq<Triple>, walked: seq<T.DataRef>)
    requires ValidTrees(st, address, diskBytes)
    requires NamesAll(st, address, ds) && Listed(all, st, address) && GroupedBy(walked, all)
    ensures AddsUp(st, address, diskBytes, ds) && AddsUp(st, address, diskBytes, walked)
    ensures Collected(st, address, diskBytes, ds) == Collected(st, address, diskBytes, walked)
    ensures T.Sum(ds) == T.Sum(walked)
    ensures T.Sum(ds) == |Records(st, address)| <==> Unshared(st, address)
  {
    NamedIsCollected(st, address, diskBytes, ds);
    WalkCollectsAll(st, address, diskBytes, all, walked);
    CollectedCount(st, address, diskBytes, ds);
    CollectedCount(st, address, diskBytes, walked);
    CountMeansUnshared(st, address);
  }
}
