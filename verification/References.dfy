/** The references to an extent in every tree, and where each is searched for. */
module References {
  import opened Extents
  import opened Cow
  import opened Words
  import T = Tallies

  const MAX_COMPRESSED_BYTES: nat := 128 * 1024

  predicate InTree(st: State, root: nat, leaf: nat, item: FileItem) {
    Reaches(st, root, leaf) && leaf in st.leaves && item in st.leaves[leaf].items
  }

  /** The reference a file extent item makes, read from a leaf of this generation. */
  function RefOf(root: nat, generation: nat, item: FileItem): ExtentRef {
    ExtentRef(root, item.inode, item.diskAddress, item.diskBytes, item.uncompressedBytes, item.fileOffset,
              item.extentOffset, item.numBytes, generation)
  }

  /** Every reference to the extent, in every tree. */
  function EveryRef(st: State, address: nat): set<ExtentRef> {
    set root, leaf, item |
      root in st.subvolumes && leaf in st.subvolumes[root].leaves && leaf in st.leaves
      && item in st.leaves[leaf].items && item.diskAddress == address ::
      RefOf(root, st.leaves[leaf].generation, item)
  }

  /** What the extent tree counts: a reference once for the tree block it is in,
      however many trees reach that block. */
  function Records(st: State, address: nat): set<(nat, FileItem)> {
    set root, leaf, item |
      root in st.subvolumes && leaf in st.subvolumes[root].leaves && leaf in st.leaves
      && item in st.leaves[leaf].items && item.diskAddress == address ::
      (leaf, item)
  }

  /** A subvolume has one item at most for an offset of an inode. */
  ghost predicate UniqueKeys(st: State) {
    forall root, leaf, item, other, that ::
      InTree(st, root, leaf, item) && InTree(st, root, other, that)
      && item.inode == that.inode && item.fileOffset == that.fileOffset ==>
        leaf == other && item == that
  }

  /** What `WindowMissesNothing` needs of an item: it ends inside its extent, the extent
      is no longer than it is on disk, or than 128 KiB, and nothing reaches 2^63. */
  predicate ValidItem(item: FileItem) {
    && item.extentOffset + item.numBytes <= item.uncompressedBytes
    && (item.uncompressedBytes <= item.diskBytes || item.uncompressedBytes <= 131072)
    && item.diskBytes <= TWO63
    && item.fileOffset < TWO63
  }

  function Longest(diskBytes: nat): nat {
    if diskBytes < MAX_COMPRESSED_BYTES then MAX_COMPRESSED_BYTES else diskBytes
  }

  /** Well-formed trees, in which every item pointing at the extent gives the same length for it. */
  ghost predicate Agree(st: State, address: nat, diskBytes: nat) {
    && Valid(st) && UniqueKeys(st)
    && (forall root, leaf, item :: InTree(st, root, leaf, item) && item.diskAddress == address ==>
      item.diskBytes == diskBytes)
    && forall root, leaf, item, other, that, its ::
      InTree(st, root, leaf, item) && InTree(st, other, that, its)
      && item.diskAddress == address && its.diskAddress == address ==>
        item.uncompressedBytes == its.uncompressedBytes
  }

  /** The same, with every such item one the kernel writes. */
  ghost predicate ValidTrees(st: State, address: nat, diskBytes: nat) {
    && Agree(st, address, diskBytes)
    && forall root, leaf, item :: InTree(st, root, leaf, item) && item.diskAddress == address ==> ValidItem(item)
  }

  // ----- Where the references a DataRef stands for are searched for -----

  /** The base the extent tree records an item under. */
  function BaseOf(r: ExtentRef): nat { Wrap(r.fileOffset - r.extentOffset) }

  /** The first and last file offset searched. */
  function Window(at: T.RefOffsets, diskBytes: nat): (nat, nat) {
    match at
    case Base(base) =>
      var last := Wrap(base + Longest(diskBytes) - 1);
      (if base <= last then base else 0, last)
    case Between(first, last) => (first, last)
  }

  predicate InWindow(at: T.RefOffsets, diskBytes: nat, fileOffset: nat) {
    Window(at, diskBytes).0 <= fileOffset <= Window(at, diskBytes).1
  }

  predicate Belongs(at: T.RefOffsets, r: ExtentRef) {
    at.Base? ==> BaseOf(r) == at.base
  }

  /** The references to the extent a `DataRef` stands for. */
  function Belonging(st: State, address: nat, diskBytes: nat, d: T.DataRef): set<ExtentRef> {
    set r | r in EveryRef(st, address) && r.root == d.root && r.inode == d.inode
            && InWindow(d.at, diskBytes, r.fileOffset) && r.diskBytes == diskBytes && Belongs(d.at, r)
  }

  /** The window misses no item of its base, whether or not the base wraps. */
  lemma WindowMissesNothing(r: ExtentRef, diskBytes: nat)
    requires (r.extentOffset < diskBytes || r.extentOffset < 131072) && diskBytes <= TWO63 && r.fileOffset < TWO63
    ensures InWindow(T.Base(BaseOf(r)), diskBytes, r.fileOffset)
  {
    var base := BaseOf(r);
    var sum := base + Longest(diskBytes) - 1;
    if r.extentOffset <= r.fileOffset {
      assert base == r.fileOffset - r.extentOffset && Wrap(sum) == sum;
    } else {
      assert base == TWO64 + r.fileOffset - r.extentOffset && Wrap(sum) == sum - TWO64;
    }
  }

  /** What any reference there is says of the extent. */
  lemma RefReal(st: State, address: nat, r: ExtentRef)
    requires r in EveryRef(st, address)
    ensures r.diskAddress == address && 0 < r.numBytes && r.diskBytes < TWO64 && r.root in st.subvolumes
  {
    var root, leaf, item :| InTree(st, root, leaf, item) && item.diskAddress == address
                            && r == RefOf(root, st.leaves[leaf].generation, item);
  }

  lemma RefAgrees(st: State, address: nat, diskBytes: nat, r: ExtentRef)
    requires Agree(st, address, diskBytes) && r in EveryRef(st, address)
    ensures r.diskBytes == diskBytes
  {
    var root, leaf, item :| InTree(st, root, leaf, item) && item.diskAddress == address
                            && r == RefOf(root, st.leaves[leaf].generation, item);
  }

  lemma RefsAgree(st: State, address: nat, diskBytes: nat)
    requires Agree(st, address, diskBytes)
    ensures forall r, q :: r in EveryRef(st, address) && q in EveryRef(st, address) ==>
      r.diskBytes == q.diskBytes == diskBytes && r.uncompressedBytes == q.uncompressedBytes
  {
    forall r, q | r in EveryRef(st, address) && q in EveryRef(st, address)
      ensures r.diskBytes == q.diskBytes == diskBytes && r.uncompressedBytes == q.uncompressedBytes
    {
      RefAgrees(st, address, diskBytes, r);
      RefAgrees(st, address, diskBytes, q);
      RefsAlike(st, address, diskBytes, r, q);
    }
  }

  lemma RefsAlike(st: State, address: nat, diskBytes: nat, r: ExtentRef, q: ExtentRef)
    requires Agree(st, address, diskBytes) && r in EveryRef(st, address) && q in EveryRef(st, address)
    ensures r.uncompressedBytes == q.uncompressedBytes
  {
    var root, leaf, item :| InTree(st, root, leaf, item) && item.diskAddress == address
                            && r == RefOf(root, st.leaves[leaf].generation, item);
    var other, that, its :| InTree(st, other, that, its) && its.diskAddress == address
                            && q == RefOf(other, st.leaves[that].generation, its);
  }

  lemma AllRefsValid(st: State, address: nat, diskBytes: nat, r: ExtentRef)
    requires ValidTrees(st, address, diskBytes) && r in EveryRef(st, address)
    ensures (r.extentOffset < diskBytes || r.extentOffset < 131072) && diskBytes <= TWO63 && r.fileOffset < TWO63
    ensures r.diskBytes == diskBytes && r.diskAddress == address && 0 < r.numBytes
  {
    var root, leaf, item :| InTree(st, root, leaf, item) && item.diskAddress == address
                            && r == RefOf(root, st.leaves[leaf].generation, item);
  }

  /** An item belongs to the base it is recorded under, and to no other. */
  lemma BaseExact(st: State, address: nat, diskBytes: nat, r: ExtentRef, d: T.DataRef)
    requires ValidTrees(st, address, diskBytes) && r in EveryRef(st, address) && d.at.Base?
    ensures r in Belonging(st, address, diskBytes, d) <==> (r.root, r.inode, BaseOf(r)) == (d.root, d.inode, d.at.base)
  {
    AllRefsValid(st, address, diskBytes, r);
    WindowMissesNothing(r, diskBytes);
  }

  // ----- Collecting -----

  /** Everything the `DataRef`s stand for, as often as they stand for it. */
  function Collected(st: State, address: nat, diskBytes: nat, ds: seq<T.DataRef>): multiset<ExtentRef> {
    if ds == [] then multiset{}
    else Collected(st, address, diskBytes, ds[..|ds| - 1]) + multiset(Belonging(st, address, diskBytes, ds[|ds| - 1]))
  }

  predicate Matches(st: State, address: nat, diskBytes: nat, d: T.DataRef) {
    d.root in st.subvolumes && |Belonging(st, address, diskBytes, d)| == d.count
  }

  /** Each stands for as many items as it says, in a subvolume there is. */
  predicate AddsUp(st: State, address: nat, diskBytes: nat, ds: seq<T.DataRef>) {
    forall i :: 0 <= i < |ds| ==> Matches(st, address, diskBytes, ds[i])
  }

  lemma AddsUpNext(st: State, address: nat, diskBytes: nat, ds: seq<T.DataRef>, d: T.DataRef)
    ensures AddsUp(st, address, diskBytes, ds + [d]) <==>
      AddsUp(st, address, diskBytes, ds) && Matches(st, address, diskBytes, d)
  {
    var all := ds + [d];
    assert forall i :: 0 <= i < |ds| ==> all[i] == ds[i];
    assert all[|ds|] == d;
  }

  /** The references in a stretch of a file, whatever extent they point into. */
  function InStretch(st: State, root: nat, inode: nat, first: nat, last: nat): set<ExtentRef> {
    set leaf, item |
      root in st.subvolumes && leaf in st.subvolumes[root].leaves && leaf in st.leaves
      && item in st.leaves[leaf].items && item.inode == inode && first <= item.fileOffset <= last ::
      RefOf(root, st.leaves[leaf].generation, item)
  }

  /** The ones of them to collect. */
  predicate Wanted(r: ExtentRef, address: nat, diskBytes: nat, at: T.RefOffsets) {
    r.diskAddress == address && r.diskBytes == diskBytes && Belongs(at, r)
  }

  /** `refs` are those of `found` to collect, each as often as it was found. */
  ghost predicate Kept(refs: seq<ExtentRef>, found: seq<ExtentRef>, address: nat, diskBytes: nat, at: T.RefOffsets) {
    forall r :: multiset(refs)[r] == if Wanted(r, address, diskBytes, at) then multiset(found)[r] else 0
  }

  lemma KeptNext(refs: seq<ExtentRef>, found: seq<ExtentRef>, r: ExtentRef, address: nat, diskBytes: nat,
      at: T.RefOffsets)
    requires Kept(refs, found, address, diskBytes, at)
    ensures Kept(if Wanted(r, address, diskBytes, at) then refs + [r] else refs, found + [r], address, diskBytes, at)
  {
  }

  lemma KeptAll(refs: seq<ExtentRef>, found: seq<ExtentRef>, st: State, address: nat, diskBytes: nat, d: T.DataRef)
    requires Kept(refs, found, address, diskBytes, d.at)
    requires multiset(found)
             == multiset(InStretch(st, d.root, d.inode, Window(d.at, diskBytes).0, Window(d.at, diskBytes).1))
    ensures multiset(refs) == multiset(Belonging(st, address, diskBytes, d))
  {
    BelongingWanted(st, address, diskBytes, d);
  }

  lemma BelongingWanted(st: State, address: nat, diskBytes: nat, d: T.DataRef)
    ensures Belonging(st, address, diskBytes, d) ==
            set r | r in InStretch(st, d.root, d.inode, Window(d.at, diskBytes).0, Window(d.at, diskBytes).1)
                    && Wanted(r, address, diskBytes, d.at)
  {
    var stretch := InStretch(st, d.root, d.inode, Window(d.at, diskBytes).0, Window(d.at, diskBytes).1);
    forall r | r in Belonging(st, address, diskBytes, d)
      ensures r in stretch && Wanted(r, address, diskBytes, d.at)
    {
      var root, leaf, item :| InTree(st, root, leaf, item) && item.diskAddress == address
                              && r == RefOf(root, st.leaves[leaf].generation, item);
    }
    forall r | r in stretch && Wanted(r, address, diskBytes, d.at)
      ensures r in Belonging(st, address, diskBytes, d)
    {
      var leaf, item :| InTree(st, d.root, leaf, item) && item.inode == d.inode
                        && Window(d.at, diskBytes).0 <= item.fileOffset <= Window(d.at, diskBytes).1
                        && r == RefOf(d.root, st.leaves[leaf].generation, item);
    }
  }

  /** What is collected is there. */
  lemma {:induction false} CollectedReal(st: State, address: nat, diskBytes: nat, ds: seq<T.DataRef>, r: ExtentRef)
    requires r in Collected(st, address, diskBytes, ds)
    ensures r in EveryRef(st, address) && r.root in st.subvolumes && r.diskBytes == diskBytes
    decreases |ds|
  {
    if r in Collected(st, address, diskBytes, ds[..|ds| - 1]) {
      CollectedReal(st, address, diskBytes, ds[..|ds| - 1], r);
    } else {
      assert r in Belonging(st, address, diskBytes, ds[|ds| - 1]);
    }
  }

  /** `refs` are what the `DataRef`s stand for, and there are as many of each as it says. */
  ghost predicate Gathered(refs: seq<ExtentRef>, st: State, address: nat, diskBytes: nat, ds: seq<T.DataRef>) {
    AddsUp(st, address, diskBytes, ds) && multiset(refs) == Collected(st, address, diskBytes, ds)
  }

  lemma GatheredNext(refs: seq<ExtentRef>, found: seq<ExtentRef>, st: State, address: nat, diskBytes: nat,
                     ds: seq<T.DataRef>, i: nat)
    requires i < |ds| && Gathered(refs, st, address, diskBytes, ds[..i]) && Matches(st, address, diskBytes, ds[i])
    requires multiset(found) == multiset(Belonging(st, address, diskBytes, ds[i]))
    ensures Gathered(refs + found, st, address, diskBytes, ds[..i + 1])
  {
    assert ds[..i + 1][..i] == ds[..i] && ds[..i + 1][i] == ds[i];
    assert forall j :: 0 <= j < i ==> ds[..i + 1][j] == ds[..i][j];
  }

  lemma BelongingSize(found: seq<ExtentRef>, st: State, address: nat, diskBytes: nat, d: T.DataRef)
    requires multiset(found) == multiset(Belonging(st, address, diskBytes, d))
    ensures |found| == |Belonging(st, address, diskBytes, d)|
  {
    assert |multiset(found)| == |found|;
  }

  /** The reference's leaf has a generation above its subvolume's `lastSnapshot`. */
  predicate Newer(st: State, r: ExtentRef) {
    r.root in st.subvolumes && st.subvolumes[r.root].lastSnapshot < r.leafGeneration
  }
}
