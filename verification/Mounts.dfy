/** A mounted filesystem as a run changes it: its files, the trees that describe them
    at every step, and what no rewrite changes. */
module Mounts {
  import opened Wrappers
  import opened Words
  import opened Extents
  import opened Sectors
  import opened Disks
  import opened Kernel
  import opened Planning
  import opened Processing
  import Cow
  import R = References
  import Resolve

  /** The file extent items in the trees are the sectors the files hold of extent `x`. */
  ghost predicate Describes(st: Cow.State, d: Disk, x: Address) {
    && (forall root, leaf, item :: R.InTree(st, root, leaf, item) && item.diskAddress == x ==>
      ItemTrue(d, x, root, item))
    && (forall id, s: nat :: id in d.files && s in d.files[id].sectors && d.files[id].sectors[s].extent == x ==>
          SectorItemized(st, x, id, s))
  }

  ghost predicate SectorItemized(st: Cow.State, x: Address, id: FileId, s: nat) {
    id.Inode? && Aligned(s) && Itemized(st, x, id.root, id.inode, s)
  }

  ghost predicate ItemTrue(d: Disk, x: Address, root: nat, item: Cow.FileItem) {
    && Inode(root, item.inode) in d.files
    && RefTrue(d.files[Inode(root, item.inode)], x, R.RefOf(root, 0, item))
  }

  ghost predicate Itemized(st: Cow.State, x: Address, root: nat, inode: nat, s: nat) {
    exists leaf, item ::
      R.InTree(st, root, leaf, item) && item.diskAddress == x && item.inode == inode
      && item.fileOffset <= s < item.fileOffset + item.numBytes
  }

  lemma RefsAreTrue(st: Cow.State, d: Disk, x: Address, refs: seq<ExtentRef>)
    requires Describes(st, d, x) && multiset(refs) == multiset(R.EveryRef(st, x))
    ensures RefsTrue(d, x, refs)
  {
    forall r | r in refs
      ensures FileOf(r) in d.files && RefTrue(d.files[FileOf(r)], x, r)
    {
      assert r in multiset(refs);
      RefIsTrue(st, d, x, r);
    }
  }

  lemma RefIsTrue(st: Cow.State, d: Disk, x: Address, r: ExtentRef)
    requires Describes(st, d, x) && r in R.EveryRef(st, x)
    ensures FileOf(r) in d.files && RefTrue(d.files[FileOf(r)], x, r)
  {
    var root, leaf, item :| R.InTree(st, root, leaf, item) && item.diskAddress == x
                            && r == R.RefOf(root, st.leaves[leaf].generation, item);
    assert ItemTrue(d, x, root, item);
    var same := R.RefOf(root, 0, item);
    assert forall s: nat :: InRef(r, s) ==> InRef(same, s);
  }

  lemma RefsAreComplete(st: Cow.State, d: Disk, x: Address, refs: seq<ExtentRef>)
    requires Describes(st, d, x) && multiset(refs) == multiset(R.EveryRef(st, x))
    ensures RefsComplete(d, x, refs)
  {
    forall id, s: nat | id in d.files && s in d.files[id].sectors && d.files[id].sectors[s].extent == x
      ensures exists r :: r in refs && FileOf(r) == id && InRef(r, s)
    {
      assert SectorItemized(st, x, id, s);
      var r := SectorReferenced(st, x, id.root, id.inode, s);
      assert r in multiset(R.EveryRef(st, x));
      assert r in multiset(refs);
    }
  }

  lemma SectorReferenced(st: Cow.State, x: Address, root: nat, inode: nat, s: nat) returns (r: ExtentRef)
    requires Itemized(st, x, root, inode, s) && Aligned(s)
    ensures r in R.EveryRef(st, x) && FileOf(r) == Inode(root, inode) && InRef(r, s)
  {
    var leaf, item :|
      R.InTree(st, root, leaf, item) && item.diskAddress == x && item.inode == inode
      && item.fileOffset <= s < item.fileOffset + item.numBytes;
    r := R.RefOf(root, st.leaves[leaf].generation, item);
  }

  /** The trees lie over the files: they describe them, and agree on every extent's length. */
  ghost predicate Lies(st: Cow.State, d: Disk, x: Address) {
    Describes(st, d, x) && Resolve.HasForest(st, x)
  }

  // ----- What rewriting keeps -----

  /** The file reads the same, and has its sectors where it had them. */
  ghost predicate ReadsSame(was: Disk, now: Disk, id: FileId)
    requires ValidDisk(was) && ValidDisk(now) && id in was.files && id in now.files
  {
    var f, g := was.files[id], now.files[id];
    && g.size == f.size && g.modified == f.modified && g.sectors.Keys == f.sectors.Keys
    && forall p: nat :: p < f.size ==> ByteAt(g, now.extents, p) == ByteAt(f, was.extents, p)
  }

  /** Nothing is lost: the same files, reading the same, and every extent there was. */
  ghost predicate Preserves(was: Disk, now: Disk) {
    && ValidDisk(was) && ValidDisk(now)
    && now.files.Keys == was.files.Keys && ExtentsGrow(was.extents, now.extents)
    && forall id :: id in was.files ==> ReadsSame(was, now, id)
  }

  lemma PreservesRefl(d: Disk)
    requires ValidDisk(d)
    ensures Preserves(d, d)
  {
  }

  /** What a rewrite does to the filesystem, whatever comes of it. */
  ghost predicate RewriteStep(was: Disk, now: Disk, x: Address) {
    Evolves(was, now, x) && now.files.Keys == was.files.Keys
  }

  lemma StepReadsSame(was: Disk, mid: Disk, now: Disk, x: Address, id: FileId)
    requires Preserves(was, mid) && RewriteStep(mid, now, x) && id in was.files
    ensures ReadsSame(was, now, id)
  {
    assert ReadsSame(was, mid, id);
    assert FileEvolves(mid.files[id], now.files[id], mid.extents, now.extents, x);
    forall p: nat | p < was.files[id].size
      ensures ByteAt(now.files[id], now.extents, p) == ByteAt(mid.files[id], mid.extents, p)
    {
      EvolvesKeepsContents(mid, now, x, id, p);
    }
  }

  /** One more rewrite loses nothing either. */
  lemma StepPreserves(was: Disk, mid: Disk, now: Disk, x: Address)
    requires Preserves(was, mid) && RewriteStep(mid, now, x)
    ensures Preserves(was, now)
  {
    forall id | id in was.files
      ensures ReadsSame(was, now, id)
    {
      StepReadsSame(was, mid, now, x, id);
    }
  }

  /** A rewrite makes no new reference to any extent there already was. */
  lemma StepAddsNone(was: Disk, now: Disk, x: Address, y: Address)
    requires RewriteStep(was, now, x) && y in was.extents && !Referenced(was, y)
    ensures y in now.extents && !Referenced(now, y)
  {
    forall id | id in now.files
      ensures !Holds(now.files[id], y)
    {
      assert !Holds(was.files[id], y);
      assert FileEvolves(was.files[id], now.files[id], was.extents, now.extents, x);
    }
  }

  /** All of these extents were let go of. */
  ghost predicate Released(d: Disk, addresses: seq<nat>) {
    forall x :: x in addresses ==> x in d.extents && !Referenced(d, x)
  }

  /** Once released an extent stays so, whatever else is rewritten. */
  lemma ReleasedStays(was: Disk, now: Disk, x: Address, addresses: seq<nat>)
    requires RewriteStep(was, now, x) && Released(was, addresses)
    ensures Released(now, addresses)
  {
    forall y | y in addresses
      ensures y in now.extents && !Referenced(now, y)
    {
      StepAddsNone(was, now, x, y);
    }
  }

  // ----- The mount -----

  /** Wherever rewriting takes the files, the trees the kernel lays over them describe them. */
  ghost predicate Lays(layout: Disk -> Cow.State, start: Disk) {
    forall d, x: Address :: Preserves(start, d) ==> Lies(layout(d), d, x)
  }

  /** The files, and the trees over them, which follow every change. */
  class Mount {
    const fs: Filesystem
    /** How the kernel lays trees over files: nothing is known of it but that it describes them. */
    const layout: Disk -> Cow.State
    const reliable: bool
    ghost const start: Disk

    ghost predicate Valid()
      reads this, fs
    {
      Preserves(start, fs.disk) && Lays(layout, start)
    }

    constructor (fs: Filesystem, layout: Disk -> Cow.State, reliable: bool)
      requires ValidDisk(fs.disk) && Lays(layout, fs.disk)
      ensures Valid() && this.fs == fs && this.layout == layout && this.reliable == reliable && start == fs.disk
    {
      this.fs, this.layout, this.reliable, start := fs, layout, reliable, fs.disk;
      PreservesRefl(fs.disk);
    }

    /** The extent as it is now: every reference there is, each true. */
    method ResolveAgain(extent: Extent) returns (a: Result<Extent, Fault>, ghost failed: Option<Fault>)
      requires Valid()
      ensures a.Ok? ==> Whole(fs.disk, extent, a.value)
      ensures a.Ok? ==> Measures(a.value, R.EveryRef(layout(fs.disk), extent.diskAddress))
      ensures !Referenced(fs.disk, extent.diskAddress) ==> a.Err?
      ensures reliable && !Referenced(fs.disk, extent.diskAddress) ==> a == Err(ChangedSince)
      ensures reliable && Resolvable(layout(fs.disk), fs.disk, extent) ==> a.Ok?
      ensures a == Err(Fatal) ==> !reliable
      ensures Resolve.Blames(failed, a)
      ensures a == Err(ChangedSince) && R.Agree(layout(fs.disk), extent.diskAddress, extent.diskBytes) ==>
        !Referenced(fs.disk, extent.diskAddress)
    {
      assert Lies(layout(fs.disk), fs.disk, extent.diskAddress);
      a, failed := ResolveOver(layout(fs.disk), fs.disk, extent, reliable);
    }
  }

  /** `now` is `extent` with references that are true of these files and complete. */
  ghost predicate Whole(d: Disk, extent: Extent, now: Extent) {
    && now.Valid() && now.diskAddress == extent.diskAddress && now.diskBytes == extent.diskBytes
    && now.diskAddress in d.extents
    && RefsTrue(d, now.diskAddress, now.refs) && RefsComplete(d, now.diskAddress, now.refs)
  }

  /** The extent is there to be found: some file holds it, the trees give it the length
      it was read with, and a lookup can hold its references. */
  ghost predicate Resolvable(st: Cow.State, d: Disk, extent: Extent) {
    && Referenced(d, extent.diskAddress)
    && R.Agree(st, extent.diskAddress, extent.diskBytes) && Resolve.Fits(st, extent.diskAddress)
  }

  /** Resolves an extent in trees that lie over these files. */
  method ResolveOver(st: Cow.State, ghost d: Disk, extent: Extent, reliable: bool)
    returns (a: Result<Extent, Fault>, ghost failed: Option<Fault>)
    requires ValidDisk(d) && Lies(st, d, extent.diskAddress)
    ensures a.Ok? ==> Whole(d, extent, a.value) && Measures(a.value, R.EveryRef(st, extent.diskAddress))
    ensures !Referenced(d, extent.diskAddress) ==> a.Err?
    ensures reliable && !Referenced(d, extent.diskAddress) ==> a == Err(ChangedSince)
    ensures reliable && Resolvable(st, d, extent) ==> a.Ok?
    ensures a == Err(Fatal) ==> !reliable
    ensures Resolve.Blames(failed, a)
    ensures a == Err(ChangedSince) && R.Agree(st, extent.diskAddress, extent.diskBytes) ==>
      !Referenced(d, extent.diskAddress)
  {
    if !Referenced(d, extent.diskAddress) {
      UnreferencedEmpty(st, d, extent.diskAddress);
    } else {
      ReferencedSomewhere(st, d, extent.diskAddress);
    }
    var trees := new Resolve.Trees(_ => st, reliable);
    a := trees.ResolveAgain(extent);
    failed := trees.failed;
    if a.Ok? {
      ResolvedWhole(st, d, extent, a.value);
    }
  }

  lemma TrueThere(d: Disk, x: Address, refs: seq<ExtentRef>)
    requires ValidDisk(d) && RefsTrue(d, x, refs) && refs != []
    ensures x in d.extents
  {
    var r := refs[0];
    assert r in refs && InRef(r, r.fileOffset);
    assert d.files[FileOf(r)].sectors[r.fileOffset].extent == x;
  }

  lemma ResolvedWhole(st: Cow.State, d: Disk, extent: Extent, now: Extent)
    requires ValidDisk(d) && Lies(st, d, extent.diskAddress) && now.Valid()
    requires multiset(now.refs) == multiset(R.EveryRef(st, extent.diskAddress))
    requires now.diskAddress == extent.diskAddress && now.diskBytes == extent.diskBytes
    ensures Whole(d, extent, now)
  {
    RefsAreTrue(st, d, extent.diskAddress, now.refs);
    RefsAreComplete(st, d, extent.diskAddress, now.refs);
    TrueThere(d, extent.diskAddress, now.refs);
  }

  lemma ReferencedSomewhere(st: Cow.State, d: Disk, x: Address)
    requires Describes(st, d, x) && Referenced(d, x)
    ensures R.EveryRef(st, x) != {}
  {
    var id, s: nat :| id in d.files && s in d.files[id].sectors && d.files[id].sectors[s].extent == x;
    assert SectorItemized(st, x, id, s);
    var r := SectorReferenced(st, x, id.root, id.inode, s);
  }

  lemma UnreferencedEmpty(st: Cow.State, d: Disk, x: Address)
    requires Describes(st, d, x) && !Referenced(d, x)
    ensures R.EveryRef(st, x) == {}
  {
    if r :| r in R.EveryRef(st, x) {
      RefIsTrue(st, d, x, r);
      assert InRef(r, r.fileOffset);
      assert Holds(d.files[FileOf(r)], x);
    }
  }
}
