/** Trees that describe a filesystem's files, so that asking for some is no empty demand. */
module Layouts {
  import opened Sectors
  import opened Words
  import opened Extents
  import opened Disks
  import opened Planning
  import opened Mounts
  import Cow
  import R = References
  import Resolve

  /** A temporary is gone as soon as it has been deduped from. */
  ghost predicate NoTemps(d: Disk) {
    forall id :: id in d.files ==> id.Inode?
  }

  /** The extent's length, as far as an item can say it. */
  function LengthOf(d: Disk, x: Address): U64 {
    if x in d.extents && |d.extents[x]| < TWO64 then |d.extents[x]| else 0
  }

  /** The item a sector of a file could be in, all by itself. */
  function SectorItem(d: Disk, inode: nat, s: nat, l: Loc): Cow.FileItem {
    Cow.FileItem(inode, s, l.extent, LengthOf(d, l.extent), LengthOf(d, l.extent), l.offset, SECTORSIZE)
  }

  function ItemsIn(d: Disk, root: nat): set<Cow.FileItem> {
    set id, s | id in d.files && id.Inode? && id.root == root && s in d.files[id].sectors ::
      SectorItem(d, id.inode, s, d.files[id].sectors[s])
  }

  function Roots(d: Disk): set<nat> {
    set id | id in d.files && id.Inode? :: id.root
  }

  /** One leaf for each subvolume, named after it, with an item for each sector. */
  function Plain(d: Disk): Cow.State {
    Cow.State(map root | root in Roots(d) :: Cow.Leaf(1, ItemsIn(d, root)),
              map root | root in Roots(d) :: Cow.Subvolume({root}, 0), 1)
  }

  lemma PlainItem(d: Disk, root: nat, leaf: nat, item: Cow.FileItem)
    requires R.InTree(Plain(d), root, leaf, item)
    ensures leaf == root && Inode(root, item.inode) in d.files
    ensures var f := d.files[Inode(root, item.inode)];
      item.fileOffset in f.sectors && item == SectorItem(d, item.inode, item.fileOffset, f.sectors[item.fileOffset])
  {
    assert leaf in Plain(d).subvolumes[root].leaves;
    var id, s :| id in d.files && id.Inode? && id.root == root && s in d.files[id].sectors
                 && item == SectorItem(d, id.inode, s, d.files[id].sectors[s]);
    assert id == Inode(root, item.inode);
  }

  lemma PlainKeys(d: Disk)
    ensures R.UniqueKeys(Plain(d))
  {
    var st := Plain(d);
    forall root, leaf, item, other, that |
      R.InTree(st, root, leaf, item) && R.InTree(st, root, other, that)
      && item.inode == that.inode && item.fileOffset == that.fileOffset
      ensures leaf == other && item == that
    {
      PlainItem(d, root, leaf, item);
      PlainItem(d, root, other, that);
    }
  }

  lemma PlainAgrees(d: Disk, x: Address)
    ensures R.Agree(Plain(d), x, LengthOf(d, x))
  {
    PlainKeys(d);
    forall root, leaf, item | R.InTree(Plain(d), root, leaf, item) && item.diskAddress == x
      ensures item.diskBytes == LengthOf(d, x) && item.uncompressedBytes == LengthOf(d, x)
    {
      PlainItem(d, root, leaf, item);
    }
  }

  /** No file reaches 2^63. */
  ghost predicate OffsetsFit(d: Disk) {
    forall id, s: nat :: id in d.files && s in d.files[id].sectors ==> s < TWO63
  }

  lemma PlainItemValid(d: Disk, x: Address, root: nat, leaf: nat, item: Cow.FileItem)
    requires ValidDisk(d) && OffsetsFit(d) && x in d.extents && |d.extents[x]| <= TWO63
    requires R.InTree(Plain(d), root, leaf, item) && item.diskAddress == x
    ensures R.ValidItem(item)
  {
    PlainItem(d, root, leaf, item);
    var f := d.files[Inode(root, item.inode)];
    assert ValidFile(f, d.extents);
    assert ValidLoc(f.sectors[item.fileOffset], d.extents);
  }

  lemma PlainValid(d: Disk, x: Address)
    requires ValidDisk(d) && OffsetsFit(d) && x in d.extents && |d.extents[x]| <= TWO63
    ensures R.ValidTrees(Plain(d), x, |d.extents[x]|)
  {
    PlainAgrees(d, x);
    forall root, leaf, item | R.InTree(Plain(d), root, leaf, item) && item.diskAddress == x
      ensures R.ValidItem(item)
    {
      PlainItemValid(d, x, root, leaf, item);
    }
  }

  lemma PlainDescribes(d: Disk, x: Address)
    requires ValidDisk(d) && NoTemps(d)
    ensures Describes(Plain(d), d, x)
  {
    var st := Plain(d);
    forall root, leaf, item | R.InTree(st, root, leaf, item) && item.diskAddress == x
      ensures ItemTrue(d, x, root, item)
    {
      PlainItem(d, root, leaf, item);
      OneSectorTrue(d, x, root, item);
    }
    forall id, s: nat | id in d.files && s in d.files[id].sectors && d.files[id].sectors[s].extent == x
      ensures SectorItemized(st, x, id, s)
    {
      var item := SectorItem(d, id.inode, s, d.files[id].sectors[s]);
      assert id.root in Roots(d) && item in ItemsIn(d, id.root);
      assert R.InTree(st, id.root, id.root, item);
      assert ValidFile(d.files[id], d.extents);
    }
  }

  lemma OneSectorTrue(d: Disk, x: Address, root: nat, item: Cow.FileItem)
    requires ValidDisk(d) && Inode(root, item.inode) in d.files && item.diskAddress == x
    requires var f := d.files[Inode(root, item.inode)];
      item.fileOffset in f.sectors && item == SectorItem(d, item.inode, item.fileOffset, f.sectors[item.fileOffset])
    ensures ItemTrue(d, x, root, item)
  {
    var f, r := d.files[Inode(root, item.inode)], R.RefOf(root, 0, item);
    assert ValidFile(f, d.extents);
    AlignedSum(SECTORSIZE, 0);
    forall s: nat | InRef(r, s)
      ensures s == item.fileOffset
    {
      if item.fileOffset < s {
        AlignedStep(item.fileOffset, s);
      }
    }
  }

  /** Whatever files there are, some trees describe them, and go on describing them
      wherever rewriting takes them. */
  lemma SomeLayoutLays(start: Disk)
    requires ValidDisk(start) && NoTemps(start)
    ensures Lays(Plain, start)
  {
    forall d, x: Address | Preserves(start, d)
      ensures Lies(Plain(d), d, x)
    {
      PlainDescribes(d, x);
      PlainAgrees(d, x);
    }
  }

  /** And they can do so with items the kernel could have written, that give every extent
      its own length. */
  lemma LaysItemsOfLength(start: Disk, d: Disk, x: Address)
    requires Preserves(start, d) && OffsetsFit(start) && x in start.extents && |start.extents[x]| <= TWO63
    ensures x in d.extents && R.ValidTrees(Plain(d), x, |d.extents[x]|)
  {
    forall id, s: nat | id in d.files && s in d.files[id].sectors
      ensures s < TWO63
    {
      assert ReadsSame(start, d, id);
    }
    PlainValid(d, x);
  }

  /** So an extent some file holds is resolved again wherever its references fit a lookup. */
  lemma PlainResolves(d: Disk, extent: Extent)
    requires extent.diskAddress in d.extents && |d.extents[extent.diskAddress]| == extent.diskBytes < TWO64
    requires Referenced(d, extent.diskAddress) && Resolve.Fits(Plain(d), extent.diskAddress)
    ensures Resolvable(Plain(d), d, extent)
  {
    PlainAgrees(d, extent.diskAddress);
  }
}
