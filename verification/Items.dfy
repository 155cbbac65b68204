/** Asking a file's own items whether it still points into an extent. */
module Items {
  import opened Sectors
  import opened Wrappers
  import opened Disks
  import opened Kernel

  /** One file extent item: `[key, key + len)` of the file, in extent `extent`
      from `offset` on. */
  datatype Item = Item(key: nat, len: nat, extent: Address, offset: nat)
  {
    predicate Has(s: nat) { key <= s < key + len }
  }

  /** The item starts on a sector, and stands for sectors the file holds where it says. */
  predicate Describes(item: Item, f: FileState) {
    && Aligned(item.key) && 0 < item.len
    && forall s: nat :: item.key <= s < item.key + item.len && Aligned(s) ==>
         s in f.sectors && f.sectors[s] == Loc(item.extent, item.offset + (s - item.key))
  }

  predicate Itemized(items: set<Item>, s: nat) {
    exists item :: item in items && item.Has(s)
  }

  /** `items` describe the file, all of it. However the kernel splits or shrinks
      items as it moves sectors, this holds. */
  predicate Itemizes(items: set<Item>, f: FileState) {
    && (forall item :: item in items ==> Describes(item, f))
    && (forall s: nat :: s in f.sectors ==> Itemized(items, s))
  }

  function SectorItem(f: FileState, s: nat): Item
    requires s in f.sectors
  {
    Item(s, SECTORSIZE, f.sectors[s].extent, f.sectors[s].offset)
  }

  /** The file an item for every sector. */
  function SectorItems(f: FileState): set<Item> {
    set s | s in f.sectors :: SectorItem(f, s)
  }

  lemma SectorItemDescribes(f: FileState, key: nat)
    requires key in f.sectors && Aligned(key)
    ensures Describes(SectorItem(f, key), f)
  {
    forall s: nat | key <= s < key + SECTORSIZE && Aligned(s)
      ensures s == key
    {
      if key < s {
        AlignedStep(key, s);
      }
    }
  }

  lemma SectorItemsDescribe(f: FileState)
    requires forall s :: s in f.sectors ==> Aligned(s)
    ensures Itemizes(SectorItems(f), f)
  {
    forall item | item in SectorItems(f)
      ensures Describes(item, f)
    {
      var s :| s in f.sectors && item == SectorItem(f, s);
      SectorItemDescribes(f, s);
    }
    forall s: nat | s in f.sectors
      ensures Itemized(SectorItems(f), s)
    {
      assert SectorItem(f, s) in SectorItems(f) && SectorItem(f, s).Has(s);
    }
  }

  /** Whether an item keyed in `from..=to` points into extent `x`. */
  predicate Found(items: set<Item>, from: nat, to: nat, x: Address) {
    exists item :: item in items && from <= item.key <= to && item.extent == x
  }

  /** Whether every sector of extent `x` the file holds starts in `from..=to`. */
  ghost predicate Within(f: FileState, x: Address, from: nat, to: nat) {
    forall s: nat :: s in f.sectors && f.sectors[s].extent == x ==> from <= s <= to
  }

  /** A window that takes in every sector the file holds of the extent finds one
      exactly if there is one: an item is keyed at a sector it stands for. */
  lemma FoundExactly(items: set<Item>, f: FileState, from: nat, to: nat, x: Address)
    requires Itemizes(items, f) && forall s :: s in f.sectors ==> Aligned(s)
    ensures Found(items, from, to, x) ==> Holds(f, x)
    ensures Holds(f, x) && Within(f, x, from, to) ==> Found(items, from, to, x)
  {
    if Found(items, from, to, x) {
      var item :| item in items && from <= item.key <= to && item.extent == x;
      KeyedAtItsOwn(item, f);
    }
    if Holds(f, x) && Within(f, x, from, to) {
      var s :| s in f.sectors && f.sectors[s].extent == x;
      assert Itemized(items, s);
      var item :| item in items && item.Has(s);
      KeyedAtItsOwn(item, f);
      assert Describes(item, f);
    }
  }

  lemma KeyedAtItsOwn(item: Item, f: FileState)
    requires Describes(item, f)
    ensures item.key in f.sectors && f.sectors[item.key].extent == item.extent
  {
  }

  /** Whether the file has an item keyed in `from..=to` that points into extent `x`. */
  method InodeHoldsExtent(fs: Filesystem, id: FileId, from: nat, to: nat, x: Address) returns (r: Outcome<bool>)
    requires ValidDisk(fs.disk) && id in fs.disk.files
    modifies fs`calls
    ensures old(fs.calls) <= fs.calls
    ensures r.Ok? && r.value ==> Holds(fs.disk.files[id], x)
    ensures r.Ok? && Holds(fs.disk.files[id], x) && Within(fs.disk.files[id], x, from, to) ==> r.value
    ensures r.Err? ==> r.error.Io? && Explains(fs.calls, |old(fs.calls)|, r.error, fs.conduct)
  {
    var search := fs.Attempt();
    if search.Err? {
      return Err(search.error);
    }
    // How the kernel divides the file into items is its own affair.
    var f := fs.disk.files[id];
    SectorItemsDescribe(f);
    var items: set<Item> := *;
    if !Itemizes(items, f) {
      items := SectorItems(f);
    }
    FoundExactly(items, f, from, to, x);
    r := Ok(Found(items, from, to, x));
  }
}
