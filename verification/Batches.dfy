/** One batch of a walk: grouping what a search returned, and what a batch promises. */
module Batches {
  import opened Wrappers
  import opened Words
  import opened Bytes
  import opened Search
  import opened Tallies
  import Resolve

  /** What a batch knows of an extent: its item, and who the item says holds it. */
  datatype Unresolved = Unresolved(address: nat, item: ExtentItem, backrefs: Backrefs)

  /** The kinds of item `Account`s are made of. */
  predicate IsExtentKey(kind: nat) {
    EXTENT_ITEM_KEY <= kind <= SHARED_DATA_REF_KEY
  }

  function Low(address: nat): Key { Key(address, EXTENT_ITEM_KEY, 0) }
  function High(address: nat): Key { Key(address, SHARED_DATA_REF_KEY, MAX64) }

  const LAST_KEY := High(MAX64)

  function Raw(item: TreeItem): RawItem {
    RawItem(item.key.kind, item.key.offset, item.body)
  }

  function Raws(items: seq<TreeItem>): seq<RawItem> {
    if items == [] then [] else [Raw(items[0])] + Raws(items[1..])
  }

  /** What the items say of an extent they all belong to. */
  function AccountOf(items: seq<TreeItem>): Account {
    AddItems(EMPTY, Raws(items))
  }

  /** The items that belong to the extent at `address`. */
  function ItemsAt(items: seq<TreeItem>, address: nat): seq<TreeItem> {
    Select(items, Low(address), High(address))
  }

  /** They are those of its kinds, in key order. */
  lemma ItemsAtExactly(items: seq<TreeItem>, address: nat)
    requires ValidTree(items)
    ensures forall item :: item in ItemsAt(items, address) <==>
      item in items && item.key.objectid == address && 168 <= item.key.kind <= 184
    ensures Ascending(ItemsAt(items, address))
  {
    SelectAscending(items, Low(address), High(address));
    forall item
      ensures item in ItemsAt(items, address) <==>
        item in items && item.key.objectid == address && 168 <= item.key.kind <= 184
    {
      SelectSound(items, Low(address), High(address), item);
      assert item in items ==> ValidItem(item);
    }
  }

  /** What the walk hands over for an extent with this account, if anything: a
      data extent no newer than the walk. */
  function EntryOf(address: nat, t: Account, generation: nat): Option<Unresolved> {
    match Finish(t)
    case None => None
    case Some((item, backrefs)) =>
      if item.generation <= generation then Some(Unresolved(address, item, backrefs)) else None
  }

  /** Items that record the extent, as of a data extent no newer than the walk: `u` has what
      the last of them to say so says, and every file they name exactly if all of them can
      be read and add up. */
  ghost predicate Recorded(items: seq<TreeItem>, generation: nat, u: Unresolved) {
    && u.item.generation <= generation
    && (exists k: nat :: LastData(Raws(items), k) && u.item == FieldsOf(Raws(items)[k]))
    && forall refs :: u.backrefs == Files(refs) <==> ReadsAll(Raws(items), refs) && Sum(refs) == u.item.refs
  }

  lemma EntryExactly(items: seq<TreeItem>, generation: nat, u: Unresolved)
    ensures EntryOf(u.address, AccountOf(items), generation) == Some(u) <==> Recorded(items, generation, u)
  {
    FinishExactly(Raws(items), u.item, u.backrefs);
  }

  /** An extent as it is stored is recorded, all its holders with it if they add up. */
  lemma StoredIsRecorded(items: seq<TreeItem>, address: nat, generation: nat, item: ExtentItem, entries: seq<Inline>,
                         keyed: seq<DataRef>)
    requires AllFit(entries) && AllKeyedFit(keyed) && Raws(items) == Stored(item, entries, keyed)
    requires item.refs < Power256(LONG) && item.generation < Power256(LONG)
    ensures var refs := RefsIn(entries) + keyed;
      var u := Unresolved(address, item, if Sum(refs) == item.refs then Files(refs) else Unreadable);
      && (Recorded(items, generation, u) <==> item.generation <= generation)
      && forall other :: other != u && other.address == address ==> !Recorded(items, generation, other)
  {
    DecodingUndoesEncoding(item, entries, keyed);
    forall other: Unresolved
      ensures EntryOf(other.address, AccountOf(items), generation) == Some(other) <==>
        Recorded(items, generation, other)
    {
      EntryExactly(items, generation, other);
    }
  }

  lemma {:induction false} AddItemsAppend(t: Account, items: seq<RawItem>, raw: RawItem)
    ensures AddItems(t, items + [raw]) == AddItem(AddItems(t, items), raw)
    decreases |items|
  {
    if items == [] {
      assert items + [raw] == [raw] && [raw][1..] == [];
    } else {
      AddItemsAppend(AddItem(t, items[0]), items[1..], raw);
      assert (items + [raw])[1..] == items[1..] + [raw] && (items + [raw])[0] == items[0];
    }
  }

  lemma {:induction false} RawsAppend(items: seq<TreeItem>, item: TreeItem)
    ensures Raws(items + [item]) == Raws(items) + [Raw(item)]
  {
    if items == [] {
      assert items + [item] == [item] && [item][1..] == [];
    } else {
      RawsAppend(items[1..], item);
      assert (items + [item])[1..] == items[1..] + [item] && (items + [item])[0] == items[0];
    }
  }

  /** One more item, seen from the extent at `address`. */
  lemma AccountNext(items: seq<TreeItem>, item: TreeItem, address: nat)
    requires ValidKey(item.key)
    ensures ItemsAt(items + [item], address) ==
            ItemsAt(items, address) + if item.key.objectid == address && IsExtentKey(item.key.kind) then [item] else []
    ensures AccountOf(ItemsAt(items + [item], address)) ==
            if item.key.objectid == address && IsExtentKey(item.key.kind)
            then AddItem(AccountOf(ItemsAt(items, address)), Raw(item))
            else AccountOf(ItemsAt(items, address))
  {
    SelectConcat(items, [item], Low(address), High(address));
    assert [item][1..] == [];
    RawsAppend(ItemsAt(items, address), item);
    AddItemsAppend(EMPTY, Raws(ItemsAt(items, address)), Raw(item));
    assert ItemsAt(items, address) + [] == ItemsAt(items, address);
  }

  /** The tallies group the items by extent, in address order. */
  ghost predicate Tallied(tallies: seq<(nat, Account)>, items: seq<TreeItem>) {
    && Rising(tallies)
    && (forall i :: 0 <= i < |tallies| ==> tallies[i].1 == AccountOf(ItemsAt(items, tallies[i].0)))
    && (forall address: nat :: ItemsAt(items, address) != [] <==> TalliedAt(tallies, address))
  }

  ghost predicate TalliedAt(tallies: seq<(nat, Account)>, address: nat) {
    exists i :: 0 <= i < |tallies| && tallies[i].0 == address
  }

  /** One step of the grouping. */
  function TallyNext(tallies: seq<(nat, Account)>, item: TreeItem): seq<(nat, Account)> {
    if !IsExtentKey(item.key.kind) then tallies
    else if tallies != [] && tallies[|tallies| - 1].0 == item.key.objectid then
      tallies[|tallies| - 1 := (item.key.objectid, AddItem(tallies[|tallies| - 1].1, Raw(item)))]
    else tallies + [(item.key.objectid, AddItem(EMPTY, Raw(item)))]
  }

  ghost predicate UpTo(tallies: seq<(nat, Account)>, address: nat) {
    forall i :: 0 <= i < |tallies| ==> tallies[i].0 <= address
  }

  lemma PresentNext(tallies: seq<(nat, Account)>, items: seq<TreeItem>, item: TreeItem, address: nat)
    requires ValidKey(item.key)
    requires ItemsAt(items, address) != [] <==> TalliedAt(tallies, address)
    ensures ItemsAt(items + [item], address) != [] <==> TalliedAt(TallyNext(tallies, item), address)
  {
    var next := TallyNext(tallies, item);
    AccountNext(items, item, address);
    if address == item.key.objectid && IsExtentKey(item.key.kind) {
      assert next[|next| - 1].0 == address;
    } else {
      if TalliedAt(tallies, address) {
        var i :| 0 <= i < |tallies| && tallies[i].0 == address;
        assert next[i].0 == address;
      }
      if TalliedAt(next, address) {
        var i :| 0 <= i < |next| && next[i].0 == address;
        assert i < |tallies| && tallies[i].0 == address;
      }
    }
  }

  lemma AccountsNext(tallies: seq<(nat, Account)>, items: seq<TreeItem>, item: TreeItem, i: nat)
    requires Tallied(tallies, items) && ValidKey(item.key) && UpTo(tallies, item.key.objectid)
    requires i < |TallyNext(tallies, item)|
    ensures TallyNext(tallies, item)[i].1 == AccountOf(ItemsAt(items + [item], TallyNext(tallies, item)[i].0))
  {
    var address := TallyNext(tallies, item)[i].0;
    AccountNext(items, item, address);
    if i == |tallies| {
      assert !TalliedAt(tallies, address);
      assert ItemsAt(items, address) == [];
    }
  }

  lemma RisingNext(tallies: seq<(nat, Account)>, item: TreeItem)
    requires Rising(tallies) && UpTo(tallies, item.key.objectid)
    ensures Rising(TallyNext(tallies, item)) && UpTo(TallyNext(tallies, item), item.key.objectid)
  {
  }

  lemma TalliedNext(tallies: seq<(nat, Account)>, items: seq<TreeItem>, item: TreeItem)
    requires Tallied(tallies, items) && ValidKey(item.key) && UpTo(tallies, item.key.objectid)
    ensures Tallied(TallyNext(tallies, item), items + [item])
    ensures UpTo(TallyNext(tallies, item), item.key.objectid)
  {
    var next := TallyNext(tallies, item);
    RisingNext(tallies, item);
    forall address: nat
      ensures ItemsAt(items + [item], address) != [] <==> TalliedAt(next, address)
    {
      PresentNext(tallies, items, item, address);
    }
    forall i | 0 <= i < |next|
      ensures next[i].1 == AccountOf(ItemsAt(items + [item], next[i].0))
    {
      AccountsNext(tallies, items, item, i);
    }
  }

  /** The first `i` items are grouped. */
  ghost predicate GroupedTo(tallies: seq<(nat, Account)>, found: seq<TreeItem>, i: nat)
    requires i <= |found|
  {
    && Tallied(tallies, found[..i])
    && if i == 0 then tallies == [] else UpTo(tallies, found[i - 1].key.objectid)
  }

  lemma GroupedNext(tallies: seq<(nat, Account)>, found: seq<TreeItem>, i: nat)
    requires ValidTree(found) && i < |found| && GroupedTo(tallies, found, i)
    ensures GroupedTo(TallyNext(tallies, found[i]), found, i + 1)
  {
    assert ValidItem(found[i]);
    assert found[..i + 1] == found[..i] + [found[i]];
    assert 0 < i ==> Less(found[i - 1].key, found[i].key);
    TalliedNext(tallies, found[..i], found[i]);
  }

  /** Groups the items a search returned by extent. */
  method Group(found: seq<TreeItem>) returns (tallies: seq<(nat, Account)>)
    requires ValidTree(found)
    ensures Tallied(tallies, found)
    ensures found != [] ==> UpTo(tallies, found[|found| - 1].key.objectid)
    ensures found == [] ==> tallies == []
  {
    tallies := [];
    for i := 0 to |found|
      invariant GroupedTo(tallies, found, i)
    {
      var item := found[i];
      GroupedNext(tallies, found, i);
      if IsExtentKey(item.key.kind) {
        if tallies != [] && tallies[|tallies| - 1].0 == item.key.objectid {
          var last := tallies[|tallies| - 1];
          tallies := tallies[|tallies| - 1 := (last.0, AddItem(last.1, Raw(item)))];
        } else {
          tallies := tallies + [(item.key.objectid, AddItem(EMPTY, Raw(item)))];
        }
      }
    }
    assert found[..|found|] == found;
  }

  // ----- One batch -----

  /** Every search in `seen` found just these items for the extent at `address`. */
  ghost predicate AgreeAt(seen: seq<seq<TreeItem>>, address: nat, items: seq<TreeItem>) {
    AllShow(seen, Low(address), High(address), items)
  }

  /** The entries the tallies come to, in their order. */
  function Entries(tallies: seq<(nat, Account)>, generation: nat): seq<Unresolved> {
    if tallies == [] then []
    else
      var entry := EntryOf(tallies[0].0, tallies[0].1, generation);
      (if entry.Some? then [entry.value] else []) + Entries(tallies[1..], generation)
  }

  ghost predicate Rising(tallies: seq<(nat, Account)>) {
    forall i, j :: 0 <= i < j < |tallies| ==> tallies[i].0 < tallies[j].0
  }

  ghost predicate AddressOrder(out: seq<Unresolved>) {
    forall i, j :: 0 <= i < j < |out| ==> out[i].address < out[j].address
  }

  /** The account the tallies hold for an extent: an empty one if there is none. */
  ghost predicate HasAccount(tallies: seq<(nat, Account)>, address: nat, t: Account) {
    (exists i :: 0 <= i < |tallies| && tallies[i] == (address, t)) || (!TalliedAt(tallies, address) && t == EMPTY)
  }

  lemma TalliedLater(tallies: seq<(nat, Account)>, address: nat)
    requires Rising(tallies) && tallies != [] && TalliedAt(tallies[1..], address)
    ensures TalliedAt(tallies, address) && tallies[0].0 < address
  {
    var i :| 0 <= i < |tallies[1..]| && tallies[1..][i].0 == address;
    assert tallies[i + 1].0 == address;
  }

  lemma {:induction false} EntryTallied(tallies: seq<(nat, Account)>, generation: nat, u: Unresolved)
    requires Rising(tallies) && u in Entries(tallies, generation)
    ensures TalliedAt(tallies, u.address) && u.item.generation <= generation
    decreases |tallies|
  {
    if u in Entries(tallies[1..], generation) {
      EntryTallied(tallies[1..], generation, u);
      TalliedLater(tallies, u.address);
    } else {
      assert tallies[0].0 == u.address;
    }
  }

  lemma EntryLater(tallies: seq<(nat, Account)>, generation: nat, u: Unresolved)
    requires Rising(tallies) && tallies != [] && u in Entries(tallies[1..], generation)
    ensures tallies[0].0 < u.address
  {
    EntryTallied(tallies[1..], generation, u);
    TalliedLater(tallies, u.address);
  }

  lemma {:induction false} EntriesAscend(tallies: seq<(nat, Account)>, generation: nat)
    requires Rising(tallies)
    ensures AddressOrder(Entries(tallies, generation))
    decreases |tallies|
  {
    if tallies == [] {
      assert Entries(tallies, generation) == [];
    } else {
      var out := Entries(tallies[1..], generation);
      EntriesAscend(tallies[1..], generation);
      forall i | 0 <= i < |out|
        ensures tallies[0].0 < out[i].address
      {
        EntryLater(tallies, generation, out[i]);
      }
    }
  }

  /** An extent is handed over exactly if its account says it is to be. */
  lemma {:induction false} EntryExact(tallies: seq<(nat, Account)>, generation: nat, u: Unresolved, t: Account)
    requires Rising(tallies) && HasAccount(tallies, u.address, t)
    ensures u in Entries(tallies, generation) <==> EntryOf(u.address, t, generation) == Some(u)
    decreases |tallies|
  {
    if tallies == [] {
      assert t == EMPTY;
    } else {
      AccountInRest(tallies, u.address, t);
      if u.address != tallies[0].0 {
        EntryExact(tallies[1..], generation, u, t);
      } else if u in Entries(tallies[1..], generation) {
        EntryLater(tallies, generation, u);
      }
    }
  }

  lemma EntriesExact(tallies: seq<(nat, Account)>, generation: nat)
    requires Rising(tallies)
    ensures AddressOrder(Entries(tallies, generation))
    ensures forall u :: u in Entries(tallies, generation) ==>
      TalliedAt(tallies, u.address) && u.item.generation <= generation
    ensures forall u: Unresolved, t :: HasAccount(tallies, u.address, t) ==>
              (u in Entries(tallies, generation) <==> EntryOf(u.address, t, generation) == Some(u))
  {
    EntriesAscend(tallies, generation);
    forall u | u in Entries(tallies, generation)
      ensures TalliedAt(tallies, u.address) && u.item.generation <= generation
    {
      EntryTallied(tallies, generation, u);
    }
    forall u: Unresolved, t | HasAccount(tallies, u.address, t)
      ensures u in Entries(tallies, generation) <==> EntryOf(u.address, t, generation) == Some(u)
    {
      EntryExact(tallies, generation, u, t);
    }
  }

  lemma AccountInRest(tallies: seq<(nat, Account)>, address: nat, t: Account)
    requires Rising(tallies) && tallies != [] && HasAccount(tallies, address, t)
    ensures if address == tallies[0].0 then t == tallies[0].1 && !TalliedAt(tallies[1..], address)
            else HasAccount(tallies[1..], address, t)
  {
    var rest := tallies[1..];
    if i :| 0 <= i < |tallies| && tallies[i] == (address, t) {
      if 0 < i {
        assert rest[i - 1] == (address, t);
      }
    } else {
      assert forall j :: 0 <= j < |tallies| ==> tallies[j].0 != address;
      assert forall j :: 0 <= j < |rest| ==> rest[j] == tallies[j + 1];
    }
  }

  /** A search that got past an extent found all of its items. */
  lemma FoundAll(tree: seq<TreeItem>, from: nat, found: seq<TreeItem>, address: nat)
    requires ValidTree(tree) && found <= Select(tree, Low(from), LAST_KEY) && from <= address <= MAX64
    requires found == Select(tree, Low(from), LAST_KEY) || (found != [] && address < found[|found| - 1].key.objectid)
    ensures ItemsAt(found, address) == ItemsAt(tree, address)
  {
    var all := Select(tree, Low(from), LAST_KEY);
    SelectWithin(tree, Low(from), LAST_KEY, Low(address), High(address));
    if found != all {
      SelectValid(tree, Low(from), LAST_KEY);
      var rest := all[|found|..];
      assert all == found + rest;
      SelectConcat(found, rest, Low(address), High(address));
      forall i | 0 <= i < |rest|
        ensures address < rest[i].key.objectid
      {
        assert Less(all[|found| - 1].key, all[|found| + i].key);
      }
      NoneAt(rest, address);
    }
  }

  lemma {:induction false} NoneAt(items: seq<TreeItem>, address: nat)
    requires forall i :: 0 <= i < |items| ==> address < items[i].key.objectid
    ensures ItemsAt(items, address) == []
  {
    if items == [] {
    } else {
      NoneAt(items[1..], address);
    }
  }

  /** Reads into a fresh tally everything handed over that is for one. */
  method Fold(handed: seq<TreeItem>) returns (t: Account)
    ensures (forall i :: 0 <= i < |handed| ==> IsExtentKey(handed[i].key.kind)) ==> t == AccountOf(handed)
  {
    var tally := new Tally();
    for i := 0 to |handed|
      invariant fresh(tally)
      invariant (forall j :: 0 <= j < i ==> IsExtentKey(handed[j].key.kind)) ==> tally.State() == AccountOf(handed[..i])
    {
      assert handed[..i + 1] == handed[..i] + [handed[i]];
      RawsAppend(handed[..i], handed[i]);
      AddItemsAppend(EMPTY, Raws(handed[..i]), Raw(handed[i]));
      if IsExtentKey(handed[i].key.kind) {
        tally.ReadItem(Raw(handed[i]));
      }
    }
    assert handed[..|handed|] == handed;
    t := tally.State();
  }

  lemma ExtentKeysAt(tree: seq<TreeItem>, address: nat)
    requires ValidTree(tree)
    ensures forall i :: 0 <= i < |ItemsAt(tree, address)| ==> IsExtentKey(ItemsAt(tree, address)[i].key.kind)
  {
    SelectValid(tree, Low(address), High(address));
  }

  /** Reads one extent's account on its own: complete, if every search it takes sees
      the same `items`. */
  method ReadTally(tree: Tree, address: nat, ghost items: seq<TreeItem>) returns (r: Result<Account, Fault>)
    requires tree.Valid() && address <= MAX64
    modifies tree
    ensures tree.Valid() && old(tree.seen) < tree.seen
    ensures r.Ok? && AgreeAt(tree.seen[|old(tree.seen)|..], address, items) ==> r.value == AccountOf(items)
    ensures r.Err? ==> !tree.reliable && tree.failed == Some(r.error)
  {
    var args := new SearchArgs(Low(address), High(address));
    var handed := args.SearchAll(tree, items);
    if handed.Err? {
      return Err(handed.error);
    }
    var t := Fold(handed.value);
    ghost var shown := tree.seen[|old(tree.seen)|..];
    if AgreeAt(shown, address, items) {
      assert shown[0] in shown && shown[0] in tree.seen;
      ExtentKeysAt(shown[0], address);
      assert handed.value == items == ItemsAt(shown[0], address);
    }
    r := Ok(t);
  }

  /** The address past the last one a batch deals with. */
  function Frontier(next: Option<nat>): nat {
    if next.Some? then next.value else MAX64 + 1
  }

  /** A batch from `from` to `end` yields, in address order, every extent that all
      its searches agree on, as it is, and no other that they agree on. */
  ghost predicate BatchRight(seen: seq<seq<TreeItem>>, generation: nat, from: nat, end: nat, batch: seq<Unresolved>) {
    && AddressOrder(batch)
    && (forall u :: u in batch ==> from <= u.address < end && u.item.generation <= generation)
    && (forall u: Unresolved, items :: from <= u.address < end && AgreeAt(seen, u.address, items) ==>
          (u in batch <==> Recorded(items, generation, u)))
  }

  lemma TalliedHas(tallies: seq<(nat, Account)>, items: seq<TreeItem>, address: nat)
    requires Tallied(tallies, items)
    ensures HasAccount(tallies, address, AccountOf(ItemsAt(items, address)))
  {
    if TalliedAt(tallies, address) {
      var i :| 0 <= i < |tallies| && tallies[i].0 == address;
      assert tallies[i] == (address, AccountOf(ItemsAt(items, address)));
    }
  }

  /** The tallies with what was read of the last extent on its own in place of
      what the search got of it. */
  function Reread(tallies: seq<(nat, Account)>, last: nat, t: Account): seq<(nat, Account)> {
    (if tallies != [] && tallies[|tallies| - 1].0 == last then tallies[..|tallies| - 1] else tallies) + [(last, t)]
  }

  lemma RereadHas(tallies: seq<(nat, Account)>, last: nat, t: Account, address: nat, other: Account)
    requires Rising(tallies) && UpTo(tallies, last)
    ensures Rising(Reread(tallies, last, t)) && UpTo(Reread(tallies, last, t), last)
    ensures HasAccount(Reread(tallies, last, t), last, t)
    ensures address < last && HasAccount(tallies, address, other) ==>
      HasAccount(Reread(tallies, last, t), address, other)
    ensures address < last && TalliedAt(Reread(tallies, last, t), address) ==> TalliedAt(tallies, address)
  {
    var next := Reread(tallies, last, t);
    assert next[|next| - 1] == (last, t);
    if address < last && TalliedAt(next, address) {
      var i :| 0 <= i < |next| && next[i].0 == address;
      assert tallies[i].0 == address;
    }
    if i :| address < last && 0 <= i < |tallies| && tallies[i] == (address, other) {
      assert next[i] == (address, other);
    }
  }

  /** What an extent's account comes to in a batch, and that all the batch's extents lie in it. */
  ghost predicate Accounted(tallies: seq<(nat, Account)>, seen: seq<seq<TreeItem>>, from: nat, end: nat) {
    && Rising(tallies)
    && (forall address: nat :: TalliedAt(tallies, address) ==> from <= address < end)
    && (forall address: nat, items :: from <= address < end && AgreeAt(seen, address, items) ==>
          HasAccount(tallies, address, AccountOf(items)))
  }

  lemma TalliedFrom(tallies: seq<(nat, Account)>, tree: seq<TreeItem>, found: seq<TreeItem>, from: nat, address: nat)
    requires ValidTree(tree) && found <= Select(tree, Low(from), LAST_KEY)
    requires Tallied(tallies, found) && TalliedAt(tallies, address)
    ensures from <= address <= MAX64
  {
    var items := ItemsAt(found, address);
    SelectSound(found, Low(address), High(address), items[0]);
    SelectSound(tree, Low(from), LAST_KEY, items[0]);
    var i :| 0 <= i < |found| && found[i] == items[0];
    assert Select(tree, Low(from), LAST_KEY)[i] == items[0];
    SelectValid(tree, Low(from), LAST_KEY);
  }

  lemma AccountedWhole(tallies: seq<(nat, Account)>, seen: seq<seq<TreeItem>>, tree: seq<TreeItem>,
      found: seq<TreeItem>, from: nat)
    requires ValidTree(tree) && found == Select(tree, Low(from), LAST_KEY) && tree in seen && Tallied(tallies, found)
    ensures Accounted(tallies, seen, from, MAX64 + 1)
  {
    forall address: nat | TalliedAt(tallies, address)
      ensures from <= address < MAX64 + 1
    {
      TalliedFrom(tallies, tree, found, from, address);
    }
    forall address: nat, items | from <= address < MAX64 + 1 && AgreeAt(seen, address, items)
      ensures HasAccount(tallies, address, AccountOf(items))
    {
      FoundAll(tree, from, found, address);
      TalliedHas(tallies, found, address);
    }
  }

  lemma CutWithin(tallies: seq<(nat, Account)>, tree: seq<TreeItem>, found: seq<TreeItem>, from: nat, last: nat,
                  t: Account)
    requires ValidTree(tree) && found <= Select(tree, Low(from), LAST_KEY) && Tallied(tallies, found)
    requires UpTo(tallies, last) && from <= last
    ensures Rising(Reread(tallies, last, t)) && HasAccount(Reread(tallies, last, t), last, t)
    ensures forall address: nat :: TalliedAt(Reread(tallies, last, t), address) ==> from <= address < last + 1
  {
    var next := Reread(tallies, last, t);
    RereadHas(tallies, last, t, last, t);
    forall address: nat | TalliedAt(next, address)
      ensures from <= address < last + 1
    {
      RereadHas(tallies, last, t, address, t);
      if address < last {
        TalliedFrom(tallies, tree, found, from, address);
      }
    }
  }

  lemma AccountedCut(tallies: seq<(nat, Account)>, seen: seq<seq<TreeItem>>, tree: seq<TreeItem>, found: seq<TreeItem>,
                     from: nat, last: nat, t: Account)
    requires ValidTree(tree) && found <= Select(tree, Low(from), LAST_KEY) && tree in seen && Tallied(tallies, found)
    requires found != [] && last == found[|found| - 1].key.objectid && UpTo(tallies, last) && from <= last <= MAX64
    requires AgreeAt(seen, last, ItemsAt(tree, last)) ==> t == AccountOf(ItemsAt(tree, last))
    ensures Accounted(Reread(tallies, last, t), seen, from, last + 1)
  {
    var next := Reread(tallies, last, t);
    CutWithin(tallies, tree, found, from, last, t);
    forall address: nat, items | from <= address < last + 1 && AgreeAt(seen, address, items)
      ensures HasAccount(next, address, AccountOf(items))
    {
      CutHas(tallies, seen, tree, found, from, last, t, address, items);
    }
  }

  lemma CutHas(tallies: seq<(nat, Account)>, seen: seq<seq<TreeItem>>, tree: seq<TreeItem>, found: seq<TreeItem>,
               from: nat, last: nat, t: Account, address: nat, items: seq<TreeItem>)
    requires ValidTree(tree) && found <= Select(tree, Low(from), LAST_KEY) && tree in seen && Tallied(tallies, found)
    requires found != [] && last == found[|found| - 1].key.objectid && UpTo(tallies, last) && last <= MAX64
    requires AgreeAt(seen, last, ItemsAt(tree, last)) ==> t == AccountOf(ItemsAt(tree, last))
    requires from <= address <= last && AgreeAt(seen, address, items)
    ensures HasAccount(Reread(tallies, last, t), address, AccountOf(items))
  {
    assert items == ItemsAt(tree, address);
    if address < last {
      BelowCut(tallies, tree, found, from, last, t, address);
    } else {
      RereadHas(tallies, last, t, last, t);
    }
  }

  /** What a cut search says of an extent before the last one it reached is all there is. */
  lemma BelowCut(tallies: seq<(nat, Account)>, tree: seq<TreeItem>, found: seq<TreeItem>, from: nat, last: nat,
      t: Account, address: nat)
    requires ValidTree(tree) && found <= Select(tree, Low(from), LAST_KEY) && Tallied(tallies, found)
    requires found != [] && last == found[|found| - 1].key.objectid && UpTo(tallies, last)
      && from <= address < last <= MAX64
    ensures HasAccount(Reread(tallies, last, t), address, AccountOf(ItemsAt(tree, address)))
  {
    FoundAll(tree, from, found, address);
    TalliedHas(tallies, found, address);
    RereadHas(tallies, last, t, address, AccountOf(ItemsAt(tree, address)));
  }

  lemma AccountedIsRight(tallies: seq<(nat, Account)>, seen: seq<seq<TreeItem>>, generation: nat, from: nat, end: nat)
    requires Accounted(tallies, seen, from, end)
    ensures BatchRight(seen, generation, from, end, Entries(tallies, generation))
  {
    EntriesExact(tallies, generation);
    forall u: Unresolved, items | from <= u.address < end && AgreeAt(seen, u.address, items)
      ensures u in Entries(tallies, generation) <==> Recorded(items, generation, u)
    {
      EntryExactly(items, generation, u);
    }
  }

  lemma BatchWhole(tallies: seq<(nat, Account)>, seen: seq<seq<TreeItem>>, tree: seq<TreeItem>, found: seq<TreeItem>,
                   from: nat, generation: nat)
    requires ValidTree(tree) && Returned(tree, Low(from), LAST_KEY, found) && tree in seen && Tallied(tallies, found)
    requires Space(found) + HEADER_SIZE + MAX_ITEM_SIZE <= BUF_SIZE || found == []
    ensures BatchRight(seen, generation, from, MAX64 + 1, Entries(tallies, generation))
  {
    RoomMeansAll(tree, Low(from), LAST_KEY, found);
    AccountedWhole(tallies, seen, tree, found, from);
    AccountedIsRight(tallies, seen, generation, from, MAX64 + 1);
  }

  lemma BatchCut(tallies: seq<(nat, Account)>, seen: seq<seq<TreeItem>>, tree: seq<TreeItem>, found: seq<TreeItem>,
                 from: nat, generation: nat, last: nat, t: Account)
    requires ValidTree(tree) && found <= Select(tree, Low(from), LAST_KEY) && Tallied(tallies, found)
    requires found != [] && last == found[|found| - 1].key.objectid && UpTo(tallies, last) && from <= last <= MAX64
    requires seen != [] && seen[0] == tree
    requires AgreeAt(seen[1..], last, ItemsAt(tree, last)) ==> t == AccountOf(ItemsAt(tree, last))
    ensures BatchRight(seen, generation, from, last + 1, Entries(Reread(tallies, last, t), generation))
  {
    if AgreeAt(seen, last, ItemsAt(tree, last)) {
      assert forall s :: s in seen[1..] ==> s in seen;
    }
    AccountedCut(tallies, seen, tree, found, from, last, t);
    AccountedIsRight(Reread(tallies, last, t), seen, generation, from, last + 1);
  }

  /** Reads one batch from address `from` on, and says where the next one starts, if
      the tree goes on. What the trees remembered of last snapshots is forgotten. */
  method ExtentBatch(tree: Tree, trees: Resolve.Trees, from: nat, generation: nat)
    returns (r: Result<(seq<Unresolved>, Option<nat>), Fault>)
    requires tree.Valid() && from <= MAX64
    modifies tree, trees`lastSnapshots
    ensures tree.Valid() && old(tree.seen) < tree.seen && trees.lastSnapshots == map[]
    ensures r.Ok? ==> from < Frontier(r.value.1) && (r.value.1.Some? ==> r.value.1.value <= MAX64)
    ensures r.Ok? ==> BatchRight(tree.seen[|old(tree.seen)|..], generation, from, Frontier(r.value.1), r.value.0)
    ensures r.Err? ==> !tree.reliable && tree.failed == Some(r.error)
  {
    trees.lastSnapshots := map[];
    ghost var start := |tree.seen|;
    var searched := tree.Search(Low(from), LAST_KEY);
    if searched.Err? {
      return Err(searched.error);
    }
    var found := searched.value;
    ghost var snapshot := tree.script(start);
    SelectValid(snapshot, Low(from), LAST_KEY);
    PrefixValid(snapshot, from, found);
    var tallies := Group(found);
    var last, complete := Items(found);
    if found == [] || complete {
      BatchWhole(tallies, tree.seen[start..], snapshot, found, from, generation);
      return Ok((Entries(tallies, generation), None));
    }
    // What was found of the last extent may be a part of it: `BatchCut` needs all of it.
    assert ValidItem(found[|found| - 1]) && InRange(last, Low(from), LAST_KEY);
    r := RereadLast(tree, snapshot, tallies, found, from, generation, last.objectid);
  }

  method ReplaceLast(grouped: seq<(nat, Account)>, last: nat, t: Account) returns (tallies: seq<(nat, Account)>)
    ensures tallies == Reread(grouped, last, t)
  {
    tallies := grouped;
    if tallies != [] && tallies[|tallies| - 1].0 == last {
      tallies := tallies[..|tallies| - 1];
    }
    tallies := tallies + [(last, t)];
  }

  /** Ends a batch that was cut short, reading its last extent on its own. */
  method RereadLast(tree: Tree, ghost snapshot: seq<TreeItem>, grouped: seq<(nat, Account)>, ghost found: seq<TreeItem>,
                    from: nat, generation: nat, last: nat)
    returns (r: Result<(seq<Unresolved>, Option<nat>), Fault>)
    requires tree.Valid() && tree.seen != [] && tree.seen[|tree.seen| - 1] == snapshot && ValidTree(snapshot)
    requires found <= Select(snapshot, Low(from), LAST_KEY) && Tallied(grouped, found)
    requires found != [] && last == found[|found| - 1].key.objectid && UpTo(grouped, last) && from <= last <= MAX64
    modifies tree
    ensures tree.Valid() && old(tree.seen) < tree.seen
    ensures r.Ok? ==> from < Frontier(r.value.1) && (r.value.1.Some? ==> r.value.1.value <= MAX64)
    ensures r.Ok? ==> BatchRight(tree.seen[|old(tree.seen)| - 1..], generation, from, Frontier(r.value.1), r.value.0)
    ensures r.Err? ==> !tree.reliable && tree.failed == Some(r.error)
  {
    ghost var start := |tree.seen| - 1;
    var reread := ReadTally(tree, last, ItemsAt(snapshot, last));
    if reread.Err? {
      return Err(reread.error);
    }
    ghost var seen := tree.seen[start..];
    assert seen[0] == snapshot && seen[1..] == tree.seen[start + 1..];
    var tallies := ReplaceLast(grouped, last, reread.value);
    BatchCut(grouped, seen, snapshot, found, from, generation, last, reread.value);
    var next := if last < MAX64 then Some(last + 1) else None;
    assert Frontier(next) == last + 1;
    r := Ok((Entries(tallies, generation), next));
  }

  lemma PrefixValid(tree: seq<TreeItem>, from: nat, found: seq<TreeItem>)
    requires ValidTree(tree) && found <= Select(tree, Low(from), LAST_KEY)
    ensures ValidTree(found) && forall i :: 0 <= i < |found| ==> InRange(found[i].key, Low(from), LAST_KEY)
  {
    SelectValid(tree, Low(from), LAST_KEY);
    assert forall i :: 0 <= i < |found| ==> found[i] == Select(tree, Low(from), LAST_KEY)[i];
  }
}
