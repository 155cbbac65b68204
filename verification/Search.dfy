/** Searching a key-ordered tree through a buffer of bounded size, while the tree
    changes under the search. */
module Search {
  import opened Bytes
  import opened Words
  import opened Wrappers

  const MAX_TYPE: nat := 255
  const BUF_SIZE: nat := 256 * 1024
  const MAX_ITEM_SIZE: nat := 64 * 1024
  /** The size of the header before every item in the buffer. */
  const HEADER_SIZE: nat := 32

  datatype Key = Key(objectid: nat, kind: nat, offset: nat)

  /** Keys order as tuples. */
  predicate Less(a: Key, b: Key) {
    || a.objectid < b.objectid
    || (a.objectid == b.objectid && a.kind < b.kind)
    || (a.objectid == b.objectid && a.kind == b.kind && a.offset < b.offset)
  }

  /** Keys a tree can hold: 64, 8 and 64 bits. */
  predicate ValidKey(k: Key) {
    k.objectid <= MAX64 && k.kind <= MAX_TYPE && k.offset <= MAX64
  }

  /** The key right after `k`, carrying through offset, type and objectid. */
  function Successor(k: Key): Key {
    if k.offset < MAX64 then Key(k.objectid, k.kind, k.offset + 1)
    else if k.kind < MAX_TYPE then Key(k.objectid, k.kind + 1, 0)
    else Key(k.objectid + 1, 0, 0)
  }

  /** The carry misses no key and repeats none. */
  lemma SuccessorExact(k: Key, other: Key)
    requires ValidKey(k) && ValidKey(other)
    ensures Less(k, other) <==> !Less(other, Successor(k))
    ensures ValidKey(Successor(k)) <==> exists later :: ValidKey(later) && Less(k, later)
  {
    if ValidKey(Successor(k)) {
      assert Less(k, Successor(k));
    }
  }

  datatype TreeItem = TreeItem(key: Key, body: seq<Byte>)

  predicate ValidItem(item: TreeItem) {
    ValidKey(item.key) && |item.body| <= MAX_ITEM_SIZE
  }

  predicate Ascending(items: seq<TreeItem>) {
    forall i, j :: 0 <= i < j < |items| ==> Less(items[i].key, items[j].key)
  }

  predicate ValidTree(tree: seq<TreeItem>) {
    Ascending(tree) && forall i :: 0 <= i < |tree| ==> ValidItem(tree[i])
  }

  predicate InRange(k: Key, min: Key, max: Key) {
    !Less(k, min) && !Less(max, k)
  }

  /** The items keyed in `min..=max`, in key order. */
  function Select(items: seq<TreeItem>, min: Key, max: Key): seq<TreeItem> {
    if items == [] then []
    else (if InRange(items[0].key, min, max) then [items[0]] else []) + Select(items[1..], min, max)
  }

  /** Buffer space the items take, each with its header. */
  function Space(items: seq<TreeItem>): nat {
    if items == [] then 0 else HEADER_SIZE + |items[0].body| + Space(items[1..])
  }

  lemma {:induction false} SpaceAppend(items: seq<TreeItem>, item: TreeItem)
    ensures Space(items + [item]) == Space(items) + HEADER_SIZE + |item.body|
  {
    if items == [] {
      assert [item][1..] == [];
    } else {
      SpaceAppend(items[1..], item);
      assert (items + [item])[1..] == items[1..] + [item] && (items + [item])[0] == items[0];
    }
  }

  /** What one search may return: any prefix of the range that fits the buffer and
      could not be longer. */
  predicate Returned(tree: seq<TreeItem>, min: Key, max: Key, found: seq<TreeItem>) {
    var all := Select(tree, min, max);
    && found <= all
    && Space(found) <= BUF_SIZE
    && (found == all || BUF_SIZE < Space(found) + HEADER_SIZE + |all[|found|].body|)
  }

  lemma {:induction false} SelectSound(items: seq<TreeItem>, min: Key, max: Key, item: TreeItem)
    ensures item in Select(items, min, max) <==> item in items && InRange(item.key, min, max)
  {
    if items == [] {
    } else {
      SelectSound(items[1..], min, max, item);
      assert item in items <==> item == items[0] || item in items[1..];
    }
  }

  lemma {:induction false} SelectAscending(items: seq<TreeItem>, min: Key, max: Key)
    requires Ascending(items)
    ensures Ascending(Select(items, min, max))
  {
    if items == [] {
    } else {
      SelectAscending(items[1..], min, max);
      forall i | 0 <= i < |Select(items[1..], min, max)|
        ensures Less(items[0].key, Select(items[1..], min, max)[i].key)
      {
        var item := Select(items[1..], min, max)[i];
        SelectSound(items[1..], min, max, item);
        var j :| 0 <= j < |items[1..]| && items[1..][j] == item;
        assert items[j + 1] == item;
      }
    }
  }

  lemma RangeWithin(k: Key, min: Key, max: Key, low: Key, high: Key)
    requires !Less(low, min) && !Less(max, high)
    ensures InRange(k, low, high) ==> InRange(k, min, max)
  {
  }

  lemma SelectFirst(item: TreeItem, rest: seq<TreeItem>, min: Key, max: Key)
    ensures Select([item] + rest, min, max) ==
      (if InRange(item.key, min, max) then [item] else []) + Select(rest, min, max)
  {
    assert ([item] + rest)[1..] == rest;
  }

  /** Selecting from a range within a range is selecting once. */
  lemma {:induction false} SelectWithin(items: seq<TreeItem>, min: Key, max: Key, low: Key, high: Key)
    requires !Less(low, min) && !Less(max, high)
    ensures Select(Select(items, min, max), low, high) == Select(items, low, high)
  {
    if items != [] {
      SelectWithin(items[1..], min, max, low, high);
      RangeWithin(items[0].key, min, max, low, high);
      if InRange(items[0].key, min, max) {
        SelectFirst(items[0], Select(items[1..], min, max), low, high);
      } else {
        assert [] + Select(items[1..], min, max) == Select(items[1..], min, max);
      }
    }
  }

  lemma {:induction false} SelectConcat(a: seq<TreeItem>, b: seq<TreeItem>, min: Key, max: Key)
    ensures Select(a + b, min, max) == Select(a, min, max) + Select(b, min, max)
  {
    if a == [] {
      assert a + b == b;
    } else {
      assert a == [a[0]] + a[1..] && a + b == [a[0]] + (a[1..] + b);
      SelectFirst(a[0], a[1..], min, max);
      SelectFirst(a[0], a[1..] + b, min, max);
      SelectConcat(a[1..], b, min, max);
    }
  }

  /** Nothing is selected twice: what is past the `n`th item is what is selected
      from its successor on. */
  lemma {:induction false} SelectRest(items: seq<TreeItem>, max: Key, n: nat)
    requires ValidTree(items) && 0 < n <= |items|
    requires forall i :: 0 <= i < |items| ==> !Less(max, items[i].key)
    ensures Select(items, Successor(items[n - 1].key), max) == items[n..]
  {
    var from := Successor(items[n - 1].key);
    SuccessorExact(items[n - 1].key, items[0].key);
    if n == 1 {
      SelectAll(items[1..], from, max, items[0].key);
    } else {
      SelectRest(items[1..], max, n - 1);
    }
  }

  lemma {:induction false} SelectAll(items: seq<TreeItem>, from: Key, max: Key, before: Key)
    requires ValidTree(items) && ValidKey(before) && from == Successor(before)
    requires forall i :: 0 <= i < |items| ==> Less(before, items[i].key) && !Less(max, items[i].key)
    ensures Select(items, from, max) == items
  {
    if items == [] {
    } else {
      SuccessorExact(before, items[0].key);
      SelectAll(items[1..], from, max, before);
    }
  }

  /** A tree on the filesystem, which may be another one at every search: `script` is
      what it holds at each, and `seen` what it held at those made. */
  class Tree {
    const script: nat -> seq<TreeItem>
    /** Whether searches always succeed. */
    const reliable: bool
    var searches: nat
    ghost var seen: seq<seq<TreeItem>>
    /** What the last search failed with, if it did. */
    ghost var failed: Option<Fault>

    ghost predicate Valid()
      reads this
    {
      && (forall n: nat :: ValidTree(script(n)))
      && searches == |seen| && (forall n :: 0 <= n < |seen| ==> seen[n] == script(n))
      && forall t :: t in seen ==> ValidTree(t)
    }

    constructor (script: nat -> seq<TreeItem>, reliable: bool)
      requires forall n: nat :: ValidTree(script(n))
      ensures Valid() && seen == [] && this.script == script && this.reliable == reliable
    {
      this.script, this.reliable, searches, seen, failed := script, reliable, 0, [], None;
    }

    /** Runs one search over what the tree holds by now. */
    method Search(min: Key, max: Key) returns (r: Result<seq<TreeItem>, Fault>)
      requires Valid()
      modifies this
      ensures Valid() && seen == old(seen) + [script(|old(seen)|)]
      ensures r.Ok? ==> Returned(script(|old(seen)|), min, max, r.value)
      ensures r.Err? ==> !reliable
      ensures failed == if r.Err? then Some(r.error) else None
    {
      var items := script(searches);
      searches, seen := searches + 1, seen + [items];
      var fails: bool, fault: Fault := *, *;
      failed := None;
      if fails && !reliable {
        failed := Some(fault);
        return Err(fault);
      }
      var found := FillBuffer(Select(items, min, max));
      r := Ok(found);
    }
  }

  method FillBuffer(all: seq<TreeItem>) returns (found: seq<TreeItem>)
    ensures found <= all && Space(found) <= BUF_SIZE
    ensures found == all || BUF_SIZE < Space(found) + HEADER_SIZE + |all[|found|].body|
  {
    found := [];
    var used := 0;
    while |found| < |all| && used + HEADER_SIZE + |all[|found|].body| <= BUF_SIZE
      invariant found <= all && used == Space(found) <= BUF_SIZE
    {
      SpaceAppend(found, all[|found|]);
      used := used + HEADER_SIZE + |all[|found|].body|;
      found := found + [all[|found|]];
    }
  }

  /** The last key of what a search returned, and whether the largest item there can be
      would still have fitted; `RoomMeansAll` says what follows. */
  method Items(found: seq<TreeItem>) returns (last: Key, complete: bool)
    requires Space(found) <= BUF_SIZE
    ensures found != [] ==> last == found[|found| - 1].key
    ensures complete <==> Space(found) + HEADER_SIZE + MAX_ITEM_SIZE <= BUF_SIZE
  {
    var pos := 0;
    last := Key(0, 0, 0);
    for i := 0 to |found|
      invariant pos == Space(found[..i])
      invariant 0 < i ==> last == found[i - 1].key
    {
      assert found[..i + 1] == found[..i] + [found[i]];
      SpaceAppend(found[..i], found[i]);
      last := found[i].key;
      pos := pos + HEADER_SIZE + |found[i].body|;
    }
    assert found[..|found|] == found;
    complete := BUF_SIZE - pos >= HEADER_SIZE + MAX_ITEM_SIZE;
  }

  /** If the largest item would have fitted, the prefix is the whole range. */
  lemma RoomMeansAll(tree: seq<TreeItem>, min: Key, max: Key, found: seq<TreeItem>)
    requires ValidTree(tree) && Returned(tree, min, max, found)
    requires Space(found) + HEADER_SIZE + MAX_ITEM_SIZE <= BUF_SIZE || found == []
    ensures found == Select(tree, min, max)
  {
    SelectValid(tree, min, max);
  }

  lemma SelectValid(tree: seq<TreeItem>, min: Key, max: Key)
    requires ValidTree(tree)
    ensures ValidTree(Select(tree, min, max))
    ensures forall i :: 0 <= i < |Select(tree, min, max)| ==> InRange(Select(tree, min, max)[i].key, min, max)
    ensures forall i :: 0 <= i < |Select(tree, min, max)| ==> |Select(tree, min, max)[i].body| <= MAX_ITEM_SIZE
  {
    var all := Select(tree, min, max);
    SelectAscending(tree, min, max);
    forall i | 0 <= i < |all|
      ensures ValidItem(all[i]) && InRange(all[i].key, min, max)
    {
      SelectSound(tree, min, max, all[i]);
      var j :| 0 <= j < |tree| && tree[j] == all[i];
    }
  }

  /** Where a search was cut short, the next one takes up exactly what it left. */
  lemma CarryOn(tree: seq<TreeItem>, min: Key, max: Key, found: seq<TreeItem>)
    requires ValidTree(tree) && found <= Select(tree, min, max) && found != []
    ensures var next := Successor(found[|found| - 1].key);
      Select(tree, min, max) == found + Select(tree, next, max) && Less(min, next)
  {
    var all := Select(tree, min, max);
    var n := |found|;
    SelectValid(tree, min, max);
    assert all[n - 1] == found[n - 1] && InRange(all[n - 1].key, min, max);
    SelectRest(all, max, n);
    SuccessorAfter(min, found[n - 1].key);
    SelectWithin(tree, min, max, Successor(found[n - 1].key), max);
    assert all == found + all[n..];
  }

  lemma SuccessorAfter(min: Key, k: Key)
    requires !Less(k, min)
    ensures Less(min, Successor(k)) && !Less(Successor(k), min)
  {
  }

  ghost predicate AllShow(seen: seq<seq<TreeItem>>, min: Key, max: Key, items: seq<TreeItem>) {
    forall t :: t in seen ==> Select(t, min, max) == items
  }

  /** If every search so far saw `items` in the range, what is handed over and
      what is still to come make up `items`. */
  ghost predicate Progress(start: seq<seq<TreeItem>>, seen: seq<seq<TreeItem>>, from: Key, min: Key, max: Key,
                           handed: seq<TreeItem>, items: seq<TreeItem>)
    requires start <= seen
  {
    if seen == start then handed == [] && min == from
    else AllShow(seen[|start|..], from, max, items) ==> items == handed + Select(items, min, max)
  }

  /** What one more search leaves to come, if it agrees with the others. */
  lemma LeftToCome(start: seq<seq<TreeItem>>, before: seq<seq<TreeItem>>, tree: seq<TreeItem>, from: Key, min: Key,
      max: Key, handed: seq<TreeItem>, items: seq<TreeItem>)
    requires start <= before && !Less(min, from)
    requires Progress(start, before, from, min, max, handed, items)
    requires AllShow((before + [tree])[|start|..], from, max, items)
    ensures items == handed + Select(tree, min, max)
    ensures forall next: Key :: !Less(next, from) ==> Select(items, next, max) == Select(tree, next, max)
  {
    var seen := (before + [tree])[|start|..];
    assert seen == before[|start|..] + [tree] && tree in seen;
    assert AllShow(before[|start|..], from, max, items);
    forall next: Key | !Less(next, from)
      ensures Select(items, next, max) == Select(tree, next, max)
    {
      SelectWithin(tree, from, max, next, max);
    }
  }

  /** Whether the loop stops after a search. */
  predicate Stops(found: seq<TreeItem>) {
    || found == []
    || Space(found) + HEADER_SIZE + MAX_ITEM_SIZE <= BUF_SIZE
    || !ValidKey(Successor(found[|found| - 1].key))
  }

  lemma NextFurther(tree: seq<TreeItem>, from: Key, min: Key, max: Key, found: seq<TreeItem>)
    requires ValidTree(tree) && !Less(min, from) && found != [] && Returned(tree, min, max, found)
    ensures var next := Successor(found[|found| - 1].key);
      ValidKey(found[|found| - 1].key) && Less(min, next) && !Less(next, from)
  {
    CarryOn(tree, min, max, found);
    SelectValid(tree, min, max);
  }

  lemma ProgressStep(start: seq<seq<TreeItem>>, before: seq<seq<TreeItem>>, tree: seq<TreeItem>, from: Key, min: Key,
      max: Key, handed: seq<TreeItem>, found: seq<TreeItem>, items: seq<TreeItem>)
    requires start <= before && ValidTree(tree) && !Less(min, from) && found != []
    requires Progress(start, before, from, min, max, handed, items) && Returned(tree, min, max, found)
    ensures var next := Successor(found[|found| - 1].key);
      && ValidKey(found[|found| - 1].key) && Less(min, next) && !Less(next, from)
      && Progress(start, before + [tree], from, next, max, handed + found, items)
  {
    NextFurther(tree, from, min, max, found);
    if AllShow((before + [tree])[|start|..], from, max, items) {
      LeftToCome(start, before, tree, from, min, max, handed, items);
      CarryOn(tree, min, max, found);
      var next := Successor(found[|found| - 1].key);
      assert handed + (found + Select(tree, next, max)) == (handed + found) + Select(tree, next, max);
    }
  }

  lemma ProgressEnd(start: seq<seq<TreeItem>>, before: seq<seq<TreeItem>>, tree: seq<TreeItem>, from: Key, min: Key,
      max: Key, handed: seq<TreeItem>, found: seq<TreeItem>, items: seq<TreeItem>)
    requires start <= before && ValidTree(tree) && !Less(min, from) && Stops(found)
    requires Progress(start, before, from, min, max, handed, items) && Returned(tree, min, max, found)
    requires AllShow((before + [tree])[|start|..], from, max, items)
    ensures handed + found == items
  {
    LeftToCome(start, before, tree, from, min, max, handed, items);
    if found == [] || Space(found) + HEADER_SIZE + MAX_ITEM_SIZE <= BUF_SIZE {
      RoomMeansAll(tree, min, max, found);
    } else {
      CarryOn(tree, min, max, found);
      SelectValid(tree, min, max);
      NothingPast(tree, Successor(found[|found| - 1].key), max);
    }
  }

  /** What one more search comes to, whether the loop then goes on or stops. */
  lemma SearchStep(start: seq<seq<TreeItem>>, before: seq<seq<TreeItem>>, tree: seq<TreeItem>, from: Key, min: Key,
      max: Key, handed: seq<TreeItem>, found: seq<TreeItem>, items: seq<TreeItem>)
    requires start <= before && ValidTree(tree) && !Less(min, from)
    requires Progress(start, before, from, min, max, handed, items) && Returned(tree, min, max, found)
    ensures found != [] ==>
              var next := Successor(found[|found| - 1].key);
              && ValidKey(found[|found| - 1].key) && Less(min, next) && !Less(next, from)
              && Progress(start, before + [tree], from, next, max, handed + found, items)
    ensures Stops(found) && AllShow((before + [tree])[|start|..], from, max, items) ==> handed + found == items
  {
    if found != [] {
      ProgressStep(start, before, tree, from, min, max, handed, found, items);
    }
    if Stops(found) && AllShow((before + [tree])[|start|..], from, max, items) {
      ProgressEnd(start, before, tree, from, min, max, handed, found, items);
    }
  }

  /** The last key there is has nothing past it. */
  lemma {:induction false} NothingPast(tree: seq<TreeItem>, next: Key, max: Key)
    requires ValidTree(tree) && next.objectid == MAX64 + 1
    ensures Select(tree, next, max) == []
  {
    if tree == [] {
    } else {
      NothingPast(tree[1..], next, max);
    }
  }

  /** The range still to be searched. */
  class SearchArgs {
    var min: Key
    var max: Key

    constructor (min: Key, max: Key)
      ensures this.min == min && this.max == max
    {
      this.min, this.max := min, max;
    }

    /** Hands over every item in the range. If the range holds the same items at
        every search made, they are handed over exactly once each, in key order,
        however the searches were cut; and it ends, whatever the tree does. */
    method SearchAll(tree: Tree, ghost items: seq<TreeItem>) returns (r: Result<seq<TreeItem>, Fault>)
      requires tree.Valid() && ValidKey(min)
      modifies this`min, tree
      ensures tree.Valid() && old(tree.seen) < tree.seen
      ensures r.Ok? && AllShow(tree.seen[|old(tree.seen)|..], old(min), max, items) ==> r.value == items
      ensures r.Err? ==> !tree.reliable && tree.failed == Some(r.error)
    {
      var handed: seq<TreeItem> := [];
      ghost var from, start := min, tree.seen;
      while true
        invariant tree.Valid() && ValidKey(min) && !Less(min, from) && start <= tree.seen
        invariant Progress(start, tree.seen, from, min, max, handed, items)
        decreases MAX64 - min.objectid, MAX_TYPE - min.kind, MAX64 - min.offset
      {
        ghost var before := tree.seen;
        var found := tree.Search(min, max);
        if found.Err? {
          return Err(found.error);
        }
        var lastKey, complete := Items(found.value);
        SearchStep(start, before, tree.script(|before|), from, min, max, handed, found.value, items);
        handed := handed + found.value;
        if found.value == [] || complete {
          return Ok(handed);
        }
        // `min` becomes `Successor(lastKey)`, as `SearchStep` expects.
        if lastKey.offset < MAX64 {
          min := Key(lastKey.objectid, lastKey.kind, lastKey.offset + 1);
        } else if lastKey.kind < MAX_TYPE {
          min := Key(lastKey.objectid, lastKey.kind + 1, 0);
        } else if lastKey.objectid < MAX64 {
          min := Key(lastKey.objectid + 1, 0, 0);
        } else {
          return Ok(handed);
        }
      }
    }
  }
}
