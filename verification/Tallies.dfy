/** Decoding extent items and data references, and encoding them, to show that the one
    undoes the other. */
module Tallies {
  import opened Bytes
  import opened Wrappers

  const EXTENT_ITEM_KEY: nat := 168
  const EXTENT_OWNER_REF_KEY: nat := 172
  const EXTENT_DATA_REF_KEY: nat := 178
  const SHARED_DATA_REF_KEY: nat := 184
  const EXTENT_FLAG_DATA: nat := 1

  /** Bytes in a 64-bit field, and in a 32-bit one. */
  const LONG: nat := 8
  const INT: nat := 4

  /** Sizes of the structures items hold. */
  const EXTENT_ITEM_SIZE: nat := 24
  const DATA_REF_SIZE: nat := 28
  const OWNER_REF_SIZE: nat := 8

  /** The fields of an extent item that are used, and its key's offset. */
  datatype ExtentItem = ExtentItem(diskBytes: nat, refs: nat, generation: nat)

  /** `Base`: a file offset minus an offset into the extent, wrapped to 64 bits.
      `Between`: two file offsets, both included. */
  datatype RefOffsets = Base(base: nat) | Between(first: nat, last: nat)

  /** A claim that one file has `count` references, and where to look for them. */
  datatype DataRef = DataRef(root: nat, inode: nat, at: RefOffsets, count: nat)

  /** Who holds an extent: files, all named, or something only a full walk can say. */
  datatype Backrefs = Files(dataRefs: seq<DataRef>) | Unreadable

  /** What items read so far come to. Once `unread` is set, `dataRefs` is not all of it. */
  datatype Account = Account(item: Option<ExtentItem>, counted: nat, dataRefs: seq<DataRef>, unread: bool)

  const EMPTY := Account(None, 0, [], false)

  /** One item of the extent tree that belongs to an extent. */
  datatype RawItem = RawItem(kind: nat, offset: nat, body: seq<Byte>)

  function Field(bytes: seq<Byte>, at: nat, width: nat): nat
    requires at + width <= |bytes|
  {
    ReadLE(bytes[at..at + width])
  }

  function DecodeDataRef(bytes: seq<Byte>): DataRef
    requires DATA_REF_SIZE <= |bytes|
  {
    DataRef(Field(bytes, 0, LONG), Field(bytes, 8, LONG), Base(Field(bytes, 16, LONG)), Field(bytes, 24, INT))
  }

  function AddDataRef(t: Account, r: DataRef): Account {
    t.(counted := t.counted + r.count, dataRefs := t.dataRefs + [r])
  }

  /** Decodes entry after entry until the bytes run out or one cannot be read. */
  function AddInline(t: Account, bytes: seq<Byte>): Account
    decreases |bytes|
  {
    if bytes == [] then
      t
    else
      var kind, body := bytes[0] as nat, bytes[1..];
      if kind == EXTENT_DATA_REF_KEY && DATA_REF_SIZE <= |body| then
        AddInline(AddDataRef(t, DecodeDataRef(body)), body[DATA_REF_SIZE..])
      else if kind == EXTENT_OWNER_REF_KEY && OWNER_REF_SIZE <= |body| then
        AddInline(t, body[OWNER_REF_SIZE..])
      else
        t.(unread := true)
  }

  function AddItem(t: Account, raw: RawItem): Account {
    if raw.kind == EXTENT_ITEM_KEY then
      if |raw.body| < EXTENT_ITEM_SIZE then
        t.(unread := true)
      else if Field(raw.body, 16, LONG) % 2 != EXTENT_FLAG_DATA then
        t
      else
        AddInline(t.(item := Some(ExtentItem(raw.offset, Field(raw.body, 0, LONG), Field(raw.body, 8, LONG)))),
                  raw.body[EXTENT_ITEM_SIZE..])
    else if raw.kind == EXTENT_DATA_REF_KEY && DATA_REF_SIZE <= |raw.body| then
      AddDataRef(t, DecodeDataRef(raw.body))
    else
      t.(unread := true)
  }

  function AddItems(t: Account, items: seq<RawItem>): Account
    decreases |items|
  {
    if items == [] then t else AddItems(AddItem(t, items[0]), items[1..])
  }

  /** The verdict on an account: `Files` only if nothing is unread and the counts add up. */
  function Finish(t: Account): Option<(ExtentItem, Backrefs)> {
    if t.item == None then None
    else if t.unread || t.counted != t.item.value.refs then Some((t.item.value, Unreadable))
    else Some((t.item.value, Files(t.dataRefs)))
  }

  /** The account as the program keeps it, updated in place. */
  class Tally {
    var item: Option<ExtentItem>
    var counted: nat
    var dataRefs: seq<DataRef>
    var unread: bool

    function State(): Account
      reads this
    {
      Account(item, counted, dataRefs, unread)
    }

    constructor ()
      ensures State() == EMPTY
    {
      item, counted, dataRefs, unread := None, 0, [], false;
    }

    method CountDataRef(r: DataRef)
      modifies this
      ensures State() == AddDataRef(old(State()), r)
    {
      counted := counted + r.count;
      dataRefs := dataRefs + [r];
    }

    method ReadInline(all: seq<Byte>)
      modifies this
      ensures State() == AddInline(old(State()), all)
    {
      var bytes := all;
      while bytes != []
        invariant AddInline(State(), bytes) == AddInline(old(State()), all)
        decreases |bytes|
      {
        var kind, body := bytes[0] as nat, bytes[1..];
        var len := 0;
        if kind == EXTENT_DATA_REF_KEY {
          if |body| < DATA_REF_SIZE {
            break;
          }
          CountDataRef(DecodeDataRef(body));
          len := DATA_REF_SIZE;
        } else if kind == EXTENT_OWNER_REF_KEY {
          len := OWNER_REF_SIZE;
        } else {
          break;
        }
        if |body| < len {
          break;
        }
        bytes := body[len..];
      }
      if bytes != [] {
        unread := true;
      }
    }

    method ReadItem(raw: RawItem)
      modifies this
      ensures State() == AddItem(old(State()), raw)
    {
      if raw.kind == EXTENT_ITEM_KEY {
        if |raw.body| < EXTENT_ITEM_SIZE {
          unread := true;
          return;
        }
        if Field(raw.body, 16, LONG) % 2 != EXTENT_FLAG_DATA {
          return;
        }
        item := Some(ExtentItem(raw.offset, Field(raw.body, 0, LONG), Field(raw.body, 8, LONG)));
        ReadInline(raw.body[EXTENT_ITEM_SIZE..]);
      } else if raw.kind == EXTENT_DATA_REF_KEY && DATA_REF_SIZE <= |raw.body| {
        CountDataRef(DecodeDataRef(raw.body));
      } else {
        unread := true;
      }
    }
  }

  // ----- Encoding, and that decoding undoes it -----

  predicate Fits(r: DataRef) {
    r.root < Power256(LONG) && r.inode < Power256(LONG) && r.at.Base? && r.at.base < Power256(LONG)
      && r.count < Power256(INT)
  }

  function EncodeDataRef(r: DataRef): (bytes: seq<Byte>)
    requires r.at.Base?
    ensures |bytes| == DATA_REF_SIZE
  {
    WriteLE(r.root, LONG) + WriteLE(r.inode, LONG) + WriteLE(r.at.base, LONG) + WriteLE(r.count, INT)
  }

  lemma DecodeEncode(r: DataRef, rest: seq<Byte>)
    requires Fits(r)
    ensures DecodeDataRef(EncodeDataRef(r) + rest) == r
  {
    var bytes := EncodeDataRef(r) + rest;
    assert bytes[0..8] == WriteLE(r.root, LONG) && bytes[8..16] == WriteLE(r.inode, LONG);
    assert bytes[16..24] == WriteLE(r.at.base, LONG) && bytes[24..28] == WriteLE(r.count, INT);
    ReadWrite(r.root, LONG);
    ReadWrite(r.inode, LONG);
    ReadWrite(r.at.base, LONG);
    ReadWrite(r.count, INT);
  }

  lemma EncodeDecode(bytes: seq<Byte>)
    requires DATA_REF_SIZE <= |bytes|
    ensures Fits(DecodeDataRef(bytes)) && EncodeDataRef(DecodeDataRef(bytes)) == bytes[..DATA_REF_SIZE]
  {
    WriteRead(bytes[0..8]);
    WriteRead(bytes[8..16]);
    WriteRead(bytes[16..24]);
    WriteRead(bytes[24..28]);
    FourFields(bytes);
  }

  lemma FourFields(bytes: seq<Byte>)
    requires DATA_REF_SIZE <= |bytes|
    ensures bytes[..DATA_REF_SIZE] == bytes[0..8] + bytes[8..16] + bytes[16..24] + bytes[24..28]
  {
  }

  /** What inline bytes can encode: a reference, or an owner, which counts for none. */
  datatype Inline = Ref(dataRef: DataRef) | Owner(root: nat)

  predicate FitsInline(entry: Inline) {
    match entry
    case Ref(r) => Fits(r)
    case Owner(root) => root < Power256(LONG)
  }

  predicate AllFit(entries: seq<Inline>) {
    forall i :: 0 <= i < |entries| ==> FitsInline(entries[i])
  }

  /** An inline entry as it is on disk: a byte for its kind, and its fields. */
  function EncodeEntry(entry: Inline): seq<Byte>
    requires FitsInline(entry)
  {
    match entry
    case Ref(r) => [178] + EncodeDataRef(r)
    case Owner(root) => [172] + WriteLE(root, LONG)
  }

  function EncodeInline(entries: seq<Inline>): seq<Byte>
    requires AllFit(entries)
  {
    if entries == [] then [] else EncodeEntry(entries[0]) + EncodeInline(entries[1..])
  }

  function EntryRefs(entry: Inline): seq<DataRef> {
    if entry.Ref? then [entry.dataRef] else []
  }

  /** The references among the entries. */
  function RefsIn(entries: seq<Inline>): seq<DataRef> {
    if entries == [] then [] else EntryRefs(entries[0]) + RefsIn(entries[1..])
  }

  function Sum(refs: seq<DataRef>): nat {
    if refs == [] then 0 else refs[0].count + Sum(refs[1..])
  }

  lemma {:induction false} SumAppend(a: seq<DataRef>, b: seq<DataRef>)
    ensures Sum(a + b) == Sum(a) + Sum(b)
  {
    if a == [] {
      assert a + b == b;
    } else {
      SumAppend(a[1..], b);
      assert (a + b)[1..] == a[1..] + b;
    }
  }

  lemma SumNext(refs: seq<DataRef>, d: DataRef)
    ensures Sum(refs + [d]) == Sum(refs) + d.count
  {
    SumAppend(refs, [d]);
    assert [d][1..] == [];
  }

  /** `t` with these references counted in. */
  function Plus(t: Account, refs: seq<DataRef>): Account {
    t.(counted := t.counted + Sum(refs), dataRefs := t.dataRefs + refs)
  }

  lemma PlusPlus(t: Account, a: seq<DataRef>, b: seq<DataRef>)
    ensures Plus(Plus(t, a), b) == Plus(t, a + b)
    ensures Plus(t, []) == t
  {
    SumAppend(a, b);
    assert t.dataRefs + a + b == t.dataRefs + (a + b);
    assert t.dataRefs + [] == t.dataRefs;
  }

  lemma RefEntry(t: Account, r: DataRef, rest: seq<Byte>)
    requires Fits(r)
    ensures AddInline(t, [EXTENT_DATA_REF_KEY as Byte] + EncodeDataRef(r) + rest) == AddInline(AddDataRef(t, r), rest)
  {
    var body := EncodeDataRef(r) + rest;
    assert ([EXTENT_DATA_REF_KEY as Byte] + EncodeDataRef(r) + rest)[1..] == body;
    DecodeEncode(r, rest);
    assert body[DATA_REF_SIZE..] == rest;
  }

  lemma OwnerEntry(t: Account, root: nat, rest: seq<Byte>)
    ensures AddInline(t, [EXTENT_OWNER_REF_KEY as Byte] + WriteLE(root, LONG) + rest) == AddInline(t, rest)
  {
    var body := WriteLE(root, LONG) + rest;
    assert ([EXTENT_OWNER_REF_KEY as Byte] + WriteLE(root, LONG) + rest)[1..] == body;
    assert body[OWNER_REF_SIZE..] == rest;
  }

  lemma PlusOne(t: Account, r: DataRef)
    ensures AddDataRef(t, r) == Plus(t, [r])
  {
    assert Sum([r]) == r.count + Sum([r][1..]);
  }

  lemma InlineEntry(t: Account, entry: Inline, rest: seq<Byte>)
    requires FitsInline(entry)
    ensures AddInline(t, EncodeEntry(entry) + rest) == AddInline(Plus(t, EntryRefs(entry)), rest)
  {
    match entry
    case Ref(r) =>
      RefEntry(t, r, rest);
      PlusOne(t, r);
    case Owner(root) =>
      OwnerEntry(t, root, rest);
      PlusPlus(t, [], []);
  }

  /** Reading inline entries back gives their references, in order. */
  lemma {:induction false} InlineRoundTrip(t: Account, entries: seq<Inline>)
    requires AllFit(entries)
    ensures AddInline(t, EncodeInline(entries)) == Plus(t, RefsIn(entries))
    decreases |entries|
  {
    if entries == [] {
      PlusPlus(t, [], []);
    } else {
      InlineEntry(t, entries[0], EncodeInline(entries[1..]));
      InlineRoundTrip(Plus(t, EntryRefs(entries[0])), entries[1..]);
      PlusPlus(t, EntryRefs(entries[0]), RefsIn(entries[1..]));
    }
  }

  lemma EncodeFirst(first: Inline, rest: seq<Inline>)
    requires FitsInline(first) && AllFit(rest)
    ensures AllFit([first] + rest) && EncodeInline([first] + rest) == EncodeEntry(first) + EncodeInline(rest)
  {
    assert ([first] + rest)[1..] == rest;
  }

  lemma EntryDecoded(bytes: seq<Byte>, size: nat, first: Inline, rest: seq<Inline>)
    requires bytes != [] && size <= |bytes[1..]| && FitsInline(first) && AllFit(rest)
    requires EncodeEntry(first) == [bytes[0]] + bytes[1..][..size] && bytes[1..][size..] == EncodeInline(rest)
    ensures AllFit([first] + rest) && bytes == EncodeInline([first] + rest)
  {
    EncodeFirst(first, rest);
    assert bytes == [bytes[0]] + bytes[1..][..size] + bytes[1..][size..];
  }

  lemma RefEncoded(body: seq<Byte>)
    requires DATA_REF_SIZE <= |body|
    ensures FitsInline(Ref(DecodeDataRef(body)))
    ensures EncodeEntry(Ref(DecodeDataRef(body))) == [EXTENT_DATA_REF_KEY as Byte] + body[..DATA_REF_SIZE]
  {
    EncodeDecode(body);
  }

  lemma OwnerEncoded(body: seq<Byte>)
    requires OWNER_REF_SIZE <= |body|
    ensures FitsInline(Owner(ReadLE(body[..OWNER_REF_SIZE])))
    ensures EncodeEntry(Owner(ReadLE(body[..OWNER_REF_SIZE]))) ==
      [EXTENT_OWNER_REF_KEY as Byte] + body[..OWNER_REF_SIZE]
  {
    WriteRead(body[..OWNER_REF_SIZE]);
  }

  /** Bytes read without complaint are an encoding, from end to end. */
  lemma {:induction false} InlineExact(t: Account, bytes: seq<Byte>) returns (entries: seq<Inline>)
    requires !AddInline(t, bytes).unread
    ensures AllFit(entries) && bytes == EncodeInline(entries)
    decreases |bytes|
  {
    if bytes == [] {
      entries := [];
    } else {
      var kind, body := bytes[0] as nat, bytes[1..];
      if kind == EXTENT_DATA_REF_KEY {
        var rest := InlineExact(AddDataRef(t, DecodeDataRef(body)), body[DATA_REF_SIZE..]);
        RefEncoded(body);
        EntryDecoded(bytes, DATA_REF_SIZE, Ref(DecodeDataRef(body)), rest);
        entries := [Ref(DecodeDataRef(body))] + rest;
      } else {
        var rest := InlineExact(t, body[OWNER_REF_SIZE..]);
        OwnerEncoded(body);
        EntryDecoded(bytes, OWNER_REF_SIZE, Owner(ReadLE(body[..OWNER_REF_SIZE])), rest);
        entries := [Owner(ReadLE(body[..OWNER_REF_SIZE]))] + rest;
      }
    }
  }

  /** Whether the item, read in full, stands for exactly `refs`. */
  ghost predicate Reads(raw: RawItem, refs: seq<DataRef>) {
    || (raw.kind == EXTENT_DATA_REF_KEY && DATA_REF_SIZE <= |raw.body| && refs == [DecodeDataRef(raw.body)])
    || (raw.kind == EXTENT_ITEM_KEY && EXTENT_ITEM_SIZE <= |raw.body|
        && if Field(raw.body, 16, LONG) % 2 == EXTENT_FLAG_DATA then HoldsInline(raw.body[EXTENT_ITEM_SIZE..], refs)
          else refs == [])
  }

  ghost predicate HoldsInline(bytes: seq<Byte>, refs: seq<DataRef>) {
    exists entries :: AllFit(entries) && bytes == EncodeInline(entries) && refs == RefsIn(entries)
  }

  lemma {:induction false} UnreadStays(t: Account, bytes: seq<Byte>)
    ensures t.unread ==> AddInline(t, bytes).unread
    ensures AddInline(t, bytes).item == t.item
    decreases |bytes|
  {
    if bytes != [] {
      var kind, body := bytes[0] as nat, bytes[1..];
      if kind == EXTENT_DATA_REF_KEY && DATA_REF_SIZE <= |body| {
        UnreadStays(AddDataRef(t, DecodeDataRef(body)), body[DATA_REF_SIZE..]);
      } else if kind == EXTENT_OWNER_REF_KEY && OWNER_REF_SIZE <= |body| {
        UnreadStays(t, body[OWNER_REF_SIZE..]);
      }
    }
  }

  /** An extent item of a data extent, by its key, its length and its flags. */
  predicate IsData(raw: RawItem) {
    raw.kind == 168 && 24 <= |raw.body| && ReadLE(raw.body[16..24]) % 2 == 1
  }

  /** Its length from its key, and its count and generation from its first bytes. */
  function FieldsOf(raw: RawItem): ExtentItem
    requires IsData(raw)
  {
    ExtentItem(raw.offset, ReadLE(raw.body[0..8]), ReadLE(raw.body[8..16]))
  }

  /** Such an item, and no other, sets what is known of the extent. */
  lemma ItemByFlag(t: Account, raw: RawItem)
    ensures AddItem(t, raw).item == if IsData(raw) then Some(FieldsOf(raw)) else t.item
  {
    if IsData(raw) {
      UnreadStays(t.(item := Some(FieldsOf(raw))), raw.body[EXTENT_ITEM_SIZE..]);
    }
  }

  /** An item is read either in full, or so that the account says it was not:
      truncated, shared and unknown references never pass for none. */
  lemma ItemExact(t: Account, raw: RawItem)
    requires !t.unread
    ensures !AddItem(t, raw).unread <==> exists refs: seq<DataRef> :: Reads(raw, refs)
    ensures forall refs: seq<DataRef> :: Reads(raw, refs) ==>
              AddItem(t, raw) == Plus(t.(item := AddItem(t, raw).item), refs)
  {
    var next := AddItem(t, raw);
    forall refs: seq<DataRef> | Reads(raw, refs)
      ensures next == Plus(t.(item := next.item), refs)
    {
      PlusPlus(t, [], []);
      if raw.kind == EXTENT_DATA_REF_KEY {
        assert Sum(refs) == refs[0].count + Sum(refs[1..]);
      } else if Field(raw.body, 16, LONG) % 2 == EXTENT_FLAG_DATA {
        var entries :| AllFit(entries) && raw.body[EXTENT_ITEM_SIZE..] == EncodeInline(entries)
          && refs == RefsIn(entries);
        var with := t.(item := Some(ExtentItem(raw.offset, Field(raw.body, 0, LONG), Field(raw.body, 8, LONG))));
        InlineRoundTrip(with, entries);
      }
    }
    if !next.unread {
      if raw.kind == EXTENT_DATA_REF_KEY {
        assert Reads(raw, [DecodeDataRef(raw.body)]);
      } else if Field(raw.body, 16, LONG) % 2 == EXTENT_FLAG_DATA {
        var with := t.(item := Some(ExtentItem(raw.offset, Field(raw.body, 0, LONG), Field(raw.body, 8, LONG))));
        var entries := InlineExact(with, raw.body[EXTENT_ITEM_SIZE..]);
        assert HoldsInline(raw.body[EXTENT_ITEM_SIZE..], RefsIn(entries));
        assert Reads(raw, RefsIn(entries));
      } else {
        assert Reads(raw, []);
      }
    }
  }

  /** Whether the items, each read in full, stand for exactly `refs`, in order. */
  ghost predicate ReadsAll(items: seq<RawItem>, refs: seq<DataRef>)
    decreases |items|
  {
    if items == [] then refs == []
    else exists first, rest :: Reads(items[0], first) && ReadsAll(items[1..], rest) && refs == first + rest
  }

  /** The last extent item read with its data flag set. */
  function LastItem(was: Option<ExtentItem>, items: seq<RawItem>): Option<ExtentItem>
    decreases |items|
  {
    if items == [] then was else LastItem(AddItem(EMPTY.(item := was), items[0]).item, items[1..])
  }

  lemma ItemIndependent(t: Account, raw: RawItem)
    ensures AddItem(t, raw).item == AddItem(EMPTY.(item := t.item), raw).item
    ensures t.unread ==> AddItem(t, raw).unread
  {
    if raw.kind == EXTENT_ITEM_KEY && EXTENT_ITEM_SIZE <= |raw.body|
      && Field(raw.body, 16, LONG) % 2 == EXTENT_FLAG_DATA {
      var item := Some(ExtentItem(raw.offset, Field(raw.body, 0, LONG), Field(raw.body, 8, LONG)));
      UnreadStays(t.(item := item), raw.body[EXTENT_ITEM_SIZE..]);
      UnreadStays(EMPTY.(item := item), raw.body[EXTENT_ITEM_SIZE..]);
    }
  }

  lemma {:induction false} UnreadStaysAll(t: Account, items: seq<RawItem>)
    ensures t.unread ==> AddItems(t, items).unread
    ensures AddItems(t, items).item == LastItem(t.item, items)
    decreases |items|
  {
    if items == [] {
    } else {
      ItemIndependent(t, items[0]);
      UnreadStaysAll(AddItem(t, items[0]), items[1..]);
    }
  }

  lemma {:induction false} ItemsExact(t: Account, items: seq<RawItem>)
    requires !t.unread
    ensures !AddItems(t, items).unread <==> exists refs: seq<DataRef> :: ReadsAll(items, refs)
    ensures forall refs: seq<DataRef> :: ReadsAll(items, refs) ==>
              AddItems(t, items) == Plus(t.(item := AddItems(t, items).item), refs)
    decreases |items|
  {
    PlusPlus(t, [], []);
    if items == [] {
      assert ReadsAll(items, []);
    } else {
      var next := AddItem(t, items[0]);
      ItemExact(t, items[0]);
      UnreadStaysAll(next, items[1..]);
      if !next.unread {
        ItemsExact(next, items[1..]);
        var first :| Reads(items[0], first);
        if rest :| ReadsAll(items[1..], rest) {
          assert ReadsAll(items, first + rest);
        }
      }
      forall refs: seq<DataRef> | ReadsAll(items, refs)
        ensures AddItems(t, items) == Plus(t.(item := AddItems(t, items).item), refs)
      {
        var first, rest :| Reads(items[0], first) && ReadsAll(items[1..], rest) && refs == first + rest;
        PlusPlus(t.(item := AddItems(t, items).item), first, rest);
      }
    }
  }

  /** The last item of a data extent among them. */
  ghost predicate LastData(items: seq<RawItem>, k: nat) {
    k < |items| && IsData(items[k]) && forall j :: k < j < |items| ==> !IsData(items[j])
  }

  lemma {:induction false} NoLastItem(was: Option<ExtentItem>, items: seq<RawItem>)
    requires forall k :: 0 <= k < |items| ==> !IsData(items[k])
    ensures LastItem(was, items) == was
    decreases |items|
  {
    if items == [] {
    } else {
      ItemByFlag(EMPTY.(item := was), items[0]);
      NoLastItem(was, items[1..]);
    }
  }

  lemma {:induction false} LastItemIs(was: Option<ExtentItem>, items: seq<RawItem>, k: nat)
    requires LastData(items, k)
    ensures LastItem(was, items) == Some(FieldsOf(items[k]))
    decreases |items|
  {
    var next := AddItem(EMPTY.(item := was), items[0]).item;
    ItemByFlag(EMPTY.(item := was), items[0]);
    if k == 0 {
      NoLastItem(next, items[1..]);
    } else {
      LastItemIs(next, items[1..], k - 1);
    }
  }

  lemma {:induction false} SomeLastData(items: seq<RawItem>, i: nat) returns (k: nat)
    requires i < |items| && IsData(items[i])
    ensures LastData(items, k)
    decreases |items| - i
  {
    if j :| i < j < |items| && IsData(items[j]) {
      k := SomeLastData(items, j);
    } else {
      k := i;
    }
  }

  /** What is made of an extent's items: nothing unless one is of a data extent; then what
      the last such says, and the files named, all of them, exactly if every item can be
      read and they add up to its count. */
  lemma FinishExactly(items: seq<RawItem>, item: ExtentItem, backrefs: Backrefs)
    ensures Finish(AddItems(EMPTY, items)) == Some((item, backrefs)) <==>
      && (exists k: nat :: LastData(items, k) && item == FieldsOf(items[k]))
      && forall refs :: backrefs == Files(refs) <==> ReadsAll(items, refs) && Sum(refs) == item.refs
  {
    if i :| 0 <= i < |items| && IsData(items[i]) {
      var k := SomeLastData(items, i);
      FinishOf(items, k, item, backrefs);
      forall j: nat | LastData(items, j)
        ensures j == k
      {
      }
    } else {
      UnreadStaysAll(EMPTY, items);
      NoLastItem(None, items);
    }
  }

  lemma FinishOf(items: seq<RawItem>, k: nat, item: ExtentItem, backrefs: Backrefs)
    requires LastData(items, k)
    ensures Finish(AddItems(EMPTY, items)) == Some((item, backrefs)) <==>
      && item == FieldsOf(items[k])
      && forall refs :: backrefs == Files(refs) <==> ReadsAll(items, refs) && Sum(refs) == item.refs
  {
    UnreadStaysAll(EMPTY, items);
    LastItemIs(None, items, k);
    NamedExactly(items, backrefs);
  }

  lemma NamedExactly(items: seq<RawItem>, backrefs: Backrefs)
    requires AddItems(EMPTY, items).item.Some?
    ensures var item := AddItems(EMPTY, items).item.value;
      Finish(AddItems(EMPTY, items)) == Some((item, backrefs)) <==>
      forall refs :: backrefs == Files(refs) <==> ReadsAll(items, refs) && Sum(refs) == item.refs
  {
    var item := AddItems(EMPTY, items).item.value;
    forall refs
      ensures Finish(AddItems(EMPTY, items)) == Some((item, Files(refs))) <==>
        ReadsAll(items, refs) && Sum(refs) == item.refs
    {
      HoldersNamedExactly(items, refs);
    }
    if backrefs.Files? {
      assert backrefs == Files(backrefs.dataRefs);
    }
  }

  lemma FinishNames(t: Account, refs: seq<DataRef>)
    requires t.item.Some?
    ensures Finish(t) == Some((t.item.value, Files(refs))) <==>
      !t.unread && t.dataRefs == refs && t.counted == t.item.value.refs
  {
  }

  /** References read in full are all that an account has, counted up. */
  lemma ReadIsAll(items: seq<RawItem>, refs: seq<DataRef>)
    requires ReadsAll(items, refs)
    ensures var t := AddItems(EMPTY, items);
      t.item.Some? && !t.unread ==> t.dataRefs == refs && t.counted == Sum(refs)
  {
    ItemsExact(EMPTY, items);
    assert [] + refs == refs;
  }

  /** The extent's holders are named exactly if every item was read in full and
      the counts add up to the extent's total; then they are all there, in order.
      Anything else is `Unreadable`, and never a partial list. */
  lemma HoldersNamedExactly(items: seq<RawItem>, refs: seq<DataRef>)
    ensures var t := AddItems(EMPTY, items);
      t.item.Some? ==>
        (Finish(t) == Some((t.item.value, Files(refs)))
         <==> ReadsAll(items, refs) && Sum(refs) == t.item.value.refs)
    ensures var t := AddItems(EMPTY, items);
      t.item.Some? && Finish(t) != Some((t.item.value, Files(t.dataRefs))) ==>
        Finish(t) == Some((t.item.value, Unreadable))
  {
    var t := AddItems(EMPTY, items);
    ItemsExact(EMPTY, items);
    if t.item.Some? {
      FinishNames(t, refs);
    }
    if t.item.Some? && !t.unread {
      var all :| ReadsAll(items, all);
      ReadIsAll(items, all);
      if ReadsAll(items, refs) {
        ReadIsAll(items, refs);
      }
    }
  }

  predicate AllKeyedFit(keyed: seq<DataRef>) {
    forall i :: 0 <= i < |keyed| ==> Fits(keyed[i])
  }

  /** References stored each as an item of its own. */
  function StoredKeyed(keyed: seq<DataRef>): seq<RawItem>
    requires AllKeyedFit(keyed)
  {
    if keyed == [] then []
    else
      assert Fits(keyed[0]);
      [RawItem(178, 0, EncodeDataRef(keyed[0]))] + StoredKeyed(keyed[1..])
  }

  function StoredItem(item: ExtentItem, entries: seq<Inline>): RawItem
    requires AllFit(entries)
  {
    RawItem(168, item.diskBytes,
            WriteLE(item.refs, LONG) + WriteLE(item.generation, LONG) + WriteLE(1, LONG) + EncodeInline(entries))
  }

  /** How the kernel stores an extent's references: some inline in the extent
      item, the rest each as an item of its own. */
  function Stored(item: ExtentItem, entries: seq<Inline>, keyed: seq<DataRef>): seq<RawItem>
    requires AllFit(entries) && AllKeyedFit(keyed)
  {
    [StoredItem(item, entries)] + StoredKeyed(keyed)
  }

  lemma OneKeyedRead(r: DataRef)
    requires Fits(r)
    ensures Reads(RawItem(EXTENT_DATA_REF_KEY, 0, EncodeDataRef(r)), [r])
  {
    DecodeEncode(r, []);
    assert EncodeDataRef(r) + [] == EncodeDataRef(r);
  }

  lemma {:induction false} KeyedRead(keyed: seq<DataRef>)
    requires AllKeyedFit(keyed)
    ensures ReadsAll(StoredKeyed(keyed), keyed)
  {
    if keyed == [] {
      assert StoredKeyed(keyed) == [];
    } else {
      KeyedRead(keyed[1..]);
      OneKeyedRead(keyed[0]);
      assert StoredKeyed(keyed)[1..] == StoredKeyed(keyed[1..]) && keyed == [keyed[0]] + keyed[1..];
    }
  }

  lemma {:induction false} KeyedNoItem(keyed: seq<DataRef>, was: Option<ExtentItem>)
    requires AllKeyedFit(keyed)
    ensures LastItem(was, StoredKeyed(keyed)) == was
  {
    if keyed == [] {
      assert StoredKeyed(keyed) == [];
    } else {
      KeyedNoItem(keyed[1..], was);
      assert StoredKeyed(keyed)[1..] == StoredKeyed(keyed[1..]);
    }
  }

  lemma FourParts(a: seq<Byte>, b: seq<Byte>, c: seq<Byte>, d: seq<Byte>)
    requires |a| == |b| == |c| == 8
    ensures var all := a + b + c + d;
      all[0..8] == a && all[8..16] == b && all[16..24] == c && all[24..] == d
  {
  }

  /** What is stored of an extent item can be read back field by field. */
  lemma StoredFields(item: ExtentItem, entries: seq<Inline>)
    requires AllFit(entries) && item.refs < Power256(LONG) && item.generation < Power256(LONG)
    ensures var body := StoredItem(item, entries).body;
      && EXTENT_ITEM_SIZE <= |body| && body[EXTENT_ITEM_SIZE..] == EncodeInline(entries)
      && Field(body, 0, LONG) == item.refs && Field(body, 8, LONG) == item.generation
      && Field(body, 16, LONG) == EXTENT_FLAG_DATA
  {
    FourParts(WriteLE(item.refs, LONG), WriteLE(item.generation, LONG), WriteLE(EXTENT_FLAG_DATA, LONG),
              EncodeInline(entries));
    ReadWrite(item.refs, LONG);
    ReadWrite(item.generation, LONG);
    FlagRead();
  }

  lemma ItemRead(item: ExtentItem, entries: seq<Inline>)
    requires AllFit(entries) && item.refs < Power256(LONG) && item.generation < Power256(LONG)
    ensures Reads(StoredItem(item, entries), RefsIn(entries))
    ensures AddItem(EMPTY, StoredItem(item, entries)).item == Some(item)
  {
    var body := StoredItem(item, entries).body;
    StoredFields(item, entries);
    assert HoldsInline(body[EXTENT_ITEM_SIZE..], RefsIn(entries));
    UnreadStays(EMPTY.(item := Some(item)), body[EXTENT_ITEM_SIZE..]);
  }

  lemma FlagRead()
    ensures ReadLE(WriteLE(EXTENT_FLAG_DATA, LONG)) == EXTENT_FLAG_DATA
  {
    assert EXTENT_FLAG_DATA < Power256(1) <= Power256(LONG) by { assert Power256(0) == 1; }
    ReadWrite(EXTENT_FLAG_DATA, LONG);
  }

  /** Decoding undoes encoding: what comes back is what was stored, in order, if
      it adds up to the extent's total, and nothing if it does not. */
  lemma DecodingUndoesEncoding(item: ExtentItem, entries: seq<Inline>, keyed: seq<DataRef>)
    requires AllFit(entries) && AllKeyedFit(keyed)
    requires item.refs < Power256(LONG) && item.generation < Power256(LONG)
    ensures var refs := RefsIn(entries) + keyed;
      Finish(AddItems(EMPTY, Stored(item, entries, keyed)))
      == Some((item, if Sum(refs) == item.refs then Files(refs) else Unreadable))
  {
    var items, refs := Stored(item, entries, keyed), RefsIn(entries) + keyed;
    ItemRead(item, entries);
    KeyedRead(keyed);
    KeyedNoItem(keyed, Some(item));
    assert items[0] == StoredItem(item, entries) && items[1..] == StoredKeyed(keyed);
    assert ReadsAll(items, refs);
    UnreadStaysAll(EMPTY, items);
    HoldersNamedExactly(items, refs);
    var t := AddItems(EMPTY, items);
    assert t.item == Some(item);
    ItemsExact(EMPTY, items);
    assert t == Plus(EMPTY.(item := t.item), refs);
    assert [] + refs == refs;
  }
}
