/** Finding every reference to an extent, by whichever way can be trusted. */
module Resolve {
  import opened Wrappers
  import opened Words
  import opened Sorting
  import opened Extents
  import opened Cow
  import opened References
  import opened Backreferences
  import opened Completeness
  import T = Tallies

  /** What a backreference lookup has room for at first, and the most it may ask for. */
  const FIRST_LOOKUP: nat := 4096
  const LARGEST_LOOKUP: nat := 16 * 1024 * 1024
  /** The lookup's header, and each triple after it. */
  const LOOKUP_HEADER: nat := 16
  const TRIPLE_SIZE: nat := 24

  /** Room for every triple of the extent. */
  function LookupSize(st: State, address: nat): nat {
    LOOKUP_HEADER + TRIPLE_SIZE * |Triples(st, address)|
  }

  predicate Fits(st: State, address: nat) {
    LookupSize(st, address) <= LARGEST_LOOKUP
  }

  /** `Newer`, but by the generation remembered for the reference's subvolume, where
      there is one. */
  predicate Trusted(remembered: map<nat, nat>, st: State, r: ExtentRef) {
    if r.root in remembered then remembered[r.root] < r.leafGeneration else Newer(st, r)
  }

  /** What is remembered is still so of the subvolumes still there. */
  ghost predicate Current(remembered: map<nat, nat>, st: State) {
    forall root :: root in remembered && root in st.subvolumes ==>
      remembered[root] == st.subvolumes[root].lastSnapshot
  }

  lemma CurrentTrust(remembered: map<nat, nat>, st: State, r: ExtentRef)
    requires Current(remembered, st) && r.root in st.subvolumes
    ensures Trusted(remembered, st, r) <==> Newer(st, r)
  {
  }

  /** The last search or lookup made is to blame for an answer that is `Fatal`; and if it
      failed, the answer is what it failed with. */
  ghost predicate Blames<T>(failed: Option<Fault>, a: Result<T, Fault>) {
    && (failed.Some? ==> a.Err? && a.error == failed.value)
    && (a.Err? && a.error == Fatal ==> failed == Some(Fatal))
  }

  /** The subvolumes' trees, which change from one extent to the next but not while
      one is being resolved. */
  class Trees {
    var st: State
    /** What the trees are at each turn, whatever they are asked. */
    const script: nat -> State
    var turn: nat
    /** Whether searches always succeed. */
    const reliable: bool
    /** The `lastSnapshot`s read so far, by subvolume. */
    var lastSnapshots: map<nat, nat>
    /** What the last search or lookup failed with, if it did. */
    ghost var failed: Option<Fault>

    constructor (script: nat -> State, reliable: bool)
      ensures st == script(0) && this.script == script && this.reliable == reliable
      ensures turn == 0 && lastSnapshots == map[]
    {
      this.st, this.script, this.reliable, turn, lastSnapshots, failed := script(0), script, reliable, 0, map[], None;
    }

    /** Time passes. */
    method Elapse()
      modifies this`st, this`turn
      ensures turn == old(turn) + 1 && st == script(turn)
    {
      turn := turn + 1;
      st := script(turn);
    }

    /** Whether a search comes back with an answer. */
    method Attempt() returns (r: Result<(), Fault>)
      modifies this`failed
      ensures r.Err? ==> r.error != ChangedSince && !reliable
      ensures failed == if r.Err? then Some(r.error) else None
    {
      var fails: bool, fatal: bool := *, *;
      r := if reliable || !fails then Ok(()) else Err(if fatal then Fatal else Other);
      failed := if r.Err? then Some(r.error) else None;
    }

    /** Hands over the references in a stretch of a file, each once. */
    method SearchRefs(root: nat, inode: nat, first: nat, last: nat) returns (a: Result<seq<ExtentRef>, Fault>)
      modifies this`failed
      ensures a.Ok? ==> root in st.subvolumes
      ensures a.Ok? ==> multiset(a.value) == multiset(InStretch(st, root, inode, first, last))
      ensures a.Err? ==> a.error != ChangedSince && !(reliable && root in st.subvolumes)
      ensures a == Err(Fatal) ==> !reliable
      ensures Blames(failed, a)
    {
      var tried := Attempt();
      if tried.Err? {
        return Err(tried.error);
      }
      if root !in st.subvolumes {
        return Err(Other);
      }
      var rest := InStretch(st, root, inode, first, last);
      ghost var all := rest;
      var found := [];
      while rest != {}
        invariant multiset(found) + multiset(rest) == multiset(all)
        decreases rest
      {
        var r :| r in rest;
        rest, found := rest - {r}, found + [r];
      }
      a := Ok(found);
    }

    method DataRefExtents(d: T.DataRef, address: nat, diskBytes: nat) returns (a: Result<seq<ExtentRef>, Fault>)
      modifies this`failed
      ensures a.Ok? ==> d.root in st.subvolumes
      ensures a.Ok? ==> multiset(a.value) == multiset(Belonging(st, address, diskBytes, d))
      ensures a.Err? ==> a.error != ChangedSince && !(reliable && d.root in st.subvolumes)
      ensures a == Err(Fatal) ==> !reliable
      ensures Blames(failed, a)
    {
      var first, last := StretchFor(d.at, diskBytes);
      var found := SearchRefs(d.root, d.inode, first, last);
      if found.Err? {
        return found;
      }
      var refs := Keep(found.value, address, diskBytes, d.at);
      KeptAll(refs, found.value, st, address, diskBytes, d);
      a := Ok(refs);
    }

    method Collect(address: nat, diskBytes: nat, ds: seq<T.DataRef>) returns (a: Result<seq<ExtentRef>, Fault>)
      modifies this`failed
      ensures a.Ok? ==> Gathered(a.value, st, address, diskBytes, ds) && a.value != []
      ensures a.Ok? ==> AllReal(st, address, diskBytes, a.value)
      ensures reliable && AddsUp(st, address, diskBytes, ds) ==>
                if Collected(st, address, diskBytes, ds) == multiset{} then a == Err(ChangedSince) else a.Ok?
      ensures a == Err(Fatal) ==> !reliable
      ensures a == Err(ChangedSince) ==>
        !AddsUp(st, address, diskBytes, ds) || Collected(st, address, diskBytes, ds) == multiset{}
      ensures ds != [] || old(failed) == None ==> Blames(failed, a)
      ensures a.Ok? ==> failed == None
    {
      var refs := [];
      for i := 0 to |ds|
        invariant Gathered(refs, st, address, diskBytes, ds[..i]) && failed == if i == 0 then old(failed) else None
      {
        assert AddsUp(st, address, diskBytes, ds) ==> Matches(st, address, diskBytes, ds[i]);
        var found := DataRefExtents(ds[i], address, diskBytes);
        if found.Err? {
          return found;
        }
        BelongingSize(found.value, st, address, diskBytes, ds[i]);
        if |found.value| != ds[i].count {
          return Err(ChangedSince);
        }
        GatheredNext(refs, found.value, st, address, diskBytes, ds, i);
        refs := refs + found.value;
      }
      assert ds[..|ds|] == ds;
      if refs == [] {
        return Err(ChangedSince);
      }
      GatheredReal(refs, st, address, diskBytes, ds);
      a := Ok(refs);
    }

    /** The generation the subvolume was last snapshotted in, remembered once read. */
    method LastSnapshot(root: nat) returns (a: Result<nat, Fault>)
      modifies this`lastSnapshots, this`failed
      ensures root in old(lastSnapshots) ==> a == Ok(old(lastSnapshots)[root]) && lastSnapshots == old(lastSnapshots)
      ensures root !in old(lastSnapshots) && a.Ok? ==>
                root in st.subvolumes && a.value == st.subvolumes[root].lastSnapshot
                && lastSnapshots == old(lastSnapshots)[root := a.value]
      ensures a.Err? ==> lastSnapshots == old(lastSnapshots) && a.error != ChangedSince
      ensures a.Err? ==> !(reliable && root in st.subvolumes)
      ensures a == Err(Fatal) ==> !reliable
      ensures if root in old(lastSnapshots) then failed == old(failed) else Blames(failed, a)
    {
      if root in lastSnapshots {
        return Ok(lastSnapshots[root]);
      }
      var tried := Attempt();
      if tried.Err? {
        return Err(tried.error);
      }
      if root !in st.subvolumes {
        return Err(Other);
      }
      lastSnapshots := lastSnapshots[root := st.subvolumes[root].lastSnapshot];
      a := Ok(lastSnapshots[root]);
    }

    /** Whether any of the references may be in a leaf another tree shares, going by
        what was remembered on coming in and what is so of the rest. */
    method MayBeShared(refs: seq<ExtentRef>) returns (a: Result<bool, Fault>)
      modifies this`lastSnapshots, this`failed
      ensures Learnt(old(lastSnapshots), lastSnapshots, st)
      ensures a == Ok(false) ==> forall r :: r in refs ==> Trusted(old(lastSnapshots), st, r)
      ensures a == Ok(true) ==> exists r :: r in refs && !Trusted(old(lastSnapshots), st, r)
      ensures a.Err? ==> a.error != ChangedSince
      ensures reliable && (forall r :: r in refs ==> r.root in st.subvolumes) ==> a.Ok?
      ensures a == Err(Fatal) ==> !reliable
      ensures old(failed) == None ==> Blames(failed, a)
    {
      ghost var was := lastSnapshots;
      for i := 0 to |refs|
        invariant Learnt(was, lastSnapshots, st) && (old(failed) == None ==> failed == None)
        invariant forall j :: 0 <= j < i ==> Trusted(was, st, refs[j])
      {
        assert refs[i] in refs;
        var generation := LastSnapshot(refs[i].root);
        if generation.Err? {
          return Err(generation.error);
        }
        if refs[i].leafGeneration <= generation.value {
          assert !Trusted(was, st, refs[i]);
          return Ok(true);
        }
      }
      a := Ok(false);
    }

    /** One backreference lookup with room for `size` bytes: a triple for every file
        extent item that points into the extent, in no order, or how much more room
        they need; an error if there is none. */
    method Lookup(address: nat, size: nat) returns (a: Result<(seq<Triple>, nat), Fault>)
      modifies this`failed
      ensures a.Ok? ==> a.value.1 == if LookupSize(st, address) <= size then 0 else LookupSize(st, address) - size
      ensures a.Ok? && a.value.1 == 0 ==> multiset(a.value.0) == multiset(Triples(st, address))
      ensures EveryRef(st, address) == {} ==> a.Err?
      ensures reliable ==> if EveryRef(st, address) == {} then a == Err(ChangedSince) else a.Ok?
      ensures a == Err(Fatal) ==> !reliable
      ensures a == Err(ChangedSince) ==> EveryRef(st, address) == {}
      ensures Blames(failed, a)
    {
      var tried := Attempt();
      if tried.Err? {
        return Err(tried.error);
      }
      if EveryRef(st, address) == {} {
        return Err(ChangedSince);
      }
      var need := LookupSize(st, address);
      if size < need {
        return Ok(([], need - size));
      }
      var rest := Triples(st, address);
      ghost var all := rest;
      var found := [];
      while rest != {}
        invariant multiset(found) + multiset(rest) == multiset(all)
        decreases rest
      {
        var t :| t in rest;
        rest, found := rest - {t}, found + [t];
      }
      a := Ok((found, 0));
    }

    /** Who holds the extent by the kernel's walk, a `DataRef` for each file. The
        room asked for grows until everything fits, or is more than may be asked for. */
    method LogicalIno(address: nat) returns (a: Result<seq<T.DataRef>, Fault>)
      modifies this`failed
      ensures a.Ok? ==> WalkedTo(st, address, a.value)
      ensures a.Ok? ==> EveryRef(st, address) != {} && Fits(st, address)
      ensures reliable && EveryRef(st, address) == {} ==> a == Err(ChangedSince)
      ensures reliable && EveryRef(st, address) != {} ==> if Fits(st, address) then a.Ok? else a == Err(Other)
      ensures a == Err(Fatal) ==> !reliable
      ensures a == Err(ChangedSince) ==> EveryRef(st, address) == {}
      ensures Blames(failed, a)
    {
      var size := FIRST_LOOKUP;
      while true
        invariant size <= LARGEST_LOOKUP
        decreases LARGEST_LOOKUP - size
      {
        var found := Lookup(address, size);
        if found.Err? {
          return Err(found.error);
        }
        if 0 < found.value.1 {
          size := size + found.value.1;
          if size > LARGEST_LOOKUP {
            return Err(Other);
          }
          continue;
        }
        var triples := SortUnstable(found.value.0, TripleOrder);
        SortedListed(found.value.0, triples, st, address);
        var ds := GroupTriples(triples);
        return Ok(ds);
      }
    }

    method CollectWalked(address: nat, diskBytes: nat) returns (a: Result<seq<ExtentRef>, Fault>)
      modifies this`failed
      ensures a.Ok? && Agree(st, address, diskBytes) ==> multiset(a.value) == multiset(EveryRef(st, address))
      ensures a.Ok? ==> a.value != [] && AllReal(st, address, diskBytes, a.value)
      ensures reliable && Agree(st, address, diskBytes) ==>
                if EveryRef(st, address) == {} then a == Err(ChangedSince)
                else if Fits(st, address) then a.Ok? else a == Err(Other)
      ensures EveryRef(st, address) == {} ==> a.Err?
      ensures reliable && EveryRef(st, address) == {} ==> a == Err(ChangedSince)
      ensures a == Err(Fatal) ==> !reliable
      ensures a == Err(ChangedSince) && Agree(st, address, diskBytes) ==> EveryRef(st, address) == {}
      ensures Blames(failed, a)
    {
      var ds := LogicalIno(address);
      if ds.Err? {
        return Err(ds.error);
      }
      if Agree(st, address, diskBytes) {
        WalkedCollects(st, address, diskBytes, ds.value);
      }
      a := Collect(address, diskBytes, ds.value);
    }

    /** By the list in `backrefs`, if it passes. */
    method CollectNamed(address: nat, diskBytes: nat, backrefs: T.Backrefs)
      returns (a: Result<Option<seq<ExtentRef>>, Fault>)
      modifies this`lastSnapshots, this`failed
      ensures Learnt(old(lastSnapshots), lastSnapshots, st)
      ensures a.Ok? && a.value.Some? ==>
                Passes(st, address, diskBytes, backrefs, old(lastSnapshots))
                && Gathered(a.value.value, st, address, diskBytes, backrefs.dataRefs)
                && a.value.value != [] && AllReal(st, address, diskBytes, a.value.value)
      ensures a.Err? ==> a.error != ChangedSince && !reliable
      ensures reliable && Passes(st, address, diskBytes, backrefs, old(lastSnapshots)) ==> a.Ok? && a.value.Some?
      ensures a.Err? || a.value.Some? ==> Blames(failed, a)
    {
      if backrefs.Unreadable? {
        return Ok(None);
      }
      var found := Collect(address, diskBytes, backrefs.dataRefs);
      if found.Err? {
        return Ok(None);
      }
      ghost var was := lastSnapshots;
      var shared := MayBeShared(found.value);
      if shared.Err? {
        return Err(shared.error);
      }
      WhetherPasses(found.value, st, address, diskBytes, backrefs, was, shared.value);
      a := Ok(if shared.value then None else Some(found.value));
    }

    /** By the list in `backrefs` if it adds up and leads to `Trusted` references only, by
        the kernel's walk otherwise. Whichever it was, the answer is complete if what it
        rests on is `Dependable`. */
    method Resolve(address: nat, item: T.ExtentItem, backrefs: T.Backrefs) returns (a: Result<seq<ExtentRef>, Fault>)
      modifies this`lastSnapshots, this`failed
      ensures Learnt(old(lastSnapshots), lastSnapshots, st)
      ensures a.Ok? && Dependable(st, address, item.diskBytes, backrefs, old(lastSnapshots)) ==>
                multiset(a.value) == multiset(EveryRef(st, address))
      ensures a.Ok? ==> a.value != [] && AllReal(st, address, item.diskBytes, a.value)
      ensures reliable && Agree(st, address, item.diskBytes) && Fits(st, address) && EveryRef(st, address) != {} ==>
        a.Ok?
      ensures a == Err(Fatal) ==> !reliable
      ensures reliable && EveryRef(st, address) == {} ==> a == Err(ChangedSince)
      ensures a == Err(ChangedSince) && Agree(st, address, item.diskBytes) ==> EveryRef(st, address) == {}
      ensures a.Ok? ==> Given(a.value, st, address, item.diskBytes, backrefs, old(lastSnapshots), reliable)
      ensures reliable && Passes(st, address, item.diskBytes, backrefs, old(lastSnapshots)) ==> a.Ok?
      ensures reliable && Agree(st, address, item.diskBytes) && EveryRef(st, address) != {}
              && !Passes(st, address, item.diskBytes, backrefs, old(lastSnapshots)) ==>
                if |Triples(st, address)| <= 699050 then a.Ok? else a == Err(Other)
      ensures Blames(failed, a)
    {
      ghost var was := lastSnapshots;
      var named := CollectNamed(address, item.diskBytes, backrefs);
      if named.Err? {
        return Err(named.error);
      }
      if named.value.Some? {
        if Dependable(st, address, item.diskBytes, backrefs, was) {
          PassingIsComplete(st, address, item.diskBytes, named.value.value, backrefs, was);
        }
        return Ok(named.value.value);
      }
      a := CollectWalked(address, item.diskBytes);
    }

    /** An extent made anew of what the kernel's walk finds now. */
    method ResolveAgain(extent: Extent) returns (a: Result<Extent, Fault>)
      modifies this`failed
      ensures a.Ok? ==> a.value.Valid() && AllReal(st, extent.diskAddress, extent.diskBytes, a.value.refs)
      ensures a.Ok? && HasForest(st, extent.diskAddress) ==>
                multiset(a.value.refs) == multiset(EveryRef(st, extent.diskAddress))
                && Measures(a.value, EveryRef(st, extent.diskAddress))
      ensures a.Ok? ==> a.value.diskAddress == extent.diskAddress && a.value.diskBytes == extent.diskBytes
      ensures reliable && Agree(st, extent.diskAddress, extent.diskBytes) ==>
                if EveryRef(st, extent.diskAddress) == {} then a == Err(ChangedSince)
                else if Fits(st, extent.diskAddress) then a.Ok? else a == Err(Other)
      ensures EveryRef(st, extent.diskAddress) == {} ==> a.Err?
      ensures reliable && EveryRef(st, extent.diskAddress) == {} ==> a == Err(ChangedSince)
      ensures a == Err(Fatal) ==> !reliable
      ensures a == Err(ChangedSince) && Agree(st, extent.diskAddress, extent.diskBytes) ==>
        EveryRef(st, extent.diskAddress) == {}
      ensures Blames(failed, a)
    {
      var refs := CollectWalked(extent.diskAddress, extent.diskBytes);
      if refs.Err? {
        return Err(refs.error);
      }
      if HasForest(st, extent.diskAddress) {
        ForestAgrees(st, extent.diskAddress, extent.diskBytes, refs.value);
      }
      var again := ExtentOf(st, extent.diskAddress, extent.diskBytes, refs.value);
      if HasForest(st, extent.diskAddress) {
        ResolvedMeasures(st, extent.diskAddress, extent.diskBytes, again);
      }
      a := Ok(again);
    }
  }

  /** Where to look for the references an entry stands for. */
  method StretchFor(at: T.RefOffsets, diskBytes: nat) returns (first: nat, last: nat)
    ensures (first, last) == Window(at, diskBytes)
  {
    match at {
      case Base(base) =>
        var uncompressed := if diskBytes < MAX_COMPRESSED_BYTES then MAX_COMPRESSED_BYTES else diskBytes;
        last := (base + (uncompressed - 1)) % TWO64;
        first := if base <= last then base else 0;
      case Between(from, to) =>
        first, last := from, to;
    }
  }

  /** The references to collect among those found. */
  method Keep(found: seq<ExtentRef>, address: nat, diskBytes: nat, at: T.RefOffsets) returns (refs: seq<ExtentRef>)
    ensures Kept(refs, found, address, diskBytes, at)
  {
    refs := [];
    for i := 0 to |found|
      invariant Kept(refs, found[..i], address, diskBytes, at)
    {
      var r := found[i];
      assert found[..i + 1] == found[..i] + [r];
      KeptNext(refs, found[..i], r, address, diskBytes, at);
      if r.diskAddress == address && r.diskBytes == diskBytes && Belongs(at, r) {
        refs := refs + [r];
      }
    }
    assert found[..|found|] == found;
  }

  /** The entries group every triple of the extent. */
  ghost predicate WalkedTo(st: State, address: nat, ds: seq<T.DataRef>) {
    exists all :: Listed(all, st, address) && GroupedBy(ds, all)
  }

  lemma WalkedCollects(st: State, address: nat, diskBytes: nat, ds: seq<T.DataRef>)
    requires Agree(st, address, diskBytes) && WalkedTo(st, address, ds)
    ensures AddsUp(st, address, diskBytes, ds)
    ensures Collected(st, address, diskBytes, ds) == multiset(EveryRef(st, address))
    ensures Collected(st, address, diskBytes, ds) == multiset{} <==> EveryRef(st, address) == {}
  {
    var all :| Listed(all, st, address) && GroupedBy(ds, all);
    WalkCollectsAll(st, address, diskBytes, all, ds);
    if r :| r in EveryRef(st, address) {
      assert r in multiset(EveryRef(st, address));
    }
  }

  /** All of them are there, and of this length. */
  ghost predicate AllReal(st: State, address: nat, diskBytes: nat, refs: seq<ExtentRef>) {
    forall r :: r in refs ==> r in EveryRef(st, address) && r.diskBytes == diskBytes && r.root in st.subvolumes
  }

  lemma GatheredReal(refs: seq<ExtentRef>, st: State, address: nat, diskBytes: nat, ds: seq<T.DataRef>)
    requires Gathered(refs, st, address, diskBytes, ds)
    ensures AllReal(st, address, diskBytes, refs)
  {
    forall r | r in refs
      ensures r in EveryRef(st, address) && r.diskBytes == diskBytes && r.root in st.subvolumes
    {
      assert r in multiset(refs);
      CollectedReal(st, address, diskBytes, ds, r);
    }
  }

  /** More is remembered than was, all of it so. */
  ghost predicate Learnt(was: map<nat, nat>, now: map<nat, nat>, st: State) {
    forall root :: (root in was ==> root in now && now[root] == was[root])
                   && (root in now && root !in was ==>
                         root in st.subvolumes && now[root] == st.subvolumes[root].lastSnapshot)
  }

  /** What can be depended on to name every reference: a true total, or nothing, and
      nothing remembered that is no longer so. */
  ghost predicate Dependable(st: State, address: nat, diskBytes: nat, backrefs: T.Backrefs, remembered: map<nat, nat>) {
    && Agree(st, address, diskBytes)
    && (backrefs.Files? ==> CountsAll(st, address, backrefs.dataRefs) && Current(remembered, st))
  }

  /** The list adds up, and every reference it leads to is in a leaf written after its
      subvolume was last snapshotted, as remembered or, where nothing is, as it is. */
  ghost predicate Passes(st: State, address: nat, diskBytes: nat, backrefs: T.Backrefs, remembered: map<nat, nat>) {
    && backrefs.Files? && AddsUp(st, address, diskBytes, backrefs.dataRefs)
    && Collected(st, address, diskBytes, backrefs.dataRefs) != multiset{}
    && forall r :: r in Collected(st, address, diskBytes, backrefs.dataRefs) ==>
         if r.root in remembered then remembered[r.root] < r.leafGeneration
         else r.root in st.subvolumes && st.subvolumes[r.root].lastSnapshot < r.leafGeneration
  }

  /** The list says how many references there are for each of its bases, and all of them
      are in leaves newer than their subvolumes' last snapshots. */
  ghost predicate NamesNewer(st: State, address: nat, diskBytes: nat, backrefs: T.Backrefs) {
    && backrefs.Files? && AddsUp(st, address, diskBytes, backrefs.dataRefs) && EveryRef(st, address) != {}
    && forall r :: r in EveryRef(st, address) ==> Newer(st, r)
  }

  lemma CollectsAny(st: State, address: nat, diskBytes: nat, ds: seq<T.DataRef>)
    requires CountsAll(st, address, ds) && AddsUp(st, address, diskBytes, ds) && EveryRef(st, address) != {}
    ensures Collected(st, address, diskBytes, ds) != multiset{}
  {
    CollectedCount(st, address, diskBytes, ds);
    var any :| any in EveryRef(st, address);
    PlaceRecorded(st, address, any);
  }

  lemma NewerPasses(st: State, address: nat, diskBytes: nat, backrefs: T.Backrefs, remembered: map<nat, nat>)
    requires Dependable(st, address, diskBytes, backrefs, remembered)
    requires NamesNewer(st, address, diskBytes, backrefs)
    ensures Passes(st, address, diskBytes, backrefs, remembered)
  {
    var ds := backrefs.dataRefs;
    CollectsAny(st, address, diskBytes, ds);
    forall r | r in Collected(st, address, diskBytes, ds)
      ensures r in EveryRef(st, address) && (r.root in remembered ==> remembered[r.root] < r.leafGeneration)
    {
      CollectedOnce(st, address, diskBytes, ds, r);
      assert Newer(st, r);
    }
  }

  /** What the list leads to, if it passes and searches succeed, and everything there is
      otherwise. */
  ghost predicate Given(refs: seq<ExtentRef>, st: State, address: nat, diskBytes: nat, backrefs: T.Backrefs,
                        remembered: map<nat, nat>, reliable: bool) {
    || (Passes(st, address, diskBytes, backrefs, remembered)
        && multiset(refs) == Collected(st, address, diskBytes, backrefs.dataRefs))
    || (!(reliable && Passes(st, address, diskBytes, backrefs, remembered))
        && (Agree(st, address, diskBytes) ==> multiset(refs) == multiset(EveryRef(st, address))))
  }

  lemma WhetherPasses(refs: seq<ExtentRef>, st: State, address: nat, diskBytes: nat, backrefs: T.Backrefs,
                      remembered: map<nat, nat>, shared: bool)
    requires backrefs.Files? && Gathered(refs, st, address, diskBytes, backrefs.dataRefs) && refs != []
    requires shared ==> exists r :: r in refs && !Trusted(remembered, st, r)
    requires !shared ==> forall r :: r in refs ==> Trusted(remembered, st, r)
    ensures Passes(st, address, diskBytes, backrefs, remembered) <==> !shared
  {
    var all := Collected(st, address, diskBytes, backrefs.dataRefs);
    assert refs[0] in multiset(refs);
    if shared {
      var r :| r in refs && !Trusted(remembered, st, r);
      assert r in multiset(refs);
    } else {
      forall r | r in all
        ensures Trusted(remembered, st, r)
      {
        assert r in multiset(refs);
      }
    }
  }

  lemma PassingIsComplete(st: State, address: nat, diskBytes: nat, refs: seq<ExtentRef>, backrefs: T.Backrefs,
                          remembered: map<nat, nat>)
    requires Dependable(st, address, diskBytes, backrefs, remembered)
    requires Passes(st, address, diskBytes, backrefs, remembered)
    requires Gathered(refs, st, address, diskBytes, backrefs.dataRefs)
    ensures multiset(refs) == multiset(EveryRef(st, address))
  {
    GatheredReal(refs, st, address, diskBytes, backrefs.dataRefs);
    forall r | r in refs
      ensures Newer(st, r)
    {
      assert r in multiset(refs);
      CurrentTrust(remembered, st, r);
    }
    ListIsComplete(st, address, diskBytes, refs, backrefs.dataRefs);
  }

  /** The trees agree on the extent's length, whatever it is. */
  ghost predicate HasForest(st: State, address: nat) {
    exists diskBytes: nat :: Agree(st, address, diskBytes)
  }

  /** References of this length are there, so it is the one the trees agree on. */
  lemma ForestAgrees(st: State, address: nat, diskBytes: nat, refs: seq<ExtentRef>)
    requires HasForest(st, address) && refs != [] && AllReal(st, address, diskBytes, refs)
    ensures Agree(st, address, diskBytes)
  {
    var agreed: nat :| Agree(st, address, agreed);
    assert refs[0] in refs;
    RefAgrees(st, address, agreed, refs[0]);
  }

  /** All references there are make the extent the figures they come to. */
  lemma ResolvedMeasures(st: State, address: nat, diskBytes: nat, extent: Extent)
    requires Agree(st, address, diskBytes) && extent.Valid() && multiset(extent.refs) == multiset(EveryRef(st, address))
    ensures Measures(extent, EveryRef(st, address))
  {
    RefsAgree(st, address, diskBytes);
    MeasuresAll(extent, EveryRef(st, address));
  }

  /** The extent real references point into. */
  method ExtentOf(ghost st: State, address: nat, diskBytes: nat, refs: seq<ExtentRef>) returns (extent: Extent)
    requires refs != [] && AllReal(st, address, diskBytes, refs)
    ensures extent.Valid() && extent.refs == refs
    ensures extent.diskAddress == address && extent.diskBytes == diskBytes < TWO64
  {
    forall r | r in refs
      ensures 0 < r.numBytes && r.diskAddress == address && r.diskBytes == diskBytes < TWO64
    {
      RefReal(st, address, r);
    }
    assert refs[0] in refs;
    extent := FromRefs(refs);
  }
}
