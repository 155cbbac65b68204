/** Walking the extent tree and resolving what it holds, batch by batch. */
module Walk {
  import opened Wrappers
  import opened Words
  import opened Extents
  import opened Search
  import opened Tallies
  import opened Batches
  import Completeness
  import Cow
  import R = References
  import Resolve
  import Remembering

  /** What a walk hands over: an extent, an address whose references it could not find,
      or the error it broke off with. */
  datatype Discovery = Found(extent: Extent) | Unclear(address: nat, fault: Fault) | Broken(fault: Fault)

  /** The trees as they were when an extent was resolved, what was remembered of them, and
      what the last search made for it failed with, if it did. */
  datatype Moment = Moment(st: Cow.State, remembered: map<nat, nat>, reliable: bool, failed: Option<Fault>)

  /** What is handed over for an extent read from the extent tree, as the trees were
      when it was resolved. */
  ghost predicate Told(d: Discovery, u: Unresolved, m: Moment) {
    match d
    case Found(extent) =>
      && m.failed == None
      && extent.Valid() && extent.diskAddress == u.address && extent.diskBytes == u.item.diskBytes < TWO64
      && Resolve.AllReal(m.st, u.address, u.item.diskBytes, extent.refs)
      && Resolve.Given(extent.refs, m.st, u.address, u.item.diskBytes, u.backrefs, m.remembered, m.reliable)
      && (Resolve.Dependable(m.st, u.address, u.item.diskBytes, u.backrefs, m.remembered) ==>
            && multiset(extent.refs) == multiset(R.EveryRef(m.st, u.address))
            && Measures(extent, R.EveryRef(m.st, u.address)))
    case Unclear(address, fault) =>
      && address == u.address && Resolve.Blames<Extent>(m.failed, Err(fault))
      && !(m.reliable && Resolve.Passes(m.st, address, u.item.diskBytes, u.backrefs, m.remembered))
      && !(m.reliable && R.Agree(m.st, address, u.item.diskBytes) && Resolve.Fits(m.st, address)
           && R.EveryRef(m.st, address) != {})
      && (fault == Fatal ==> !m.reliable)
      && (m.reliable && R.EveryRef(m.st, address) == {} ==> fault == ChangedSince)
      && (fault == ChangedSince && R.Agree(m.st, address, u.item.diskBytes) ==> R.EveryRef(m.st, address) == {})
    case Broken(_) => false
  }

  ghost predicate AllTold(ds: seq<Discovery>, us: seq<Unresolved>, ms: seq<Moment>) {
    |ds| == |us| == |ms| && forall i :: 0 <= i < |ds| ==> Told(ds[i], us[i], ms[i])
  }

  /** The turn a walk starts at, and what the subvolumes' trees are at each. */
  datatype Origin = Origin(script: nat -> Cow.State, turn: nat, reliable: bool)

  ghost function OriginOf(trees: Resolve.Trees): Origin
    reads trees
  {
    Origin(trees.script, trees.turn, trees.reliable)
  }

  /** Each moment is the next turn. */
  ghost predicate Course(ms: seq<Moment>, o: Origin) {
    forall i :: 0 <= i < |ms| ==> ms[i].reliable == o.reliable && ms[i].st == o.script(o.turn + 1 + i)
  }

  ghost function After(ms: seq<Moment>, o: Origin): Origin {
    o.(turn := o.turn + |ms|)
  }

  /** What is remembered at a moment was read at the moments before it, since `map[]`. */
  ghost predicate Remembers(ms: seq<Moment>) {
    forall i :: 0 <= i < |ms| ==> RemembersAt(ms, i)
  }

  ghost predicate RemembersAt(ms: seq<Moment>, i: nat)
    requires i < |ms|
  {
    ms[i].remembered == map[] || (0 < i && Learns(ms[i - 1], ms[i].remembered))
  }

  ghost predicate Learns(m: Moment, later: map<nat, nat>) {
    Resolve.Learnt(m.remembered, later, m.st)
  }

  /** What is remembered after these moments. */
  ghost predicate Memory(ms: seq<Moment>, now: map<nat, nat>) {
    Remembers(ms) && if ms == [] then now == map[] else Learns(ms[|ms| - 1], now)
  }

  lemma CourseJoin(ms: seq<Moment>, o: Origin, more: seq<Moment>)
    requires Course(ms, o) && Course(more, After(ms, o))
    ensures Course(ms + more, o) && After(ms + more, o) == After(more, After(ms, o))
  {
  }

  lemma RemembersJoin(ms: seq<Moment>, more: seq<Moment>)
    requires Remembers(ms) && Remembers(more)
    ensures Remembers(ms + more)
  {
    var all := ms + more;
    forall i | 0 <= i < |all|
      ensures RemembersAt(all, i)
    {
      if i < |ms| {
        assert RemembersAt(ms, i);
      } else {
        assert RemembersAt(more, i - |ms|);
      }
    }
  }

  /** The moments of a walk, one a turn. */
  ghost predicate Tracks(ms: seq<Moment>, o: Origin) {
    Course(ms, o) && Remembers(ms)
  }

  lemma TracksJoin(ms: seq<Moment>, o: Origin, more: seq<Moment>)
    requires Tracks(ms, o) && Tracks(more, After(ms, o))
    ensures Tracks(ms + more, o) && After(ms + more, o) == After(more, After(ms, o))
  {
    CourseJoin(ms, o, more);
    RemembersJoin(ms, more);
  }

  lemma RememberNext(ms: seq<Moment>, m: Moment, now: map<nat, nat>)
    requires Memory(ms, m.remembered) && Learns(m, now)
    ensures Memory(ms + [m], now)
  {
    var all := ms + [m];
    forall i | 0 <= i < |all|
      ensures RemembersAt(all, i)
    {
      if i < |ms| {
        assert RemembersAt(ms, i);
      } else if 0 < i {
        assert all[i - 1] == ms[i - 1] && all[i] == m;
      }
    }
  }

  /** Resolves one extent, as the trees are by the next turn. */
  method ResolveOne(trees: Resolve.Trees, u: Unresolved) returns (d: Discovery, ghost m: Moment)
    modifies trees
    ensures Told(d, u, m)
    ensures Course([m], old(OriginOf(trees))) && OriginOf(trees) == After([m], old(OriginOf(trees)))
    ensures m.failed == trees.failed && m.remembered == old(trees.lastSnapshots) && Learns(m, trees.lastSnapshots)
  {
    trees.Elapse();
    m := Moment(trees.st, trees.lastSnapshots, trees.reliable, None);
    var refs := trees.Resolve(u.address, u.item, u.backrefs);
    m := m.(failed := trees.failed);
    match refs {
      case Err(fault) =>
        d := Unclear(u.address, fault);
      case Ok(found) =>
        var extent := Resolve.ExtentOf(trees.st, u.address, u.item.diskBytes, found);
        if Resolve.Dependable(m.st, u.address, u.item.diskBytes, u.backrefs, m.remembered) {
          Resolve.ResolvedMeasures(m.st, u.address, u.item.diskBytes, extent);
        }
        d := Found(extent);
    }
  }

  /** Resolves a batch, in the order it was read, remembering nothing from before it. */
  method ResolveBatch(trees: Resolve.Trees, us: seq<Unresolved>) returns (ds: seq<Discovery>, ghost ms: seq<Moment>)
    requires trees.lastSnapshots == map[]
    modifies trees
    ensures AllTold(ds, us, ms) && Tracks(ms, old(OriginOf(trees)))
    ensures OriginOf(trees) == After(ms, old(OriginOf(trees)))
  {
    ds, ms := [], [];
    ghost var o := OriginOf(trees);
    for i := 0 to |us|
      invariant AllTold(ds, us[..i], ms) && Course(ms, o) && OriginOf(trees) == After(ms, o)
      invariant Memory(ms, trees.lastSnapshots)
    {
      var d;
      ghost var m;
      d, m := ResolveOne(trees, us[i]);
      assert us[..i + 1] == us[..i] + [us[i]];
      CourseJoin(ms, o, [m]);
      RememberNext(ms, m, trees.lastSnapshots);
      ds, ms := ds + [d], ms + [m];
    }
    assert us[..|us|] == us;
  }

  // ----- What an extent handed over is worth -----

  /** What happens to the trees from turn to turn. */
  ghost predicate Unfolds(o: Origin, steps: nat -> seq<Cow.Step>) {
    forall n: nat :: o.script(n + 1) == Cow.Run(o.script(n), steps(n))
  }

  /** No subvolume remembered at moment `k` was snapshotted since its last snapshot was read. */
  ghost predicate Undisturbed(ms: seq<Moment>, o: Origin, steps: nat -> seq<Cow.Step>, k: nat)
    requires k < |ms|
  {
    forall root :: root in ms[k].remembered ==> Untouched(ms, o, steps, k, root)
  }

  ghost predicate Untouched(ms: seq<Moment>, o: Origin, steps: nat -> seq<Cow.Step>, k: nat, root: nat)
    requires k < |ms|
  {
    && Remembering.NoneResnapshots(steps(o.turn + k), root)
    && (0 < k && root in ms[k - 1].remembered ==> Untouched(ms, o, steps, k - 1, root))
  }

  /** What was true of a subvolume's last snapshot is still, if it was not snapshotted. */
  lemma StillTrue(st: Cow.State, now: Cow.State, steps: seq<Cow.Step>, root: nat, generation: nat)
    requires now == Cow.Run(st, steps) && Remembering.NoneResnapshots(steps, root)
    requires root in st.subvolumes ==> st.subvolumes[root].lastSnapshot == generation
    ensures root in now.subvolumes ==> now.subvolumes[root].lastSnapshot == generation
  {
    if root in now.subvolumes {
      if root in st.subvolumes {
        Remembering.StaysCurrent(st, steps, root);
      } else {
        Remembering.GoneStaysGone(st, steps, root);
      }
    }
  }

  lemma {:induction false} RememberedTrue(ms: seq<Moment>, o: Origin, steps: nat -> seq<Cow.Step>, k: nat, root: nat)
    requires Course(ms, o) && Unfolds(o, steps) && Remembers(ms)
    requires k < |ms| && root in ms[k].remembered && Untouched(ms, o, steps, k, root)
    ensures root in ms[k].st.subvolumes ==> ms[k].remembered[root] == ms[k].st.subvolumes[root].lastSnapshot
  {
    assert RemembersAt(ms, k);
    if root in ms[k - 1].remembered {
      RememberedTrue(ms, o, steps, k - 1, root);
    }
    StillTrue(ms[k - 1].st, ms[k].st, steps(o.turn + k), root, ms[k].remembered[root]);
  }

  /** At a moment when nothing remembered was disturbed, an extent whose list is true is
      handed over with every reference in every tree. If searches succeed it is handed over
      wherever there are any, if a lookup can hold them or none is in a leaf as old as a
      snapshot. */
  lemma HandedWhole(ds: seq<Discovery>, us: seq<Unresolved>, ms: seq<Moment>, o: Origin, steps: nat -> seq<Cow.Step>,
                    k: nat)
    requires AllTold(ds, us, ms) && Tracks(ms, o)
    requires Unfolds(o, steps) && k < |ds| && Undisturbed(ms, o, steps, k)
    requires R.Agree(ms[k].st, us[k].address, us[k].item.diskBytes)
    requires us[k].backrefs.Files? ==> Completeness.CountsAll(ms[k].st, us[k].address, us[k].backrefs.dataRefs)
    ensures ds[k].Found? ==>
      ds[k].extent.diskAddress == us[k].address
      && multiset(ds[k].extent.refs) == multiset(R.EveryRef(ms[k].st, us[k].address))
      && Measures(ds[k].extent, R.EveryRef(ms[k].st, us[k].address))
    ensures o.reliable && Resolve.Fits(ms[k].st, us[k].address) && R.EveryRef(ms[k].st, us[k].address) != {} ==>
      ds[k].Found?
    ensures o.reliable && Resolve.NamesNewer(ms[k].st, us[k].address, us[k].item.diskBytes, us[k].backrefs) ==>
      ds[k].Found?
  {
    assert Told(ds[k], us[k], ms[k]);
    forall root | root in ms[k].remembered && root in ms[k].st.subvolumes
      ensures ms[k].remembered[root] == ms[k].st.subvolumes[root].lastSnapshot
    {
      RememberedTrue(ms, o, steps, k, root);
    }
    if Resolve.NamesNewer(ms[k].st, us[k].address, us[k].item.diskBytes, us[k].backrefs) {
      Resolve.NewerPasses(ms[k].st, us[k].address, us[k].item.diskBytes, us[k].backrefs, ms[k].remembered);
    }
  }

  lemma ToldJoin(ds: seq<Discovery>, us: seq<Unresolved>, ms: seq<Moment>,
                 more: seq<Discovery>, others: seq<Unresolved>, later: seq<Moment>)
    requires AllTold(ds, us, ms) && AllTold(more, others, later)
    ensures AllTold(ds + more, us + others, ms + later)
  {
    var d, u, m := ds + more, us + others, ms + later;
    forall i | 0 <= i < |d|
      ensures Told(d[i], u[i], m[i])
    {
      if i < |ds| {
        assert d[i] == ds[i] && u[i] == us[i] && m[i] == ms[i];
      } else {
        var j := i - |ds|;
        assert d[i] == more[j] && u[i] == others[j] && m[i] == later[j];
      }
    }
  }

  lemma BatchesJoin(seen: seq<seq<TreeItem>>, more: seq<seq<TreeItem>>, generation: nat, mid: nat, end: nat,
                    out: seq<Unresolved>, batch: seq<Unresolved>)
    requires BatchRight(seen, generation, 0, mid, out) && BatchRight(more, generation, mid, end, batch) && mid <= end
    ensures BatchRight(seen + more, generation, 0, end, out + batch)
  {
    var all := out + batch;
    assert forall u :: u in all <==> u in out || u in batch;
    forall u: Unresolved, items | u.address < end && AgreeAt(seen + more, u.address, items)
      ensures u in all <==> Recorded(items, generation, u)
    {
      assert AgreeAt(seen, u.address, items) by { assert forall t :: t in seen ==> t in seen + more; }
      assert AgreeAt(more, u.address, items) by { assert forall t :: t in more ==> t in seen + more; }
    }
  }

  /** Where a walk stands: its fields, and those of the trees it reads, as a value. */
  datatype Stand = Stand(next: Option<nat>, batch: seq<Discovery>, start: nat, reached: nat, read: seq<Unresolved>,
                         moments: seq<Moment>, handed: seq<Discovery>, failed: bool, seen: seq<seq<TreeItem>>,
                         valid: bool, turn: nat)

  /** The walk over every data extent, in address order. */
  class ExtentWalk {
    const tree: Tree
    const trees: Resolve.Trees
    /** No extent newer than this is handed over. */
    const generation: nat
    /** The address to fetch from next, if the tree goes on. */
    var next: Option<nat>
    /** What is resolved and yet to be handed over. */
    var batch: seq<Discovery>

    /** The subvolumes' trees when the walk starts. */
    ghost const origin: Origin
    ghost var start: nat
    ghost var reached: nat
    ghost var read: seq<Unresolved>
    ghost var moments: seq<Moment>
    ghost var handed: seq<Discovery>
    ghost var failed: bool

    ghost function Now(): Stand
      reads this, tree, trees
    {
      Stand(next, batch, start, reached, read, moments, handed, failed, tree.seen, tree.Valid(), trees.turn)
    }

    ghost predicate Sound(w: Stand) {
      && Tracks(w.moments, origin) && OriginAt(w.turn) == After(w.moments, origin)
      && w.valid && w.start <= |w.seen| && (w.failed ==> !tree.reliable)
      && (w.next.Some? ==> w.next.value <= MAX64)
      && (if w.failed then w.next == None && w.batch == [] && w.reached <= MAX64 else w.reached == Frontier(w.next))
      && BatchRight(w.seen[w.start..], generation, 0, w.reached, w.read)
      && Handed(w.handed, w.batch, w.failed, w.read, w.moments)
    }

    ghost function OriginAt(turn: nat): Origin {
      Origin(trees.script, turn, trees.reliable)
    }

    ghost predicate Valid()
      reads this, tree, trees
    {
      Sound(Now())
    }

    constructor (tree: Tree, trees: Resolve.Trees, generation: nat)
      requires tree.Valid()
      ensures Valid() && this.tree == tree && this.trees == trees && this.generation == generation
      ensures handed == [] && !failed && start == |tree.seen| && origin == OriginOf(trees)
    {
      origin := OriginOf(trees);
      this.tree, this.trees, this.generation := tree, trees, generation;
      next, batch := Some(0), [];
      start, reached, read, moments, handed, failed := |tree.seen|, 0, [], [], [], false;
    }

    /** Nothing is left to hand over. */
    ghost predicate Ended()
      reads this
    {
      !failed && next == None && batch == []
    }

    /** A walk that ended handed over all of the tree. */
    lemma EndedWalked()
      requires Valid() && Ended()
      ensures Walked(handed, read, moments, tree.seen[start..], generation, origin)
    {
      assert handed + batch == handed;
    }

    /** With searches that succeed nothing handed over ends the run. */
    lemma HandsOverSteadily()
      requires Valid() && tree.reliable && trees.reliable
      ensures forall d :: d in handed ==> !d.Broken? && !(d.Unclear? && d.fault == Fatal)
    {
      forall i | 0 <= i < |handed|
        ensures !handed[i].Broken? && !(handed[i].Unclear? && handed[i].fault == Fatal)
      {
        assert (handed + batch)[i] == handed[i];
        assert Told((handed + batch)[i], read[i], moments[i]);
      }
    }

    /** Resolves a batch just read, and has it ready. */
    method TakeBatch(us: seq<Unresolved>, further: Option<nat>)
      requires tree.Valid() && start <= |tree.seen| && batch == [] && !failed
      requires further.Some? ==> further.value <= MAX64
      requires Tracks(moments, origin) && OriginOf(trees) == After(moments, origin) && trees.lastSnapshots == map[]
      requires BatchRight(tree.seen[start..], generation, 0, Frontier(further), read + us)
      requires AllTold(handed, read, moments)
      modifies this, trees
      ensures Valid() && start == old(start) && handed == old(handed) && next == further && !failed
    {
      var resolved;
      ghost var ms;
      resolved, ms := ResolveBatch(trees, us);
      ToldJoin(handed, read, moments, resolved, us, ms);
      TracksJoin(moments, origin, ms);
      batch, next := resolved, further;
      read, moments, reached := read + us, moments + ms, Frontier(further);
    }

    /** Reads and resolves the next batch. */
    method Fetch() returns (r: Result<(), Fault>)
      requires Valid() && batch == [] && next.Some?
      modifies this, tree, trees
      ensures Valid() && start == old(start) && old(tree.seen) <= tree.seen && !failed == r.Ok?
      ensures handed == old(handed) + if r.Err? then [Broken(r.error)] else []
      ensures r.Err? ==> !tree.reliable && tree.failed == Some(r.error)
      ensures Frontier(old(next)) < Frontier(next)
    {
      ghost var seen := tree.seen;
      var result := ExtentBatch(tree, trees, next.value, generation);
      ghost var more := tree.seen[|seen|..];
      assert tree.seen[start..] == seen[start..] + more;
      assert handed + batch == handed && read + [] == read;
      if result.Err? {
        BatchesJoin(seen[start..], more, generation, reached, reached, read, []);
        next, failed, handed := None, true, handed + [Broken(result.error)];
        return Err(result.error);
      }
      BatchesJoin(seen[start..], more, generation, reached, Frontier(result.value.1), read, result.value.0);
      TakeBatch(result.value.0, result.value.1);
      r := Ok(());
    }

    /** Fetches until something is ready to be handed over, nothing is left, or a search failed. */
    method Prepare() returns (broke: Option<Fault>)
      requires Valid()
      modifies this, tree, trees
      ensures Valid() && start == old(start) && old(tree.seen) <= tree.seen
      ensures handed == old(handed) + if broke.Some? then [Broken(broke.value)] else []
      ensures failed == (old(failed) || broke.Some?) && (broke.Some? ==> !tree.reliable && tree.failed == broke)
      ensures batch == [] ==> next == None
      ensures (next == old(next) && batch == old(batch)) || Frontier(old(next)) < Frontier(next)
      ensures broke.Some? ==> Frontier(old(next)) < Frontier(next)
    {
      while batch == []
        invariant Valid() && start == old(start) && old(tree.seen) <= tree.seen && handed == old(handed)
        invariant failed == old(failed)
        invariant (next == old(next) && batch == old(batch)) || Frontier(old(next)) < Frontier(next)
        decreases MAX64 + 1 - Frontier(next), |batch|
      {
        if next == None {
          return None;
        }
        var fetched := Fetch();
        if fetched.Err? {
          return Some(fetched.error);
        }
      }
      broke := None;
    }

    /** Hands over the first of the batch. */
    method HandOverFirst() returns (d: Discovery)
      requires Valid() && batch != []
      modifies this`batch, this`handed
      ensures Valid() && handed == old(handed) + [d] && |batch| < |old(batch)| && !d.Broken?
      ensures d.Unclear? && d.fault == Fatal ==> !trees.reliable
      ensures d.Found? ==> d.extent.diskBytes < TWO64
    {
      d := batch[0];
      HandOver(handed, batch, read, moments);
      batch, handed := batch[1..], handed + [d];
    }

    /** Hands over the first of the batch, once there is one; nothing if the walk has
        `Ended` or failed. */
    method Next() returns (r: Option<Discovery>)
      requires Valid()
      modifies this, tree, trees
      ensures Valid() && start == old(start) && old(tree.seen) <= tree.seen
      ensures handed == old(handed) + if r.Some? then [r.value] else []
      ensures failed == (old(failed) || (r.Some? && r.value.Broken?))
      ensures r.Some? && r.value.Broken? ==> !tree.reliable && tree.failed == Some(r.value.fault)
      ensures r.Some? && r.value.Unclear? && r.value.fault == Fatal ==> !trees.reliable
      ensures r.None? ==> next == None && batch == []
      ensures r.None? && !failed ==> Ended()
      ensures r.Some? && r.value.Found? ==> r.value.extent.diskBytes < TWO64
      ensures r.Some? ==> Frontier(old(next)) < Frontier(next) || (next == old(next) && |batch| < |old(batch)|)
      ensures Frontier(old(next)) <= Frontier(next)
    {
      var broke := Prepare();
      if broke.Some? {
        return Some(Broken(broke.value));
      }
      if batch == [] {
        return None;
      }
      var d := HandOverFirst();
      r := Some(d);
    }
  }

  /** What was handed over and what is yet to be is what was told of all that was
      read; after a failure there is the error besides. */
  ghost predicate Handed(handed: seq<Discovery>, batch: seq<Discovery>, failed: bool, read: seq<Unresolved>,
                         moments: seq<Moment>)
  {
    if failed then
      handed != [] && handed[|handed| - 1].Broken? && AllTold(handed[..|handed| - 1], read, moments)
    else
      AllTold(handed + batch, read, moments)
  }

  lemma NotBroken(handed: seq<Discovery>, batch: seq<Discovery>, read: seq<Unresolved>, moments: seq<Moment>)
    requires AllTold(handed + batch, read, moments) && batch != []
    ensures !batch[0].Broken? && (batch[0].Found? ==> batch[0].extent.diskBytes < TWO64)
    ensures batch[0].Unclear? && batch[0].fault == Fatal ==> !moments[|handed|].reliable
  {
    assert (handed + batch)[|handed|] == batch[0];
    assert Told((handed + batch)[|handed|], read[|handed|], moments[|handed|]);
  }

  /** Handing over the first of a batch leaves what was told as it was. */
  lemma HandOver(handed: seq<Discovery>, batch: seq<Discovery>, read: seq<Unresolved>, moments: seq<Moment>)
    requires Handed(handed, batch, false, read, moments) && batch != []
    ensures Handed(handed + [batch[0]], batch[1..], false, read, moments)
    ensures !batch[0].Broken? && (batch[0].Found? ==> batch[0].extent.diskBytes < TWO64)
    ensures batch[0].Unclear? && batch[0].fault == Fatal ==> |handed| < |moments| && !moments[|handed|].reliable
  {
    NotBroken(handed, batch, read, moments);
    assert handed + batch == (handed + [batch[0]]) + batch[1..];
  }

  /** The extents among what was handed over. */
  function Met(walk: seq<Discovery>): seq<Extent> {
    if walk == [] then []
    else Met(walk[..|walk| - 1]) + if walk[|walk| - 1].Found? then [walk[|walk| - 1].extent] else []
  }

  /** Every extent handed over is one read, at its address. */
  lemma {:induction false} MetRead(ds: seq<Discovery>, us: seq<Unresolved>, ms: seq<Moment>, i: nat)
    requires AllTold(ds, us, ms) && i < |Met(ds)|
    ensures exists j :: 0 <= j < |us| && us[j].address == Met(ds)[i].diskAddress
    decreases |ds|
  {
    var n := |ds| - 1;
    assert Told(ds[n], us[n], ms[n]);
    if i < |Met(ds[..n])| {
      MetRead(ds[..n], us[..n], ms[..n], i);
      var j :| 0 <= j < n && us[..n][j].address == Met(ds[..n])[i].diskAddress;
      assert us[j].address == Met(ds)[i].diskAddress;
    } else {
      assert us[n].address == Met(ds)[i].diskAddress;
    }
  }

  /** Extents are handed over in the order they were read, which is that of their addresses. */
  lemma {:induction false} MetAscends(ds: seq<Discovery>, us: seq<Unresolved>, ms: seq<Moment>)
    requires AllTold(ds, us, ms) && AddressOrder(us)
    ensures AddressesAscend(Met(ds))
    decreases |ds|
  {
    if ds == [] {
      assert Met(ds) == [];
    } else {
      var n := |ds| - 1;
      MetAscends(ds[..n], us[..n], ms[..n]);
      assert Told(ds[n], us[n], ms[n]);
      forall i | 0 <= i < |Met(ds[..n])|
        ensures Met(ds[..n])[i].diskAddress < us[n].address
      {
        MetRead(ds[..n], us[..n], ms[..n], i);
        var j :| 0 <= j < n && us[..n][j].address == Met(ds[..n])[i].diskAddress;
        assert us[j].address < us[n].address;
      }
    }
  }

  lemma {:induction false} MetPrefix(ds: seq<Discovery>, n: nat)
    requires n <= |ds|
    ensures Met(ds[..n]) <= Met(ds)
    decreases |ds|
  {
    if n == |ds| {
      assert ds[..n] == ds;
    } else {
      MetPrefix(ds[..|ds| - 1], n);
      assert ds[..|ds| - 1][..n] == ds[..n];
    }
  }

  /** However far a walk has come, and whether or not it failed. */
  lemma HandedAscends(handed: seq<Discovery>, batch: seq<Discovery>, failed: bool, read: seq<Unresolved>,
                      moments: seq<Moment>)
    requires Handed(handed, batch, failed, read, moments) && AddressOrder(read)
    ensures AddressesAscend(Met(handed))
  {
    if failed {
      MetAscends(handed[..|handed| - 1], read, moments);
    } else {
      MetAscends(handed + batch, read, moments);
      MetPrefix(handed + batch, |handed|);
      assert (handed + batch)[..|handed|] == handed;
    }
  }

  /** What a walk that came to the end of the tree handed over: each extent read from
      it, resolved, and those read are all its searches agree on, in address order. */
  ghost predicate Walked(walk: seq<Discovery>, read: seq<Unresolved>, moments: seq<Moment>, seen: seq<seq<TreeItem>>,
                         generation: nat, o: Origin)
  {
    && BatchRight(seen, generation, 0, MAX64 + 1, read) && AllTold(walk, read, moments)
    && Tracks(moments, o)
  }

  /** Has the walk hand over everything it comes upon, until it ends or fails. */
  method HandOverAll(walk: ExtentWalk) returns (out: seq<Discovery>, ok: bool)
    requires walk.Valid() && walk.handed == [] && !walk.failed
    modifies walk, walk.tree, walk.trees
    ensures walk.Valid() && walk.start == old(walk.start) && old(walk.tree.seen) <= walk.tree.seen
    ensures out == walk.handed && ok == !walk.failed && (ok ==> walk.Ended())
    ensures !ok ==> out != [] && walk.tree.failed.Some? && out[|out| - 1] == Broken(walk.tree.failed.value)
    ensures !ok ==> !walk.tree.reliable
  {
    out, ok := [], true;
    while ok
      invariant walk.Valid() && walk.start == old(walk.start) && old(walk.tree.seen) <= walk.tree.seen
      invariant out == walk.handed && ok == !walk.failed && (!ok ==> !walk.tree.reliable)
      invariant !ok ==> out != [] && walk.tree.failed.Some? && out[|out| - 1] == Broken(walk.tree.failed.value)
      decreases ok, MAX64 + 1 - Frontier(walk.next), |walk.batch|
    {
      var r := walk.Next();
      if r.None? {
        break;
      }
      out, ok := out + [r.value], !r.value.Broken?;
    }
  }

  /** Runs a whole walk. It ends, whatever the trees do; and if no search failed,
      what it handed over is in address order, leaves out everything newer than the
      walk, and misses no extent that all its searches agree on. */
  method RunWalk(tree: Tree, trees: Resolve.Trees, generation: nat)
    returns (out: seq<Discovery>, ok: bool, ghost read: seq<Unresolved>, ghost moments: seq<Moment>)
    requires tree.Valid()
    modifies tree, trees
    ensures tree.Valid() && old(tree.seen) <= tree.seen && AddressesAscend(Met(out))
    ensures if ok then Walked(out, read, moments, tree.seen[|old(tree.seen)|..], generation, old(OriginOf(trees)))
            else out != [] && tree.failed.Some? && out[|out| - 1] == Broken(tree.failed.value) && !tree.reliable
  {
    var walk := new ExtentWalk(tree, trees, generation);
    out, ok := HandOverAll(walk);
    read, moments := walk.read, walk.moments;
    HandedAscends(out, walk.batch, walk.failed, read, moments);
    assert out + [] == out;
  }

  /** On a tree that does not change, the walk is the one list there is of every
      data extent no newer than the walk, each with all of its items, in address
      order, wherever the buffer cut each search. */
  lemma WalkExact(tree: seq<TreeItem>, seen: seq<seq<TreeItem>>, generation: nat, out: seq<Unresolved>, u: Unresolved)
    requires BatchRight(seen, generation, 0, MAX64 + 1, out) && forall t :: t in seen ==> t == tree
    requires u.address <= MAX64
    ensures u in out <==> Recorded(ItemsAt(tree, u.address), generation, u)
  {
    assert AgreeAt(seen, u.address, ItemsAt(tree, u.address));
  }

  /** Two walks of the same unchanging tree hand over the same list. */
  lemma {:induction false} WalksAgree(tree: seq<TreeItem>, seen: seq<seq<TreeItem>>, other: seq<seq<TreeItem>>,
      generation: nat, a: seq<Unresolved>, b: seq<Unresolved>)
    requires BatchRight(seen, generation, 0, MAX64 + 1, a) && BatchRight(other, generation, 0, MAX64 + 1, b)
    requires (forall t :: t in seen ==> t == tree) && (forall t :: t in other ==> t == tree)
    ensures a == b
  {
    forall u: Unresolved | u.address <= MAX64
      ensures u in a <==> u in b
    {
      WalkExact(tree, seen, generation, a, u);
      WalkExact(tree, other, generation, b, u);
    }
    SameList(a, b);
  }

  lemma {:induction false} SameList(a: seq<Unresolved>, b: seq<Unresolved>)
    requires AddressOrder(a) && AddressOrder(b)
    requires forall u :: u in a <==> u in b
    ensures a == b
  {
    assert a != [] ==> a[0] in a;
    assert b != [] ==> b[0] in b;
    if a != [] {
      assert a[0] in b && b[0] in a;
      var i :| 0 <= i < |b| && b[i] == a[0];
      var j :| 0 <= j < |a| && a[j] == b[0];
      assert i == 0;
      forall u
        ensures u in a[1..] <==> u in b[1..]
      {
        TailHas(a, u);
        TailHas(b, u);
      }
      SameList(a[1..], b[1..]);
    }
  }

  lemma TailHas(a: seq<Unresolved>, u: Unresolved)
    requires AddressOrder(a) && a != []
    ensures u in a[1..] <==> u in a && u != a[0]
  {
    if u in a[1..] {
      var i :| 0 <= i < |a[1..]| && a[1..][i] == u;
      assert a[i + 1] == u;
    }
  }
}
