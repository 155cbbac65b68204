/** The kernel's backreference walk, and its answer gathered file by file. */
module Backreferences {
  import opened Counting
  import opened Sorting
  import opened Extents
  import opened Cow
  import opened References
  import T = Tallies

  /** What the walk gives for an item: its inode, file offset and subvolume. */
  datatype Triple = Triple(root: nat, inode: nat, offset: nat)

  function TripleOf(r: ExtentRef): Triple { Triple(r.root, r.inode, r.fileOffset) }

  function Triples(st: State, address: nat): set<Triple> {
    set r | r in EveryRef(st, address) :: TripleOf(r)
  }

  predicate TripleOrder(a: Triple, b: Triple) {
    FileOrder(a.root, a.inode, b.root, b.inode) || (SameFileAs(a, b) && a.offset <= b.offset)
  }

  predicate SameFileAs(a: Triple, b: Triple) {
    a.root == b.root && a.inode == b.inode
  }

  predicate SameFileAsRef(d: T.DataRef, t: Triple) {
    d.root == t.root && d.inode == t.inode
  }

  /** `d` stands for exactly these triples, all of one file. */
  ghost predicate Spans(d: T.DataRef, ts: seq<Triple>) {
    && ts != [] && d.count == |ts|
    && d.at == T.Between(ts[0].offset, ts[|ts| - 1].offset)
    && forall i :: 0 <= i < |ts| ==> SameFileAsRef(d, ts[i])
  }

  /** `ds` stand for the triples in order, a `DataRef` for each stretch of one file's. */
  ghost predicate GroupedBy(ds: seq<T.DataRef>, ts: seq<Triple>)
    decreases |ds|
  {
    if ds == [] then ts == []
    else
      var d := ds[|ds| - 1];
      var k := |ts| - d.count;
      && 0 <= k && Spans(d, ts[k..])
      && GroupedBy(ds[..|ds| - 1], ts[..k])
      && (0 < k ==> !SameFileAs(ts[k - 1], ts[k]))
  }

  lemma GroupExtends(ds: seq<T.DataRef>, ts: seq<Triple>, t: Triple)
    requires GroupedBy(ds, ts) && ds != [] && SameFileAsRef(ds[|ds| - 1], t)
    ensures ds[|ds| - 1].at.Between?
    ensures var d := ds[|ds| - 1];
      GroupedBy(ds[|ds| - 1 := d.(at := T.Between(d.at.first, t.offset), count := d.count + 1)], ts + [t])
  {
    var d := ds[|ds| - 1];
    var k := |ts| - d.count;
    var e := d.(at := T.Between(d.at.first, t.offset), count := d.count + 1);
    var grown := ds[|ds| - 1 := e];
    assert grown[..|grown| - 1] == ds[..|ds| - 1];
    assert (ts + [t])[k..] == ts[k..] + [t] && (ts + [t])[..k] == ts[..k];
    assert Spans(e, ts[k..] + [t]);
  }

  lemma GroupOpens(ds: seq<T.DataRef>, ts: seq<Triple>, t: Triple)
    requires GroupedBy(ds, ts) && (ds != [] ==> !SameFileAsRef(ds[|ds| - 1], t))
    ensures GroupedBy(ds + [T.DataRef(t.root, t.inode, T.Between(t.offset, t.offset), 1)], ts + [t])
  {
    var e := T.DataRef(t.root, t.inode, T.Between(t.offset, t.offset), 1);
    assert (ds + [e])[..|ds|] == ds && (ts + [t])[..|ts|] == ts && (ts + [t])[|ts|..] == [t];
    if ds != [] {
      var k := |ts| - ds[|ds| - 1].count;
      assert ts[|ts| - 1] == ts[k..][|ts[k..]| - 1];
    }
  }

  /** The triples of every reference to the extent, each once, in order. */
  ghost predicate Listed(all: seq<Triple>, st: State, address: nat) {
    && (forall i, j :: 0 <= i < j < |all| ==> TripleOrder(all[i], all[j]) && all[i] != all[j])
    && forall t :: t in all <==> t in Triples(st, address)
  }

  lemma SameTripleSame(st: State, address: nat, diskBytes: nat, a: ExtentRef, b: ExtentRef)
    requires Agree(st, address, diskBytes) && a in EveryRef(st, address) && b in EveryRef(st, address)
    requires TripleOf(a) == TripleOf(b)
    ensures a == b
  {
    var root, leaf, item :| InTree(st, root, leaf, item) && item.diskAddress == address
                            && a == RefOf(root, st.leaves[leaf].generation, item);
    var other, twig, that :| InTree(st, other, twig, that) && that.diskAddress == address
                             && b == RefOf(other, st.leaves[twig].generation, that);
    assert leaf == twig && item == that;
  }

  /** Because the triples ascend strictly, a window spanning a run of them holds that
      run's references and nothing else. */
  lemma SliceExact(st: State, address: nat, diskBytes: nat, all: seq<Triple>, k: nat, n: nat, d: T.DataRef,
      r: ExtentRef)
    requires Agree(st, address, diskBytes) && Listed(all, st, address)
    requires k <= n <= |all| && Spans(d, all[k..n]) && r in EveryRef(st, address)
    ensures r in Belonging(st, address, diskBytes, d) <==> TripleOf(r) in all[k..n]
  {
    RefAgrees(st, address, diskBytes, r);
    var t := TripleOf(r);
    assert t in Triples(st, address);
    var i :| 0 <= i < |all| && all[i] == t;
    assert all[k..n][0] == all[k] && all[k..n][n - k - 1] == all[n - 1];
    assert SameFileAsRef(d, all[k]) && SameFileAsRef(d, all[n - 1]);
    if t in all[k..n] {
      var j :| 0 <= j < n - k && all[k..n][j] == t;
      assert all[k + j] == t && SameFileAsRef(d, t);
      assert k < k + j ==> TripleOrder(all[k], t);
      assert k + j < n - 1 ==> TripleOrder(t, all[n - 1]);
    } else {
      assert i < k ==> TripleOrder(t, all[k]) && t != all[k];
      assert n <= i ==> TripleOrder(all[n - 1], t) && t != all[n - 1];
    }
  }

  function TripleMap(refs: set<ExtentRef>): map<ExtentRef, Triple> {
    map r | r in refs :: TripleOf(r)
  }

  ghost predicate TriplesDiffer(refs: set<ExtentRef>) {
    forall a, b :: a in refs && b in refs && TripleOf(a) == TripleOf(b) ==> a == b
  }

  lemma AllDiffer(st: State, address: nat, diskBytes: nat)
    requires Agree(st, address, diskBytes)
    ensures TriplesDiffer(EveryRef(st, address))
  {
    forall a, b | a in EveryRef(st, address) && b in EveryRef(st, address) && TripleOf(a) == TripleOf(b)
      ensures a == b
    {
      SameTripleSame(st, address, diskBytes, a, b);
    }
  }

  lemma TripleMapOneToOne(refs: set<ExtentRef>)
    requires TriplesDiffer(refs)
    ensures |Image(TripleMap(refs))| == |refs|
  {
    var f := TripleMap(refs);
    assert f.Keys == refs;
    ImageSmaller(f);
  }

  lemma SliceHas(st: State, address: nat, diskBytes: nat, all: seq<Triple>, k: nat, n: nat, d: T.DataRef, t: Triple)
    requires Agree(st, address, diskBytes) && Listed(all, st, address)
    requires k <= n <= |all| && Spans(d, all[k..n])
    ensures t in Image(TripleMap(Belonging(st, address, diskBytes, d))) <==> t in all[k..n]
  {
    var f := TripleMap(Belonging(st, address, diskBytes, d));
    if t in Image(f) {
      var r :| r in f && f[r] == t;
      SliceExact(st, address, diskBytes, all, k, n, d, r);
    }
    if t in all[k..n] {
      assert t in all;
      var r :| r in EveryRef(st, address) && TripleOf(r) == t;
      SliceExact(st, address, diskBytes, all, k, n, d, r);
      assert r in f && f[r] == t;
    }
  }

  lemma BelongingAll(st: State, address: nat, diskBytes: nat, d: T.DataRef)
    ensures Belonging(st, address, diskBytes, d) <= EveryRef(st, address)
  {
  }

  lemma SliceCount(st: State, address: nat, diskBytes: nat, all: seq<Triple>, k: nat, n: nat, d: T.DataRef)
    requires Agree(st, address, diskBytes) && Listed(all, st, address)
    requires k <= n <= |all| && Spans(d, all[k..n])
    ensures |Belonging(st, address, diskBytes, d)| == d.count
  {
    var belonging := Belonging(st, address, diskBytes, d);
    BelongingAll(st, address, diskBytes, d);
    AllDiffer(st, address, diskBytes);
    TripleMapOneToOne(belonging);
    forall t
      ensures t in Image(TripleMap(belonging)) <==> t in all[k..n]
    {
      SliceHas(st, address, diskBytes, all, k, n, d, t);
    }
    DistinctCount(all[k..n], Image(TripleMap(belonging)));
  }

  lemma {:induction false} DistinctCount<A>(s: seq<A>, elements: set<A>)
    requires forall i, j :: 0 <= i < j < |s| ==> s[i] != s[j]
    requires forall a :: a in elements <==> a in s
    ensures |elements| == |s|
  {
    if s != [] {
      var init, last := s[..|s| - 1], s[|s| - 1];
      assert s == init + [last] && last !in init;
      DistinctCount(init, elements - {last});
    } else {
      assert elements == {};
    }
  }

  /** Collecting by `ds` finds each reference whose triple is in `ts`, once, and no others. */
  ghost predicate CollectsExactly(st: State, address: nat, diskBytes: nat, ds: seq<T.DataRef>, ts: seq<Triple>) {
    forall r :: Collected(st, address, diskBytes, ds)[r] ==
      if r in EveryRef(st, address) && TripleOf(r) in ts then 1 else 0
  }

  lemma CollectedStep(st: State, address: nat, diskBytes: nat, all: seq<Triple>, k: nat, n: nat,
                      ds: seq<T.DataRef>, d: T.DataRef)
    requires Agree(st, address, diskBytes) && Listed(all, st, address)
    requires k <= n <= |all| && Spans(d, all[k..n])
    requires CollectsExactly(st, address, diskBytes, ds, all[..k])
    ensures CollectsExactly(st, address, diskBytes, ds + [d], all[..n])
  {
    assert (ds + [d])[..|ds|] == ds;
    forall r
      ensures Collected(st, address, diskBytes, ds + [d])[r]
              == if r in EveryRef(st, address) && TripleOf(r) in all[..n] then 1 else 0
    {
      if r in EveryRef(st, address) {
        SliceExact(st, address, diskBytes, all, k, n, d, r);
        OneSideOnly(all, k, n, TripleOf(r));
      } else {
        BelongingAll(st, address, diskBytes, d);
      }
    }
  }

  lemma {:induction false} GroupedExact(st: State, address: nat, diskBytes: nat, all: seq<Triple>, n: nat,
      ds: seq<T.DataRef>)
    requires Agree(st, address, diskBytes) && Listed(all, st, address)
    requires n <= |all| && GroupedBy(ds, all[..n])
    ensures AddsUp(st, address, diskBytes, ds)
    ensures CollectsExactly(st, address, diskBytes, ds, all[..n])
    decreases |ds|
  {
    if ds == [] {
    } else {
      var init, d := ds[..|ds| - 1], ds[|ds| - 1];
      var k := n - d.count;
      assert all[..n][k..] == all[k..n] && all[..n][..k] == all[..k] && ds == init + [d];
      GroupedExact(st, address, diskBytes, all, k, init);
      SpanMatches(st, address, diskBytes, all, k, n, d);
      AddsUpNext(st, address, diskBytes, init, d);
      CollectedStep(st, address, diskBytes, all, k, n, init, d);
    }
  }

  lemma RootThere(st: State, address: nat, diskBytes: nat, d: T.DataRef)
    requires 0 < |Belonging(st, address, diskBytes, d)|
    ensures d.root in st.subvolumes
  {
    var r :| r in Belonging(st, address, diskBytes, d);
  }

  lemma SpanMatches(st: State, address: nat, diskBytes: nat, all: seq<Triple>, k: nat, n: nat, d: T.DataRef)
    requires Agree(st, address, diskBytes) && Listed(all, st, address)
    requires k <= n <= |all| && Spans(d, all[k..n])
    ensures Matches(st, address, diskBytes, d)
  {
    SliceCount(st, address, diskBytes, all, k, n, d);
    RootThere(st, address, diskBytes, d);
  }

  lemma OneSideOnly(all: seq<Triple>, k: nat, n: nat, t: Triple)
    requires k <= n <= |all| && forall i, j :: 0 <= i < j < |all| ==> all[i] != all[j]
    ensures t in all[..n] <==> t in all[..k] || t in all[k..n]
    ensures !(t in all[..k] && t in all[k..n])
  {
    assert all[..n] == all[..k] + all[k..n];
  }

  /** The triples once sorted are every reference's, each once. */
  lemma SortedListed(found: seq<Triple>, all: seq<Triple>, st: State, address: nat)
    requires multiset(found) == multiset(all) && multiset(found) == multiset(Triples(st, address))
    requires Sorted(all, TripleOrder)
    ensures Listed(all, st, address)
  {
    forall t
      ensures t in all <==> t in Triples(st, address)
    {
      assert t in all <==> t in multiset(all);
    }
    forall i, j | 0 <= i < j < |all|
      ensures all[i] != all[j]
    {
      if all[i] == all[j] {
        Twice(all, i, j);
      }
    }
  }

  lemma Twice<A>(s: seq<A>, i: nat, j: nat)
    requires i < j < |s| && s[i] == s[j]
    ensures 2 <= multiset(s)[s[i]]
  {
    assert s == s[..i] + [s[i]] + s[i + 1..j] + [s[j]] + s[j + 1..];
  }

  /** What the walk's list collects is every reference, once. */
  lemma WalkCollectsAll(st: State, address: nat, diskBytes: nat, all: seq<Triple>, ds: seq<T.DataRef>)
    requires Agree(st, address, diskBytes) && Listed(all, st, address) && GroupedBy(ds, all)
    ensures AddsUp(st, address, diskBytes, ds)
    ensures Collected(st, address, diskBytes, ds) == multiset(EveryRef(st, address))
  {
    assert all[..|all|] == all;
    GroupedExact(st, address, diskBytes, all, |all|, ds);
    forall r | r in EveryRef(st, address)
      ensures TripleOf(r) in all
    {
      assert TripleOf(r) in Triples(st, address);
    }
    OnceEach(Collected(st, address, diskBytes, ds), EveryRef(st, address));
  }

  lemma OnceEach(m: multiset<ExtentRef>, s: set<ExtentRef>)
    requires forall r :: m[r] == if r in s then 1 else 0
    ensures m == multiset(s)
  {
  }

  method GroupTriples(triples: seq<Triple>) returns (ds: seq<T.DataRef>)
    ensures GroupedBy(ds, triples)
  {
    ds := [];
    for i := 0 to |triples|
      invariant GroupedBy(ds, triples[..i])
    {
      var t := triples[i];
      assert triples[..i + 1] == triples[..i] + [t];
      if ds != [] && SameFileAsRef(ds[|ds| - 1], t) {
        GroupExtends(ds, triples[..i], t);
        var d := ds[|ds| - 1];
        ds := ds[|ds| - 1 := d.(at := T.Between(d.at.first, t.offset), count := d.count + 1)];
      } else {
        GroupOpens(ds, triples[..i], t);
        ds := ds + [T.DataRef(t.root, t.inode, T.Between(t.offset, t.offset), 1)];
      }
    }
    assert triples[..|triples|] == triples;
  }
}
