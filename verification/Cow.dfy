/** Copy-on-write subvolume trees, as far as sharing goes: leaves with the
    generation they were written in, and the subvolumes that reach them. */
module Cow {
  import opened Words

  /** One file extent item. */
  datatype FileItem = FileItem(inode: nat, fileOffset: nat, diskAddress: nat, diskBytes: U64, uncompressedBytes: nat,
                               extentOffset: nat, numBytes: Positive)

  datatype Leaf = Leaf(generation: nat, items: set<FileItem>)

  /** A subvolume: the leaves of its tree, and the generation it was last
      snapshotted in, or last made from a snapshot. */
  datatype Subvolume = Subvolume(leaves: set<nat>, lastSnapshot: nat)

  datatype State = State(leaves: map<nat, Leaf>, subvolumes: map<nat, Subvolume>, generation: nat)

  datatype Step =
    | Write(root: nat, leaf: nat, items: set<FileItem>, copy: nat)  // change a leaf, in place or to a copy
    | Grow(root: nat, items: set<FileItem>, copy: nat)              // add a leaf
    | Shrink(root: nat, leaf: nat)                                  // drop a leaf
    | Snapshot(root: nat, into: nat)                                // a new subvolume sharing every leaf
    | Delete(root: nat)
    | Commit

  predicate Reaches(st: State, root: nat, leaf: nat) {
    root in st.subvolumes && leaf in st.subvolumes[root].leaves
  }

  /** Writing in place is for leaves of the current transaction that no snapshot
      of this subvolume has caught. */
  predicate MayWriteInPlace(st: State, root: nat, leaf: nat)
    requires leaf in st.leaves && root in st.subvolumes
  {
    st.leaves[leaf].generation == st.generation && st.subvolumes[root].lastSnapshot < st.leaves[leaf].generation
  }

  function WithLeaves(st: State, root: nat, leaves: set<nat>): State
    requires root in st.subvolumes
  {
    st.(subvolumes := st.subvolumes[root := st.subvolumes[root].(leaves := leaves)])
  }

  /** A new leaf, in place of those dropped. */
  function WithLeaf(st: State, root: nat, dropped: set<nat>, copy: nat, items: set<FileItem>): State
    requires root in st.subvolumes
  {
    var leaves := st.subvolumes[root].leaves - dropped + {copy};
    WithLeaves(st, root, leaves).(leaves := st.leaves[copy := Leaf(st.generation, items)])
  }

  /** One step; a step that does not apply changes nothing. */
  function Next(st: State, step: Step): State {
    match step
    case Write(root, leaf, items, copy) =>
      if !(leaf in st.leaves && Reaches(st, root, leaf)) then st
      else if MayWriteInPlace(st, root, leaf) then
        st.(leaves := st.leaves[leaf := st.leaves[leaf].(items := items)])
      else if copy in st.leaves then st
      else WithLeaf(st, root, {leaf}, copy, items)
    case Grow(root, items, copy) =>
      if root !in st.subvolumes || copy in st.leaves then st
      else WithLeaf(st, root, {}, copy, items)
    case Shrink(root, leaf) =>
      if root !in st.subvolumes then st
      else WithLeaves(st, root, st.subvolumes[root].leaves - {leaf})
    case Snapshot(root, into) =>
      if root !in st.subvolumes || into in st.subvolumes then st
      else
        var shared := Subvolume(st.subvolumes[root].leaves, st.generation);
        st.(subvolumes := st.subvolumes[root := shared][into := shared])
    case Delete(root) => st.(subvolumes := st.subvolumes - {root})
    case Commit => st.(generation := st.generation + 1)
  }

  function Run(st: State, steps: seq<Step>): State
    decreases |steps|
  {
    if steps == [] then st else Run(Next(st, steps[0]), steps[1..])
  }

  /** A leaf two subvolumes reach is no newer than the last snapshot of either. */
  ghost predicate SharedLeavesAreOld(st: State) {
    forall leaf, a, b :: a != b && Reaches(st, a, leaf) && Reaches(st, b, leaf) ==>
      leaf in st.leaves
      && st.leaves[leaf].generation <= st.subvolumes[a].lastSnapshot
      && st.leaves[leaf].generation <= st.subvolumes[b].lastSnapshot
  }

  ghost predicate Valid(st: State) {
    && (forall root, leaf :: Reaches(st, root, leaf) ==> leaf in st.leaves)
    && (forall leaf :: leaf in st.leaves ==> st.leaves[leaf].generation <= st.generation)
    && (forall root :: root in st.subvolumes ==> st.subvolumes[root].lastSnapshot <= st.generation)
    && SharedLeavesAreOld(st)
  }

  lemma NewLeafReached(st: State, root: nat, dropped: set<nat>, copy: nat, items: set<FileItem>, r: nat, leaf: nat)
    requires Valid(st) && root in st.subvolumes && copy !in st.leaves
    requires Reaches(WithLeaf(st, root, dropped, copy, items), r, leaf)
    ensures leaf == copy ==> r == root
    ensures leaf != copy ==> Reaches(st, r, leaf) && leaf in st.leaves
  {
    assert !Reaches(st, r, copy);
    assert leaf != copy ==> Reaches(st, r, leaf);
  }

  /** A new leaf is reached by the one subvolume it was written for. */
  lemma NewLeafKeepsValid(st: State, root: nat, dropped: set<nat>, copy: nat, items: set<FileItem>)
    requires Valid(st) && root in st.subvolumes && copy !in st.leaves
    ensures Valid(WithLeaf(st, root, dropped, copy, items))
  {
    var next := WithLeaf(st, root, dropped, copy, items);
    forall r, leaf | Reaches(next, r, leaf)
      ensures leaf in next.leaves && (leaf == copy ==> r == root)
      ensures leaf != copy ==> Reaches(st, r, leaf) && next.leaves[leaf] == st.leaves[leaf]
    {
      NewLeafReached(st, root, dropped, copy, items, r, leaf);
    }
    assert SharedLeavesAreOld(next) by {
      forall leaf, a, b | a != b && Reaches(next, a, leaf) && Reaches(next, b, leaf)
        ensures leaf in next.leaves && next.leaves[leaf].generation <= next.subvolumes[a].lastSnapshot
        ensures next.leaves[leaf].generation <= next.subvolumes[b].lastSnapshot
      {
        assert leaf != copy;
      }
    }
  }

  lemma FewerLeavesKeepsValid(st: State, next: State)
    requires Valid(st) && next.leaves == st.leaves && next.generation >= st.generation
    requires forall root :: root in next.subvolumes ==>
               root in st.subvolumes && next.subvolumes[root].leaves <= st.subvolumes[root].leaves
               && next.subvolumes[root].lastSnapshot == st.subvolumes[root].lastSnapshot
    ensures Valid(next)
  {
    assert forall r, l :: Reaches(next, r, l) ==> Reaches(st, r, l);
  }

  lemma SnapshotReached(st: State, root: nat, into: nat, r: nat, leaf: nat)
    requires Valid(st) && root in st.subvolumes && into !in st.subvolumes
    requires Reaches(Next(st, Snapshot(root, into)), r, leaf)
    ensures Reaches(st, if r == into then root else r, leaf) && leaf in st.leaves
  {
    assert Reaches(st, if r == into then root else r, leaf);
  }

  lemma SnapshotKeepsValid(st: State, root: nat, into: nat)
    requires Valid(st) && root in st.subvolumes && into !in st.subvolumes
    ensures Valid(Next(st, Snapshot(root, into)))
  {
    var next := Next(st, Snapshot(root, into));
    forall r, leaf | Reaches(next, r, leaf)
      ensures Reaches(st, if r == into then root else r, leaf) && leaf in st.leaves
    {
      SnapshotReached(st, root, into, r, leaf);
    }
    assert SharedLeavesAreOld(next) by {
      forall leaf, a, b | a != b && Reaches(next, a, leaf) && Reaches(next, b, leaf)
        ensures leaf in next.leaves && next.leaves[leaf].generation <= next.subvolumes[a].lastSnapshot
        ensures next.leaves[leaf].generation <= next.subvolumes[b].lastSnapshot
      {
        SharedBySnapshot(st, root, into, leaf, a, b);
        SharedBySnapshot(st, root, into, leaf, b, a);
      }
    }
  }

  lemma SharedBySnapshot(st: State, root: nat, into: nat, leaf: nat, a: nat, b: nat)
    requires Valid(st) && root in st.subvolumes && into !in st.subvolumes && a != b
    requires Reaches(Next(st, Snapshot(root, into)), a, leaf) && Reaches(Next(st, Snapshot(root, into)), b, leaf)
    ensures leaf in st.leaves && st.leaves[leaf].generation <= Next(st, Snapshot(root, into)).subvolumes[a].lastSnapshot
  {
    SnapshotReached(st, root, into, a, leaf);
    SnapshotReached(st, root, into, b, leaf);
  }

  lemma InPlaceKeepsValid(st: State, leaf: nat, items: set<FileItem>)
    requires Valid(st) && leaf in st.leaves
    ensures Valid(st.(leaves := st.leaves[leaf := st.leaves[leaf].(items := items)]))
  {
    var next := st.(leaves := st.leaves[leaf := st.leaves[leaf].(items := items)]);
    assert forall r, l :: Reaches(next, r, l) ==> Reaches(st, r, l);
  }

  lemma NextKeepsValid(st: State, step: Step)
    requires Valid(st)
    ensures Valid(Next(st, step))
  {
    match step
    case Write(root, leaf, items, copy) =>
      if leaf in st.leaves && Reaches(st, root, leaf) {
        if MayWriteInPlace(st, root, leaf) {
          InPlaceKeepsValid(st, leaf, items);
        } else if copy !in st.leaves {
          NewLeafKeepsValid(st, root, {leaf}, copy, items);
        }
      }
    case Grow(root, items, copy) =>
      if root in st.subvolumes && copy !in st.leaves {
        NewLeafKeepsValid(st, root, {}, copy, items);
      }
    case Shrink(root, leaf) =>
      FewerLeavesKeepsValid(st, Next(st, step));
    case Snapshot(root, into) =>
      if root in st.subvolumes && into !in st.subvolumes {
        SnapshotKeepsValid(st, root, into);
      }
    case Delete(root) =>
      FewerLeavesKeepsValid(st, Next(st, step));
    case Commit =>
      FewerLeavesKeepsValid(st, Next(st, step));
  }

  /** However leaves are written, subvolumes snapshotted and deleted, and
      transactions committed, a shared leaf is no newer than the last snapshot of
      each subvolume that reaches it. */
  lemma {:induction false} RunKeepsValid(st: State, steps: seq<Step>)
    requires Valid(st)
    ensures Valid(Run(st, steps))
    decreases |steps|
  {
    if steps == [] {
    } else {
      NextKeepsValid(st, steps[0]);
      RunKeepsValid(Next(st, steps[0]), steps[1..]);
    }
  }

  /** The invariant put to use, at the end of any run: a leaf with a generation above
      its subvolume's `lastSnapshot` is reached by one tree. */
  lemma NewLeafIsPrivate(st: State, steps: seq<Step>, root: nat, other: nat, leaf: nat)
    requires Valid(st)
    requires var now := Run(st, steps);
      Reaches(now, root, leaf) && leaf in now.leaves && now.subvolumes[root].lastSnapshot < now.leaves[leaf].generation
    ensures Reaches(Run(st, steps), other, leaf) ==> other == root
  {
    RunKeepsValid(st, steps);
  }

  /** What a subvolume holds. */
  function Contents(st: State, root: nat): set<FileItem> {
    set leaf, item | root in st.subvolumes && leaf in st.subvolumes[root].leaves && leaf in st.leaves
                     && item in st.leaves[leaf].items :: item
  }

  predicate Touches(step: Step, root: nat) {
    match step
    case Write(r, _, _, _) => r == root
    case Grow(r, _, _) => r == root
    case Shrink(r, _) => r == root
    case Snapshot(_, into) => into == root
    case Delete(r) => r == root
    case Commit => false
  }

  lemma StepLeavesOthers(st: State, step: Step, root: nat, leaf: nat)
    requires Valid(st) && !Touches(step, root) && Reaches(st, root, leaf)
    ensures leaf in st.leaves && leaf in Next(st, step).leaves && Next(st, step).leaves[leaf] == st.leaves[leaf]
  {
    if step.Write? && step.leaf == leaf && Reaches(st, step.root, leaf) {
      assert !MayWriteInPlace(st, step.root, leaf);
    }
  }

  lemma StepKeepsOthers(st: State, step: Step, root: nat)
    requires root in st.subvolumes && !Touches(step, root)
    ensures root in Next(st, step).subvolumes && Next(st, step).subvolumes[root].leaves == st.subvolumes[root].leaves
  {
  }

  /** Writing to one subvolume never changes what another one holds, in place or
      not, whatever was snapshotted before in the same transaction. */
  lemma WritesArePrivate(st: State, step: Step, root: nat)
    requires Valid(st) && root in st.subvolumes && !Touches(step, root)
    ensures root in Next(st, step).subvolumes && Contents(Next(st, step), root) == Contents(st, root)
  {
    var next := Next(st, step);
    StepKeepsOthers(st, step, root);
    forall leaf | leaf in st.subvolumes[root].leaves
      ensures leaf in st.leaves && leaf in next.leaves && next.leaves[leaf] == st.leaves[leaf]
    {
      StepLeavesOthers(st, step, root, leaf);
    }
    SameLeavesSameContents(st, next, root);
  }

  lemma SameLeavesSameContents(st: State, next: State, root: nat)
    requires root in st.subvolumes && root in next.subvolumes
    requires st.subvolumes[root].leaves == next.subvolumes[root].leaves
    requires forall leaf :: leaf in st.subvolumes[root].leaves ==>
               leaf in st.leaves && leaf in next.leaves && next.leaves[leaf] == st.leaves[leaf]
    ensures Contents(st, root) == Contents(next, root)
  {
  }
}
