/** A subvolume's last snapshot, read once and relied on later. */
module Remembering {
  import opened Cow

  /** Whether the step gives the subvolume a new last snapshot. */
  predicate Resnapshots(step: Step, root: nat) {
    step.Snapshot? && (step.root == root || step.into == root)
  }

  predicate NoneResnapshots(steps: seq<Step>, root: nat) {
    forall i :: 0 <= i < |steps| ==> !Resnapshots(steps[i], root)
  }

  lemma {:induction false} GoneStaysGone(st: State, steps: seq<Step>, root: nat)
    requires root !in st.subvolumes && NoneResnapshots(steps, root)
    ensures root !in Run(st, steps).subvolumes
    decreases |steps|
  {
    if steps == [] {
      assert Run(st, steps) == st;
    } else {
      assert !Resnapshots(steps[0], root);
      GoneStaysGone(Next(st, steps[0]), steps[1..], root);
    }
  }

  /** What was read stays so until the subvolume is snapshotted or made anew. */
  lemma {:induction false} StaysCurrent(st: State, steps: seq<Step>, root: nat)
    requires root in st.subvolumes && NoneResnapshots(steps, root) && root in Run(st, steps).subvolumes
    ensures Run(st, steps).subvolumes[root].lastSnapshot == st.subvolumes[root].lastSnapshot
    decreases |steps|
  {
    if steps == [] {
      assert Run(st, steps) == st;
    } else {
      assert !Resnapshots(steps[0], root);
      var next := Next(st, steps[0]);
      if root in next.subvolumes {
        StaysCurrent(next, steps[1..], root);
      } else {
        GoneStaysGone(next, steps[1..], root);
      }
    }
  }

  /** A leaf newer than what was read of its subvolume in an earlier state is
      still reached by no other tree, if the subvolume was not snapshotted since. */
  lemma RememberedIsSafe(st: State, steps: seq<Step>, root: nat, other: nat, leaf: nat)
    requires Valid(st) && root in st.subvolumes && NoneResnapshots(steps, root)
    requires var now := Run(st, steps);
      Reaches(now, root, leaf) && leaf in now.leaves && st.subvolumes[root].lastSnapshot < now.leaves[leaf].generation
    ensures Reaches(Run(st, steps), other, leaf) ==> other == root
  {
    StaysCurrent(st, steps, root);
    NewLeafIsPrivate(st, steps, root, other, leaf);
  }

  /** If it was, as what was snapshotted or as what was made by it, any leaf newer than the
      earlier reading shows the difference: it is shared, what was read says it is not, and
      reading again says it may be. */
  lemma SnapshotMisleads(st: State, root: nat, into: nat, leaf: nat, read: nat, either: nat)
    requires Valid(st) && Reaches(st, root, leaf) && into !in st.subvolumes
    requires leaf in st.leaves && read < st.leaves[leaf].generation && (either == root || either == into)
    ensures var now := Next(st, Snapshot(root, into));
      && root != into && Reaches(now, root, leaf) && Reaches(now, into, leaf) && leaf in now.leaves
      && read < now.leaves[leaf].generation <= now.subvolumes[either].lastSnapshot
  {
    assert Reaches(st, root, leaf) && st.leaves[leaf].generation <= st.generation;
  }
}
