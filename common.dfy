/** Pieces the three engines share: the allocator's bound on the handles in use, and the loop
    of `splitInternal` that hands the upper children to the new node. */
module Common {
  import opened Options
  import opened Arena

  /** Every handle in use is below `next`, so `next` and the handles above it are free. */
  ghost predicate Below(nodes: map<Handle, Node>, next: Handle) {
    forall h :: h in nodes ==> h < next
  }

  /** Adding the handle `next` to an arena below `next` adds one node and leaves the arena below
      `next + 1`. */
  lemma BelowAdd(before: map<Handle, Node>, after: map<Handle, Node>, next: Handle)
    requires Below(before, next) && after.Keys == before.Keys + {next}
    ensures Below(after, next + 1) && |after| == |before| + 1
  {
    assert next !in before.Keys;
    assert |after.Keys| == |before.Keys| + 1;
  }

  /** The children loop of `splitInternal`: the children from `from` on are copied, in order, to
      the new node's list, and each of them names `right` as its parent. BPlusTree.java copies and
      reparents in one loop; src/BPlusTree.java and B_Plus_Tree.java copy with `addAll` and then
      reparent in a loop over the copy, which walks the same children in the same order. */
  method MoveChildren(ns: map<Handle, Node>, cs: seq<Handle>, from: nat, right: Handle)
    returns (moved: seq<Handle>, after: map<Handle, Node>)
    requires from <= |cs| && DistinctHandles(cs)
    requires forall c :: c in cs ==> c in ns
    ensures moved == cs[from..] && after.Keys == ns.Keys
    ensures forall h :: h in after ==>
      after[h] == if h in moved then WithParent(ns[h], Some(right)) else ns[h]
  {
    moved := [];
    after := ns;
    var i := from;
    while i < |cs|
      invariant from <= i <= |cs| && moved == cs[from..i] && after.Keys == ns.Keys
      invariant forall h :: h in after ==>
        after[h] == if h in moved then WithParent(ns[h], Some(right)) else ns[h]
    {
      var c := cs[i];
      assert c !in moved;
      moved := moved + [c];
      after := after[c := WithParent(after[c], Some(right))];
      i := i + 1;
    }
  }
}
