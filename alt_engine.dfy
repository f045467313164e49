/** The tree of B_Plus_Tree.java: insertion, search and update, with two counters, `leafSplits`
    and `internalSplits`. It differs from BPlusTree.java in three places: a new leaf gets no
    parent from `splitLeaf` (it gets one when it is attached), `insertIntoParent` asks whether
    `left` is the root rather than whether it has a parent, and the leaf split is counted by
    `insert`, after the whole cascade. With no deletion, every leaf but the root stays at least
    half full. */
module AltEngine {
  import opened Lex
  import opened Options
  import opened LeafNode
  import opened Arena
  import opened TreeFacts
  import opened InsertSteps
  import opened InternalSplit
  import opened LeafSteps
  import opened RootSteps
  import opened Queries
  import opened Common

  class B_Plus_Tree {
    var nodes: map<Handle, Node>
    var root: Handle
    var nextFree: Handle
    ghost var chain: seq<Handle>
    ghost var meta: map<Handle, Meta>

    var leafSplits: nat
    var internalSplits: nat

    ghost function Snapshot(): Tree
      reads this`nodes, this`root, this`chain, this`meta
    {
      Tree(nodes, root, chain, meta)
    }

    /** The records the tree holds, in key order. */
    ghost function Records(): seq<PartRecord>
      reads this`nodes, this`root, this`chain, this`meta
    {
      Contents(Snapshot())
    }

    /** Every split adds one node: the first leaf plus one node per counted split. */
    ghost predicate Tally()
      reads this
    {
      Owed(0)
    }

    /** `Tally()` short of `owed` splits that have added their node but are not counted yet. */
    ghost predicate Owed(owed: nat)
      reads this
    {
      |nodes| == 1 + leafSplits + internalSplits + owed
    }

    ghost predicate Valid()
      reads this
    {
      Shape(Snapshot()) && SizesOk(Snapshot(), LEAF_MIN) && Below(nodes, nextFree) && Tally()
    }

    /** `new B_Plus_Tree()`: a single empty leaf as root. */
    constructor()
      ensures Valid() && Records() == []
      ensures leafSplits == 0 && internalSplits == 0
    {
      nodes := map[0 := Leaf([], None, None, None)];
      root := 0;
      nextFree := 1;
      chain := [0];
      meta := map[0 := Meta(0, NegInf, PosInf)];
      leafSplits, internalSplits := 0, 0;
      new;
      EmptyTreeOk(0, LEAF_MIN);
    }

    /** `search(id)`: the record with `id`, when the tree holds one; the loop over the leaf's
        records is `getRecord`'s. */
    method Search(id: string) returns (r: Option<PartRecord>)
      requires Valid()
      ensures r.Some? <==> HasId(Records(), id)
      ensures r.Some? ==> r.value == Records()[IndexOf(Records(), id)]
    {
      var leaf := FindLeaf(nodes, root, id, Snapshot());
      r := GetRecord(nodes[leaf].records, id);
      ghost var j := Locate(Snapshot(), leaf, id);
      if r.Some? {
        IndexOfAround(Before(Snapshot(), j), nodes[leaf].records, After(Snapshot(), j), id);
      }
    }

    /** `update(id, newDesc)`: false for an id the tree does not hold; otherwise the record with
        `id` takes the description `newDesc` (`getRecord` then `UpdateDescription`, which is
        `UpdateRecord`'s body). The shape of the tree is unchanged. */
    method Update(id: string, newDesc: string) returns (ok: bool)
      requires Valid()
      modifies this`nodes
      ensures Valid()
      ensures ok <==> HasId(old(Records()), id)
      ensures Records() == Redescribed(old(Records()), id, newDesc)
      ensures !ok ==> nodes == old(nodes)
      ensures nodes.Keys == old(nodes.Keys)
    {
      var leaf := FindLeaf(nodes, root, id, Snapshot());
      ghost var t := Snapshot();
      var rs;
      ok, rs := UpdateRecord(nodes[leaf].records, id, newDesc);
      nodes := nodes[leaf := nodes[leaf].(records := rs)];
      assert Snapshot() == PutRecords(t, leaf, rs);
      RedescribeStep(t, leaf, id, newDesc);
      PutRecordsSizes(t, leaf, rs, LEAF_MIN);
      assert SizeOk(t, LEAF_MIN, leaf);
    }

    /** `insert(record)`: refuses a duplicate id; otherwise inserts the record in key order and,
        when the leaf overflows, splits it and then counts the leaf split. */
    method Insert(record: PartRecord) returns (ok: bool)
      requires Valid()
      modifies this
      ensures Valid()
      ensures ok <==> !HasId(old(Records()), record.id)
      ensures Records() == if ok then Inserted(old(Records()), record) else old(Records())
      ensures !ok ==> Snapshot() == old(Snapshot())
      ensures leafSplits == if |nodes| > old(|nodes|) then old(leafSplits) + 1 else old(leafSplits)
      ensures internalSplits - old(internalSplits) == if |nodes| > old(|nodes|) then |nodes| - old(|nodes|) - 1 else 0
    {
      var leaf := FindLeaf(nodes, root, record.id, Snapshot());
      if Contains(nodes[leaf].records, record.id) {
        return false;
      }
      InsertIntoLeaf(leaf, record);
      SplitIfOverfull(leaf);
      return true;
    }

    /** The tail of `insert`: a leaf over the maximum is split, and the split counted in
        `leafSplits`; the split is what adds nodes. */
    method SplitIfOverfull(leaf: Handle)
      requires Shape(Snapshot()) && SizesOkExcept(Snapshot(), LEAF_MIN, leaf) && Below(nodes, nextFree) && Tally()
      requires leaf in nodes && nodes[leaf].Leaf? && |nodes[leaf].records| <= LEAF_MAX + 1
      requires |nodes[leaf].records| <= LEAF_MAX ==> SizesOk(Snapshot(), LEAF_MIN)
      modifies this`nodes, this`root, this`chain, this`meta, this`nextFree, this`leafSplits, this`internalSplits
      ensures Valid() && Records() == old(Records())
      ensures leafSplits == if |nodes| > old(|nodes|) then old(leafSplits) + 1 else old(leafSplits)
      ensures old(|nodes[leaf].records|) <= LEAF_MAX ==> Snapshot() == old(Snapshot()) && leafSplits == old(leafSplits)
      ensures old(|nodes[leaf].records|) > LEAF_MAX ==> |nodes| > old(|nodes|)
      ensures internalSplits - old(internalSplits) == if |nodes| > old(|nodes|) then |nodes| - old(|nodes|) - 1 else 0
    {
      if |nodes[leaf].records| > LEAF_MAX {
        SplitLeaf(leaf);
        leafSplits := leafSplits + 1;
      }
    }

    /** `leaf.insertSorted(record)` on the leaf `findLeaf` chose: the tree holds one more record
        and keeps its nodes; only the leaf may now be one record over the maximum. */
    method InsertIntoLeaf(leaf: Handle, record: PartRecord)
      requires Valid() && leaf in nodes && nodes[leaf].Leaf?
      requires KeyIn(record.id, meta[leaf].lo, meta[leaf].hi) && !HasId(nodes[leaf].records, record.id)
      modifies this`nodes
      ensures Shape(Snapshot()) && SizesOkExcept(Snapshot(), LEAF_MIN, leaf) && Below(nodes, nextFree) && Tally()
      ensures leaf in nodes && nodes[leaf].Leaf? && |nodes[leaf].records| <= LEAF_MAX + 1
      ensures |nodes[leaf].records| <= LEAF_MAX ==> SizesOk(Snapshot(), LEAF_MIN)
      ensures Records() == Inserted(old(Records()), record) && |nodes| == old(|nodes|)
    {
      ghost var t := Snapshot();
      assert NodeOk(t, leaf) && SizeOk(t, LEAF_MIN, leaf);
      var rs := InsertSorted(nodes[leaf].records, record);
      InsertedSorted(nodes[leaf].records, record);
      nodes := nodes[leaf := nodes[leaf].(records := rs)];
      assert Snapshot() == PutRecords(t, leaf, rs);
      InsertStep(t, leaf, record);
      PutRecordsSizes(t, leaf, rs, LEAF_MIN);
    }

    /** `splitLeaf(leaf)`: an overfull leaf keeps its lower half and a new leaf after it in the
        chain takes the upper half; the upper half's first id goes up to the parent. The split
        itself is left for `insert` to count. */
    method SplitLeaf(leaf: Handle)
      requires Shape(Snapshot()) && leaf in nodes && nodes[leaf].Leaf?
      requires |nodes[leaf].records| == LEAF_MAX + 1
      requires SizesOkExcept(Snapshot(), LEAF_MIN, leaf) && Below(nodes, nextFree) && Tally()
      modifies this`nodes, this`root, this`chain, this`meta, this`nextFree, this`internalSplits
      ensures Shape(Snapshot()) && SizesOk(Snapshot(), LEAF_MIN) && Below(nodes, nextFree)
      ensures Records() == old(Records()) && Owed(1) && leafSplits == old(leafSplits)
      ensures |nodes| > old(|nodes|) && internalSplits - old(internalSplits) == |nodes| - old(|nodes|) - 1
    {
      var right, promoteKey := CutLeaf(leaf);
      InsertIntoParent(leaf, promoteKey, right, 1);
    }

    /** The first half of `splitLeaf(leaf)`: the upper half of the records moves to a new leaf
        `right`, linked into the chain after `leaf`, with no parent yet; `promoteKey` is its first
        id. The tree is then pending: well-formed once `right` is attached. */
    method CutLeaf(leaf: Handle) returns (right: Handle, promoteKey: string)
      requires Shape(Snapshot()) && leaf in nodes && nodes[leaf].Leaf?
      requires |nodes[leaf].records| == LEAF_MAX + 1
      requires SizesOkExcept(Snapshot(), LEAF_MIN, leaf) && Below(nodes, nextFree)
      modifies this`nodes, this`chain, this`meta, this`nextFree
      ensures Pending(Snapshot(), leaf, promoteKey, right, nextFree)
      ensures AttachSizes(Snapshot(), leaf, promoteKey, right, nextFree, LEAF_MIN)
      ensures Below(nodes, nextFree)
      ensures Contents(Snapshot()) == old(Contents(Snapshot())) && |nodes| == old(|nodes|) + 1
    {
      ghost var t := Snapshot();
      LeafLinks(t, leaf);
      right, promoteKey := MoveUpperHalf(leaf);
      SplitLeafReady(t, Snapshot(), leaf, promoteKey, right, None, nextFree, LEAF_MIN);
      BelowAdd(t.nodes, nodes, right);
    }

    /** The arena work of `splitLeaf(leaf)`: the new leaf `right` takes `subList(mid, size)` of
        the records and its place in the sibling links and in the chain, and `leaf` keeps
        `subList(0, mid)`. */
    method MoveUpperHalf(leaf: Handle) returns (right: Handle, promoteKey: string)
      requires leaf in nodes && nodes[leaf].Leaf? && leaf in meta && leaf in chain
      requires 2 <= |nodes[leaf].records|
      requires nodes[leaf].next.Some? ==> nodes[leaf].next.value in nodes && nodes[nodes[leaf].next.value].Leaf?
      modifies this`nodes, this`chain, this`meta, this`nextFree
      ensures right == old(nextFree) && nextFree == right + 1
      ensures promoteKey == SplitKey(old(nodes[leaf].records))
      ensures Snapshot() == SplitLeafRaw(old(Snapshot()), leaf, right, None)
    {
      right := nextFree;
      var n := nodes[leaf];
      var mid := |n.records| / 2;
      var upper := n.records[mid..];
      var ns := nodes[right := Leaf(upper, None, Some(leaf), n.next)];
      if n.next.Some? {
        var nx := n.next.value;
        ns := ns[nx := ns[nx].(prev := Some(right))];
      }
      ns := ns[leaf := n.(records := n.records[..mid], next := Some(right))];
      ghost var m := meta[leaf := Meta(0, meta[leaf].lo, At(upper[0].id))][right := Meta(0, At(upper[0].id), meta[leaf].hi)];
      nodes, chain, meta, nextFree := ns, InsertAt(chain, IndexOfHandle(chain, leaf) + 1, right), m, nextFree + 1;
      promoteKey := upper[0].id;
    }

    /** `insertIntoParent(left, key, right)`: `right` was split off `left` with `key` between
        them. When `left` is the root, a new root goes above the two; otherwise `left`'s parent
        takes `key` and `right` next to `left`, and splits in turn when it overflows. */
    method InsertIntoParent(left: Handle, key: string, right: Handle, ghost owed: nat)
      requires Pending(Snapshot(), left, key, right, nextFree)
      requires AttachSizes(Snapshot(), left, key, right, nextFree, LEAF_MIN)
      requires Below(nodes, nextFree) && Owed(owed)
      modifies this`nodes, this`root, this`chain, this`meta, this`nextFree, this`internalSplits
      ensures Shape(Snapshot()) && SizesOk(Snapshot(), LEAF_MIN) && Below(nodes, nextFree)
      ensures Contents(Snapshot()) == old(Contents(Snapshot()))
      ensures Owed(owed) && internalSplits - old(internalSplits) == |nodes| - old(|nodes|)
      ensures |nodes| >= old(|nodes|)
      decreases Depth(Snapshot(), left), 1
    {
      if left == root {
        NewRoot(left, key, right, owed);
      } else {
        IntoParent(left, key, right, owed);
      }
    }

    /** The first branch of `insertIntoParent`: a new root with the one separator `key` above
        `left` and `right`; the tree grows by a level and `internalSplits` counts it. */
    method NewRoot(left: Handle, key: string, right: Handle, ghost owed: nat)
      requires Pending(Snapshot(), left, key, right, nextFree) && left == root
      requires AttachSizes(Snapshot(), left, key, right, nextFree, LEAF_MIN)
      requires Below(nodes, nextFree) && Owed(owed)
      modifies this`nodes, this`root, this`meta, this`nextFree, this`internalSplits
      ensures Shape(Snapshot()) && SizesOk(Snapshot(), LEAF_MIN) && Below(nodes, nextFree)
      ensures Contents(Snapshot()) == old(Contents(Snapshot()))
      ensures Owed(owed) && internalSplits == old(internalSplits) + 1
      ensures |nodes| == old(|nodes|) + 1
    {
      ghost var t := Snapshot();
      AttachContents(t, left, key, right, nextFree);
      GrowRoot(left, key, right);
      internalSplits := internalSplits + 1;
      assert SizeOk(Snapshot(), LEAF_MIN, root);
    }

    /** The other branch of `insertIntoParent`: `left`'s parent takes `key` and `right`, and is
        split in turn when that gives it one separator too many. */
    method IntoParent(left: Handle, key: string, right: Handle, ghost owed: nat)
      requires Pending(Snapshot(), left, key, right, nextFree) && left != root
      requires AttachSizes(Snapshot(), left, key, right, nextFree, LEAF_MIN)
      requires Below(nodes, nextFree) && Owed(owed)
      modifies this`nodes, this`root, this`chain, this`meta, this`nextFree, this`internalSplits
      ensures Shape(Snapshot()) && SizesOk(Snapshot(), LEAF_MIN) && Below(nodes, nextFree)
      ensures Contents(Snapshot()) == old(Contents(Snapshot()))
      ensures Owed(owed) && internalSplits - old(internalSplits) == |nodes| - old(|nodes|)
      ensures |nodes| >= old(|nodes|)
      decreases Depth(Snapshot(), left), 0
    {
      ghost var t := Snapshot();
      AttachContents(t, left, key, right, nextFree);
      AttachLevels(t, left, key, right, nextFree);
      var parent := AttachToParent(left, key, right, nextFree);
      if |nodes[parent].keys| > INTERNAL_MAX {
        assert NodeOk(Snapshot(), parent);
        SplitInternal(parent, owed);
      } else {
        assert SizeOk(Snapshot(), LEAF_MIN, parent);
      }
    }

    /** The new root of `insertIntoParent`, allocated at `nextFree`, with `left` and `right` as
        its children. */
    method GrowRoot(left: Handle, key: string, right: Handle)
      requires CanAttach(Snapshot(), left, right) && left == root && nextFree !in nodes
      requires Below(nodes, nextFree)
      modifies this`nodes, this`root, this`meta, this`nextFree
      ensures Snapshot() == Attach(old(Snapshot()), left, key, right, old(nextFree))
      ensures root == old(nextFree) && nextFree == root + 1
      ensures |nodes| == old(|nodes|) + 1 && Below(nodes, nextFree)
    {
      var newRoot := nextFree;
      nextFree := nextFree + 1;
      nodes := nodes[newRoot := Internal([key], [left, right], None)];
      root := newRoot;
      nodes := nodes[left := WithParent(nodes[left], Some(newRoot))];
      nodes := nodes[right := WithParent(nodes[right], Some(newRoot))];
      meta := meta[newRoot := Meta(meta[left].level + 1, NegInf, PosInf)];
    }

    /** `left`'s parent takes `key` at `left`'s position and `right` just after `left`, and
        `right` names it as parent. */
    method AttachToParent(left: Handle, key: string, right: Handle, ghost newRoot: Handle) returns (parent: Handle)
      requires CanAttach(Snapshot(), left, right) && left != root
      modifies this`nodes
      ensures parent == AttachTarget(old(Snapshot()), left, newRoot)
      ensures Snapshot() == Attach(old(Snapshot()), left, key, right, newRoot)
      ensures |nodes| == old(|nodes|)
    {
      parent := nodes[left].parent.value;
      var pn := nodes[parent];
      var pos := IndexOfHandle(pn.children, left);
      nodes := nodes[parent := Internal(InsertAt(pn.keys, pos, key), InsertAt(pn.children, pos + 1, right), pn.parent)];
      nodes := nodes[right := WithParent(nodes[right], Some(parent))];
    }

    /** `splitInternal(node)`: an internal node with one separator too many keeps the separators
        before the middle one; a new node takes those after it along with their children, which
        now name it as parent; the middle separator goes up, and `internalSplits` counts the
        split once the cascade above has finished. */
    method SplitInternal(x: Handle, ghost owed: nat)
      requires Shape(Snapshot()) && x in nodes && nodes[x].Internal? && |nodes[x].keys| == INTERNAL_MAX + 1
      requires SizesOkExcept(Snapshot(), LEAF_MIN, x) && Below(nodes, nextFree) && Owed(owed)
      modifies this`nodes, this`root, this`chain, this`meta, this`nextFree, this`internalSplits
      ensures Shape(Snapshot()) && SizesOk(Snapshot(), LEAF_MIN) && Below(nodes, nextFree)
      ensures Contents(Snapshot()) == old(Contents(Snapshot()))
      ensures Owed(owed) && internalSplits - old(internalSplits) == |nodes| - old(|nodes|)
      ensures |nodes| >= old(|nodes|)
      decreases Depth(Snapshot(), x), 2
    {
      var right, promote := CutInternal(x);
      InsertIntoParent(x, promote, right, owed + 1);
      internalSplits := internalSplits + 1;
    }

    /** The first half of `splitInternal(x)`: `x` is cut in two around its middle separator
        `promote`, and the tree is pending until the new node `right` is attached. */
    method CutInternal(x: Handle) returns (right: Handle, promote: string)
      requires Shape(Snapshot()) && x in nodes && nodes[x].Internal? && |nodes[x].keys| == INTERNAL_MAX + 1
      requires SizesOkExcept(Snapshot(), LEAF_MIN, x) && Below(nodes, nextFree)
      modifies this`nodes, this`meta, this`nextFree
      ensures Pending(Snapshot(), x, promote, right, nextFree)
      ensures AttachSizes(Snapshot(), x, promote, right, nextFree, LEAF_MIN)
      ensures Below(nodes, nextFree) && Depth(Snapshot(), x) == old(Depth(Snapshot(), x))
      ensures Contents(Snapshot()) == old(Contents(Snapshot())) && |nodes| == old(|nodes|) + 1
    {
      ghost var t := Snapshot();
      ChildrenOf(t, x);
      assert x in meta;
      right, promote := MoveUpperChildren(x);
      SplitInternalReady(t, Snapshot(), x, promote, right, nextFree, LEAF_MIN);
      BelowAdd(t.nodes, nodes, right);
    }

    /** The arena work of `splitInternal(x)`: the new node `right` takes `subList(mid + 1, ..)` of
        the separators and of the children, and the loop over its children makes each name it as
        parent; `x` keeps `subList(0, mid)` of the separators and `subList(0, mid + 1)` of the
        children. */
    method MoveUpperChildren(x: Handle) returns (right: Handle, promote: string)
      requires x in nodes && nodes[x].Internal? && x in meta && nextFree !in nodes
      requires 1 <= |nodes[x].keys| && |nodes[x].children| == |nodes[x].keys| + 1
      requires DistinctHandles(nodes[x].children)
      requires forall c :: c in nodes[x].children ==> c in nodes
      modifies this`nodes, this`meta, this`nextFree
      ensures right == old(nextFree) && nextFree == right + 1
      ensures promote == PromotedKey(old(nodes[x]))
      ensures Snapshot() == SplitInternalRaw(old(Snapshot()), x, right)
    {
      ghost var t := Snapshot();
      right := nextFree;
      var n := nodes[x];
      var mid := |n.keys| / 2;
      promote := n.keys[mid];
      var rightChildren, ns := MoveChildren(nodes, n.children, mid + 1, right);
      ns := ns[x := Internal(n.keys[..mid], n.children[..mid + 1], n.parent)][right := Internal(n.keys[mid + 1..], rightChildren, None)];
      ghost var raw := SplitInternalRaw(t, x, right);
      assert ns.Keys == raw.nodes.Keys;
      assert forall h :: h in ns ==> ns[h] == raw.nodes[h];
      nodes, meta, nextFree := ns, raw.meta, nextFree + 1;
    }
  }
}
