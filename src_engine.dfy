/** The tree of src/BPlusTree.java. Search, insertion and the splits are those of BPlusTree.java,
    with the slices of `subList` in place of copying loops and no minimum on a leaf's size,
    since this tree never rebalances. It adds `update`, which rewrites the description of a
    record. Its `delete` refuses a missing or blank id and an unconfirmed deletion, and removes the
    record from its leaf without rebalancing, so leaves may shrink below half full and even
    become empty. */
module SrcEngine {
  import opened Lex
  import opened JavaText
  import opened Options
  import opened LeafNode
  import opened Arena
  import opened TreeFacts
  import opened InsertSteps
  import opened InternalSplit
  import opened LeafSteps
  import opened RootSteps
  import opened Queries
  import opened Common

  class BPlusTree {
    var nodes: map<Handle, Node>
    var root: Handle
    var nextFree: Handle
    ghost var chain: seq<Handle>
    ghost var meta: map<Handle, Meta>

    var totalSplits: nat
    var parentSplits: nat
    var totalFusions: nat
    var parentFusions: nat

    ghost function Snapshot(): Tree
      reads this`nodes, this`root, this`chain, this`meta
    {
      Tree(nodes, root, chain, meta)
    }

    /** The records the tree holds, in key order. */
    ghost function Records(): seq<PartRecord>
      reads this`nodes, this`root, this`chain, this`meta
    {
      Contents(Snapshot())
    }

    /** Every split adds one node, every split of a parent is also counted as a split, and
        nothing ever fuses. */
    ghost predicate Tally()
      reads this
    {
      Owed(0)
    }

    /** `Tally()` short of `owed` splits that have added their node but are not counted yet. */
    ghost predicate Owed(owed: nat)
      reads this
    {
      |nodes| == 1 + totalSplits + owed && parentSplits <= totalSplits
      && totalFusions == 0 && parentFusions == 0
    }

    /** Leaves are bounded above only: deletion never rebalances. */
    ghost predicate Valid()
      reads this
    {
      Shape(Snapshot()) && SizesOk(Snapshot(), 0) && Below(nodes, nextFree) && Tally()
    }

    /** `new BPlusTree()`: a single empty leaf as root. */
    constructor()
      ensures Valid() && Records() == []
      ensures totalSplits == 0 && parentSplits == 0 && totalFusions == 0 && parentFusions == 0
    {
      nodes := map[0 := Leaf([], None, None, None)];
      root := 0;
      nextFree := 1;
      chain := [0];
      meta := map[0 := Meta(0, NegInf, PosInf)];
      totalSplits, parentSplits, totalFusions, parentFusions := 0, 0, 0, 0;
      new;
      EmptyTreeOk(0, 0);
    }

    /** `search(id)`: nothing for a missing id; otherwise the record with `id`, when the tree
        holds one. */
    method Search(id: Option<string>) returns (r: Option<PartRecord>)
      requires Valid()
      ensures r.Some? <==> id.Some? && HasId(Records(), id.value)
      ensures r.Some? ==> r.value == Records()[IndexOf(Records(), id.value)]
    {
      if id.None? {
        return None;
      }
      var leaf := FindLeaf(nodes, root, id.value, Snapshot());
      r := GetRecord(nodes[leaf].records, id.value);
      ghost var j := Locate(Snapshot(), leaf, id.value);
      if r.Some? {
        IndexOfAround(Before(Snapshot(), j), nodes[leaf].records, After(Snapshot(), j), id.value);
      }
    }

    /** `update(id, newDesc)`: false for a missing id or one the tree does not hold; otherwise the
        record with `id` takes the description `newDesc`. The shape of the tree is unchanged. */
    method Update(id: Option<string>, newDesc: string) returns (ok: bool)
      requires Valid()
      modifies this`nodes
      ensures Valid()
      ensures ok <==> id.Some? && HasId(old(Records()), id.value)
      ensures Records() == if ok then Redescribed(old(Records()), id.value, newDesc) else old(Records())
      ensures !ok ==> nodes == old(nodes)
      ensures nodes.Keys == old(nodes.Keys)
    {
      if id.None? {
        return false;
      }
      var leaf := FindLeaf(nodes, root, id.value, Snapshot());
      ghost var t := Snapshot();
      var rs;
      ok, rs := UpdateRecord(nodes[leaf].records, id.value, newDesc);
      nodes := nodes[leaf := nodes[leaf].(records := rs)];
      assert Snapshot() == PutRecords(t, leaf, rs);
      RedescribeStep(t, leaf, id.value, newDesc);
      PutRecordsSizes(t, leaf, rs, 0);
      assert SizeOk(t, 0, leaf);
    }

    /** `scanFrom(startId, count)`: the first `count` records whose ids are not below
        `startId`, in key order. */
    method ScanFrom(startId: string, count: int) returns (out: seq<PartRecord>)
      requires Valid()
      ensures out == Take(AtLeast(Records(), startId), count)
    {
      out := Queries.ScanFrom(nodes, root, startId, count, Snapshot());
    }

    /** `computeDepth()`: the number of levels, one more than the height. */
    method ComputeDepth() returns (depth: nat)
      requires Valid()
      ensures depth == Height(Snapshot()) + 1
    {
      depth := Queries.ComputeDepth(nodes, root, Snapshot());
    }

    /** `countAllRecords()`: the number of records the tree holds. */
    method CountAllRecords() returns (count: nat)
      requires Valid()
      ensures count == |Records()|
    {
      count := Queries.CountAllRecords(nodes, root, Snapshot());
    }

    /** `insert(rec)`: refuses a missing record and a duplicate id; otherwise inserts the record in
        key order, splitting the leaf when it overflows. */
    method Insert(rec: Option<PartRecord>) returns (ok: bool)
      requires Valid()
      modifies this
      ensures Valid()
      ensures ok <==> rec.Some? && !HasId(old(Records()), rec.value.id)
      ensures Records() == if ok then Inserted(old(Records()), rec.value) else old(Records())
      ensures !ok ==> Snapshot() == old(Snapshot())
      ensures |nodes| - old(|nodes|) == totalSplits - old(totalSplits)
      ensures parentSplits - old(parentSplits) == if |nodes| > old(|nodes|) then |nodes| - old(|nodes|) - 1 else 0
    {
      if rec.None? {
        return false;
      }
      var r := rec.value;
      var leaf := FindLeaf(nodes, root, r.id, Snapshot());
      if Contains(nodes[leaf].records, r.id) {
        return false;
      }
      InsertIntoLeaf(leaf, r);
      if |nodes[leaf].records| > LEAF_MAX {
        SplitLeaf(leaf);
      }
      return true;
    }

    /** `leaf.insertSorted(rec)` on the leaf `findLeaf` chose: the tree holds one more record
        and keeps its nodes; only the leaf may now be one record over the maximum. */
    method InsertIntoLeaf(leaf: Handle, rec: PartRecord)
      requires Valid() && leaf in nodes && nodes[leaf].Leaf?
      requires KeyIn(rec.id, meta[leaf].lo, meta[leaf].hi) && !HasId(nodes[leaf].records, rec.id)
      modifies this`nodes
      ensures Shape(Snapshot()) && SizesOkExcept(Snapshot(), 0, leaf) && Below(nodes, nextFree) && Tally()
      ensures leaf in nodes && nodes[leaf].Leaf? && |nodes[leaf].records| <= LEAF_MAX + 1
      ensures |nodes[leaf].records| <= LEAF_MAX ==> SizesOk(Snapshot(), 0)
      ensures Records() == Inserted(old(Records()), rec) && |nodes| == old(|nodes|)
    {
      ghost var t := Snapshot();
      assert NodeOk(t, leaf) && SizeOk(t, 0, leaf);
      var rs := InsertSorted(nodes[leaf].records, rec);
      InsertedSorted(nodes[leaf].records, rec);
      nodes := nodes[leaf := nodes[leaf].(records := rs)];
      assert Snapshot() == PutRecords(t, leaf, rs);
      InsertStep(t, leaf, rec);
      PutRecordsSizes(t, leaf, rs, 0);
    }

    /** `splitLeaf(leaf)`: an overfull leaf keeps its lower half and a new leaf after it in the
        chain takes the upper half; the upper half's first id goes up to the parent. */
    method SplitLeaf(leaf: Handle)
      requires Shape(Snapshot()) && leaf in nodes && nodes[leaf].Leaf?
      requires |nodes[leaf].records| == LEAF_MAX + 1
      requires SizesOkExcept(Snapshot(), 0, leaf) && Below(nodes, nextFree) && Tally()
      modifies this`nodes, this`root, this`chain, this`meta, this`nextFree, this`totalSplits, this`parentSplits
      ensures Valid() && Records() == old(Records())
      ensures |nodes| > old(|nodes|) && parentSplits - old(parentSplits) == |nodes| - old(|nodes|) - 1
    {
      var right, promoteKey := CutLeaf(leaf);
      InsertIntoParent(leaf, promoteKey, right, 1);
      CountSplit(false, 0);
    }

    /** The first half of `splitLeaf(leaf)`: the upper half of the records moves to a new leaf
        `right`, which is linked into the chain after `leaf` and gets `leaf`'s parent; `promoteKey`
        is its first id. The tree is then pending: well-formed once `right` is attached. */
    method CutLeaf(leaf: Handle) returns (right: Handle, promoteKey: string)
      requires Shape(Snapshot()) && leaf in nodes && nodes[leaf].Leaf?
      requires |nodes[leaf].records| == LEAF_MAX + 1
      requires SizesOkExcept(Snapshot(), 0, leaf) && Below(nodes, nextFree)
      modifies this`nodes, this`chain, this`meta, this`nextFree
      ensures Pending(Snapshot(), leaf, promoteKey, right, nextFree)
      ensures AttachSizes(Snapshot(), leaf, promoteKey, right, nextFree, 0)
      ensures Below(nodes, nextFree)
      ensures Contents(Snapshot()) == old(Contents(Snapshot())) && |nodes| == old(|nodes|) + 1
    {
      ghost var t := Snapshot();
      LeafLinks(t, leaf);
      right, promoteKey := MoveUpperHalf(leaf);
      SplitLeafReady(t, Snapshot(), leaf, promoteKey, right, t.nodes[leaf].parent, nextFree, 0);
      BelowAdd(t.nodes, nodes, right);
    }

    /** The arena work of `splitLeaf(leaf)`: the new leaf `right` takes the upper half of the
        records (`subList(mid, size)`) and its place in the sibling links and in the chain, and
        `leaf` keeps `subList(0, mid)`. */
    method MoveUpperHalf(leaf: Handle) returns (right: Handle, promoteKey: string)
      requires leaf in nodes && nodes[leaf].Leaf? && leaf in meta && leaf in chain
      requires 2 <= |nodes[leaf].records|
      requires nodes[leaf].next.Some? ==> nodes[leaf].next.value in nodes && nodes[nodes[leaf].next.value].Leaf?
      modifies this`nodes, this`chain, this`meta, this`nextFree
      ensures right == old(nextFree) && nextFree == right + 1
      ensures promoteKey == SplitKey(old(nodes[leaf].records))
      ensures Snapshot() == SplitLeafRaw(old(Snapshot()), leaf, right, old(nodes[leaf].parent))
    {
      right := nextFree;
      var n := nodes[leaf];
      var mid := |n.records| / 2;
      var upper := n.records[mid..];
      var ns := nodes[right := Leaf(upper, n.parent, Some(leaf), n.next)];
      if n.next.Some? {
        var nx := n.next.value;
        ns := ns[nx := ns[nx].(prev := Some(right))];
      }
      ns := ns[leaf := n.(records := n.records[..mid], next := Some(right))];
      ghost var m := meta[leaf := Meta(0, meta[leaf].lo, At(upper[0].id))][right := Meta(0, At(upper[0].id), meta[leaf].hi)];
      nodes, chain, meta, nextFree := ns, InsertAt(chain, IndexOfHandle(chain, leaf) + 1, right), m, nextFree + 1;
      promoteKey := upper[0].id;
    }

    /** The statistics of a split: `totalSplits` counts every split and `parentSplits` the splits
        of internal nodes and the new roots; the tree itself is untouched. */
    method CountSplit(parent: bool, ghost owed: nat)
      requires Owed(owed + 1)
      modifies this`totalSplits, this`parentSplits
      ensures totalSplits == old(totalSplits) + 1
      ensures parentSplits == if parent then old(parentSplits) + 1 else old(parentSplits)
      ensures Snapshot() == old(Snapshot()) && nextFree == old(nextFree) && Owed(owed)
    {
      totalSplits := totalSplits + 1;
      if parent {
        parentSplits := parentSplits + 1;
      }
    }

    /** `insertIntoParent(left, key, right)`: `right` was split off `left` with `key` between
        them. A parentless `left` gets a new root above the two; otherwise the parent takes `key`
        and `right` next to `left`, and splits in turn when it overflows. */
    method InsertIntoParent(left: Handle, key: string, right: Handle, ghost owed: nat)
      requires Pending(Snapshot(), left, key, right, nextFree)
      requires AttachSizes(Snapshot(), left, key, right, nextFree, 0)
      requires Below(nodes, nextFree) && Owed(owed)
      modifies this`nodes, this`root, this`chain, this`meta, this`nextFree, this`totalSplits, this`parentSplits
      ensures Shape(Snapshot()) && SizesOk(Snapshot(), 0) && Below(nodes, nextFree)
      ensures Contents(Snapshot()) == old(Contents(Snapshot()))
      ensures Owed(owed)
      ensures parentSplits - old(parentSplits) == |nodes| - old(|nodes|)
      ensures |nodes| >= old(|nodes|)
      decreases Depth(Snapshot(), left), 1
    {
      if nodes[left].parent.None? {
        NewRoot(left, key, right, owed);
      } else {
        IntoParent(left, key, right, owed);
      }
    }

    /** The first branch of `insertIntoParent`: a new root with the one separator `key` above
        `left` and `right`; the tree grows by a level and both counters count the split. */
    method NewRoot(left: Handle, key: string, right: Handle, ghost owed: nat)
      requires Pending(Snapshot(), left, key, right, nextFree) && nodes[left].parent.None?
      requires AttachSizes(Snapshot(), left, key, right, nextFree, 0)
      requires Below(nodes, nextFree) && Owed(owed)
      modifies this`nodes, this`root, this`meta, this`nextFree, this`totalSplits, this`parentSplits
      ensures Shape(Snapshot()) && SizesOk(Snapshot(), 0) && Below(nodes, nextFree)
      ensures Contents(Snapshot()) == old(Contents(Snapshot()))
      ensures Owed(owed)
      ensures totalSplits == old(totalSplits) + 1 && parentSplits == old(parentSplits) + 1
      ensures |nodes| == old(|nodes|) + 1
    {
      ghost var t := Snapshot();
      AttachContents(t, left, key, right, nextFree);
      GrowRoot(left, key, right);
      CountSplit(true, owed);
      assert SizeOk(Snapshot(), 0, root);
    }

    /** The other branch of `insertIntoParent`: `left`'s parent takes `key` and `right`, and is
        split in turn when that gives it one separator too many. */
    method IntoParent(left: Handle, key: string, right: Handle, ghost owed: nat)
      requires Pending(Snapshot(), left, key, right, nextFree) && nodes[left].parent.Some?
      requires AttachSizes(Snapshot(), left, key, right, nextFree, 0)
      requires Below(nodes, nextFree) && Owed(owed)
      modifies this`nodes, this`root, this`chain, this`meta, this`nextFree, this`totalSplits, this`parentSplits
      ensures Shape(Snapshot()) && SizesOk(Snapshot(), 0) && Below(nodes, nextFree)
      ensures Contents(Snapshot()) == old(Contents(Snapshot()))
      ensures Owed(owed)
      ensures parentSplits - old(parentSplits) == |nodes| - old(|nodes|)
      ensures |nodes| >= old(|nodes|)
      decreases Depth(Snapshot(), left), 0
    {
      ghost var t := Snapshot();
      AttachContents(t, left, key, right, nextFree);
      AttachLevels(t, left, key, right, nextFree);
      var parent := AttachToParent(left, key, right, nextFree);
      if |nodes[parent].keys| > INTERNAL_MAX {
        assert NodeOk(Snapshot(), parent);
        SplitInternal(parent, owed);
      } else {
        assert SizeOk(Snapshot(), 0, parent);
      }
    }

    /** The new root of `insertIntoParent`, allocated at `nextFree`, with `left` and `right` as
        its children. */
    method GrowRoot(left: Handle, key: string, right: Handle)
      requires CanAttach(Snapshot(), left, right) && left == root && nextFree !in nodes
      requires Below(nodes, nextFree)
      modifies this`nodes, this`root, this`meta, this`nextFree
      ensures Snapshot() == Attach(old(Snapshot()), left, key, right, old(nextFree))
      ensures root == old(nextFree) && nextFree == root + 1
      ensures |nodes| == old(|nodes|) + 1 && Below(nodes, nextFree)
    {
      var newRoot := nextFree;
      nextFree := nextFree + 1;
      nodes := nodes[newRoot := Internal([key], [left, right], None)];
      nodes := nodes[left := WithParent(nodes[left], Some(newRoot))];
      nodes := nodes[right := WithParent(nodes[right], Some(newRoot))];
      root := newRoot;
      meta := meta[newRoot := Meta(meta[left].level + 1, NegInf, PosInf)];
    }

    /** `left`'s parent takes `key` and `right` just after `left`, and `right` names it as
        parent. */
    method AttachToParent(left: Handle, key: string, right: Handle, ghost newRoot: Handle) returns (parent: Handle)
      requires CanAttach(Snapshot(), left, right) && left != root
      modifies this`nodes
      ensures parent == AttachTarget(old(Snapshot()), left, newRoot)
      ensures Snapshot() == Attach(old(Snapshot()), left, key, right, newRoot)
      ensures |nodes| == old(|nodes|)
    {
      parent := nodes[left].parent.value;
      var pn := nodes[parent];
      var idx := IndexOfHandle(pn.children, left);
      nodes := nodes[parent := Internal(InsertAt(pn.keys, idx, key), InsertAt(pn.children, idx + 1, right), pn.parent)];
      nodes := nodes[right := WithParent(nodes[right], Some(parent))];
    }

    /** `splitInternal(node)`: an internal node with one separator too many keeps the separators
        before the middle one; a new node takes those after it along with their children, which
        now name it as parent; the middle separator goes up. */
    method SplitInternal(x: Handle, ghost owed: nat)
      requires Shape(Snapshot()) && x in nodes && nodes[x].Internal? && |nodes[x].keys| == INTERNAL_MAX + 1
      requires SizesOkExcept(Snapshot(), 0, x) && Below(nodes, nextFree) && Owed(owed)
      modifies this`nodes, this`root, this`chain, this`meta, this`nextFree, this`totalSplits, this`parentSplits
      ensures Shape(Snapshot()) && SizesOk(Snapshot(), 0) && Below(nodes, nextFree)
      ensures Contents(Snapshot()) == old(Contents(Snapshot()))
      ensures Owed(owed)
      ensures parentSplits - old(parentSplits) == |nodes| - old(|nodes|)
      ensures |nodes| >= old(|nodes|)
      decreases Depth(Snapshot(), x), 2
    {
      var right, promote := CutInternal(x);
      InsertIntoParent(x, promote, right, owed + 1);
      CountSplit(true, owed);
    }

    /** The first half of `splitInternal(x)`: `x` is cut in two around its middle separator
        `promote`, and the tree is pending until the new node `right` is attached. */
    method CutInternal(x: Handle) returns (right: Handle, promote: string)
      requires Shape(Snapshot()) && x in nodes && nodes[x].Internal? && |nodes[x].keys| == INTERNAL_MAX + 1
      requires SizesOkExcept(Snapshot(), 0, x) && Below(nodes, nextFree)
      modifies this`nodes, this`meta, this`nextFree
      ensures Pending(Snapshot(), x, promote, right, nextFree)
      ensures AttachSizes(Snapshot(), x, promote, right, nextFree, 0)
      ensures Below(nodes, nextFree) && Depth(Snapshot(), x) == old(Depth(Snapshot(), x))
      ensures Contents(Snapshot()) == old(Contents(Snapshot())) && |nodes| == old(|nodes|) + 1
    {
      ghost var t := Snapshot();
      ChildrenOf(t, x);
      assert x in meta;
      right, promote := MoveUpperChildren(x);
      SplitInternalReady(t, Snapshot(), x, promote, right, nextFree, 0);
      BelowAdd(t.nodes, nodes, right);
    }

    /** The arena work of `splitInternal(x)`: the new node `right` takes `subList(mid + 1, ..)` of
        the separators and of the children, and the loop over its children makes each name it as
        parent; `x` keeps `subList(0, mid)` of the separators and `subList(0, mid + 1)` of the
        children. */
    method MoveUpperChildren(x: Handle) returns (right: Handle, promote: string)
      requires x in nodes && nodes[x].Internal? && x in meta && nextFree !in nodes
      requires 1 <= |nodes[x].keys| && |nodes[x].children| == |nodes[x].keys| + 1
      requires DistinctHandles(nodes[x].children)
      requires forall c :: c in nodes[x].children ==> c in nodes
      modifies this`nodes, this`meta, this`nextFree
      ensures right == old(nextFree) && nextFree == right + 1
      ensures promote == PromotedKey(old(nodes[x]))
      ensures Snapshot() == SplitInternalRaw(old(Snapshot()), x, right)
    {
      ghost var t := Snapshot();
      right := nextFree;
      var n := nodes[x];
      var mid := |n.keys| / 2;
      promote := n.keys[mid];
      var rightChildren, ns := MoveChildren(nodes, n.children, mid + 1, right);
      ns := ns[x := Internal(n.keys[..mid], n.children[..mid + 1], n.parent)][right := Internal(n.keys[mid + 1..], rightChildren, None)];
      ghost var raw := SplitInternalRaw(t, x, right);
      assert ns.Keys == raw.nodes.Keys;
      assert forall h :: h in ns ==> ns[h] == raw.nodes[h];
      nodes, meta, nextFree := ns, raw.meta, nextFree + 1;
    }

    /** `delete(id)`: false for a missing or blank id, for an id the tree does not hold, and when
        the user does not confirm (`confirmed` is the answer to the console prompt); otherwise the
        record leaves its leaf, with no rebalancing: the nodes, the links and the counters stay
        as they were. */
    method Delete(id: Option<string>, confirmed: bool) returns (ok: bool)
      requires Valid()
      modifies this`nodes
      ensures Valid()
      ensures ok <==> id.Some? && !Blank(id.value) && HasId(old(Records()), id.value) && confirmed
      ensures Records() == if ok then Removed(old(Records()), id.value) else old(Records())
      ensures !ok ==> nodes == old(nodes)
      ensures nodes.Keys == old(nodes.Keys)
    {
      if id.None? {
        return false;
      }
      TrimEmpty(id.value);
      if Trim(id.value) == [] {
        return false;
      }
      var key := id.value;
      var leaf := FindLeaf(nodes, root, key, Snapshot());
      var found := GetRecord(nodes[leaf].records, key);
      if found.None? {
        return false;
      }
      if !confirmed {
        return false;
      }
      RemoveFromLeaf(leaf, key);
      return true;
    }

    /** `leaf.deleteRecord(id)`: the record leaves the leaf; the tree keeps its nodes, and the
        leaf may shrink below half full. */
    method RemoveFromLeaf(leaf: Handle, id: string)
      requires Valid() && leaf in nodes && nodes[leaf].Leaf?
      requires KeyIn(id, meta[leaf].lo, meta[leaf].hi)
      modifies this`nodes
      ensures Valid()
      ensures Records() == Removed(old(Records()), id)
      ensures nodes.Keys == old(nodes.Keys)
    {
      ghost var t := Snapshot();
      var removed, rs := DeleteRecord(nodes[leaf].records, id);
      nodes := nodes[leaf := nodes[leaf].(records := rs)];
      assert Snapshot() == PutRecords(t, leaf, rs);
      RemoveStep(t, leaf, id);
      PutRecordsSizes(t, leaf, rs, 0);
      assert SizeOk(t, 0, leaf);
    }
  }
}
