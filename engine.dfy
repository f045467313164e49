/** The engine of BPlusTree.java: insertion with leaf and internal splits, deletion with borrowing
    and fusion, search, range scan and statistics, over the arena of `Arena`.

    The engine's state is its arena (`nodes`), the root handle, the next unused handle (Java's
    allocator), the four statistics counters, and the ghost leaf chain and per-node metadata that
    describe the arena. `Valid()` says the arena is a well-formed B+ tree within the occupancy
    bounds and that the counters account for every node; `Records()` is what the tree stores. */
module Engine {
  import opened Lex
  import opened Options
  import opened LeafNode
  import opened Arena
  import opened TreeFacts
  import opened InsertSteps
  import opened InternalSplit
  import opened LeafSteps
  import opened LeafRebalance
  import opened InternalRebalance
  import opened RootSteps
  import opened Queries
  import opened DeleteSteps
  import opened Common

  /** The two loops of `splitLeaf`: the records from `mid` on are copied, in order, to a new list,
      then removed from the old one starting from the end. */
  method HalveRecords(rs: seq<PartRecord>, mid: nat) returns (lower: seq<PartRecord>, upper: seq<PartRecord>)
    requires mid <= |rs|
    ensures lower == rs[..mid] && upper == rs[mid..]
    ensures lower + upper == rs
  {
    upper := [];
    var i := mid;
    while i < |rs|
      invariant mid <= i <= |rs| && upper == rs[mid..i]
    {
      upper := upper + [rs[i]];
      i := i + 1;
    }
    lower := rs;
    var k := |lower| - 1;
    while k >= mid
      invariant mid - 1 <= k < |rs| && lower == rs[..k + 1]
    {
      lower := lower[..k];
      k := k - 1;
    }
  }

  /** A copy of `s[lo..hi]`, one element at a time, as `splitInternal` builds its lists. */
  method CopySlice<T>(s: seq<T>, lo: nat, hi: nat) returns (r: seq<T>)
    requires lo <= hi <= |s|
    ensures r == s[lo..hi]
  {
    r := [];
    var i := lo;
    while i < hi
      invariant lo <= i <= hi && r == s[lo..i]
    {
      r := r + [s[i]];
      i := i + 1;
    }
  }

  /** The fusion loop of `handleLeafUnderflow`: every record of `ys`, in order, is added at the
      end of `xs`. */
  method AppendEach(xs: seq<PartRecord>, ys: seq<PartRecord>) returns (r: seq<PartRecord>)
    ensures r == xs + ys
  {
    r := xs;
    var i := 0;
    while i < |ys|
      invariant 0 <= i <= |ys| && r == xs + ys[..i]
    {
      r := r + [ys[i]];
      i := i + 1;
    }
  }

  class BPlusTree {
    var nodes: map<Handle, Node>
    var root: Handle
    var nextFree: Handle
    ghost var chain: seq<Handle>
    ghost var meta: map<Handle, Meta>

    var totalSplits: nat
    var parentSplits: nat
    var totalFusions: nat
    var parentFusions: nat

    ghost function Snapshot(): Tree
      reads this`nodes, this`root, this`chain, this`meta
    {
      Tree(nodes, root, chain, meta)
    }

    /** The records the tree holds, in key order. */
    ghost function Records(): seq<PartRecord>
      reads this`nodes, this`root, this`chain, this`meta
    {
      Contents(Snapshot())
    }

    /** Every split adds one node and every fusion removes one (a fusion of two siblings, or the
        removal of an emptied root), and every split of a parent is also counted as a split. */
    ghost predicate Tally()
      reads this
    {
      Owed(0)
    }

    /** `Tally()` short of `owed` splits that have added their node but are not counted yet. */
    ghost predicate Owed(owed: nat)
      reads this
    {
      |nodes| + totalFusions + parentFusions == 1 + totalSplits + owed && parentSplits <= totalSplits
    }

    ghost predicate Valid()
      reads this
    {
      Shape(Snapshot()) && SizesOk(Snapshot(), LEAF_MIN) && Below(nodes, nextFree) && Tally()
    }

    /** `new BPlusTree()`: a single empty leaf as root. */
    constructor()
      ensures Valid() && Records() == []
      ensures totalSplits == 0 && parentSplits == 0 && totalFusions == 0 && parentFusions == 0
    {
      nodes := map[0 := Leaf([], None, None, None)];
      root := 0;
      nextFree := 1;
      chain := [0];
      meta := map[0 := Meta(0, NegInf, PosInf)];
      totalSplits, parentSplits, totalFusions, parentFusions := 0, 0, 0, 0;
      new;
      EmptyTreeOk(0, LEAF_MIN);
    }

    /** `search(id)`: the record with `id`, when the tree holds one. */
    method Search(id: string) returns (r: Option<PartRecord>)
      requires Valid()
      ensures r.Some? <==> HasId(Records(), id)
      ensures r.Some? ==> r.value == Records()[IndexOf(Records(), id)]
    {
      var leaf := FindLeaf(nodes, root, id, Snapshot());
      r := GetRecord(nodes[leaf].records, id);
      ghost var j := Locate(Snapshot(), leaf, id);
      if r.Some? {
        IndexOfAround(Before(Snapshot(), j), nodes[leaf].records, After(Snapshot(), j), id);
      }
    }

    /** `scanFrom(startId, count)`: the first `count` records whose ids are not below
        `startId`, in key order. */
    method ScanFrom(startId: string, count: int) returns (out: seq<PartRecord>)
      requires Valid()
      ensures out == Take(AtLeast(Records(), startId), count)
    {
      out := Queries.ScanFrom(nodes, root, startId, count, Snapshot());
    }

    /** `computeDepth()`: the number of levels, one more than the height. */
    method ComputeDepth() returns (depth: nat)
      requires Valid()
      ensures depth == Height(Snapshot()) + 1
    {
      depth := Queries.ComputeDepth(nodes, root, Snapshot());
    }

    /** `countAllRecords()`: the number of records the tree holds. */
    method CountAllRecords() returns (count: nat)
      requires Valid()
      ensures count == |Records()|
    {
      count := Queries.CountAllRecords(nodes, root, Snapshot());
    }

    /** `insert(rec)`: refuses a missing record and a duplicate id; otherwise inserts the record in
        key order, splitting the leaf when it overflows. */
    method Insert(rec: Option<PartRecord>) returns (ok: bool)
      requires Valid()
      modifies this
      ensures Valid()
      ensures ok <==> rec.Some? && !HasId(old(Records()), rec.value.id)
      ensures Records() == if ok then Inserted(old(Records()), rec.value) else old(Records())
      ensures !ok ==> Snapshot() == old(Snapshot())
      ensures totalFusions == old(totalFusions) && parentFusions == old(parentFusions)
      ensures |nodes| - old(|nodes|) == totalSplits - old(totalSplits)
      ensures parentSplits - old(parentSplits) == if |nodes| > old(|nodes|) then |nodes| - old(|nodes|) - 1 else 0
    {
      if rec.None? {
        return false;
      }
      var r := rec.value;
      var leaf := FindLeaf(nodes, root, r.id, Snapshot());
      if Contains(nodes[leaf].records, r.id) {
        return false;
      }
      InsertIntoLeaf(leaf, r);
      if |nodes[leaf].records| > LEAF_MAX {
        SplitLeaf(leaf);
      }
      return true;
    }

    /** `leaf.insertSorted(rec)` on the leaf `findLeaf` chose: the tree holds one more record
        and keeps its nodes; only the leaf may now be one record over the maximum. */
    method InsertIntoLeaf(leaf: Handle, rec: PartRecord)
      requires Valid() && leaf in nodes && nodes[leaf].Leaf?
      requires KeyIn(rec.id, meta[leaf].lo, meta[leaf].hi) && !HasId(nodes[leaf].records, rec.id)
      modifies this`nodes
      ensures Shape(Snapshot()) && SizesOkExcept(Snapshot(), LEAF_MIN, leaf) && Below(nodes, nextFree) && Tally()
      ensures leaf in nodes && nodes[leaf].Leaf? && |nodes[leaf].records| <= LEAF_MAX + 1
      ensures |nodes[leaf].records| <= LEAF_MAX ==> SizesOk(Snapshot(), LEAF_MIN)
      ensures Records() == Inserted(old(Records()), rec) && |nodes| == old(|nodes|)
    {
      ghost var t := Snapshot();
      assert NodeOk(t, leaf) && SizeOk(t, LEAF_MIN, leaf);
      var rs := InsertSorted(nodes[leaf].records, rec);
      InsertedSorted(nodes[leaf].records, rec);
      nodes := nodes[leaf := nodes[leaf].(records := rs)];
      assert Snapshot() == PutRecords(t, leaf, rs);
      InsertStep(t, leaf, rec);
      PutRecordsSizes(t, leaf, rs, LEAF_MIN);
    }

    /** `splitLeaf(leaf)`: an overfull leaf keeps its lower half and a new leaf after it in the
        chain takes the upper half; the upper half's first id goes up to the parent. */
    method SplitLeaf(leaf: Handle)
      requires Shape(Snapshot()) && leaf in nodes && nodes[leaf].Leaf?
      requires |nodes[leaf].records| == LEAF_MAX + 1
      requires SizesOkExcept(Snapshot(), LEAF_MIN, leaf) && Below(nodes, nextFree) && Tally()
      modifies this`nodes, this`root, this`chain, this`meta, this`nextFree, this`totalSplits, this`parentSplits
      ensures Valid() && Records() == old(Records())
      ensures |nodes| > old(|nodes|) && parentSplits - old(parentSplits) == |nodes| - old(|nodes|) - 1
    {
      var right, promoteKey := CutLeaf(leaf);
      InsertIntoParent(leaf, promoteKey, right, 1);
      CountSplit(false, 0);
    }

    /** The first half of `splitLeaf(leaf)`: the upper half of the records moves to a new leaf
        `right`, which is linked into the chain after `leaf` and gets `leaf`'s parent; `promoteKey`
        is its first id. The tree is then pending: well-formed once `right` is attached. */
    method CutLeaf(leaf: Handle) returns (right: Handle, promoteKey: string)
      requires Shape(Snapshot()) && leaf in nodes && nodes[leaf].Leaf?
      requires |nodes[leaf].records| == LEAF_MAX + 1
      requires SizesOkExcept(Snapshot(), LEAF_MIN, leaf) && Below(nodes, nextFree)
      modifies this`nodes, this`chain, this`meta, this`nextFree
      ensures Pending(Snapshot(), leaf, promoteKey, right, nextFree)
      ensures AttachSizes(Snapshot(), leaf, promoteKey, right, nextFree, LEAF_MIN)
      ensures Below(nodes, nextFree)
      ensures Contents(Snapshot()) == old(Contents(Snapshot())) && |nodes| == old(|nodes|) + 1
    {
      ghost var t := Snapshot();
      LeafLinks(t, leaf);
      right, promoteKey := MoveUpperHalf(leaf);
      SplitLeafReady(t, Snapshot(), leaf, promoteKey, right, t.nodes[leaf].parent, nextFree, LEAF_MIN);
      BelowAdd(t.nodes, nodes, right);
    }

    /** The arena work of `splitLeaf(leaf)`: the new leaf `right` takes the upper half of the
        records and its place in the sibling links and in the chain. */
    method MoveUpperHalf(leaf: Handle) returns (right: Handle, promoteKey: string)
      requires leaf in nodes && nodes[leaf].Leaf? && leaf in meta && leaf in chain
      requires 2 <= |nodes[leaf].records|
      requires nodes[leaf].next.Some? ==> nodes[leaf].next.value in nodes && nodes[nodes[leaf].next.value].Leaf?
      modifies this`nodes, this`chain, this`meta, this`nextFree
      ensures right == old(nextFree) && nextFree == right + 1
      ensures promoteKey == SplitKey(old(nodes[leaf].records))
      ensures Snapshot() == SplitLeafRaw(old(Snapshot()), leaf, right, old(nodes[leaf].parent))
    {
      right := nextFree;
      var n := nodes[leaf];
      var lower, upper := HalveRecords(n.records, |n.records| / 2);
      var ns := nodes[right := Leaf(upper, n.parent, Some(leaf), n.next)];
      if n.next.Some? {
        var nx := n.next.value;
        ns := ns[nx := ns[nx].(prev := Some(right))];
      }
      ns := ns[leaf := n.(records := lower, next := Some(right))];
      ghost var m := meta[leaf := Meta(0, meta[leaf].lo, At(upper[0].id))][right := Meta(0, At(upper[0].id), meta[leaf].hi)];
      nodes, chain, meta, nextFree := ns, InsertAt(chain, IndexOfHandle(chain, leaf) + 1, right), m, nextFree + 1;
      promoteKey := upper[0].id;
    }

    /** The statistics of a split: `totalSplits` counts every split and `parentSplits` the splits
        of internal nodes and the new roots; the tree itself is untouched. */
    method CountSplit(parent: bool, ghost owed: nat)
      requires Owed(owed + 1)
      modifies this`totalSplits, this`parentSplits
      ensures totalSplits == old(totalSplits) + 1
      ensures parentSplits == if parent then old(parentSplits) + 1 else old(parentSplits)
      ensures Snapshot() == old(Snapshot()) && nextFree == old(nextFree) && Owed(owed)
    {
      totalSplits := totalSplits + 1;
      if parent {
        parentSplits := parentSplits + 1;
      }
    }

    /** `insertIntoParent(left, key, right)`: `right` was split off `left` with `key` between
        them. A parentless `left` gets a new root above the two; otherwise the parent takes `key`
        and `right` next to `left`, and splits in turn when it overflows. */
    method InsertIntoParent(left: Handle, key: string, right: Handle, ghost owed: nat)
      requires Pending(Snapshot(), left, key, right, nextFree)
      requires AttachSizes(Snapshot(), left, key, right, nextFree, LEAF_MIN)
      requires Below(nodes, nextFree) && Owed(owed)
      modifies this`nodes, this`root, this`chain, this`meta, this`nextFree, this`totalSplits, this`parentSplits
      ensures Shape(Snapshot()) && SizesOk(Snapshot(), LEAF_MIN) && Below(nodes, nextFree)
      ensures Contents(Snapshot()) == old(Contents(Snapshot()))
      ensures Owed(owed)
      ensures parentSplits - old(parentSplits) == |nodes| - old(|nodes|)
      ensures |nodes| >= old(|nodes|)
      decreases Depth(Snapshot(), left), 1
    {
      if nodes[left].parent.None? {
        NewRoot(left, key, right, owed);
      } else {
        IntoParent(left, key, right, owed);
      }
    }

    /** The first branch of `insertIntoParent`: a new root with the one separator `key` above
        `left` and `right`; the tree grows by a level and both counters count the split. */
    method NewRoot(left: Handle, key: string, right: Handle, ghost owed: nat)
      requires Pending(Snapshot(), left, key, right, nextFree) && nodes[left].parent.None?
      requires AttachSizes(Snapshot(), left, key, right, nextFree, LEAF_MIN)
      requires Below(nodes, nextFree) && Owed(owed)
      modifies this`nodes, this`root, this`meta, this`nextFree, this`totalSplits, this`parentSplits
      ensures Shape(Snapshot()) && SizesOk(Snapshot(), LEAF_MIN) && Below(nodes, nextFree)
      ensures Contents(Snapshot()) == old(Contents(Snapshot()))
      ensures Owed(owed)
      ensures totalSplits == old(totalSplits) + 1 && parentSplits == old(parentSplits) + 1
      ensures |nodes| == old(|nodes|) + 1
    {
      ghost var t := Snapshot();
      AttachContents(t, left, key, right, nextFree);
      GrowRoot(left, key, right);
      CountSplit(true, owed);
      assert SizeOk(Snapshot(), LEAF_MIN, root);
    }

    /** The other branch of `insertIntoParent`: `left`'s parent takes `key` and `right`, and is
        split in turn when that gives it one separator too many. */
    method IntoParent(left: Handle, key: string, right: Handle, ghost owed: nat)
      requires Pending(Snapshot(), left, key, right, nextFree) && nodes[left].parent.Some?
      requires AttachSizes(Snapshot(), left, key, right, nextFree, LEAF_MIN)
      requires Below(nodes, nextFree) && Owed(owed)
      modifies this`nodes, this`root, this`chain, this`meta, this`nextFree, this`totalSplits, this`parentSplits
      ensures Shape(Snapshot()) && SizesOk(Snapshot(), LEAF_MIN) && Below(nodes, nextFree)
      ensures Contents(Snapshot()) == old(Contents(Snapshot()))
      ensures Owed(owed)
      ensures parentSplits - old(parentSplits) == |nodes| - old(|nodes|)
      ensures |nodes| >= old(|nodes|)
      decreases Depth(Snapshot(), left), 0
    {
      ghost var t := Snapshot();
      AttachContents(t, left, key, right, nextFree);
      AttachLevels(t, left, key, right, nextFree);
      var parent := AttachToParent(left, key, right, nextFree);
      if |nodes[parent].keys| > INTERNAL_MAX {
        assert NodeOk(Snapshot(), parent);
        SplitInternal(parent, owed);
      } else {
        assert SizeOk(Snapshot(), LEAF_MIN, parent);
      }
    }

    /** The new root of `insertIntoParent`, allocated at `nextFree`, with `left` and `right` as
        its children. */
    method GrowRoot(left: Handle, key: string, right: Handle)
      requires CanAttach(Snapshot(), left, right) && left == root && nextFree !in nodes
      requires Below(nodes, nextFree)
      modifies this`nodes, this`root, this`meta, this`nextFree
      ensures Snapshot() == Attach(old(Snapshot()), left, key, right, old(nextFree))
      ensures root == old(nextFree) && nextFree == root + 1
      ensures |nodes| == old(|nodes|) + 1 && Below(nodes, nextFree)
    {
      var newRoot := nextFree;
      nextFree := nextFree + 1;
      nodes := nodes[newRoot := Internal([key], [left, right], None)];
      nodes := nodes[left := WithParent(nodes[left], Some(newRoot))];
      nodes := nodes[right := WithParent(nodes[right], Some(newRoot))];
      root := newRoot;
      meta := meta[newRoot := Meta(meta[left].level + 1, NegInf, PosInf)];
    }

    /** `left`'s parent takes `key` and `right` just after `left`, and `right` names it as
        parent. */
    method AttachToParent(left: Handle, key: string, right: Handle, ghost newRoot: Handle) returns (parent: Handle)
      requires CanAttach(Snapshot(), left, right) && left != root
      modifies this`nodes
      ensures parent == AttachTarget(old(Snapshot()), left, newRoot)
      ensures Snapshot() == Attach(old(Snapshot()), left, key, right, newRoot)
      ensures |nodes| == old(|nodes|)
    {
      parent := nodes[left].parent.value;
      var pn := nodes[parent];
      var idx := IndexOfHandle(pn.children, left);
      nodes := nodes[parent := Internal(InsertAt(pn.keys, idx, key), InsertAt(pn.children, idx + 1, right), pn.parent)];
      nodes := nodes[right := WithParent(nodes[right], Some(parent))];
    }

    /** `splitInternal(node)`: an internal node with one separator too many keeps the separators
        before the middle one; a new node takes those after it along with their children, which
        now name it as parent; the middle separator goes up. */
    method SplitInternal(x: Handle, ghost owed: nat)
      requires Shape(Snapshot()) && x in nodes && nodes[x].Internal? && |nodes[x].keys| == INTERNAL_MAX + 1
      requires SizesOkExcept(Snapshot(), LEAF_MIN, x) && Below(nodes, nextFree) && Owed(owed)
      modifies this`nodes, this`root, this`chain, this`meta, this`nextFree, this`totalSplits, this`parentSplits
      ensures Shape(Snapshot()) && SizesOk(Snapshot(), LEAF_MIN) && Below(nodes, nextFree)
      ensures Contents(Snapshot()) == old(Contents(Snapshot()))
      ensures Owed(owed)
      ensures parentSplits - old(parentSplits) == |nodes| - old(|nodes|)
      ensures |nodes| >= old(|nodes|)
      decreases Depth(Snapshot(), x), 2
    {
      var right, promote := CutInternal(x);
      InsertIntoParent(x, promote, right, owed + 1);
      CountSplit(true, owed);
    }

    /** The first half of `splitInternal(x)`: `x` is cut in two around its middle separator
        `promote`, and the tree is pending until the new node `right` is attached. */
    method CutInternal(x: Handle) returns (right: Handle, promote: string)
      requires Shape(Snapshot()) && x in nodes && nodes[x].Internal? && |nodes[x].keys| == INTERNAL_MAX + 1
      requires SizesOkExcept(Snapshot(), LEAF_MIN, x) && Below(nodes, nextFree)
      modifies this`nodes, this`meta, this`nextFree
      ensures Pending(Snapshot(), x, promote, right, nextFree)
      ensures AttachSizes(Snapshot(), x, promote, right, nextFree, LEAF_MIN)
      ensures Below(nodes, nextFree) && Depth(Snapshot(), x) == old(Depth(Snapshot(), x))
      ensures Contents(Snapshot()) == old(Contents(Snapshot())) && |nodes| == old(|nodes|) + 1
    {
      ghost var t := Snapshot();
      ChildrenOf(t, x);
      assert x in meta;
      right, promote := MoveUpperChildren(x);
      SplitInternalReady(t, Snapshot(), x, promote, right, nextFree, LEAF_MIN);
      BelowAdd(t.nodes, nodes, right);
    }

    /** The arena work of `splitInternal(x)`: the separators after the middle one and the children
        after the middle one move to the new node `right`, and those children name it as parent. */
    method MoveUpperChildren(x: Handle) returns (right: Handle, promote: string)
      requires x in nodes && nodes[x].Internal? && x in meta && nextFree !in nodes
      requires 1 <= |nodes[x].keys| && |nodes[x].children| == |nodes[x].keys| + 1
      requires DistinctHandles(nodes[x].children)
      requires forall c :: c in nodes[x].children ==> c in nodes
      modifies this`nodes, this`meta, this`nextFree
      ensures right == old(nextFree) && nextFree == right + 1
      ensures promote == PromotedKey(old(nodes[x]))
      ensures Snapshot() == SplitInternalRaw(old(Snapshot()), x, right)
    {
      ghost var t := Snapshot();
      right := nextFree;
      var n := nodes[x];
      var mid := |n.keys| / 2;
      promote := n.keys[mid];
      var rightKeys := CopySlice(n.keys, mid + 1, |n.keys|);
      var rightChildren, ns := MoveChildren(nodes, n.children, mid + 1, right);
      var leftKeys := CopySlice(n.keys, 0, mid);
      var leftChildren := CopySlice(n.children, 0, mid + 1);
      ns := ns[x := Internal(leftKeys, leftChildren, n.parent)][right := Internal(rightKeys, rightChildren, None)];
      ghost var raw := SplitInternalRaw(t, x, right);
      assert ns.Keys == raw.nodes.Keys;
      assert forall h :: h in ns ==> ns[h] == raw.nodes[h];
      nodes, meta, nextFree := ns, raw.meta, nextFree + 1;
    }

    // ----- deletion -----

    /** `delete(id)`: refuses an id the tree does not hold; otherwise removes its record from its
        leaf. A root leaf left empty gives way to a fresh empty leaf; any other leaf left below
        the minimum is repaired by `handleLeafUnderflow`. */
    method Delete(id: string) returns (ok: bool)
      requires Valid()
      modifies this
      ensures Valid()
      ensures ok <==> HasId(old(Records()), id)
      ensures Records() == Removed(old(Records()), id)
      ensures !ok ==> Snapshot() == old(Snapshot())
      ensures totalSplits == old(totalSplits) && parentSplits == old(parentSplits)
      ensures !ok ==> totalFusions == old(totalFusions) && parentFusions == old(parentFusions)
      ensures parentFusions - old(parentFusions) == old(Height(Snapshot())) - Height(Snapshot())
      ensures totalFusions - old(totalFusions) == old(|nodes|) - |nodes| - (parentFusions - old(parentFusions))
    {
      var leaf := FindLeaf(nodes, root, id, Snapshot());
      if !Contains(nodes[leaf].records, id) {
        return false;
      }
      RemoveFromLeaf(leaf, id);
      RepairAfterRemoval(leaf);
      return true;
    }

    /** The tail of `delete(id)` once the record is gone: a root leaf left empty is replaced, a
        non-root leaf left below the minimum goes to `handleLeafUnderflow`. */
    method RepairAfterRemoval(leaf: Handle)
      requires Shape(Snapshot()) && SizesOkExcept(Snapshot(), LEAF_MIN, leaf)
      requires Below(nodes, nextFree) && Tally()
      requires leaf in nodes && nodes[leaf].Leaf?
      requires leaf != root ==> LEAF_MIN <= |nodes[leaf].records| + 1
      requires leaf == root || LEAF_MIN <= |nodes[leaf].records| ==> SizesOk(Snapshot(), LEAF_MIN)
      modifies this
      ensures Valid() && Records() == old(Records())
      ensures totalSplits == old(totalSplits) && parentSplits == old(parentSplits)
      ensures parentFusions - old(parentFusions) == old(Height(Snapshot())) - Height(Snapshot())
    {
      if leaf == root && |nodes[leaf].records| == 0 {
        ResetRoot();
      } else if leaf != root && |nodes[leaf].records| < LEAF_MIN {
        HandleLeafUnderflow(leaf);
      }
    }

    /** The removal loop of `delete(id)`: the record with `id` leaves `leaf`; only `leaf` may
        now be below the minimum, and by one record at most. */
    method RemoveFromLeaf(leaf: Handle, id: string)
      requires Valid() && leaf in nodes && nodes[leaf].Leaf?
      requires KeyIn(id, meta[leaf].lo, meta[leaf].hi) && HasId(nodes[leaf].records, id)
      modifies this`nodes
      ensures Shape(Snapshot()) && SizesOkExcept(Snapshot(), LEAF_MIN, leaf)
      ensures Below(nodes, nextFree) && Tally()
      ensures leaf in nodes && nodes[leaf].Leaf?
      ensures leaf != root ==> LEAF_MIN <= |nodes[leaf].records| + 1
      ensures leaf == root || LEAF_MIN <= |nodes[leaf].records| ==> SizesOk(Snapshot(), LEAF_MIN)
      ensures Records() == Removed(old(Records()), id)
    {
      ghost var t := Snapshot();
      assert SizeOk(t, LEAF_MIN, leaf);
      var removed, rs := DeleteRecord(nodes[leaf].records, id);
      nodes := nodes[leaf := nodes[leaf].(records := rs)];
      assert Snapshot() == PutRecords(t, leaf, rs);
      RemoveStep(t, leaf, id);
      PutRecordsSizes(t, leaf, rs, LEAF_MIN);
    }

    /** `root = new LeafNode()`: the root leaf, left empty, gives way to a fresh empty leaf. */
    method ResetRoot()
      requires Shape(Snapshot()) && nodes[root].Leaf? && |nodes[root].records| == 0
      requires Below(nodes, nextFree) && Tally()
      modifies this`nodes, this`root, this`chain, this`meta, this`nextFree
      ensures Snapshot() == EmptyTree(old(nextFree))
      ensures Valid() && old(Records()) == [] && Records() == []
      ensures old(Height(Snapshot())) == 0 && Height(Snapshot()) == 0
    {
      assert NodeOk(Snapshot(), root);
      LeafRootAlone(Snapshot());
      assert Leaves(Snapshot()) == [[]];
      FlattenSingle([]);
      assert |nodes| == |nodes.Keys|;
      ghost var h := nextFree;
      nodes, root, chain, meta, nextFree :=
        map[nextFree := Leaf([], None, None, None)], nextFree, [nextFree], map[nextFree := Meta(0, NegInf, PosInf)], nextFree + 1;
      EmptyTreeOk(h, LEAF_MIN);
    }

    /** `handleLeafUnderflow(leaf)`: a leaf one record short of the minimum borrows a record from
        its left sibling, else from its right sibling, when that sibling can spare one; otherwise
        it is fused with its left sibling, else with its right one, and the parent, one separator
        short, is repaired in turn. A root leaf is left alone. */
    method HandleLeafUnderflow(leaf: Handle)
      requires Shape(Snapshot()) && leaf in nodes && nodes[leaf].Leaf? && |nodes[leaf].records| + 1 == LEAF_MIN
      requires SizesOkExcept(Snapshot(), LEAF_MIN, leaf) && Below(nodes, nextFree) && Tally()
      modifies this`nodes, this`root, this`chain, this`meta, this`totalFusions, this`parentFusions
      ensures Valid() && Records() == old(Records())
      ensures parentFusions - old(parentFusions) == old(Height(Snapshot())) - Height(Snapshot())
    {
      if nodes[leaf].parent.None? {
        assert NodeOk(Snapshot(), leaf);
        return;
      }
      var parent := nodes[leaf].parent.value;
      ghost var t := Snapshot();
      ghost var p, k := ParentIndex(t, leaf);
      var idx := IndexOfHandle(nodes[parent].children, leaf);
      ChildLevel(t, parent, idx);
      assert SizeOk(t, LEAF_MIN, parent);
      var n := |nodes[parent].children|;
      if idx >= 1 {
        ChildLevel(t, parent, idx - 1);
      }
      if idx + 1 < n {
        ChildLevel(t, parent, idx + 1);
      }
      if idx >= 1 && |nodes[nodes[parent].children[idx - 1]].records| > LEAF_MIN {
        BorrowFromLeftLeaf(parent, idx - 1);
        return;
      }
      if idx + 1 < n && |nodes[nodes[parent].children[idx + 1]].records| > LEAF_MIN {
        BorrowFromRightLeaf(parent, idx);
        return;
      }
      if idx >= 1 {
        FuseLeafAndRepair(parent, idx - 1, leaf);
      } else {
        FuseLeafAndRepair(parent, idx, leaf);
      }
    }

    /** The fusion branch of `handleLeafUnderflow`: leaves `i` and `i + 1` of `p` are fused, and
        the parent, one separator short, is repaired; the tree loses a level only when the root
        collapses. */
    method FuseLeafAndRepair(p: Handle, i: nat, x: Handle)
      requires Shape(Snapshot()) && LeafPair(Snapshot(), p, i) && meta[p].level == 1
      requires x == nodes[p].children[i] || x == nodes[p].children[i + 1]
      requires SizesOkExcept(Snapshot(), LEAF_MIN, x) && SizeOk(Snapshot(), LEAF_MIN, p)
      requires LEAF_MIN <= |nodes[nodes[p].children[i]].records| + |nodes[nodes[p].children[i + 1]].records| <= LEAF_MAX
      requires Below(nodes, nextFree) && Tally()
      modifies this`nodes, this`root, this`chain, this`meta, this`totalFusions, this`parentFusions
      ensures Valid() && Records() == old(Records())
      ensures parentFusions - old(parentFusions) == old(Height(Snapshot())) - Height(Snapshot())
    {
      FuseLeafPair(p, i, x);
      RepairParent(p);
    }

    /** The borrow from the left sibling in `handleLeafUnderflow`: leaf `i + 1` of `p`, one
        record short, takes the last record of leaf `i`, which becomes the separator between
        them. */
    method BorrowFromLeftLeaf(p: Handle, i: nat)
      requires Shape(Snapshot()) && LeafPair(Snapshot(), p, i) && meta[p].level == 1
      requires SizesOkExcept(Snapshot(), LEAF_MIN, nodes[p].children[i + 1])
      requires |nodes[nodes[p].children[i + 1]].records| + 1 == LEAF_MIN
      requires LEAF_MIN < |nodes[nodes[p].children[i]].records|
      requires Below(nodes, nextFree) && Tally()
      modifies this`nodes, this`meta
      ensures Valid() && Records() == old(Records())
      ensures Height(Snapshot()) == old(Height(Snapshot()))
    {
      LeafFromLeftReady(Snapshot(), p, i);
      MoveLastRecord(p, i);
    }

    /** The arena work of the borrow from the left sibling. */
    method MoveLastRecord(p: Handle, i: nat)
      requires LeafPair(Snapshot(), p, i) && |nodes[nodes[p].children[i]].records| > 0
      modifies this`nodes, this`meta
      ensures Snapshot() == LeafFromLeft(old(Snapshot()), p, i)
    {
      var pn := nodes[p];
      var left: Handle, leaf: Handle := pn.children[i], pn.children[i + 1];
      var ls := nodes[left].records;
      var borrowed := ls[|ls| - 1];
      var rest := ls[..|ls| - 1];
      var grown := [borrowed] + nodes[leaf].records;
      ghost var m := meta[left := meta[left].(hi := At(borrowed.id))];
      nodes, meta :=
        nodes[left := nodes[left].(records := rest)][leaf := nodes[leaf].(records := grown)]
             [p := Internal(pn.keys[i := grown[0].id], pn.children, pn.parent)],
        m[leaf := meta[leaf].(lo := At(borrowed.id))];
    }

    /** The borrow from the right sibling in `handleLeafUnderflow`: leaf `i` of `p`, one record
        short, takes the first record of leaf `i + 1`, whose new first id becomes the separator
        between them. */
    method BorrowFromRightLeaf(p: Handle, i: nat)
      requires Shape(Snapshot()) && LeafPair(Snapshot(), p, i) && meta[p].level == 1
      requires SizesOkExcept(Snapshot(), LEAF_MIN, nodes[p].children[i])
      requires |nodes[nodes[p].children[i]].records| + 1 == LEAF_MIN
      requires LEAF_MIN < |nodes[nodes[p].children[i + 1]].records|
      requires Below(nodes, nextFree) && Tally()
      modifies this`nodes, this`meta
      ensures Valid() && Records() == old(Records())
      ensures Height(Snapshot()) == old(Height(Snapshot()))
    {
      LeafFromRightReady(Snapshot(), p, i);
      MoveFirstRecord(p, i);
    }

    /** The arena work of the borrow from the right sibling. */
    method MoveFirstRecord(p: Handle, i: nat)
      requires LeafPair(Snapshot(), p, i) && |nodes[nodes[p].children[i + 1]].records| > 1
      modifies this`nodes, this`meta
      ensures Snapshot() == LeafFromRight(old(Snapshot()), p, i)
    {
      var pn := nodes[p];
      var leaf: Handle, right: Handle := pn.children[i], pn.children[i + 1];
      var rs := nodes[right].records;
      var borrowed := rs[0];
      var rest := rs[1..];
      var grown := nodes[leaf].records + [borrowed];
      var keys := pn.keys;
      if |rest| > 0 {
        keys := keys[i := rest[0].id];
      }
      ghost var m := meta[leaf := meta[leaf].(hi := At(rest[0].id))];
      nodes, meta :=
        nodes[leaf := nodes[leaf].(records := grown)][right := nodes[right].(records := rest)]
             [p := Internal(keys, pn.children, pn.parent)],
        m[right := meta[right].(lo := At(rest[0].id))];
    }

    /** The fusion in `handleLeafUnderflow`: leaf `i + 1` of `p` is fused into leaf `i` and
        counted; the parent loses a separator, and only it may now be out of bounds. */
    method FuseLeafPair(p: Handle, i: nat, x: Handle)
      requires Shape(Snapshot()) && LeafPair(Snapshot(), p, i) && meta[p].level == 1
      requires x == nodes[p].children[i] || x == nodes[p].children[i + 1]
      requires SizesOkExcept(Snapshot(), LEAF_MIN, x)
      requires LEAF_MIN <= |nodes[nodes[p].children[i]].records| + |nodes[nodes[p].children[i + 1]].records| <= LEAF_MAX
      requires Below(nodes, nextFree) && Tally()
      modifies this`nodes, this`chain, this`meta, this`totalFusions
      ensures Shape(Snapshot()) && SizesOkExcept(Snapshot(), LEAF_MIN, p) && Below(nodes, nextFree) && Tally()
      ensures Records() == old(Records()) && root == old(root)
      ensures Height(Snapshot()) == old(Height(Snapshot()))
      ensures p in nodes && nodes[p].Internal? && |nodes[p].keys| + 1 == old(|nodes[p].keys|)
    {
      ghost var j := LeafMergeReady(Snapshot(), p, i, x);
      FuseLeaves(p, i, j);
    }

    /** The arena work of a leaf fusion: the left leaf takes the right one's records and its
        place in the sibling links, and the parent drops the right leaf and the separator before
        it. */
    method FuseLeaves(p: Handle, i: nat, ghost j: nat)
      requires MergeCase(Snapshot(), p, i, j)
      modifies this`nodes, this`chain, this`meta, this`totalFusions
      ensures Snapshot() == LeafMerge(old(Snapshot()), p, i, j)
      ensures totalFusions == old(totalFusions) + 1
    {
      var pn := nodes[p];
      var a, b := pn.children[i], pn.children[i + 1];
      var an, bn := nodes[a], nodes[b];
      var merged := AppendEach(an.records, bn.records);
      var ns := nodes[a := Leaf(merged, an.parent, an.prev, bn.next)];
      if bn.next.Some? {
        ns := ns[bn.next.value := ns[bn.next.value].(prev := Some(a))];
      }
      ns := ns[p := Internal(RemoveAt(pn.keys, i), RemoveAt(pn.children, i + 1), pn.parent)];
      nodes, chain, meta, totalFusions :=
        ns - {b}, RemoveAt(chain, j + 1), meta[a := Meta(meta[a].level, meta[a].lo, meta[b].hi)], totalFusions + 1;
    }

    /** The end of both underflow handlers: a root left without separators gives way to its only
        child, and a non-root node left one separator short is repaired by
        `handleInternalUnderflow`. */
    method RepairParent(p: Handle)
      requires Shape(Snapshot()) && p in nodes && nodes[p].Internal?
      requires |nodes[p].keys| < INTERNAL_MAX && (p != root ==> INTERNAL_MIN <= |nodes[p].keys| + 1)
      requires SizesOkExcept(Snapshot(), LEAF_MIN, p) && Below(nodes, nextFree) && Tally()
      modifies this`nodes, this`root, this`meta, this`totalFusions, this`parentFusions
      ensures Valid() && Records() == old(Records())
      ensures parentFusions - old(parentFusions) == old(Height(Snapshot())) - Height(Snapshot())
      decreases Depth(Snapshot(), p), 2
    {
      if p == root && |nodes[p].keys| == 0 {
        CollapseRootNode();
        return;
      }
      if p != root && |nodes[p].keys| < INTERNAL_MIN {
        HandleInternalUnderflow(p);
      } else {
        assert SizeOk(Snapshot(), LEAF_MIN, p);
      }
    }

    /** `root = parent.children.get(0); root.parent = null;`: a root without separators gives
        way to its only child, and the fusion is counted as a parent fusion. */
    method CollapseRootNode()
      requires Shape(Snapshot()) && nodes[root].Internal? && |nodes[root].keys| == 0
      requires SizesOkExcept(Snapshot(), LEAF_MIN, root) && Below(nodes, nextFree) && Tally()
      modifies this`nodes, this`root, this`parentFusions
      ensures Valid() && Records() == old(Records())
      ensures old(Collapsible(Snapshot())) && Snapshot() == CollapseRoot(old(Snapshot()))
      ensures parentFusions == old(parentFusions) + 1
      ensures Height(Snapshot()) + 1 == old(Height(Snapshot()))
    {
      ghost var t := Snapshot();
      assert NodeOk(t, root) && ChildOk(t, root, 0);
      CollapseReady(t);
      var c := nodes[root].children[0];
      nodes, root, parentFusions := (nodes - {root})[c := WithParent(nodes[c], None)], c, parentFusions + 1;
      assert Snapshot() == CollapseRoot(t);
    }

    /** `handleInternalUnderflow(node)`: an internal node one separator short borrows a child
        through the parent from its left sibling, else from its right sibling, when that sibling
        can spare one; otherwise it is fused with its left sibling, else with its right one, and
        the parent is repaired in turn. A root is left alone. */
    method HandleInternalUnderflow(x: Handle)
      requires Shape(Snapshot()) && x in nodes && nodes[x].Internal? && |nodes[x].keys| + 1 == INTERNAL_MIN
      requires SizesOkExcept(Snapshot(), LEAF_MIN, x) && Below(nodes, nextFree) && Tally()
      modifies this`nodes, this`root, this`meta, this`totalFusions, this`parentFusions
      ensures Valid() && Records() == old(Records())
      ensures parentFusions - old(parentFusions) == old(Height(Snapshot())) - Height(Snapshot())
      decreases Depth(Snapshot(), x), 1
    {
      if nodes[x].parent.None? {
        assert NodeOk(Snapshot(), x);
        return;
      }
      var parent := nodes[x].parent.value;
      ghost var t := Snapshot();
      ghost var p, k := ParentIndex(t, x);
      var idx := IndexOfHandle(nodes[parent].children, x);
      ChildLevel(t, parent, idx);
      assert SizeOk(t, LEAF_MIN, parent);
      var n := |nodes[parent].children|;
      if idx >= 1 {
        ChildLevel(t, parent, idx - 1);
      }
      if idx + 1 < n {
        ChildLevel(t, parent, idx + 1);
      }
      if idx >= 1 && |nodes[nodes[parent].children[idx - 1]].keys| > INTERNAL_MIN {
        BorrowFromLeftBranch(parent, idx - 1);
        return;
      }
      if idx + 1 < n && |nodes[nodes[parent].children[idx + 1]].keys| > INTERNAL_MIN {
        BorrowFromRightBranch(parent, idx);
        return;
      }
      if idx >= 1 {
        FuseBranchAndRepair(parent, idx - 1, x);
      } else {
        FuseBranchAndRepair(parent, idx, x);
      }
    }

    /** The fusion branch of `handleInternalUnderflow`: children `i` and `i + 1` of `p` are
        fused, and the parent, one separator short, is repaired in turn. */
    method FuseBranchAndRepair(p: Handle, i: nat, x: Handle)
      requires Shape(Snapshot()) && p in nodes && nodes[p].Internal? && i + 1 < |nodes[p].children|
      requires ChildOk(Snapshot(), p, i) && ChildOk(Snapshot(), p, i + 1) && meta[p].level >= 2
      requires nodes[nodes[p].children[i]].Internal? && nodes[nodes[p].children[i + 1]].Internal?
      requires x == nodes[p].children[i] || x == nodes[p].children[i + 1]
      requires SizesOkExcept(Snapshot(), LEAF_MIN, x) && SizeOk(Snapshot(), LEAF_MIN, p)
      requires INTERNAL_MIN <= |nodes[nodes[p].children[i]].keys| + 1 + |nodes[nodes[p].children[i + 1]].keys| <= INTERNAL_MAX
      requires Below(nodes, nextFree) && Tally()
      modifies this`nodes, this`root, this`meta, this`totalFusions, this`parentFusions
      ensures Valid() && Records() == old(Records())
      ensures parentFusions - old(parentFusions) == old(Height(Snapshot())) - Height(Snapshot())
      decreases Depth(Snapshot(), x), 0
    {
      FuseBranchPair(p, i, x);
      RepairParent(p);
    }

    /** The borrow from the left sibling in `handleInternalUnderflow`: the last separator of
        child `i` of `p` goes up, the parent's separator comes down to the front of child
        `i + 1`, and the last child of `i` moves to the front of `i + 1`. */
    method BorrowFromLeftBranch(p: Handle, i: nat)
      requires Shape(Snapshot()) && p in nodes && nodes[p].Internal? && i + 1 < |nodes[p].children|
      requires ChildOk(Snapshot(), p, i) && ChildOk(Snapshot(), p, i + 1) && meta[p].level >= 2
      requires nodes[nodes[p].children[i]].Internal? && nodes[nodes[p].children[i + 1]].Internal?
      requires SizesOkExcept(Snapshot(), LEAF_MIN, nodes[p].children[i + 1])
      requires |nodes[nodes[p].children[i + 1]].keys| + 1 == INTERNAL_MIN
      requires INTERNAL_MIN < |nodes[nodes[p].children[i]].keys|
      requires Below(nodes, nextFree) && Tally()
      modifies this`nodes, this`meta
      ensures Valid() && Records() == old(Records())
      ensures Height(Snapshot()) == old(Height(Snapshot()))
    {
      ghost var m := BranchFromLeftReady(Snapshot(), p, i);
      MoveLastChild(p, i, m);
    }

    /** The arena work of the borrow from the left sibling. */
    method MoveLastChild(p: Handle, i: nat, ghost m: nat)
      requires BranchPair(Snapshot(), p, i) && Joined(Snapshot(), p, i)
      requires m + 1 == |nodes[nodes[p].children[i]].keys|
      modifies this`nodes, this`meta
      ensures CutOk(old(Snapshot()), p, i, m) && Snapshot() == BranchShift(old(Snapshot()), p, i, m)
    {
      ghost var t := Snapshot();
      var pn := nodes[p];
      var left, node := pn.children[i], pn.children[i + 1];
      var ln, nn := nodes[left], nodes[node];
      var borrowedKey := ln.keys[|ln.keys| - 1];
      var borrowedChild := ln.children[|ln.children| - 1];
      var parentSep := pn.keys[i];
      CutBeforeLast(ln.keys, parentSep, nn.keys, ln.children, nn.children);
      assert borrowedChild == JoinedChildren(t, p, i)[|ln.keys|];
      ghost var u := BranchShift(t, p, i, m);
      var ns := nodes[left := Internal(ln.keys[..|ln.keys| - 1], ln.children[..|ln.children| - 1], ln.parent)]
                     [node := Internal([parentSep] + nn.keys, [borrowedChild] + nn.children, nn.parent)]
                     [p := Internal(pn.keys[i := borrowedKey], pn.children, pn.parent)];
      ns := ns[borrowedChild := WithParent(ns[borrowedChild], Some(node))];
      nodes, meta := ns, u.meta;
    }

    /** The borrow from the right sibling in `handleInternalUnderflow`: the first separator of
        child `i + 1` of `p` goes up, the parent's separator comes down to the end of child `i`,
        and the first child of `i + 1` moves to the end of `i`. */
    method BorrowFromRightBranch(p: Handle, i: nat)
      requires Shape(Snapshot()) && p in nodes && nodes[p].Internal? && i + 1 < |nodes[p].children|
      requires ChildOk(Snapshot(), p, i) && ChildOk(Snapshot(), p, i + 1) && meta[p].level >= 2
      requires nodes[nodes[p].children[i]].Internal? && nodes[nodes[p].children[i + 1]].Internal?
      requires SizesOkExcept(Snapshot(), LEAF_MIN, nodes[p].children[i])
      requires |nodes[nodes[p].children[i]].keys| + 1 == INTERNAL_MIN
      requires INTERNAL_MIN < |nodes[nodes[p].children[i + 1]].keys|
      requires Below(nodes, nextFree) && Tally()
      modifies this`nodes, this`meta
      ensures Valid() && Records() == old(Records())
      ensures Height(Snapshot()) == old(Height(Snapshot()))
    {
      ghost var m := BranchFromRightReady(Snapshot(), p, i);
      MoveFirstChild(p, i, m);
    }

    /** The arena work of the borrow from the right sibling. */
    method MoveFirstChild(p: Handle, i: nat, ghost m: nat)
      requires BranchPair(Snapshot(), p, i) && Joined(Snapshot(), p, i)
      requires m == |nodes[nodes[p].children[i]].keys| + 1 && 1 <= |nodes[nodes[p].children[i + 1]].keys|
      modifies this`nodes, this`meta
      ensures CutOk(old(Snapshot()), p, i, m) && Snapshot() == BranchShift(old(Snapshot()), p, i, m)
    {
      ghost var t := Snapshot();
      var pn := nodes[p];
      var node, right := pn.children[i], pn.children[i + 1];
      var nn, rn := nodes[node], nodes[right];
      var borrowedKey := rn.keys[0];
      var borrowedChild := rn.children[0];
      var parentSep := pn.keys[i];
      CutAfterFirst(nn.keys, parentSep, rn.keys, nn.children, rn.children);
      assert borrowedChild == JoinedChildren(t, p, i)[|nn.keys| + 1];
      ghost var u := BranchShift(t, p, i, m);
      var ns := nodes[node := Internal(nn.keys + [parentSep], nn.children + [borrowedChild], nn.parent)]
                     [right := Internal(rn.keys[1..], rn.children[1..], rn.parent)]
                     [p := Internal(pn.keys[i := borrowedKey], pn.children, pn.parent)];
      ns := ns[borrowedChild := WithParent(ns[borrowedChild], Some(node))];
      nodes, meta := ns, u.meta;
    }

    /** The fusion in `handleInternalUnderflow`: child `i + 1` of `p` is fused into child `i`
        and counted; the parent loses a separator, and only it may now be out of bounds. */
    method FuseBranchPair(p: Handle, i: nat, x: Handle)
      requires Shape(Snapshot()) && p in nodes && nodes[p].Internal? && i + 1 < |nodes[p].children|
      requires ChildOk(Snapshot(), p, i) && ChildOk(Snapshot(), p, i + 1) && meta[p].level >= 2
      requires nodes[nodes[p].children[i]].Internal? && nodes[nodes[p].children[i + 1]].Internal?
      requires x == nodes[p].children[i] || x == nodes[p].children[i + 1]
      requires SizesOkExcept(Snapshot(), LEAF_MIN, x)
      requires INTERNAL_MIN <= |nodes[nodes[p].children[i]].keys| + 1 + |nodes[nodes[p].children[i + 1]].keys| <= INTERNAL_MAX
      requires Below(nodes, nextFree) && Tally()
      modifies this`nodes, this`meta, this`totalFusions
      ensures Shape(Snapshot()) && SizesOkExcept(Snapshot(), LEAF_MIN, p) && Below(nodes, nextFree) && Tally()
      ensures Records() == old(Records()) && root == old(root)
      ensures Height(Snapshot()) == old(Height(Snapshot()))
      ensures p in nodes && nodes[p].Internal? && |nodes[p].keys| + 1 == old(|nodes[p].keys|)
      ensures Depth(Snapshot(), p) + 1 == old(Depth(Snapshot(), x))
    {
      ghost var t := Snapshot();
      JoinedOf(t, p, i);
      BranchMergeReady(t, p, i, x);
      FuseBranches(p, i);
    }

    /** The arena work of an internal fusion: the left node takes the parent's separator, the
        right node's separators and its children, which name it as parent; the parent drops the
        separator and the right node. */
    method FuseBranches(p: Handle, i: nat)
      requires BranchPair(Snapshot(), p, i) && Joined(Snapshot(), p, i)
      modifies this`nodes, this`meta, this`totalFusions
      ensures Snapshot() == BranchMerge(old(Snapshot()), p, i)
      ensures totalFusions == old(totalFusions) + 1
    {
      ghost var t := Snapshot();
      var pn := nodes[p];
      var a, b := pn.children[i], pn.children[i + 1];
      var an, bn := nodes[a], nodes[b];
      var sep := pn.keys[i];
      RightChildren(t, p, i);
      var moved, ns := MoveChildren(nodes, bn.children, 0, a);
      ns := ns[a := Internal(an.keys + [sep] + bn.keys, an.children + bn.children, an.parent)];
      ns := ns[p := Internal(RemoveAt(pn.keys, i), RemoveAt(pn.children, i + 1), pn.parent)];
      ghost var u := BranchMerge(t, p, i);
      assert (ns - {b}).Keys == u.nodes.Keys;
      assert forall h :: h in ns - {b} ==> (ns - {b})[h] == u.nodes[h];
      nodes, meta, totalFusions := ns - {b}, u.meta, totalFusions + 1;
    }
  }
}
