/** The two repairs `handleLeafUnderflow` makes to a leaf left with too few records, as steps on
    the tree: a borrow, which moves one record across the boundary between two sibling leaves and
    moves their separator with it, and a fusion, which appends the right leaf to the left one and
    drops it from its parent and from the leaf chain. Both keep the tree well-formed and keep its
    records. */
module LeafRebalance {
  import opened Lex
  import opened Options
  import opened LeafNode
  import opened Arena
  import opened TreeFacts
  import opened Frame

  /** Children `i` and `i + 1` of internal node `p` are leaves. */
  ghost predicate LeafPair(t: Tree, p: Handle, i: nat) {
    && p in t.nodes && p in t.meta && t.nodes[p].Internal?
    && i + 1 < |t.nodes[p].children| == |t.nodes[p].keys| + 1
    && t.nodes[p].children[i] in t.nodes && t.nodes[p].children[i + 1] in t.nodes
    && t.nodes[p].children[i] in t.meta && t.nodes[p].children[i + 1] in t.meta
    && t.nodes[t.nodes[p].children[i]].Leaf? && t.nodes[t.nodes[p].children[i + 1]].Leaf?
  }

  lemma LeafPairOf(t: Tree, p: Handle, i: nat) returns (j: nat)
    requires Shape(t) && p in t.nodes && t.nodes[p].Internal? && i + 1 < |t.nodes[p].children|
    requires t.meta[p].level == 1
    ensures LeafPair(t, p, i)
    ensures j + 1 < |t.chain|
    ensures t.chain[j] == t.nodes[p].children[i] && t.chain[j + 1] == t.nodes[p].children[i + 1]
    ensures t.nodes[p].children[i] != t.nodes[p].children[i + 1]
    ensures p != t.nodes[p].children[i] && p != t.nodes[p].children[i + 1]
  {
    j := SiblingsAdjacent(t, p, i);
    ChildrenOf(t, p);
    assert t.nodes[p].children[i] in t.nodes[p].children;
    assert t.nodes[p].children[i + 1] in t.nodes[p].children;
  }

  /** A sorted list cut in two gives two sorted lists, the first wholly below the second. */
  lemma SortedCut(xs: seq<PartRecord>, ys: seq<PartRecord>)
    requires SortedById(xs + ys)
    ensures SortedById(xs) && SortedById(ys)
    ensures forall x, y :: x in xs && y in ys ==> Less(x.id, y.id)
  {
    var s := xs + ys;
    forall i, j | 0 <= i < j < |xs| ensures Less(xs[i].id, xs[j].id) {
      assert xs[i] == s[i] && xs[j] == s[j];
    }
    forall i, j | 0 <= i < j < |ys| ensures Less(ys[i].id, ys[j].id) {
      assert ys[i] == s[|xs| + i] && ys[j] == s[|xs| + j];
    }
    forall x, y | x in xs && y in ys ensures Less(x.id, y.id) {
      var i :| 0 <= i < |xs| && xs[i] == x;
      var j :| 0 <= j < |ys| && ys[j] == y;
      assert s[i] == x && s[|xs| + j] == y;
    }
  }

  /** The records of two neighbouring leaves, taken together, are sorted and lie between the
      lower end of the first and the upper end of the second. */
  lemma PairRecords(t: Tree, p: Handle, i: nat)
    requires Shape(t) && LeafPair(t, p, i)
    ensures var a := t.nodes[p].children[i];
            var b := t.nodes[p].children[i + 1];
            && t.meta[a].hi == t.meta[b].lo == At(t.nodes[p].keys[i])
            && t.meta[a].lo == NodeFence(t, p, i) && t.meta[b].hi == NodeFence(t, p, i + 2)
            && SortedById(t.nodes[a].records + t.nodes[b].records)
            && forall x :: x in t.nodes[a].records + t.nodes[b].records ==>
                 KeyIn(x.id, t.meta[a].lo, t.meta[b].hi)
  {
    var a := t.nodes[p].children[i];
    var b := t.nodes[p].children[i + 1];
    assert NodeOk(t, p);
    assert ChildOk(t, p, i) && ChildOk(t, p, i + 1);
    assert NodeOk(t, a) && NodeOk(t, b);
    var ra := t.nodes[a].records;
    var rb := t.nodes[b].records;
    var k := At(t.nodes[p].keys[i]);
    forall x, y | x in ra && y in rb ensures Less(x.id, y.id) {
      BoundTrans(At(x.id), k, At(y.id));
    }
    SortedConcat(ra, rb);
    forall x | x in ra + rb ensures KeyIn(x.id, t.meta[a].lo, t.meta[b].hi) {
      if x in ra {
        BoundTrans(At(x.id), k, t.meta[b].hi);
      } else {
        BoundTrans(t.meta[a].lo, k, At(x.id));
      }
    }
  }

  // ----- borrowing across the boundary -----

  /** The tree after leaves `i` and `i + 1` of `p` have been given the records `xs` and `ys`, and
      the separator between them has become the first id of `ys`: a borrow from the left sibling
      (`xs` is the sibling's list without its last record) or from the right one (`ys` is the
      sibling's list without its first). */
  ghost function LeafShift(t: Tree, p: Handle, i: nat, xs: seq<PartRecord>, ys: seq<PartRecord>): Tree
    requires LeafPair(t, p, i) && |ys| > 0
  {
    var pn := t.nodes[p];
    var a := pn.children[i];
    var b := pn.children[i + 1];
    var k := ys[0].id;
    var n1 := t.nodes[a := t.nodes[a].(records := xs)];
    var n2 := n1[b := t.nodes[b].(records := ys)];
    var meta := t.meta[a := t.meta[a].(hi := At(k))];
    Tree(n2[p := Internal(pn.keys[i := k], pn.children, pn.parent)], t.root, t.chain,
         meta[b := t.meta[b].(lo := At(k))])
  }

  /** What `LeafShift` does, node by node. */
  ghost predicate ShiftResult(t: Tree, u: Tree, p: Handle, i: nat, xs: seq<PartRecord>, ys: seq<PartRecord>)
    requires LeafPair(t, p, i) && |ys| > 0
  {
    var pn := t.nodes[p];
    var a := pn.children[i];
    var b := pn.children[i + 1];
    var k := ys[0].id;
    && u.root == t.root && u.chain == t.chain
    && u.nodes.Keys == t.nodes.Keys && u.meta.Keys == t.meta.Keys
    && u.nodes[a] == Leaf(xs, t.nodes[a].parent, t.nodes[a].prev, t.nodes[a].next)
    && u.nodes[b] == Leaf(ys, t.nodes[b].parent, t.nodes[b].prev, t.nodes[b].next)
    && u.nodes[p] == Internal(pn.keys[i := k], pn.children, pn.parent)
    && u.meta[a] == Meta(t.meta[a].level, t.meta[a].lo, At(k))
    && u.meta[b] == Meta(t.meta[b].level, At(k), t.meta[b].hi)
    && (forall h :: h in t.nodes && h != a && h != b && h != p ==> u.nodes[h] == t.nodes[h])
    && (forall h :: h in t.meta && h != a && h != b ==> u.meta[h] == t.meta[h])
  }

  lemma ShiftFacts(t: Tree, p: Handle, i: nat, xs: seq<PartRecord>, ys: seq<PartRecord>)
    requires LeafPair(t, p, i) && |ys| > 0
    requires t.nodes[p].children[i] != t.nodes[p].children[i + 1]
    requires p != t.nodes[p].children[i] && p != t.nodes[p].children[i + 1]
    ensures ShiftResult(t, LeafShift(t, p, i, xs, ys), p, i, xs, ys)
  {
  }

  /** The two leaves stay well-formed: `xs` and `ys` split the same sorted records, and the new
      separator lies between them. */
  lemma ShiftLeavesOk(t: Tree, u: Tree, p: Handle, i: nat, xs: seq<PartRecord>, ys: seq<PartRecord>)
    requires Shape(t) && LeafPair(t, p, i) && |xs| > 0 && |ys| > 0
    requires ShiftResult(t, u, p, i, xs, ys)
    requires xs + ys == t.nodes[t.nodes[p].children[i]].records + t.nodes[t.nodes[p].children[i + 1]].records
    ensures NodeOk(u, t.nodes[p].children[i]) && NodeOk(u, t.nodes[p].children[i + 1])
  {
    var a := t.nodes[p].children[i];
    var b := t.nodes[p].children[i + 1];
    var k := ys[0].id;
    PairRecords(t, p, i);
    assert NodeOk(t, a) && NodeOk(t, b) && NodeOk(t, p);
    assert ChildOk(t, p, i) && ChildOk(t, p, i + 1);
    assert t.root != a && t.root != b;
    SortedCut(xs, ys);
    var lo := t.meta[a].lo;
    var hi := t.meta[b].hi;
    forall x | x in xs ensures KeyIn(x.id, lo, At(k)) {
      assert x in xs + ys;
      assert ys[0] in ys;
    }
    forall y | y in ys ensures KeyIn(y.id, At(k), hi) {
      assert y in xs + ys;
      var j :| 0 <= j < |ys| && ys[j] == y;
      if j > 0 {
        assert Less(ys[0].id, ys[j].id);
      }
    }
    assert xs[0] in xs && ys[0] in ys;
    BoundTrans(lo, At(xs[0].id), At(k));
  }

  /** The parent stays well-formed: only the separator between the two leaves moved, and it moved
      together with their shared interval end. */
  lemma ShiftParentOk(t: Tree, u: Tree, p: Handle, i: nat, xs: seq<PartRecord>, ys: seq<PartRecord>)
    requires Shape(t) && LeafPair(t, p, i) && |ys| > 0
    requires ShiftResult(t, u, p, i, xs, ys)
    requires t.nodes[p].children[i] != t.nodes[p].children[i + 1]
    ensures NodeOk(u, p)
  {
    var pn := t.nodes[p];
    var a := pn.children[i];
    var b := pn.children[i + 1];
    var k := ys[0].id;
    var m := t.meta[p];
    assert NodeOk(t, p);
    ChildrenOf(t, p);
    var keys := pn.keys[i := k];
    forall j | 0 <= j < |pn.children| ensures ChildOk(u, p, j) {
      assert ChildOk(t, p, j);
      var c := pn.children[j];
      if j == i {
      } else if j == i + 1 {
      } else {
        assert c != a && c != b by {
          assert pn.children[i] == a && pn.children[i + 1] == b;
        }
        assert Fence(keys, m.lo, m.hi, j) == Fence(pn.keys, m.lo, m.hi, j);
        assert Fence(keys, m.lo, m.hi, j + 1) == Fence(pn.keys, m.lo, m.hi, j + 1);
      }
    }
    if p != t.root {
      var q := t.nodes[p].parent.value;
      assert ParentOk(t, p);
      assert q != a && q != b;
    }
  }

  /** Every other node keeps its fields, its interval and its children. */
  lemma ShiftOtherOk(t: Tree, u: Tree, p: Handle, i: nat, xs: seq<PartRecord>, ys: seq<PartRecord>, h: Handle)
    requires Shape(t) && LeafPair(t, p, i) && |ys| > 0
    requires ShiftResult(t, u, p, i, xs, ys)
    requires h in t.nodes && h != p && h != t.nodes[p].children[i] && h != t.nodes[p].children[i + 1]
    ensures NodeOk(u, h)
  {
    var a := t.nodes[p].children[i];
    var b := t.nodes[p].children[i + 1];
    assert NodeOk(t, h) && NodeOk(t, p);
    assert ChildOk(t, p, i) && ChildOk(t, p, i + 1);
    if h != t.root {
      assert ParentOk(t, h);
      var q := t.nodes[h].parent.value;
      assert q != a && q != b;
    }
    forall c | c in t.nodes && t.nodes[c].parent == Some(h)
      ensures c in u.nodes && c in u.meta && u.nodes[c].parent == Some(h) && u.meta[c] == t.meta[c]
    {
    }
    NodeOkFrame(t, u, h);
  }

  /** Leaf `chain[q]` keeps its links; only the interval end the two leaves share moved. */
  lemma ShiftLinkOk(t: Tree, u: Tree, p: Handle, i: nat, xs: seq<PartRecord>, ys: seq<PartRecord>, j: nat, q: nat)
    requires ChainOk(t) && DistinctHandles(t.chain) && LeafPair(t, p, i) && |ys| > 0
    requires ShiftResult(t, u, p, i, xs, ys)
    requires j + 1 < |t.chain| && t.chain[j] == t.nodes[p].children[i] && t.chain[j + 1] == t.nodes[p].children[i + 1]
    requires q < |t.chain|
    ensures LinkOk(u, q)
  {
    assert LinkOk(t, q);
    var h := t.chain[q];
    assert h != p;
    assert u.nodes[h].Leaf? && u.nodes[h].prev == t.nodes[h].prev && u.nodes[h].next == t.nodes[h].next;
    if q + 1 < |t.chain| && q != j {
      var g := t.chain[q + 1];
      assert h != t.chain[j + 1] || q == j + 1;
      assert q + 1 != j ==> g != t.chain[j];
      assert u.meta[h].hi == t.meta[h].hi;
      assert u.meta[g].lo == t.meta[g].lo;
    }
  }

  /** The chain keeps its leaves and links; only the shared interval end of the two leaves moved. */
  lemma ShiftChainOk(t: Tree, u: Tree, p: Handle, i: nat, xs: seq<PartRecord>, ys: seq<PartRecord>, j: nat)
    requires Shape(t) && LeafPair(t, p, i) && |ys| > 0
    requires ShiftResult(t, u, p, i, xs, ys)
    requires j + 1 < |t.chain| && t.chain[j] == t.nodes[p].children[i] && t.chain[j + 1] == t.nodes[p].children[i + 1]
    ensures ChainOk(u)
  {
    ChainDistinct(t);
    forall q | 0 <= q < |u.chain| ensures LinkOk(u, q) {
      ShiftLinkOk(t, u, p, i, xs, ys, j, q);
    }
    assert LinkOk(t, 0) && LinkOk(t, |t.chain| - 1);
    assert t.chain[0] != t.chain[j + 1];
    assert t.chain[|t.chain| - 1] != t.chain[j];
    forall h | h in u.nodes && u.nodes[h].Leaf? ensures h in u.chain {
      assert h != p;
    }
  }

  /** A borrow keeps the tree well-formed and keeps its records: the two leaves' lists are cut
      differently, but their concatenation is the same. */
  lemma ShiftShape(t: Tree, u: Tree, p: Handle, i: nat, xs: seq<PartRecord>, ys: seq<PartRecord>, j: nat)
    requires Shape(t) && LeafPair(t, p, i) && |xs| > 0 && |ys| > 0
    requires ShiftResult(t, u, p, i, xs, ys)
    requires xs + ys == t.nodes[t.nodes[p].children[i]].records + t.nodes[t.nodes[p].children[i + 1]].records
    requires j + 1 < |t.chain| && t.chain[j] == t.nodes[p].children[i] && t.chain[j + 1] == t.nodes[p].children[i + 1]
    requires p != t.nodes[p].children[i] && t.nodes[p].children[i] != t.nodes[p].children[i + 1]
    ensures Shape(u)
    ensures Contents(u) == Contents(t)
  {
    var a := t.chain[j];
    var b := t.chain[j + 1];
    ShiftLeavesOk(t, u, p, i, xs, ys);
    ShiftParentOk(t, u, p, i, xs, ys);
    forall h | h in u.nodes ensures NodeOk(u, h) {
      if h != p && h != a && h != b {
        ShiftOtherOk(t, u, p, i, xs, ys, h);
      }
    }
    ShiftChainOk(t, u, p, i, xs, ys, j);
    assert NodeOk(t, p) && ChildOk(t, p, i) && ChildOk(t, p, i + 1);
    assert t.root != a && t.root != b;
    ChainDistinct(t);
    ShiftContents(t, u, p, i, xs, ys, j);
  }

  lemma ShiftContents(t: Tree, u: Tree, p: Handle, i: nat, xs: seq<PartRecord>, ys: seq<PartRecord>, j: nat)
    requires ChainOk(t) && DistinctHandles(t.chain) && LeafPair(t, p, i) && |ys| > 0
    requires ShiftResult(t, u, p, i, xs, ys)
    requires xs + ys == t.nodes[t.nodes[p].children[i]].records + t.nodes[t.nodes[p].children[i + 1]].records
    requires j + 1 < |t.chain| && t.chain[j] == t.nodes[p].children[i] && t.chain[j + 1] == t.nodes[p].children[i + 1]
    ensures Contents(u) == Contents(t)
  {
    var a := t.chain[j];
    var b := t.chain[j + 1];
    forall q | 0 <= q < |t.chain| && q != j && q != j + 1 ensures RecordsAt(u, t.chain[q]) == RecordsAt(t, t.chain[q]) {
      assert t.chain[q] != p;
    }
    assert t.chain[..j] + [a, b] + t.chain[j + 2..] == t.chain;
    ContentsSplice(t, u, j, j + 2, [a, b]);
    ListsPair(t, u, a, b);
    LeavesPair(t, j);
  }

  lemma ListsPair(t: Tree, u: Tree, a: Handle, b: Handle)
    ensures Flatten(ListsAt(u, [a, b])) == RecordsAt(u, a) + RecordsAt(u, b)
  {
    assert ListsAt(u, [a, b]) == [RecordsAt(u, a), RecordsAt(u, b)];
    FlattenPair(RecordsAt(u, a), RecordsAt(u, b));
  }

  lemma LeavesPair(t: Tree, j: nat)
    requires j + 1 < |t.chain|
    ensures Flatten(Leaves(t)[j..j + 2]) == RecordsAt(t, t.chain[j]) + RecordsAt(t, t.chain[j + 1])
  {
    assert Leaves(t)[j..j + 2] == [RecordsAt(t, t.chain[j]), RecordsAt(t, t.chain[j + 1])];
    FlattenPair(RecordsAt(t, t.chain[j]), RecordsAt(t, t.chain[j + 1]));
  }

  /** A borrow leaves every node within its bounds when both leaves end up within theirs. */
  lemma ShiftSizes(t: Tree, u: Tree, p: Handle, i: nat, xs: seq<PartRecord>, ys: seq<PartRecord>, leafMin: nat, x: Handle)
    requires LeafPair(t, p, i) && |ys| > 0 && ShiftResult(t, u, p, i, xs, ys)
    requires SizesOkExcept(t, leafMin, x)
    requires x == t.nodes[p].children[i] || x == t.nodes[p].children[i + 1]
    requires leafMin <= |xs| <= LEAF_MAX && leafMin <= |ys| <= LEAF_MAX
    ensures SizesOk(u, leafMin)
  {
    var a := t.nodes[p].children[i];
    var b := t.nodes[p].children[i + 1];
    forall h | h in u.nodes ensures SizeOk(u, leafMin, h) {
      if h != a && h != b {
        assert SizeOk(t, leafMin, h);
      }
    }
  }

  // ----- fusion -----

  /** What a fusion needs to know about the pair besides well-formedness: the two leaves and
      their parent are three different nodes, and the leaf after the right one (if any) is a
      fourth. */
  ghost predicate MergeCase(t: Tree, p: Handle, i: nat, j: nat) {
    && LeafPair(t, p, i)
    && j + 1 < |t.chain|
    && t.chain[j] == t.nodes[p].children[i] && t.chain[j + 1] == t.nodes[p].children[i + 1]
    && var a := t.nodes[p].children[i];
       var b := t.nodes[p].children[i + 1];
       var nx := t.nodes[b].next;
       && a != b && p != a && p != b
       && (nx.Some? ==> nx.value in t.nodes && t.nodes[nx.value].Leaf? && nx.value != a && nx.value != b)
  }

  /** The tree after `handleLeafUnderflow` fused leaf `i + 1` of `p` into leaf `i`: the left leaf
      takes the right one's records and its place in the leaf chain, the leaf after them links
      back to the left one, and the parent drops the right leaf and the separator before it. */
  ghost function LeafMerge(t: Tree, p: Handle, i: nat, j: nat): Tree
    requires MergeCase(t, p, i, j)
  {
    var pn := t.nodes[p];
    var a := pn.children[i];
    var b := pn.children[i + 1];
    var an := t.nodes[a];
    var bn := t.nodes[b];
    var n1 := t.nodes[a := Leaf(an.records + bn.records, an.parent, an.prev, bn.next)];
    var n2 := if bn.next.Some? then n1[bn.next.value := n1[bn.next.value].(prev := Some(a))] else n1;
    var n3 := n2[p := Internal(RemoveAt(pn.keys, i), RemoveAt(pn.children, i + 1), pn.parent)];
    Tree(n3 - {b}, t.root, RemoveAt(t.chain, j + 1),
         t.meta[a := Meta(t.meta[a].level, t.meta[a].lo, t.meta[b].hi)])
  }

  /** What `LeafMerge` does, node by node. */
  ghost predicate MergeResult(t: Tree, u: Tree, p: Handle, i: nat, j: nat)
    requires MergeCase(t, p, i, j)
  {
    var pn := t.nodes[p];
    var a := pn.children[i];
    var b := pn.children[i + 1];
    var an := t.nodes[a];
    var bn := t.nodes[b];
    && u.root == t.root && u.chain == RemoveAt(t.chain, j + 1)
    && u.nodes.Keys == t.nodes.Keys - {b} && u.meta.Keys == t.meta.Keys
    && u.nodes[a] == Leaf(an.records + bn.records, an.parent, an.prev, bn.next)
    && u.nodes[p] == Internal(RemoveAt(pn.keys, i), RemoveAt(pn.children, i + 1), pn.parent)
    && (bn.next.Some? ==>
          var n := t.nodes[bn.next.value];
          u.nodes[bn.next.value] == Leaf(n.records, n.parent, Some(a), n.next))
    && (forall h :: h in t.nodes && h != a && h != b && h != p && Some(h) != bn.next ==> u.nodes[h] == t.nodes[h])
    && (forall h :: h in t.nodes && h != b ==> u.nodes[h].parent == t.nodes[h].parent)
    && u.meta[a] == Meta(t.meta[a].level, t.meta[a].lo, t.meta[b].hi)
    && (forall h :: h in t.meta && h != a ==> u.meta[h] == t.meta[h])
  }

  lemma MergeFacts(t: Tree, p: Handle, i: nat, j: nat)
    requires MergeCase(t, p, i, j)
    ensures MergeResult(t, LeafMerge(t, p, i, j), p, i, j)
  {
  }

  /** The fused leaf holds both lists, still sorted and within the union of the two intervals. */
  lemma MergeLeafOk(t: Tree, u: Tree, p: Handle, i: nat, j: nat)
    requires Shape(t) && MergeCase(t, p, i, j) && MergeResult(t, u, p, i, j)
    ensures NodeOk(u, t.nodes[p].children[i])
  {
    var a := t.nodes[p].children[i];
    var b := t.nodes[p].children[i + 1];
    PairRecords(t, p, i);
    assert NodeOk(t, a) && NodeOk(t, b) && NodeOk(t, p);
    assert ChildOk(t, p, i) && ChildOk(t, p, i + 1);
    assert t.root != a && t.root != b;
    BoundTrans(t.meta[a].lo, t.meta[a].hi, t.meta[b].hi);
    assert RemoveAt(t.nodes[p].children, i + 1)[i] == a;
  }

  /** The parent loses one separator and one child, and the fused leaf's interval is the union of
      the two it replaces, so each remaining child still covers the interval between its
      separators. */
  lemma MergeParentOk(t: Tree, u: Tree, p: Handle, i: nat, j: nat)
    requires Shape(t) && MergeCase(t, p, i, j) && MergeResult(t, u, p, i, j)
    ensures NodeOk(u, p)
  {
    var pn := t.nodes[p];
    var cs := RemoveAt(pn.children, i + 1);
    assert NodeOk(t, p);
    forall q | 0 <= q < |cs| ensures ChildOk(u, p, q) {
      MergeParentChild(t, u, p, i, j, q);
    }
    if p != t.root {
      MergeParentListed(t, u, p, i, j);
    }
  }

  /** Child `q` of the parent after the fusion: the children before the pair, the fused leaf,
      and the children after the pair, one position to the left. */
  lemma MergeParentChild(t: Tree, u: Tree, p: Handle, i: nat, j: nat, q: nat)
    requires Shape(t) && MergeCase(t, p, i, j) && MergeResult(t, u, p, i, j)
    requires q < |t.nodes[p].children| - 1
    ensures ChildOk(u, p, q)
  {
    if q == i {
      MergeParentFused(t, u, p, i, j);
    } else {
      ChildrenOf(t, p);
      assert ChildOk(t, p, if q < i then q else q + 1);
      MergeParentKept(t, u, p, i, j, q);
    }
  }

  /** The fused leaf sits between the separators around the pair, the one between them gone. */
  lemma MergeParentFused(t: Tree, u: Tree, p: Handle, i: nat, j: nat)
    requires Shape(t) && MergeCase(t, p, i, j) && MergeResult(t, u, p, i, j)
    ensures ChildOk(u, p, i)
  {
    var pn := t.nodes[p];
    var a := pn.children[i];
    var m := t.meta[p];
    assert NodeOk(t, p) && ChildOk(t, p, i) && ChildOk(t, p, i + 1);
    assert u.nodes[p].children[i] == a && u.nodes[p].keys == RemoveAt(pn.keys, i);
    FenceRemove(pn.keys, m.lo, m.hi, i, i);
    FenceRemove(pn.keys, m.lo, m.hi, i, i + 1);
  }

  /** A child outside the pair keeps its node and interval, and its separators move with it. */
  lemma MergeParentKept(t: Tree, u: Tree, p: Handle, i: nat, j: nat, q: nat)
    requires MergeCase(t, p, i, j) && MergeResult(t, u, p, i, j)
    requires DistinctHandles(t.nodes[p].children)
    requires q < |t.nodes[p].children| - 1 && q != i
    requires ChildOk(t, p, if q < i then q else q + 1)
    ensures ChildOk(u, p, q)
  {
    var pn := t.nodes[p];
    var a := pn.children[i];
    var b := pn.children[i + 1];
    var m := t.meta[p];
    var r := if q < i then q else q + 1;
    var c := pn.children[r];
    assert u.nodes[p].children[q] == c && u.nodes[p].keys == RemoveAt(pn.keys, i);
    assert c != a && c != b;
    assert u.nodes[c].parent == Some(p) && u.meta[c] == t.meta[c] && u.meta[p] == m;
    FenceRemove(pn.keys, m.lo, m.hi, i, q);
    FenceRemove(pn.keys, m.lo, m.hi, i, q + 1);
  }

  /** The parent, when it is not the root, is still listed by its own parent. */
  lemma MergeParentListed(t: Tree, u: Tree, p: Handle, i: nat, j: nat)
    requires Shape(t) && MergeCase(t, p, i, j) && MergeResult(t, u, p, i, j)
    requires p != t.root
    ensures ParentOk(u, p)
  {
    var a := t.nodes[p].children[i];
    var b := t.nodes[p].children[i + 1];
    var g, k := ParentIndex(t, p);
    assert NodeOk(t, g);
    assert t.nodes[a].Leaf? && t.nodes[b].Leaf?;
    assert g != p && g != a && g != b;
  }

  /** Every other node keeps its contents, its interval and its children, and the parent still
      lists it. */
  lemma MergeOtherOk(t: Tree, u: Tree, p: Handle, i: nat, j: nat, h: Handle)
    requires Shape(t) && MergeCase(t, p, i, j) && MergeResult(t, u, p, i, j)
    requires h in u.nodes && h != p && h != t.nodes[p].children[i]
    ensures NodeOk(u, h)
  {
    assert NodeOk(t, h);
    if h != t.root {
      MergeOtherParent(t, u, p, i, j, h);
    }
    MergeOtherChildren(t, u, p, i, j, h);
    NodeOkFrame(t, u, h);
  }

  /** A node other than the pair and the parent is still listed by its parent. */
  lemma MergeOtherParent(t: Tree, u: Tree, p: Handle, i: nat, j: nat, h: Handle)
    requires Shape(t) && MergeCase(t, p, i, j) && MergeResult(t, u, p, i, j)
    requires h in u.nodes && h != p && h != t.nodes[p].children[i] && h != t.root
    ensures ParentOk(u, h)
  {
    var a := t.nodes[p].children[i];
    var b := t.nodes[p].children[i + 1];
    var g, k := ParentIndex(t, h);
    assert t.nodes[a].Leaf? && t.nodes[b].Leaf?;
    assert g != b && g != a;
    if g == p {
      InRemoveAt(t.nodes[p].children, i + 1, h);
    } else {
      assert Some(g) != t.nodes[b].next;
    }
  }

  /** The children of a node other than the parent keep it as their parent and keep their
      intervals. */
  lemma MergeOtherChildren(t: Tree, u: Tree, p: Handle, i: nat, j: nat, h: Handle)
    requires Shape(t) && MergeCase(t, p, i, j) && MergeResult(t, u, p, i, j)
    requires h in u.nodes && h != p && h != t.nodes[p].children[i]
    ensures forall c :: c in t.nodes && t.nodes[c].parent == Some(h) ==>
      c in u.nodes && c in u.meta && u.nodes[c].parent == Some(h) && u.meta[c] == t.meta[c]
  {
    var a := t.nodes[p].children[i];
    var b := t.nodes[p].children[i + 1];
    assert t.nodes[b].parent == Some(p) && t.nodes[a].parent == Some(p) by {
      assert NodeOk(t, p) && ChildOk(t, p, i) && ChildOk(t, p, i + 1);
    }
  }

  /** Leaf `u.chain[q]` links to its neighbours: the fused leaf to the one after the right leaf,
      and that one back to the fused leaf. */
  lemma MergeLinkOk(t: Tree, u: Tree, p: Handle, i: nat, j: nat, q: nat)
    requires ChainOk(t) && DistinctHandles(t.chain) && MergeCase(t, p, i, j) && MergeResult(t, u, p, i, j)
    requires t.meta[t.chain[j]].hi == t.meta[t.chain[j + 1]].lo
    requires q < |u.chain|
    ensures LinkOk(u, q)
  {
    var a := t.chain[j];
    var b := t.chain[j + 1];
    assert LinkOk(t, j) && LinkOk(t, j + 1);
    if q < j {
      assert LinkOk(t, q);
      assert t.chain[q] != a && t.chain[q] != b && t.chain[q] != p;
      assert Some(t.chain[q]) != t.nodes[b].next by {
        if j + 2 < |t.chain| {
          assert t.chain[q] != t.chain[j + 2];
        }
      }
    } else if q == j {
      if j + 2 < |t.chain| {
        assert LinkOk(t, j + 2);
      }
    } else if q == j + 1 {
      var h := t.chain[j + 2];
      assert LinkOk(t, j + 2);
      if j + 3 < |t.chain| {
        assert LinkOk(t, j + 3);
        assert t.chain[j + 3] != a;
      }
    } else {
      var h := t.chain[q + 1];
      assert LinkOk(t, q + 1) && LinkOk(t, q);
      assert h != a && h != b && h != p && h != t.chain[j + 2];
      if q + 2 < |t.chain| {
        assert t.chain[q + 2] != a;
      }
    }
  }

  lemma MergeLinks(t: Tree, u: Tree, p: Handle, i: nat, j: nat)
    requires ChainOk(t) && DistinctHandles(t.chain) && MergeCase(t, p, i, j) && MergeResult(t, u, p, i, j)
    ensures forall q :: 0 <= q < |u.chain| ==> LinkOk(u, q)
  {
    assert LinkOk(t, j);
    forall q | 0 <= q < |u.chain| ensures LinkOk(u, q) {
      MergeLinkOk(t, u, p, i, j, q);
    }
  }

  lemma MergeListed(t: Tree, u: Tree, p: Handle, i: nat, j: nat)
    requires ChainOk(t) && MergeCase(t, p, i, j) && MergeResult(t, u, p, i, j)
    ensures forall h :: h in u.nodes && u.nodes[h].Leaf? ==> h in u.chain
  {
    var b := t.chain[j + 1];
    forall h | h in u.nodes && u.nodes[h].Leaf? ensures h in u.chain {
      assert h != p && h != b;
      assert h in t.chain;
      InRemoveAt(t.chain, j + 1, h);
    }
  }

  lemma MergeChainOk(t: Tree, u: Tree, p: Handle, i: nat, j: nat)
    requires ChainOk(t) && DistinctHandles(t.chain) && MergeCase(t, p, i, j) && MergeResult(t, u, p, i, j)
    ensures ChainOk(u)
  {
    var b := t.chain[j + 1];
    MergeLinks(t, u, p, i, j);
    MergeListed(t, u, p, i, j);
    assert LinkOk(t, 0) && LinkOk(t, |t.chain| - 1) && LinkOk(t, j);
    assert u.chain[0] == t.chain[0] != b;
  }

  /** A fusion keeps the records: the fused leaf holds the two lists in order. */
  lemma MergeContents(t: Tree, u: Tree, p: Handle, i: nat, j: nat)
    requires ChainOk(t) && DistinctHandles(t.chain) && MergeCase(t, p, i, j) && MergeResult(t, u, p, i, j)
    ensures Contents(u) == Contents(t)
  {
    var a := t.chain[j];
    var b := t.chain[j + 1];
    assert RecordsAt(u, a) == RecordsAt(t, a) + RecordsAt(t, b);
    MergeKeepsOthers(t, u, p, i, j);
    FuseContents(t, u, j);
  }

  /** Chain positions `j` and `j + 1` become one leaf holding both lists, the rest keep theirs:
      the records read in chain order are the same. */
  lemma FuseContents(t: Tree, u: Tree, j: nat)
    requires j + 1 < |t.chain| && u.chain == RemoveAt(t.chain, j + 1)
    requires RecordsAt(u, t.chain[j]) == RecordsAt(t, t.chain[j]) + RecordsAt(t, t.chain[j + 1])
    requires forall q :: 0 <= q < |t.chain| && q != j && q != j + 1 ==> RecordsAt(u, t.chain[q]) == RecordsAt(t, t.chain[q])
    ensures Contents(u) == Contents(t)
  {
    var a := t.chain[j];
    assert u.chain == t.chain[..j] + [a] + t.chain[j + 2..];
    ContentsSplice(t, u, j, j + 2, [a]);
    assert ListsAt(u, [a]) == [RecordsAt(u, a)];
    FlattenSingle(RecordsAt(u, a));
    LeavesPair(t, j);
  }

  lemma MergeKeepsOthers(t: Tree, u: Tree, p: Handle, i: nat, j: nat)
    requires ChainOk(t) && DistinctHandles(t.chain) && MergeCase(t, p, i, j) && MergeResult(t, u, p, i, j)
    ensures forall q :: 0 <= q < |t.chain| && q != j && q != j + 1 ==> RecordsAt(u, t.chain[q]) == RecordsAt(t, t.chain[q])
  {
    var b := t.chain[j + 1];
    forall q | 0 <= q < |t.chain| && q != j && q != j + 1 ensures RecordsAt(u, t.chain[q]) == RecordsAt(t, t.chain[q]) {
      assert t.chain[q] != p && t.chain[q] != b;
    }
  }

  lemma MergeNodesOk(t: Tree, u: Tree, p: Handle, i: nat, j: nat)
    requires Shape(t) && MergeCase(t, p, i, j) && MergeResult(t, u, p, i, j)
    ensures forall h :: h in u.nodes ==> NodeOk(u, h)
  {
    var a := t.chain[j];
    MergeLeafOk(t, u, p, i, j);
    MergeParentOk(t, u, p, i, j);
    forall h | h in u.nodes ensures NodeOk(u, h) {
      if h != p && h != a {
        MergeOtherOk(t, u, p, i, j, h);
      }
    }
  }

  /** A fusion keeps the tree well-formed and keeps its records. */
  lemma MergeShape(t: Tree, u: Tree, p: Handle, i: nat, j: nat)
    requires Shape(t) && MergeCase(t, p, i, j) && MergeResult(t, u, p, i, j)
    ensures Shape(u)
    ensures Contents(u) == Contents(t)
  {
    var a := t.chain[j];
    var b := t.chain[j + 1];
    MergeNodesOk(t, u, p, i, j);
    ChainDistinct(t);
    MergeChainOk(t, u, p, i, j);
    MergeRootOk(t, u, p, i, j);
    MergeContents(t, u, p, i, j);
  }

  /** The root is neither of the fused leaves, so it stays the root with its interval. */
  lemma MergeRootOk(t: Tree, u: Tree, p: Handle, i: nat, j: nat)
    requires Shape(t) && MergeCase(t, p, i, j) && MergeResult(t, u, p, i, j)
    ensures u.root in u.nodes && u.nodes[u.root].parent.None?
    ensures u.meta[u.root].lo == NegInf && u.meta[u.root].hi == PosInf
  {
    var a := t.nodes[p].children[i];
    var b := t.nodes[p].children[i + 1];
    assert NodeOk(t, p);
    assert ChildOk(t, p, i) && ChildOk(t, p, i + 1);
    assert t.root != a && t.root != b;
  }

  /** After a fusion every node but the parent is within its bounds. */
  lemma MergeSizes(t: Tree, u: Tree, p: Handle, i: nat, j: nat, leafMin: nat, x: Handle)
    requires MergeCase(t, p, i, j) && MergeResult(t, u, p, i, j)
    requires SizesOkExcept(t, leafMin, x)
    requires x == t.nodes[p].children[i] || x == t.nodes[p].children[i + 1]
    requires leafMin <= |t.nodes[t.chain[j]].records| + |t.nodes[t.chain[j + 1]].records| <= LEAF_MAX
    ensures SizesOkExcept(u, leafMin, p)
  {
    var a := t.chain[j];
    forall h | h in u.nodes && h != p ensures SizeOk(u, leafMin, h) {
      if h != a {
        assert SizeOk(t, leafMin, h);
      }
    }
  }
}
