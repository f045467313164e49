/** The repairs of `handleLeafUnderflow` and `handleInternalUnderflow` (BPlusTree.java), each
    gathered into one step: when both nodes of a borrow end within bounds, or the fused node of a
    fusion does, the tree stays well-formed, keeps its records, and every node but possibly the
    parent is within bounds. These are the facts the engine needs after each repair. */
module DeleteSteps {
  import opened Options
  import opened LeafNode
  import opened Arena
  import opened TreeFacts
  import opened LeafRebalance
  import opened InternalRebalance
  import opened RootSteps

  /** A borrow between two sibling leaves that leaves both of them within bounds. */
  lemma LeafShiftReady(t: Tree, p: Handle, i: nat, xs: seq<PartRecord>, ys: seq<PartRecord>, x: Handle)
    requires Shape(t) && LeafPair(t, p, i) && t.meta[p].level == 1
    requires x == t.nodes[p].children[i] || x == t.nodes[p].children[i + 1]
    requires SizesOkExcept(t, LEAF_MIN, x)
    requires xs + ys == t.nodes[t.nodes[p].children[i]].records + t.nodes[t.nodes[p].children[i + 1]].records
    requires LEAF_MIN <= |xs| <= LEAF_MAX && LEAF_MIN <= |ys| <= LEAF_MAX
    ensures Shape(LeafShift(t, p, i, xs, ys)) && SizesOk(LeafShift(t, p, i, xs, ys), LEAF_MIN)
    ensures Contents(LeafShift(t, p, i, xs, ys)) == Contents(t)
    ensures LeafShift(t, p, i, xs, ys).nodes.Keys == t.nodes.Keys
    ensures |LeafShift(t, p, i, xs, ys).nodes| == |t.nodes|
  {
    var j := LeafPairOf(t, p, i);
    ShiftFacts(t, p, i, xs, ys);
    var u := LeafShift(t, p, i, xs, ys);
    ShiftShape(t, u, p, i, xs, ys, j);
    ShiftSizes(t, u, p, i, xs, ys, LEAF_MIN, x);
    assert |u.nodes| == |u.nodes.Keys|;
  }

  /** The borrow from the left sibling: leaf `i` of `p` gives its last record to leaf `i + 1`. */
  ghost function LeafFromLeft(t: Tree, p: Handle, i: nat): Tree
    requires LeafPair(t, p, i) && |t.nodes[t.nodes[p].children[i]].records| > 0
  {
    var xs := t.nodes[t.nodes[p].children[i]].records;
    var ys := t.nodes[t.nodes[p].children[i + 1]].records;
    LeafShift(t, p, i, xs[..|xs| - 1], [xs[|xs| - 1]] + ys)
  }

  /** The borrow from the right sibling: leaf `i + 1` of `p` gives its first record to leaf `i`. */
  ghost function LeafFromRight(t: Tree, p: Handle, i: nat): Tree
    requires LeafPair(t, p, i) && |t.nodes[t.nodes[p].children[i + 1]].records| > 1
  {
    var xs := t.nodes[t.nodes[p].children[i]].records;
    var ys := t.nodes[t.nodes[p].children[i + 1]].records;
    LeafShift(t, p, i, xs + [ys[0]], ys[1..])
  }

  /** Moving the last record of `xs` to the front of `ys` keeps the records in order. */
  lemma LastToFront(xs: seq<PartRecord>, ys: seq<PartRecord>)
    requires |xs| > 0
    ensures xs[..|xs| - 1] + ([xs[|xs| - 1]] + ys) == xs + ys
  {
    assert xs == xs[..|xs| - 1] + [xs[|xs| - 1]];
  }

  /** Moving the first record of `ys` to the back of `xs` keeps the records in order. */
  lemma FirstToBack(xs: seq<PartRecord>, ys: seq<PartRecord>)
    requires |ys| > 0
    ensures (xs + [ys[0]]) + ys[1..] == xs + ys
  {
    assert ys == [ys[0]] + ys[1..];
  }

  /** A leaf one record short of the minimum that borrows from a left sibling holding more than
      the minimum leaves the whole tree within bounds, with the same records. */
  lemma LeafFromLeftReady(t: Tree, p: Handle, i: nat)
    requires Shape(t) && LeafPair(t, p, i) && t.meta[p].level == 1
    requires SizesOkExcept(t, LEAF_MIN, t.nodes[p].children[i + 1])
    requires |t.nodes[t.nodes[p].children[i + 1]].records| + 1 == LEAF_MIN
    requires LEAF_MIN < |t.nodes[t.nodes[p].children[i]].records|
    ensures Shape(LeafFromLeft(t, p, i)) && SizesOk(LeafFromLeft(t, p, i), LEAF_MIN)
    ensures Contents(LeafFromLeft(t, p, i)) == Contents(t)
    ensures LeafFromLeft(t, p, i).nodes.Keys == t.nodes.Keys && |LeafFromLeft(t, p, i).nodes| == |t.nodes|
  {
    var j := LeafPairOf(t, p, i);
    var a := t.nodes[p].children[i];
    var b := t.nodes[p].children[i + 1];
    var xs := t.nodes[a].records;
    var ys := t.nodes[b].records;
    assert SizeOk(t, LEAF_MIN, a);
    LastToFront(xs, ys);
    assert LeafFromLeft(t, p, i) == LeafShift(t, p, i, xs[..|xs| - 1], [xs[|xs| - 1]] + ys);
    LeafShiftReady(t, p, i, xs[..|xs| - 1], [xs[|xs| - 1]] + ys, b);
  }

  /** A leaf one record short of the minimum that borrows from a right sibling holding more than
      the minimum leaves the whole tree within bounds, with the same records. */
  lemma LeafFromRightReady(t: Tree, p: Handle, i: nat)
    requires Shape(t) && LeafPair(t, p, i) && t.meta[p].level == 1
    requires SizesOkExcept(t, LEAF_MIN, t.nodes[p].children[i])
    requires |t.nodes[t.nodes[p].children[i]].records| + 1 == LEAF_MIN
    requires LEAF_MIN < |t.nodes[t.nodes[p].children[i + 1]].records|
    ensures Shape(LeafFromRight(t, p, i)) && SizesOk(LeafFromRight(t, p, i), LEAF_MIN)
    ensures Contents(LeafFromRight(t, p, i)) == Contents(t)
    ensures LeafFromRight(t, p, i).nodes.Keys == t.nodes.Keys && |LeafFromRight(t, p, i).nodes| == |t.nodes|
  {
    var j := LeafPairOf(t, p, i);
    var a := t.nodes[p].children[i];
    var b := t.nodes[p].children[i + 1];
    var xs := t.nodes[a].records;
    var ys := t.nodes[b].records;
    assert SizeOk(t, LEAF_MIN, b);
    FirstToBack(xs, ys);
    assert LeafFromRight(t, p, i) == LeafShift(t, p, i, xs + [ys[0]], ys[1..]);
    LeafShiftReady(t, p, i, xs + [ys[0]], ys[1..], a);
  }

  /** A fusion of two sibling leaves whose records fit in one leaf: the tree loses the right
      leaf, keeps its records, and only the parent, one separator short, may be out of bounds. */
  lemma LeafMergeReady(t: Tree, p: Handle, i: nat, x: Handle) returns (j: nat)
    requires Shape(t) && LeafPair(t, p, i) && t.meta[p].level == 1
    requires x == t.nodes[p].children[i] || x == t.nodes[p].children[i + 1]
    requires SizesOkExcept(t, LEAF_MIN, x)
    requires LEAF_MIN <= |t.nodes[t.nodes[p].children[i]].records| + |t.nodes[t.nodes[p].children[i + 1]].records| <= LEAF_MAX
    ensures MergeCase(t, p, i, j)
    ensures Shape(LeafMerge(t, p, i, j)) && SizesOkExcept(LeafMerge(t, p, i, j), LEAF_MIN, p)
    ensures Contents(LeafMerge(t, p, i, j)) == Contents(t)
    ensures LeafMerge(t, p, i, j).nodes.Keys == t.nodes.Keys - {t.nodes[p].children[i + 1]}
    ensures |LeafMerge(t, p, i, j).nodes| + 1 == |t.nodes|
  {
    j := LeafPairOf(t, p, i);
    var b := t.nodes[p].children[i + 1];
    LeafLinks(t, b);
    ChainDistinct(t);
    assert LinkOk(t, j + 1);
    MergeFacts(t, p, i, j);
    var u := LeafMerge(t, p, i, j);
    MergeShape(t, u, p, i, j);
    MergeSizes(t, u, p, i, j, LEAF_MIN, x);
  }

  /** A borrow through the parent between two sibling internal nodes, cut at `m`, that leaves
      both of them within bounds. */
  lemma BranchShiftReady(t: Tree, p: Handle, i: nat, m: nat, x: Handle)
    requires Shape(t) && BranchPair(t, p, i) && Joined(t, p, i) && CutOk(t, p, i, m)
    requires x == t.nodes[p].children[i] || x == t.nodes[p].children[i + 1]
    requires SizesOkExcept(t, LEAF_MIN, x)
    requires INTERNAL_MIN <= m <= INTERNAL_MAX
    requires INTERNAL_MIN <= |JoinedKeys(t, p, i)| - m - 1 <= INTERNAL_MAX
    ensures Shape(BranchShift(t, p, i, m)) && SizesOk(BranchShift(t, p, i, m), LEAF_MIN)
    ensures Contents(BranchShift(t, p, i, m)) == Contents(t)
    ensures BranchShift(t, p, i, m).nodes.Keys == t.nodes.Keys
    ensures |BranchShift(t, p, i, m).nodes| == |t.nodes|
  {
    BranchShiftFacts(t, p, i, m);
    var u := BranchShift(t, p, i, m);
    BranchShiftShape(t, u, p, i, m);
    BranchShiftSizes(t, u, p, i, m, LEAF_MIN, x);
    assert |u.nodes| == |u.nodes.Keys|;
  }

  /** The borrow of `handleInternalUnderflow` from a left sibling with separators to spare, for a
      right node one separator short: the cut falls before the left node's last separator. */
  lemma BranchFromLeftReady(t: Tree, p: Handle, i: nat) returns (m: nat)
    requires Shape(t) && p in t.nodes && t.nodes[p].Internal? && i + 1 < |t.nodes[p].children|
    requires ChildOk(t, p, i) && ChildOk(t, p, i + 1) && t.meta[p].level >= 2
    requires t.nodes[t.nodes[p].children[i]].Internal? && t.nodes[t.nodes[p].children[i + 1]].Internal?
    requires SizesOkExcept(t, LEAF_MIN, t.nodes[p].children[i + 1])
    requires |t.nodes[t.nodes[p].children[i + 1]].keys| + 1 == INTERNAL_MIN
    requires INTERNAL_MIN < |t.nodes[t.nodes[p].children[i]].keys|
    ensures BranchPair(t, p, i) && Joined(t, p, i) && m + 1 == |t.nodes[t.nodes[p].children[i]].keys|
    ensures var u := BranchShift(t, p, i, m);
      && Shape(u) && SizesOk(u, LEAF_MIN) && Contents(u) == Contents(t)
      && u.nodes.Keys == t.nodes.Keys && |u.nodes| == |t.nodes|
  {
    JoinedOf(t, p, i);
    m := |t.nodes[t.nodes[p].children[i]].keys| - 1;
    assert SizeOk(t, LEAF_MIN, t.nodes[p].children[i]);
    BranchShiftReady(t, p, i, m, t.nodes[p].children[i + 1]);
  }

  /** The borrow of `handleInternalUnderflow` from a right sibling with separators to spare, for
      a left node one separator short: the cut falls after the right node's first separator. */
  lemma BranchFromRightReady(t: Tree, p: Handle, i: nat) returns (m: nat)
    requires Shape(t) && p in t.nodes && t.nodes[p].Internal? && i + 1 < |t.nodes[p].children|
    requires ChildOk(t, p, i) && ChildOk(t, p, i + 1) && t.meta[p].level >= 2
    requires t.nodes[t.nodes[p].children[i]].Internal? && t.nodes[t.nodes[p].children[i + 1]].Internal?
    requires SizesOkExcept(t, LEAF_MIN, t.nodes[p].children[i])
    requires |t.nodes[t.nodes[p].children[i]].keys| + 1 == INTERNAL_MIN
    requires INTERNAL_MIN < |t.nodes[t.nodes[p].children[i + 1]].keys|
    ensures BranchPair(t, p, i) && Joined(t, p, i) && m == |t.nodes[t.nodes[p].children[i]].keys| + 1
    ensures var u := BranchShift(t, p, i, m);
      && Shape(u) && SizesOk(u, LEAF_MIN) && Contents(u) == Contents(t)
      && u.nodes.Keys == t.nodes.Keys && |u.nodes| == |t.nodes|
  {
    JoinedOf(t, p, i);
    m := |t.nodes[t.nodes[p].children[i]].keys| + 1;
    assert SizeOk(t, LEAF_MIN, t.nodes[p].children[i + 1]);
    BranchShiftReady(t, p, i, m, t.nodes[p].children[i]);
  }

  /** A fusion of two sibling internal nodes whose separators, with the parent's between them,
      fit in one node: the tree loses the right node, keeps its records, and only the parent may
      be out of bounds; the parent is one level nearer the root than the pair. */
  lemma BranchMergeReady(t: Tree, p: Handle, i: nat, x: Handle)
    requires Shape(t) && BranchPair(t, p, i) && Joined(t, p, i)
    requires x == t.nodes[p].children[i] || x == t.nodes[p].children[i + 1]
    requires SizesOkExcept(t, LEAF_MIN, x)
    requires INTERNAL_MIN <= |JoinedKeys(t, p, i)| <= INTERNAL_MAX
    ensures Shape(BranchMerge(t, p, i)) && SizesOkExcept(BranchMerge(t, p, i), LEAF_MIN, p)
    ensures Contents(BranchMerge(t, p, i)) == Contents(t)
    ensures BranchMerge(t, p, i).nodes.Keys == t.nodes.Keys - {t.nodes[p].children[i + 1]}
    ensures |BranchMerge(t, p, i).nodes| + 1 == |t.nodes|
    ensures Depth(BranchMerge(t, p, i), p) + 1 == Depth(t, x)
  {
    BranchMergeFacts(t, p, i);
    var u := BranchMerge(t, p, i);
    BranchMergeShape(t, u, p, i);
    BranchMergeSizes(t, u, p, i, LEAF_MIN, x);
    assert NodeOk(t, p) && ChildOk(t, p, i) && ChildOk(t, p, i + 1);
    assert t.root != t.nodes[p].children[i];
  }

  /** Handing the root over to its only child leaves every node within bounds and one node
      fewer. */
  lemma CollapseReady(t: Tree)
    requires Shape(t) && Collapsible(t) && SizesOkExcept(t, LEAF_MIN, t.root)
    ensures Shape(CollapseRoot(t)) && SizesOk(CollapseRoot(t), LEAF_MIN)
    ensures Contents(CollapseRoot(t)) == Contents(t)
    ensures CollapseRoot(t).nodes.Keys <= t.nodes.Keys && |CollapseRoot(t).nodes| + 1 == |t.nodes|
    ensures Height(CollapseRoot(t)) + 1 == Height(t)
  {
    CollapseRootShape(t);
    CollapseRootSizes(t, LEAF_MIN);
  }

  // ----- the joined lists of a borrow through the parent -----

  /** Cut one place before the left node's last separator, the joined separators and children
      give the left node all but its last separator and child, move its last child over, and
      send its last separator up. */
  lemma CutBeforeLast(ak: seq<string>, sep: string, bk: seq<string>, ac: seq<Handle>, bc: seq<Handle>)
    requires |ak| >= 1 && |ac| == |ak| + 1
    ensures var ks := ak + [sep] + bk;
      var cs := ac + bc;
      var m := |ak| - 1;
      && ks[..m] == ak[..|ak| - 1] && ks[m] == ak[|ak| - 1] && ks[m + 1..] == [sep] + bk
      && cs[..m + 1] == ac[..|ac| - 1] && cs[m + 1] == ac[|ac| - 1] && cs[m + 1..] == [ac[|ac| - 1]] + bc
  {
    var ks := ak + [sep] + bk;
    var cs := ac + bc;
    var m := |ak| - 1;
    assert ks[m + 1..] == [sep] + bk;
    assert cs[m + 1..] == [ac[|ac| - 1]] + bc;
  }

  /** Cut one place after the parent's separator, the joined separators and children give the
      left node the parent's separator and the right node's first child, and send the right
      node's first separator up. */
  lemma CutAfterFirst(ak: seq<string>, sep: string, bk: seq<string>, ac: seq<Handle>, bc: seq<Handle>)
    requires |bk| >= 1 && |bc| >= 1 && |ac| == |ak| + 1
    ensures var ks := ak + [sep] + bk;
      var cs := ac + bc;
      var m := |ak| + 1;
      && ks[..m] == ak + [sep] && ks[m] == bk[0] && ks[m + 1..] == bk[1..]
      && cs[..m + 1] == ac + [bc[0]] && cs[m] == bc[0] && cs[m + 1..] == bc[1..]
  {
    var ks := ak + [sep] + bk;
    var cs := ac + bc;
    var m := |ak| + 1;
    assert ks[..m] == ak + [sep];
    assert cs[..m + 1] == ac + [bc[0]];
  }

  /** The right node of a joined pair has distinct children, none of them the pair or the
      parent. */
  lemma RightChildren(t: Tree, p: Handle, i: nat)
    requires BranchPair(t, p, i) && Joined(t, p, i)
    ensures var a := t.nodes[p].children[i];
      var b := t.nodes[p].children[i + 1];
      && DistinctHandles(t.nodes[b].children)
      && forall c :: c in t.nodes[b].children ==> c in t.nodes && c != a && c != b && c != p
  {
    var a := t.nodes[p].children[i];
    var b := t.nodes[p].children[i + 1];
    var cs := JoinedChildren(t, p, i);
    var bc := t.nodes[b].children;
    var na := |t.nodes[a].children|;
    forall x, y | 0 <= x < y < |bc| ensures bc[x] != bc[y] {
      assert bc[x] == cs[na + x] && bc[y] == cs[na + y];
    }
    forall c | c in bc ensures c in t.nodes && c != a && c != b && c != p {
      var q :| 0 <= q < |bc| && bc[q] == c;
      assert cs[na + q] == c;
    }
  }
}
