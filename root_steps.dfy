/** Replacing the root: the fresh tree of the constructors and of `delete` when the root leaf
    empties, and the shrink step of `handleLeafUnderflow` and `handleInternalUnderflow`, where a
    root left with no separator hands the root over to its only child. */
module RootSteps {
  import opened Options
  import opened LeafNode
  import opened Arena
  import opened TreeFacts
  import opened Frame

  /** A tree made of one empty leaf `h`. */
  ghost function EmptyTree(h: Handle): Tree {
    Tree(map[h := Leaf([], None, None, None)], h, [h], map[h := Meta(0, NegInf, PosInf)])
  }

  /** The one-leaf tree is well-formed, within bounds, of height 0, and holds no record. */
  lemma EmptyTreeOk(h: Handle, leafMin: nat)
    ensures Shape(EmptyTree(h)) && SizesOk(EmptyTree(h), leafMin)
    ensures Contents(EmptyTree(h)) == [] && Height(EmptyTree(h)) == 0
  {
    var t := EmptyTree(h);
    assert NodeOk(t, h);
    assert LinkOk(t, 0);
    assert Leaves(t) == [[]];
    FlattenSingle([]);
  }

  /** The root is an internal node left with no separator and one child. */
  ghost predicate Collapsible(t: Tree) {
    && t.root in t.nodes && t.nodes[t.root].Internal?
    && |t.nodes[t.root].keys| == 0 && |t.nodes[t.root].children| == 1
    && t.nodes[t.root].children[0] in t.nodes
  }

  /** The tree after the root, an internal node without separators, gives way to its only child. */
  ghost function CollapseRoot(t: Tree): Tree
    requires Collapsible(t)
  {
    var c := t.nodes[t.root].children[0];
    var rest := t.nodes - {t.root};
    Tree(rest[c := WithParent(t.nodes[c], None)], c, t.chain, t.meta)
  }

  lemma CollapseNodeOk(t: Tree, h: Handle)
    requires Shape(t) && Collapsible(t)
    requires h in CollapseRoot(t).nodes
    ensures NodeOk(CollapseRoot(t), h)
  {
    var u := CollapseRoot(t);
    var r := t.root;
    var c := t.nodes[r].children[0];
    assert NodeOk(t, r) && ChildOk(t, r, 0);
    assert NodeOk(t, h);
    assert h != r;
    if h != c {
      NonRootBelow(t, h);
      var p, i := ParentIndex(t, h);
      assert p != r;
    }
    if t.nodes[h].Internal? {
      var cs := t.nodes[h].children;
      forall i | 0 <= i < |cs| ensures ChildOk(u, h, i) {
        assert ChildOk(t, h, i);
        NonRootBelow(t, cs[i]);
      }
    }
  }

  lemma CollapseChainOk(t: Tree)
    requires Shape(t) && Collapsible(t)
    ensures ChainOk(CollapseRoot(t)) && Leaves(CollapseRoot(t)) == Leaves(t)
  {
    var u := CollapseRoot(t);
    assert NodeOk(t, t.root);
    ChainOkFrame(t, u);
    assert Leaves(u) == Leaves(t);
  }

  /** Handing the root over to its only child keeps the tree well-formed and its records. */
  lemma CollapseRootShape(t: Tree)
    requires Shape(t) && Collapsible(t)
    ensures Shape(CollapseRoot(t)) && Contents(CollapseRoot(t)) == Contents(t)
  {
    var u := CollapseRoot(t);
    assert NodeOk(t, t.root) && ChildOk(t, t.root, 0);
    forall h | h in u.nodes ensures NodeOk(u, h) {
      CollapseNodeOk(t, h);
    }
    CollapseChainOk(t);
  }

  /** The tree loses its root node and one level, and every node is within bounds. */
  lemma CollapseRootSizes(t: Tree, leafMin: nat)
    requires Shape(t) && Collapsible(t)
    requires SizesOkExcept(t, leafMin, t.root)
    ensures Height(CollapseRoot(t)) + 1 == Height(t)
    ensures SizesOk(CollapseRoot(t), leafMin)
    ensures |CollapseRoot(t).nodes| + 1 == |t.nodes|
  {
    var u := CollapseRoot(t);
    var r := t.root;
    assert NodeOk(t, r) && ChildOk(t, r, 0);
    forall h | h in u.nodes ensures SizeOk(u, leafMin, h) {
      assert SizeOk(t, leafMin, h);
    }
    assert u.nodes.Keys == t.nodes.Keys - {r};
  }
}
