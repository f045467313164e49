/** Splitting an overfull internal node (`splitInternal`, before its call of `insertIntoParent`),
    proved to leave the tree pending: well-formed once the new right node is attached. */
module InternalSplit {
  import opened Options
  import opened Arena
  import opened TreeFacts
  import opened Frame
  import opened InsertSteps

  /** The separator `splitInternal` moves up: the middle one. */
  ghost function PromotedKey(n: Node): string
    requires n.Internal? && 1 <= |n.keys|
  {
    n.keys[|n.keys| / 2]
  }

  /** `splitInternal(x)` up to its call of `insertIntoParent`: `x` keeps the separators before the
      middle one and the children up to it; the new node `r` takes the separators after the middle
      one and the remaining children, which now name `r` as their parent. */
  ghost function SplitInternalRaw(t: Tree, x: Handle, r: Handle): Tree
    requires x in t.nodes && t.nodes[x].Internal? && x in t.meta
    requires 1 <= |t.nodes[x].keys| && |t.nodes[x].children| == |t.nodes[x].keys| + 1
  {
    var n := t.nodes[x];
    var mid := |n.keys| / 2;
    var moved := n.children[mid + 1..];
    var nodes := map h | h in t.nodes.Keys + {r} ::
      if h == r then Internal(n.keys[mid + 1..], moved, None)
      else if h == x then Internal(n.keys[..mid], n.children[..mid + 1], n.parent)
      else if h in moved then WithParent(t.nodes[h], Some(r))
      else t.nodes[h];
    var m := t.meta[x];
    Tree(nodes, t.root, t.chain,
         t.meta[x := Meta(m.level, m.lo, At(n.keys[mid]))][r := Meta(m.level, At(n.keys[mid]), m.hi)])
  }

  /** What the two fact lemmas need about `t` besides `x`'s parent. */
  ghost predicate SplitCase(t: Tree, x: Handle, r: Handle, nr: Handle) {
    && x in t.nodes && t.nodes[x].Internal? && t.nodes.Keys <= t.meta.Keys && t.root in t.nodes
    && 1 <= |t.nodes[x].keys| && |t.nodes[x].children| == |t.nodes[x].keys| + 1
    && r !in t.nodes && nr !in t.nodes && r != nr
    && (forall c :: c in t.nodes[x].children ==> c in t.nodes && c != x)
    && (x == t.root <==> t.nodes[x].parent.None?)
  }

  /** What becomes of each node other than `x`, `r` and the receiving node `q`. */
  ghost predicate OthersAfterSplit(t: Tree, u: Tree, x: Handle, r: Handle, q: Handle)
    requires x in t.nodes && t.nodes[x].Internal?
    requires 1 <= |t.nodes[x].keys| && |t.nodes[x].children| == |t.nodes[x].keys| + 1
  {
    var n := t.nodes[x];
    var moved := n.children[|n.keys| / 2 + 1..];
    && (forall h :: h in t.nodes && h != x && h != q && h in moved ==> h in u.nodes && u.nodes[h] == WithParent(t.nodes[h], Some(r)))
    && (forall h :: h in t.nodes && h != x && h != q && h !in moved ==> h in u.nodes && u.nodes[h] == t.nodes[h])
  }

  /** The tree `u` after internal node `x` was split into `x` and `r` and the middle separator was
      given to `q`: `x`'s parent, or the new root. */
  ghost predicate SplitResult(t: Tree, u: Tree, x: Handle, r: Handle, q: Handle)
  {
    && x in t.nodes && t.nodes[x].Internal? && t.nodes.Keys <= t.meta.Keys && t.root in t.meta
    && 1 <= |t.nodes[x].keys| && |t.nodes[x].children| == |t.nodes[x].keys| + 1
    && r !in t.nodes && r != q && q != x
    && var n := t.nodes[x];
    && var mid := |n.keys| / 2;
    && var m := t.meta[x];
    && u.chain == t.chain
    && u.root == (if x == t.root then q else t.root)
    && u.nodes.Keys == t.nodes.Keys + {r, q}
    && u.nodes.Keys <= u.meta.Keys
    && u.meta[x] == Meta(m.level, m.lo, At(n.keys[mid]))
    && u.meta[r] == Meta(m.level, At(n.keys[mid]), m.hi)
    && (forall h :: h in t.nodes && h != x ==> h in u.meta && u.meta[h] == t.meta[h])
    && u.nodes[x] == Internal(n.keys[..mid], n.children[..mid + 1], Some(q))
    && u.nodes[r] == Internal(n.keys[mid + 1..], n.children[mid + 1..], Some(q))
    && u.nodes[q].Internal?
    && OthersAfterSplit(t, u, x, r, q)
    && (x == t.root ==>
          && q !in t.nodes
          && u.nodes[q] == Internal([n.keys[mid]], [x, r], None)
          && u.meta[q] == Meta(m.level + 1, NegInf, PosInf))
    && (x != t.root ==>
          && n.parent == Some(q) && q in t.nodes && t.nodes[q].Internal?
          && var idx := IndexOfHandle(t.nodes[q].children, x);
          && idx < |t.nodes[q].children|
          && idx <= |t.nodes[q].keys|
          && u.nodes[q] == Internal(InsertAt(t.nodes[q].keys, idx, n.keys[mid]),
                                    InsertAt(t.nodes[q].children, idx + 1, r), t.nodes[q].parent))
  }

  // ----- computing the tree after the split and the attach -----

  lemma RawFacts(t: Tree, x: Handle, r: Handle)
    requires x in t.nodes && t.nodes[x].Internal? && t.nodes.Keys <= t.meta.Keys && r !in t.nodes
    requires 1 <= |t.nodes[x].keys| && |t.nodes[x].children| == |t.nodes[x].keys| + 1
    requires forall c :: c in t.nodes[x].children ==> c in t.nodes && c != x
    ensures var u0 := SplitInternalRaw(t, x, r);
      var n := t.nodes[x];
      && u0.nodes.Keys == t.nodes.Keys + {r}
      && u0.nodes[x] == Internal(n.keys[..|n.keys| / 2], n.children[..|n.keys| / 2 + 1], n.parent)
      && u0.nodes[r] == Internal(n.keys[|n.keys| / 2 + 1..], n.children[|n.keys| / 2 + 1..], None)
      && OthersAfterSplit(t, u0, x, r, x)
  {
  }

  lemma RootSplitFacts(t: Tree, x: Handle, r: Handle, nr: Handle)
    requires SplitCase(t, x, r, nr) && x == t.root && t.root in t.meta
    ensures CanAttach(SplitInternalRaw(t, x, r), x, r)
    ensures SplitResult(t, Attach(SplitInternalRaw(t, x, r), x, PromotedKey(t.nodes[x]), r, nr), x, r, nr)
  {
    RawFacts(t, x, r);
  }

  lemma InnerSplitFacts(t: Tree, x: Handle, r: Handle, nr: Handle, p: Handle)
    requires SplitCase(t, x, r, nr) && x != t.root && t.root in t.meta
    requires t.nodes[x].parent == Some(p) && p in t.nodes && t.nodes[p].Internal? && p != x
    requires p !in t.nodes[x].children && x in t.nodes[p].children
    requires |t.nodes[p].children| == |t.nodes[p].keys| + 1
    ensures CanAttach(SplitInternalRaw(t, x, r), x, r)
    ensures SplitResult(t, Attach(SplitInternalRaw(t, x, r), x, PromotedKey(t.nodes[x]), r, nr), x, r, p)
  {
    RawFacts(t, x, r);
    var u0 := SplitInternalRaw(t, x, r);
    assert u0.nodes[p] == t.nodes[p];
    var u := Attach(u0, x, PromotedKey(t.nodes[x]), r, nr);
    var idx := IndexOfHandle(t.nodes[p].children, x);
    assert u.nodes == u0.nodes[p := Internal(InsertAt(t.nodes[p].keys, idx, PromotedKey(t.nodes[x])),
                                             InsertAt(t.nodes[p].children, idx + 1, r), t.nodes[p].parent)]
                              [r := WithParent(u0.nodes[r], Some(p))];
    assert u.meta == u0.meta && u.root == t.root;
  }

  // ----- the tree after the split and the attach is well-formed -----

  /** Child intervals of the two halves: the left half's children keep their fences, and so do the
      right half's, counted from the middle. */
  lemma FenceSplit(keys: seq<string>, lo: Bound, hi: Bound, mid: nat, i: nat)
    requires mid < |keys|
    ensures i <= mid + 1 ==> Fence(keys[..mid], lo, At(keys[mid]), i) == Fence(keys, lo, hi, i)
    ensures i <= |keys| - mid ==> Fence(keys[mid + 1..], At(keys[mid]), hi, i) == Fence(keys, lo, hi, mid + 1 + i)
  {
  }

  /** Every level of `t` is at most the height of `u`. */
  lemma SplitLevels(t: Tree, u: Tree, x: Handle, r: Handle, q: Handle)
    requires Shape(t) && SplitResult(t, u, x, r, q)
    ensures u.root in u.meta && t.meta[x].level <= u.meta[u.root].level
    ensures forall h :: h in t.nodes ==> t.meta[h].level <= u.meta[u.root].level
  {
    forall h | h in t.nodes ensures t.meta[h].level <= u.meta[u.root].level {
      assert NodeOk(t, h);
    }
  }

  /** `x`'s children, all distinct, are live nodes one level down naming `x` as their parent. */
  lemma SplitChildren(t: Tree, u: Tree, x: Handle, r: Handle, q: Handle)
    requires Shape(t) && SplitResult(t, u, x, r, q)
    ensures NodeOk(t, x) && DistinctHandles(t.nodes[x].children)
    ensures forall c :: c in t.nodes[x].children ==>
      && c in t.nodes && c in t.meta && c != x && c != q && c != r
      && t.nodes[c].parent == Some(x) && t.meta[c].level + 1 == t.meta[x].level
  {
    ChildrenOf(t, x);
    if x != t.root {
      var p, idx := ParentIndex(t, x);
    }
  }

  /** `q` lists both halves, and when it is the old parent it listed `x` with its interval. */
  lemma SplitTargetLists(t: Tree, u: Tree, x: Handle, r: Handle, q: Handle)
    requires Shape(t) && SplitResult(t, u, x, r, q)
    ensures x in u.nodes[q].children && r in u.nodes[q].children
    ensures x != t.root ==> ChildOk(t, q, IndexOfHandle(t.nodes[q].children, x))
  {
    if x != t.root {
      var p, idx := ParentIndex(t, x);
      assert p == q;
      var cs := u.nodes[q].children;
      assert cs[idx] == x && cs[idx + 1] == r;
    } else {
      assert u.nodes[q].children == [x, r];
    }
  }

  /** The middle separator lies strictly inside `x`'s interval. */
  lemma PromotedInside(t: Tree, x: Handle)
    requires Shape(t) && x in t.nodes && t.nodes[x].Internal? && 1 <= |t.nodes[x].keys|
    ensures BLt(t.meta[x].lo, At(PromotedKey(t.nodes[x]))) && BLt(At(PromotedKey(t.nodes[x])), t.meta[x].hi)
  {
    var n := t.nodes[x];
    var mid := |n.keys| / 2;
    assert NodeOk(t, x);
    FenceSteps(t, x);
    FencesIncreasing(n.keys, t.meta[x].lo, t.meta[x].hi, 0, mid + 1);
    FencesIncreasing(n.keys, t.meta[x].lo, t.meta[x].hi, mid + 1, |n.keys| + 1);
  }

  /** What the node-by-node proofs share: where `x`'s children were, and the levels involved. */
  lemma SplitBasics(t: Tree, u: Tree, x: Handle, r: Handle, q: Handle)
    requires Shape(t) && SplitResult(t, u, x, r, q)
    ensures NodeOk(t, x) && DistinctHandles(t.nodes[x].children)
    ensures forall c :: c in t.nodes[x].children ==>
      && c in t.nodes && c in t.meta && c != x && c != q && c != r
      && t.nodes[c].parent == Some(x) && t.meta[c].level + 1 == t.meta[x].level
    ensures u.root in u.meta && t.meta[x].level <= u.meta[u.root].level
    ensures forall h :: h in t.nodes ==> t.meta[h].level <= u.meta[u.root].level
    ensures x in u.nodes[q].children && r in u.nodes[q].children
    ensures BLt(t.meta[x].lo, At(PromotedKey(t.nodes[x]))) && BLt(At(PromotedKey(t.nodes[x])), t.meta[x].hi)
    ensures x != t.root ==> ChildOk(t, q, IndexOfHandle(t.nodes[q].children, x))
  {
    SplitChildren(t, u, x, r, q);
    SplitLevels(t, u, x, r, q);
    SplitTargetLists(t, u, x, r, q);
    PromotedInside(t, x);
  }

  /** The receiving node is not one of `x`'s children. */
  lemma TargetNotChild(t: Tree, u: Tree, x: Handle, r: Handle, q: Handle)
    requires Shape(t) && SplitResult(t, u, x, r, q)
    ensures q !in t.nodes[x].children && r !in t.nodes[x].children
  {
    ChildrenOf(t, x);
    if x != t.root {
      var p, idx := ParentIndex(t, x);
    }
  }

  /** Child `i` of the left half is child `i` of `x`, untouched. */
  lemma KeptChild(t: Tree, u: Tree, x: Handle, r: Handle, q: Handle, i: nat)
    requires Shape(t) && SplitResult(t, u, x, r, q) && i <= |t.nodes[x].keys| / 2
    ensures var c := t.nodes[x].children[i];
      && ChildOk(t, x, i) && u.nodes[x].children[i] == c
      && c in u.nodes && c in u.meta && u.nodes[c] == t.nodes[c] && u.meta[c] == t.meta[c]
  {
    ChildrenOf(t, x);
    TargetNotChild(t, u, x, r, q);
    var n := t.nodes[x];
    var c := n.children[i];
    assert c in n.children;
    assert ChildOk(t, x, i);
    assert c !in n.children[|n.keys| / 2 + 1..];
  }

  /** Child `i` of the left half is where it was, with the interval it had. */
  lemma LeftChildOk(t: Tree, u: Tree, x: Handle, r: Handle, q: Handle, i: nat)
    requires Shape(t) && SplitResult(t, u, x, r, q) && i <= |t.nodes[x].keys| / 2
    ensures ChildOk(u, x, i)
  {
    KeptChild(t, u, x, r, q, i);
    var n := t.nodes[x];
    var m := t.meta[x];
    var mid := |n.keys| / 2;
    var c := n.children[i];
    FenceSplit(n.keys, m.lo, m.hi, mid, i);
    FenceSplit(n.keys, m.lo, m.hi, mid, i + 1);
    assert u.nodes[x].keys == n.keys[..mid] && u.meta[x] == Meta(m.level, m.lo, At(n.keys[mid]));
    assert u.meta[c].lo == Fence(n.keys[..mid], m.lo, At(n.keys[mid]), i);
    assert u.meta[c].hi == Fence(n.keys[..mid], m.lo, At(n.keys[mid]), i + 1);
  }

  /** Child `i` of the right half is child `mid + 1 + i` of `x`, now naming `r` as its parent. */
  lemma MovedChild(t: Tree, u: Tree, x: Handle, r: Handle, q: Handle, i: nat)
    requires Shape(t) && SplitResult(t, u, x, r, q) && i < |t.nodes[x].keys| - |t.nodes[x].keys| / 2
    ensures var n := t.nodes[x];
      var c := n.children[|n.keys| / 2 + 1 + i];
      && ChildOk(t, x, |n.keys| / 2 + 1 + i)
      && u.nodes[r].children[i] == c && c in u.nodes && c in u.meta
      && u.nodes[c].parent == Some(r) && u.meta[c] == t.meta[c]
  {
    ChildrenOf(t, x);
    TargetNotChild(t, u, x, r, q);
    var n := t.nodes[x];
    var mid := |n.keys| / 2;
    var moved := n.children[mid + 1..];
    var c := n.children[mid + 1 + i];
    assert c == moved[i];
    assert c in n.children;
    assert u.nodes[c] == WithParent(t.nodes[c], Some(r));
  }

  /** Child `i` of the right half was child `mid + 1 + i` of `x`, with the same interval. */
  lemma RightChildOk(t: Tree, u: Tree, x: Handle, r: Handle, q: Handle, i: nat)
    requires Shape(t) && SplitResult(t, u, x, r, q) && i < |t.nodes[x].keys| - |t.nodes[x].keys| / 2
    ensures ChildOk(u, r, i)
  {
    MovedChild(t, u, x, r, q, i);
    var n := t.nodes[x];
    var m := t.meta[x];
    var mid := |n.keys| / 2;
    var c := n.children[mid + 1 + i];
    FenceSplit(n.keys, m.lo, m.hi, mid, i);
    FenceSplit(n.keys, m.lo, m.hi, mid, i + 1);
    assert u.nodes[r].keys == n.keys[mid + 1..] && u.meta[r] == Meta(m.level, At(n.keys[mid]), m.hi);
    assert u.meta[c].lo == Fence(n.keys[mid + 1..], At(n.keys[mid]), m.hi, i);
    assert u.meta[c].hi == Fence(n.keys[mid + 1..], At(n.keys[mid]), m.hi, i + 1);
  }

  /** The two halves are well-formed. */
  lemma SplitHalvesOk(t: Tree, u: Tree, x: Handle, r: Handle, q: Handle)
    requires Shape(t) && SplitResult(t, u, x, r, q)
    ensures NodeOk(u, x) && NodeOk(u, r)
  {
    SplitBasics(t, u, x, r, q);
    var n := t.nodes[x];
    var mid := |n.keys| / 2;
    forall i | 0 <= i <= mid ensures ChildOk(u, x, i) {
      LeftChildOk(t, u, x, r, q, i);
    }
    forall i | 0 <= i < |n.keys| - mid ensures ChildOk(u, r, i) {
      RightChildOk(t, u, x, r, q, i);
    }
  }

  /** A node other than the two halves and the receiving node is still listed by its parent. */
  lemma SplitParentOk(t: Tree, u: Tree, x: Handle, r: Handle, q: Handle, h: Handle)
    requires Shape(t) && SplitResult(t, u, x, r, q)
    requires h in t.nodes && h != x && (h == q ==> x != t.root) && h != u.root
    ensures ParentOk(u, h)
  {
    SplitBasics(t, u, x, r, q);
    var n := t.nodes[x];
    var mid := |n.keys| / 2;
    var moved := n.children[mid + 1..];
    if h in moved {
      assert u.nodes[h].parent == Some(r);
    } else {
      var pp, i := ParentIndex(t, h);
      assert u.nodes[h].parent == Some(pp);
      if pp == x {
        assert u.nodes[x].children[i] == h;
      } else if pp == q {
        InsertAtKeeps(t.nodes[q].children, IndexOfHandle(t.nodes[q].children, x) + 1, r, h);
      } else {
        assert h in t.nodes[pp].children;
      }
    }
  }

  /** A node other than the two halves and the receiving node keeps its well-formedness. */
  lemma SplitOtherNodeOk(t: Tree, u: Tree, x: Handle, r: Handle, q: Handle, h: Handle)
    requires Shape(t) && SplitResult(t, u, x, r, q)
    requires h in t.nodes && h != x && h != q
    ensures NodeOk(u, h)
  {
    SplitBasics(t, u, x, r, q);
    var n := t.nodes[x];
    var moved := n.children[|n.keys| / 2 + 1..];
    if h != u.root {
      SplitParentOk(t, u, x, r, q, h);
    }
    forall c | c in t.nodes && t.nodes[c].parent == Some(h)
      ensures c in u.nodes && c in u.meta && u.nodes[c].parent == Some(h) && u.meta[c] == t.meta[c]
    {
      assert c != x;
    }
    NodeOkFrame(t, u, h);
  }

  /** A new root made of the two halves is well-formed. */
  lemma SplitNewRootOk(t: Tree, u: Tree, x: Handle, r: Handle, q: Handle)
    requires Shape(t) && SplitResult(t, u, x, r, q) && x == t.root
    ensures NodeOk(u, q)
  {
    SplitBasics(t, u, x, r, q);
    assert ChildOk(u, q, 0);
    assert ChildOk(u, q, 1);
  }

  /** The children the parent had besides `x` keep it as their parent, with their intervals. */
  lemma SplitTargetChildren(t: Tree, u: Tree, x: Handle, r: Handle, q: Handle)
    requires Shape(t) && SplitResult(t, u, x, r, q) && x != t.root
    ensures forall c :: c in t.nodes && t.nodes[c].parent == Some(q) && c != x ==>
      c in u.nodes && c in u.meta && u.nodes[c].parent == Some(q) && u.meta[c] == t.meta[c]
  {
    var n := t.nodes[x];
    var moved := n.children[|n.keys| / 2 + 1..];
    forall c | c in t.nodes && t.nodes[c].parent == Some(q) && c != x
      ensures c in u.nodes && c in u.meta && u.nodes[c].parent == Some(q) && u.meta[c] == t.meta[c]
    {
      var pp, i := ParentIndex(t, c);
      assert c != q;
      if c in moved {
        ChildrenOf(t, x);
        assert false;
      }
    }
  }

  /** The parent that received the middle separator is well-formed. */
  lemma SplitParentTargetOk(t: Tree, u: Tree, x: Handle, r: Handle, q: Handle)
    requires Shape(t) && SplitResult(t, u, x, r, q) && x != t.root
    ensures NodeOk(u, q)
  {
    SplitBasics(t, u, x, r, q);
    var idx := IndexOfHandle(t.nodes[q].children, x);
    var n := t.nodes[x];
    if q != u.root {
      SplitParentOk(t, u, x, r, q, q);
    }
    SplitTargetChildren(t, u, x, r, q);
    InsertedParentOk(t, u, q, idx, PromotedKey(n), x, r);
  }

  /** The node that received the middle separator is well-formed. */
  lemma SplitTargetOk(t: Tree, u: Tree, x: Handle, r: Handle, q: Handle)
    requires Shape(t) && SplitResult(t, u, x, r, q)
    ensures NodeOk(u, q)
  {
    if x == t.root {
      SplitNewRootOk(t, u, x, r, q);
    } else {
      SplitParentTargetOk(t, u, x, r, q);
    }
  }

  /** The leaves, their links and their intervals are untouched. */
  lemma SplitChainOk(t: Tree, u: Tree, x: Handle, r: Handle, q: Handle)
    requires Shape(t) && SplitResult(t, u, x, r, q)
    ensures ChainOk(u)
  {
    forall h | h in t.nodes && t.nodes[h].Leaf?
      ensures h in u.nodes && u.nodes[h].Leaf? && u.meta[h] == t.meta[h]
      ensures u.nodes[h].prev == t.nodes[h].prev && u.nodes[h].next == t.nodes[h].next
    {
    }
    ChainOkFrame(t, u);
  }

  /** The root of `u` has no parent and spans the whole key space. */
  lemma SplitRootOk(t: Tree, u: Tree, x: Handle, r: Handle, q: Handle)
    requires Shape(t) && SplitResult(t, u, x, r, q)
    ensures u.root in u.nodes && u.nodes[u.root].parent.None?
    ensures u.meta[u.root].lo == NegInf && u.meta[u.root].hi == PosInf
  {
    if x != t.root {
      ChildrenOf(t, x);
      assert NodeOk(t, t.root);
    }
  }

  lemma SplitShape(t: Tree, u: Tree, x: Handle, r: Handle, q: Handle)
    requires Shape(t) && SplitResult(t, u, x, r, q)
    ensures Shape(u)
  {
    forall h | h in u.nodes ensures NodeOk(u, h) {
      if h == x || h == r {
        SplitHalvesOk(t, u, x, r, q);
      } else if h == q {
        SplitTargetOk(t, u, x, r, q);
      } else {
        SplitOtherNodeOk(t, u, x, r, q, h);
      }
    }
    SplitChainOk(t, u, x, r, q);
    SplitRootOk(t, u, x, r, q);
  }

  /** The split moves no records and leaves the chain alone. */
  lemma SplitRawContents(t: Tree, x: Handle, r: Handle)
    requires Shape(t) && x in t.nodes && t.nodes[x].Internal? && 1 <= |t.nodes[x].keys| && r !in t.nodes
    ensures |t.nodes[x].children| == |t.nodes[x].keys| + 1
    ensures Contents(SplitInternalRaw(t, x, r)) == Contents(t)
  {
    ChildrenOf(t, x);
    RawFacts(t, x, r);
    var u0 := SplitInternalRaw(t, x, r);
    forall h ensures RecordsAt(u0, h) == RecordsAt(t, h) {
    }
    assert Leaves(u0) == Leaves(t);
  }

  lemma SplitAttachShape(t: Tree, x: Handle, r: Handle, nr: Handle)
    requires Shape(t) && x in t.nodes && t.nodes[x].Internal? && 1 <= |t.nodes[x].keys|
    requires r !in t.nodes && nr !in t.nodes && r != nr
    ensures x in t.meta && |t.nodes[x].children| == |t.nodes[x].keys| + 1
    ensures CanAttach(SplitInternalRaw(t, x, r), x, r)
    ensures SplitResult(t, Attach(SplitInternalRaw(t, x, r), x, PromotedKey(t.nodes[x]), r, nr), x, r,
                        AttachTarget(SplitInternalRaw(t, x, r), x, nr))
  {
    ChildrenOf(t, x);
    if x == t.root {
      RootSplitFacts(t, x, r, nr);
    } else {
      var p, idx := ParentIndex(t, x);
      InnerSplitFacts(t, x, r, nr, p);
    }
  }

  /** `splitInternal(x)` leaves the tree pending: well-formed once `insertIntoParent` attaches the
      new node, with the same records. */
  lemma SplitInternalPending(t: Tree, x: Handle, r: Handle, nr: Handle)
    requires Shape(t) && x in t.nodes && t.nodes[x].Internal? && 1 <= |t.nodes[x].keys|
    requires r !in t.nodes && nr !in t.nodes && r != nr
    ensures x in t.meta && |t.nodes[x].children| == |t.nodes[x].keys| + 1
    ensures Pending(SplitInternalRaw(t, x, r), x, PromotedKey(t.nodes[x]), r, nr)
    ensures Contents(SplitInternalRaw(t, x, r)) == Contents(t)
  {
    ChildrenOf(t, x);
    SplitRawContents(t, x, r);
    RawFacts(t, x, r);
    SplitAttachedShape(t, x, r, nr);
  }

  lemma SplitAttachedShape(t: Tree, x: Handle, r: Handle, nr: Handle)
    requires Shape(t) && x in t.nodes && t.nodes[x].Internal? && 1 <= |t.nodes[x].keys|
    requires r !in t.nodes && nr !in t.nodes && r != nr
    ensures x in t.meta && |t.nodes[x].children| == |t.nodes[x].keys| + 1
    ensures CanAttach(SplitInternalRaw(t, x, r), x, r)
    ensures Shape(Attach(SplitInternalRaw(t, x, r), x, PromotedKey(t.nodes[x]), r, nr))
  {
    SplitAttachShape(t, x, r, nr);
    var u0 := SplitInternalRaw(t, x, r);
    SplitShape(t, Attach(u0, x, PromotedKey(t.nodes[x]), r, nr), x, r, AttachTarget(u0, x, nr));
  }

  lemma SplitResultSizes(t: Tree, u: Tree, x: Handle, r: Handle, q: Handle, leafMin: nat)
    requires Shape(t) && SplitResult(t, u, x, r, q)
    requires |t.nodes[x].keys| == INTERNAL_MAX + 1 && SizesOkExcept(t, leafMin, x)
    ensures SizesOkExcept(u, leafMin, q) && |u.nodes[q].keys| <= INTERNAL_MAX + 1
    ensures (if q == u.root then 1 else INTERNAL_MIN + 1) <= |u.nodes[q].keys|
  {
    var n := t.nodes[x];
    var moved := n.children[|n.keys| / 2 + 1..];
    if x != t.root {
      assert SizeOk(t, leafMin, q);
    }
    forall h | h in u.nodes && h != q ensures SizeOk(u, leafMin, h) {
      if h != x && h != r {
        assert SizeOk(t, leafMin, h);
        assert SameBody(t.nodes[h], u.nodes[h]);
      }
    }
  }

  /** An overfull internal node splits into two nodes with two separators each, and the receiving
      node gains one separator. */
  lemma SplitInternalSizes(t: Tree, x: Handle, r: Handle, nr: Handle, leafMin: nat)
    requires Shape(t) && x in t.nodes && t.nodes[x].Internal? && |t.nodes[x].keys| == INTERNAL_MAX + 1
    requires r !in t.nodes && nr !in t.nodes && r != nr
    requires SizesOkExcept(t, leafMin, x)
    ensures x in t.meta && |t.nodes[x].children| == |t.nodes[x].keys| + 1
    ensures CanAttach(SplitInternalRaw(t, x, r), x, r)
    ensures AttachSizes(SplitInternalRaw(t, x, r), x, PromotedKey(t.nodes[x]), r, nr, leafMin)
  {
    SplitAttachShape(t, x, r, nr);
    SplitResultSizes(t, Attach(SplitInternalRaw(t, x, r), x, PromotedKey(t.nodes[x]), r, nr), x, r,
                     AttachTarget(SplitInternalRaw(t, x, r), x, nr), leafMin);
  }

  /** Everything `insertIntoParent` needs after `splitInternal` has cut `x` in two: the tree is
      pending with the middle separator `key` between `x` and `r`, the attach keeps every node
      within bounds, the records are unchanged, and the arena has grown by the one node `r`. */
  lemma SplitInternalReady(t: Tree, u: Tree, x: Handle, key: string, r: Handle, nr: Handle, leafMin: nat)
    requires Shape(t) && x in t.nodes && t.nodes[x].Internal? && |t.nodes[x].keys| == INTERNAL_MAX + 1
    requires r !in t.nodes && nr !in t.nodes && r != nr
    requires SizesOkExcept(t, leafMin, x)
    requires x in t.meta && |t.nodes[x].children| == |t.nodes[x].keys| + 1
    requires u == SplitInternalRaw(t, x, r) && key == PromotedKey(t.nodes[x])
    ensures Pending(u, x, key, r, nr)
    ensures AttachSizes(u, x, key, r, nr, leafMin)
    ensures Contents(u) == Contents(t)
    ensures u.nodes.Keys == t.nodes.Keys + {r} && |u.nodes| == |t.nodes| + 1
    ensures Depth(u, x) == Depth(t, x)
  {
    SplitInternalPending(t, x, r, nr);
    SplitInternalSizes(t, x, r, nr, leafMin);
  }
}
