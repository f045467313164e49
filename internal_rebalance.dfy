/** The two repairs `handleInternalUnderflow` makes to an internal node left with too few
    separators, as steps on the tree. A borrow rotates one child and one separator through the
    parent: the sibling's outermost separator goes up, the parent's separator comes down. A fusion
    pulls the parent's separator down between the two nodes' separators, gives the left node the
    right one's children, and drops the right node. Both keep the tree well-formed and keep its
    records.

    Both are stated over the pair's joined separators `K = A.keys + [sep] + B.keys` and joined
    children `C = A.children + B.children`: a borrow re-cuts `K` and `C` at another place, a
    fusion does not cut them at all. */
module InternalRebalance {
  import opened Options
  import opened LeafNode
  import opened Arena
  import opened TreeFacts
  import opened Frame

  /** Children `i` and `i + 1` of internal node `p` are internal nodes. */
  ghost predicate BranchPair(t: Tree, p: Handle, i: nat) {
    && p in t.nodes && p in t.meta && t.nodes[p].Internal?
    && i + 1 < |t.nodes[p].children| == |t.nodes[p].keys| + 1
    && var a := t.nodes[p].children[i];
       var b := t.nodes[p].children[i + 1];
       && a in t.nodes && b in t.nodes && a in t.meta && b in t.meta
       && t.nodes[a].Internal? && t.nodes[b].Internal?
       && a != b && p != a && p != b
       && |t.nodes[a].children| == |t.nodes[a].keys| + 1
       && |t.nodes[b].children| == |t.nodes[b].keys| + 1
  }

  /** The pair's separators with the parent's separator between them. */
  ghost function JoinedKeys(t: Tree, p: Handle, i: nat): seq<string>
    requires BranchPair(t, p, i)
  {
    var pn := t.nodes[p];
    t.nodes[pn.children[i]].keys + [pn.keys[i]] + t.nodes[pn.children[i + 1]].keys
  }

  /** The pair's children, left node's first. */
  ghost function JoinedChildren(t: Tree, p: Handle, i: nat): seq<Handle>
    requires BranchPair(t, p, i)
  {
    var pn := t.nodes[p];
    t.nodes[pn.children[i]].children + t.nodes[pn.children[i + 1]].children
  }

  /** Taken together, the pair's children tile the pair's joined interval between the joined
      separators, as the children of one node would. */
  ghost predicate Joined(t: Tree, p: Handle, i: nat)
    requires BranchPair(t, p, i)
  {
    var a := t.nodes[p].children[i];
    var b := t.nodes[p].children[i + 1];
    var ks := JoinedKeys(t, p, i);
    var cs := JoinedChildren(t, p, i);
    var lo := t.meta[a].lo;
    var hi := t.meta[b].hi;
    && DistinctHandles(cs)
    && StepsUp(ks, lo, hi)
    && t.meta[a].hi == t.meta[b].lo == At(t.nodes[p].keys[i])
    && t.meta[a].level == t.meta[b].level
    && forall q :: 0 <= q < |cs| ==>
         && cs[q] in t.nodes && cs[q] in t.meta && cs[q] != a && cs[q] != b && cs[q] != p
         && t.nodes[cs[q]].parent == Some(if q < |t.nodes[a].children| then a else b)
         && t.meta[cs[q]].level + 1 == t.meta[a].level
         && t.meta[cs[q]].lo == Fence(ks, lo, hi, q)
         && t.meta[cs[q]].hi == Fence(ks, lo, hi, q + 1)
  }

  /** The interval ends of joined separators are those of the left node, then those of the
      right node. */
  lemma FenceJoin(ak: seq<string>, sep: string, bk: seq<string>, lo: Bound, hi: Bound, q: nat)
    requires q <= |ak| + |bk| + 2
    ensures q <= |ak| + 1 ==> Fence(ak + [sep] + bk, lo, hi, q) == Fence(ak, lo, At(sep), q)
    ensures q >= |ak| + 1 ==> Fence(ak + [sep] + bk, lo, hi, q) == Fence(bk, At(sep), hi, q - |ak| - 1)
  {
    var ks := ak + [sep] + bk;
    if 0 < q <= |ak| {
      assert ks[q - 1] == ak[q - 1];
    } else if |ak| + 1 < q < |ks| + 1 {
      assert ks[q - 1] == bk[q - |ak| - 2];
    }
  }

  /** Cutting separators at `m`, with `ks[m]` as the cut's interval end, keeps every interval
      end on the left side... */
  lemma FenceCut(ks: seq<string>, lo: Bound, hi: Bound, m: nat, q: nat)
    requires m < |ks| && q <= m + 1
    ensures Fence(ks[..m], lo, At(ks[m]), q) == Fence(ks, lo, hi, q)
  {
    if 0 < q <= m {
      assert ks[..m][q - 1] == ks[q - 1];
    }
  }

  /** ... and on the right side, counted from the cut. */
  lemma FenceCutRight(ks: seq<string>, lo: Bound, hi: Bound, m: nat, q: nat)
    requires m < |ks| && m + 1 + q <= |ks| + 1
    ensures Fence(ks[m + 1..], At(ks[m]), hi, q) == Fence(ks, lo, hi, m + 1 + q)
  {
    if 0 < q < |ks| - m {
      assert ks[m + 1..][q - 1] == ks[m + q];
    }
  }

  lemma JoinedChild(t: Tree, p: Handle, i: nat, q: nat)
    requires Shape(t) && BranchPair(t, p, i) && q < |JoinedChildren(t, p, i)|
    ensures var a := t.nodes[p].children[i];
            var b := t.nodes[p].children[i + 1];
            var cs := JoinedChildren(t, p, i);
            var ks := JoinedKeys(t, p, i);
            && cs[q] in t.nodes && cs[q] in t.meta && cs[q] != a && cs[q] != b && cs[q] != p
            && t.nodes[cs[q]].parent == Some(if q < |t.nodes[a].children| then a else b)
            && t.meta[cs[q]].level + 1 == t.meta[a].level
            && t.meta[cs[q]].lo == Fence(ks, t.meta[a].lo, t.meta[b].hi, q)
            && t.meta[cs[q]].hi == Fence(ks, t.meta[a].lo, t.meta[b].hi, q + 1)
            && BLt(t.meta[cs[q]].lo, t.meta[cs[q]].hi)
  {
    var pn := t.nodes[p];
    var a := pn.children[i];
    var b := pn.children[i + 1];
    var an := t.nodes[a];
    var bn := t.nodes[b];
    var cs := JoinedChildren(t, p, i);
    assert NodeOk(t, p) && ChildOk(t, p, i) && ChildOk(t, p, i + 1);
    assert NodeOk(t, a) && NodeOk(t, b);
    var lo := t.meta[a].lo;
    var hi := t.meta[b].hi;
    var sep := pn.keys[i];
    if q < |an.children| {
      assert cs[q] == an.children[q];
      assert ChildOk(t, a, q);
      FenceJoin(an.keys, sep, bn.keys, lo, hi, q);
      FenceJoin(an.keys, sep, bn.keys, lo, hi, q + 1);
    } else {
      var r := q - |an.children|;
      assert cs[q] == bn.children[r];
      assert ChildOk(t, b, r);
      FenceJoin(an.keys, sep, bn.keys, lo, hi, q);
      FenceJoin(an.keys, sep, bn.keys, lo, hi, q + 1);
    }
    assert NodeOk(t, cs[q]);
  }

  /** Two neighbouring internal children of a well-formed node are joined. */
  lemma JoinedOf(t: Tree, p: Handle, i: nat)
    requires Shape(t) && p in t.nodes && t.nodes[p].Internal? && i + 1 < |t.nodes[p].children|
    requires t.meta[p].level >= 2
    ensures BranchPair(t, p, i) && Joined(t, p, i)
  {
    var pn := t.nodes[p];
    var a := pn.children[i];
    var b := pn.children[i + 1];
    ChildrenOf(t, p);
    assert a in pn.children && b in pn.children;
    ChildLevel(t, p, i);
    ChildLevel(t, p, i + 1);
    assert NodeOk(t, a) && NodeOk(t, b);
    var cs := JoinedChildren(t, p, i);
    var ks := JoinedKeys(t, p, i);
    var lo := t.meta[a].lo;
    var hi := t.meta[b].hi;
    forall q | 0 <= q < |cs| ensures
      && cs[q] in t.nodes && cs[q] in t.meta && cs[q] != a && cs[q] != b && cs[q] != p
      && t.nodes[cs[q]].parent == Some(if q < |t.nodes[a].children| then a else b)
      && t.meta[cs[q]].level + 1 == t.meta[a].level
      && t.meta[cs[q]].lo == Fence(ks, lo, hi, q)
      && t.meta[cs[q]].hi == Fence(ks, lo, hi, q + 1)
    {
      JoinedChild(t, p, i, q);
    }
    forall q | 0 <= q <= |ks| ensures BLt(Fence(ks, lo, hi, q), Fence(ks, lo, hi, q + 1)) {
      JoinedChild(t, p, i, q);
    }
    ChildrenDistinct(t, a);
    ChildrenDistinct(t, b);
    forall x, y | 0 <= x < y < |cs| ensures cs[x] != cs[y] {
      var na := |t.nodes[a].children|;
      if x < na && y < na {
        assert cs[x] == t.nodes[a].children[x] && cs[y] == t.nodes[a].children[y];
      } else if na <= x {
        assert cs[x] == t.nodes[b].children[x - na] && cs[y] == t.nodes[b].children[y - na];
      } else {
        JoinedChild(t, p, i, x);
        JoinedChild(t, p, i, y);
      }
    }
  }

  // ----- borrowing through the parent -----

  /** Where a borrow cuts the joined separators: one before the left node's last (a borrow from
      the left sibling) or one after the parent's separator (a borrow from the right sibling). */
  ghost predicate CutOk(t: Tree, p: Handle, i: nat, m: nat)
    requires BranchPair(t, p, i)
  {
    var na := |t.nodes[t.nodes[p].children[i]].keys|;
    (m + 1 == na || m == na + 1) && m < |JoinedKeys(t, p, i)|
  }

  /** The child that changes parent in a borrow: the left node's last child, or the right node's
      first. */
  ghost function Moved(t: Tree, p: Handle, i: nat, m: nat): Handle
    requires BranchPair(t, p, i) && CutOk(t, p, i, m)
  {
    var cs := JoinedChildren(t, p, i);
    if m < |t.nodes[t.nodes[p].children[i]].keys| then cs[m + 1] else cs[m]
  }

  /** The tree after `handleInternalUnderflow` borrowed through the parent: the pair's joined
      separators and children are cut at `m`, separator `m` goes up into the parent, and the one
      child that crossed over names its new parent. */
  ghost function BranchShift(t: Tree, p: Handle, i: nat, m: nat): Tree
    requires BranchPair(t, p, i) && Joined(t, p, i) && CutOk(t, p, i, m)
  {
    var pn := t.nodes[p];
    var a := pn.children[i];
    var b := pn.children[i + 1];
    var ks := JoinedKeys(t, p, i);
    var cs := JoinedChildren(t, p, i);
    var c := Moved(t, p, i, m);
    var owner := if m < |t.nodes[a].keys| then b else a;
    var n1 := t.nodes[a := Internal(ks[..m], cs[..m + 1], t.nodes[a].parent)];
    var n2 := n1[b := Internal(ks[m + 1..], cs[m + 1..], t.nodes[b].parent)];
    var n3 := n2[p := Internal(pn.keys[i := ks[m]], pn.children, pn.parent)];
    var meta := t.meta[a := Meta(t.meta[a].level, t.meta[a].lo, At(ks[m]))];
    Tree(n3[c := WithParent(t.nodes[c], Some(owner))], t.root, t.chain,
         meta[b := Meta(t.meta[b].level, At(ks[m]), t.meta[b].hi)])
  }

  /** What `BranchShift` does, node by node. */
  ghost predicate BranchShiftResult(t: Tree, u: Tree, p: Handle, i: nat, m: nat)
    requires BranchPair(t, p, i) && Joined(t, p, i) && CutOk(t, p, i, m)
  {
    var pn := t.nodes[p];
    var a := pn.children[i];
    var b := pn.children[i + 1];
    var ks := JoinedKeys(t, p, i);
    var cs := JoinedChildren(t, p, i);
    && u.root == t.root && u.chain == t.chain
    && u.nodes.Keys == t.nodes.Keys && u.meta.Keys == t.meta.Keys
    && u.nodes[a] == Internal(ks[..m], cs[..m + 1], t.nodes[a].parent)
    && u.nodes[b] == Internal(ks[m + 1..], cs[m + 1..], t.nodes[b].parent)
    && u.nodes[p] == Internal(pn.keys[i := ks[m]], pn.children, pn.parent)
    && (forall q :: 0 <= q < |cs| ==> u.nodes[cs[q]] == WithParent(t.nodes[cs[q]], Some(if q <= m then a else b)))
    && (forall h :: h in t.nodes && h != a && h != b && h != p && h !in cs ==> u.nodes[h] == t.nodes[h])
    && u.meta[a] == Meta(t.meta[a].level, t.meta[a].lo, At(ks[m]))
    && u.meta[b] == Meta(t.meta[b].level, At(ks[m]), t.meta[b].hi)
    && (forall h :: h in t.meta && h != a && h != b ==> u.meta[h] == t.meta[h])
  }

  lemma BranchShiftFacts(t: Tree, p: Handle, i: nat, m: nat)
    requires BranchPair(t, p, i) && Joined(t, p, i) && CutOk(t, p, i, m)
    ensures BranchShiftResult(t, BranchShift(t, p, i, m), p, i, m)
  {
    BranchShiftOwners(t, p, i, m);
  }

  /** Every joined child ends up under the node of the pair on its side of the cut. */
  lemma BranchShiftOwners(t: Tree, p: Handle, i: nat, m: nat)
    requires BranchPair(t, p, i) && Joined(t, p, i) && CutOk(t, p, i, m)
    ensures var cs := JoinedChildren(t, p, i);
      forall q :: 0 <= q < |cs| ==>
        BranchShift(t, p, i, m).nodes[cs[q]] ==
          WithParent(t.nodes[cs[q]], Some(if q <= m then t.nodes[p].children[i] else t.nodes[p].children[i + 1]))
  {
    var pn := t.nodes[p];
    var a := pn.children[i];
    var b := pn.children[i + 1];
    var cs := JoinedChildren(t, p, i);
    var u := BranchShift(t, p, i, m);
    var c := Moved(t, p, i, m);
    var na := |t.nodes[a].children|;
    forall q | 0 <= q < |cs| ensures u.nodes[cs[q]] == WithParent(t.nodes[cs[q]], Some(if q <= m then a else b)) {
      if cs[q] != c {
        assert q != (if m < na - 1 then m + 1 else m);
        WithParentSame(t.nodes[cs[q]]);
      }
    }
  }

  lemma BShiftLeftChild(t: Tree, u: Tree, p: Handle, i: nat, m: nat, q: nat)
    requires BranchPair(t, p, i) && Joined(t, p, i) && CutOk(t, p, i, m)
    requires BranchShiftResult(t, u, p, i, m)
    requires q < m + 1
    ensures ChildOk(u, t.nodes[p].children[i], q)
  {
    var a := t.nodes[p].children[i];
    var b := t.nodes[p].children[i + 1];
    var ks := JoinedKeys(t, p, i);
    var cs := JoinedChildren(t, p, i);
    var c := cs[q];
    FenceCut(ks, t.meta[a].lo, t.meta[b].hi, m, q);
    FenceCut(ks, t.meta[a].lo, t.meta[b].hi, m, q + 1);
    assert u.nodes[a].children[q] == c by {
      assert cs[..m + 1][q] == c;
    }
    assert u.nodes[c].parent == Some(a);
    assert u.meta[c] == t.meta[c] && c in u.nodes;
    assert u.meta[c].lo == Fence(u.nodes[a].keys, u.meta[a].lo, u.meta[a].hi, q);
    assert u.meta[c].hi == Fence(u.nodes[a].keys, u.meta[a].lo, u.meta[a].hi, q + 1);
  }

  lemma BShiftRightChild(t: Tree, u: Tree, p: Handle, i: nat, m: nat, q: nat)
    requires BranchPair(t, p, i) && Joined(t, p, i) && CutOk(t, p, i, m)
    requires BranchShiftResult(t, u, p, i, m)
    requires q < |JoinedChildren(t, p, i)| - m - 1
    ensures ChildOk(u, t.nodes[p].children[i + 1], q)
  {
    var a := t.nodes[p].children[i];
    var b := t.nodes[p].children[i + 1];
    var ks := JoinedKeys(t, p, i);
    var cs := JoinedChildren(t, p, i);
    var c := cs[m + 1 + q];
    FenceCutRight(ks, t.meta[a].lo, t.meta[b].hi, m, q);
    FenceCutRight(ks, t.meta[a].lo, t.meta[b].hi, m, q + 1);
    assert u.nodes[b].children[q] == c by {
      assert cs[m + 1..][q] == c;
    }
    assert u.nodes[c].parent == Some(b);
    assert u.meta[c] == t.meta[c] && c in u.nodes;
  }

  /** The left node of a borrow holds the joined separators and children up to the cut. */
  lemma BShiftLeftOk(t: Tree, u: Tree, p: Handle, i: nat, m: nat)
    requires Shape(t) && BranchPair(t, p, i) && Joined(t, p, i) && CutOk(t, p, i, m)
    requires BranchShiftResult(t, u, p, i, m)
    ensures NodeOk(u, t.nodes[p].children[i])
  {
    var a := t.nodes[p].children[i];
    BShiftPairHead(t, u, p, i, m, i);
    forall q | 0 <= q < m + 1 ensures ChildOk(u, a, q) {
      BShiftLeftChild(t, u, p, i, m, q);
    }
  }

  /** The right node of a borrow holds the joined separators and children after the cut. */
  lemma BShiftRightOk(t: Tree, u: Tree, p: Handle, i: nat, m: nat)
    requires Shape(t) && BranchPair(t, p, i) && Joined(t, p, i) && CutOk(t, p, i, m)
    requires BranchShiftResult(t, u, p, i, m)
    ensures NodeOk(u, t.nodes[p].children[i + 1])
  {
    var b := t.nodes[p].children[i + 1];
    var cs := JoinedChildren(t, p, i);
    BShiftPairHead(t, u, p, i, m, i + 1);
    forall q | 0 <= q < |cs| - m - 1 ensures ChildOk(u, b, q) {
      BShiftRightChild(t, u, p, i, m, q);
    }
  }

  /** Either node of the pair keeps a non-empty interval, its level and its place in the parent. */
  lemma BShiftPairHead(t: Tree, u: Tree, p: Handle, i: nat, m: nat, j: nat)
    requires Shape(t) && BranchPair(t, p, i) && Joined(t, p, i) && CutOk(t, p, i, m)
    requires BranchShiftResult(t, u, p, i, m)
    requires j == i || j == i + 1
    ensures var x := t.nodes[p].children[j];
      && x in u.nodes && x in u.meta && u.root in u.meta
      && BLt(u.meta[x].lo, u.meta[x].hi)
      && u.meta[x].level <= u.meta[u.root].level
      && x != u.root && ParentOk(u, x)
  {
    var a := t.nodes[p].children[i];
    var b := t.nodes[p].children[i + 1];
    var ks := JoinedKeys(t, p, i);
    assert NodeOk(t, p) && ChildOk(t, p, i) && ChildOk(t, p, i + 1);
    assert NodeOk(t, a) && NodeOk(t, b);
    assert t.root != a && t.root != b;
    assert u.meta[t.root] == t.meta[t.root];
    assert t.nodes[p].children[j] in u.nodes[p].children;
    if j == i {
      FencesIncreasing(ks, t.meta[a].lo, t.meta[b].hi, 0, m + 1);
    } else {
      FencesIncreasing(ks, t.meta[a].lo, t.meta[b].hi, m + 1, |ks| + 1);
    }
  }

  /** The parent still lists the pair, whose intervals now meet at the cut separator. */
  lemma BShiftParentPairChild(t: Tree, u: Tree, p: Handle, i: nat, m: nat, j: nat)
    requires Shape(t) && BranchPair(t, p, i) && Joined(t, p, i) && CutOk(t, p, i, m)
    requires BranchShiftResult(t, u, p, i, m)
    requires j == i || j == i + 1
    ensures ChildOk(u, p, j)
  {
    assert NodeOk(t, p);
    assert ChildOk(t, p, j);
  }

  /** The parent's other children keep their places and intervals. */
  lemma BShiftParentOtherChild(t: Tree, u: Tree, p: Handle, i: nat, m: nat, j: nat)
    requires Shape(t) && BranchPair(t, p, i) && Joined(t, p, i) && CutOk(t, p, i, m)
    requires BranchShiftResult(t, u, p, i, m)
    requires j < |t.nodes[p].children| && j != i && j != i + 1
    ensures ChildOk(u, p, j)
  {
    var pn := t.nodes[p];
    var mp := t.meta[p];
    var keys := pn.keys[i := JoinedKeys(t, p, i)[m]];
    assert NodeOk(t, p);
    assert ChildOk(t, p, j) && ChildOk(t, p, i);
    var c := pn.children[j];
    ChildrenOf(t, p);
    assert c != pn.children[i] && c != pn.children[i + 1];
    NotJoined(t, p, i, c);
    assert u.nodes[c] == t.nodes[c] && u.meta[c] == t.meta[c];
    assert Fence(keys, mp.lo, mp.hi, j) == Fence(pn.keys, mp.lo, mp.hi, j);
    assert Fence(keys, mp.lo, mp.hi, j + 1) == Fence(pn.keys, mp.lo, mp.hi, j + 1);
  }

  lemma BShiftParentChild(t: Tree, u: Tree, p: Handle, i: nat, m: nat, j: nat)
    requires Shape(t) && BranchPair(t, p, i) && Joined(t, p, i) && CutOk(t, p, i, m)
    requires BranchShiftResult(t, u, p, i, m)
    requires j < |t.nodes[p].children|
    ensures ChildOk(u, p, j)
  {
    if j == i || j == i + 1 {
      BShiftParentPairChild(t, u, p, i, m, j);
    } else {
      BShiftParentOtherChild(t, u, p, i, m, j);
    }
  }

  /** The parent's separator `i` becomes the cut separator, which is where the pair's shared
      interval end moved. */
  lemma BShiftParentOk(t: Tree, u: Tree, p: Handle, i: nat, m: nat)
    requires Shape(t) && BranchPair(t, p, i) && Joined(t, p, i) && CutOk(t, p, i, m)
    requires BranchShiftResult(t, u, p, i, m)
    ensures NodeOk(u, p)
  {
    var pn := t.nodes[p];
    var a := pn.children[i];
    var b := pn.children[i + 1];
    assert NodeOk(t, p);
    forall j | 0 <= j < |pn.children| ensures ChildOk(u, p, j) {
      BShiftParentChild(t, u, p, i, m, j);
    }
    if p != t.root {
      var g, k := ParentIndex(t, p);
      assert ChildOk(t, p, i) && ChildOk(t, p, i + 1);
      assert t.meta[g].level == t.meta[p].level + 1;
      NotJoined(t, p, i, g);
    }
  }

  /** A node no lower than the pair is not one of its children. */
  lemma NotJoined(t: Tree, p: Handle, i: nat, h: Handle)
    requires BranchPair(t, p, i) && Joined(t, p, i) && h in t.meta
    requires t.meta[h].level >= t.meta[t.nodes[p].children[i]].level
    ensures h !in JoinedChildren(t, p, i)
  {
  }

  /** A node that is neither the parent, nor one of the pair, nor a child of the pair is left
      as it was by a borrow. */
  lemma ShiftKeeps(t: Tree, u: Tree, p: Handle, i: nat, m: nat, c: Handle)
    requires BranchPair(t, p, i) && Joined(t, p, i) && CutOk(t, p, i, m)
    requires BranchShiftResult(t, u, p, i, m)
    requires c in t.nodes && c in t.meta && c != p && c != t.nodes[p].children[i] && c != t.nodes[p].children[i + 1]
    requires t.nodes[c].parent != Some(t.nodes[p].children[i]) && t.nodes[c].parent != Some(t.nodes[p].children[i + 1])
    ensures c in u.nodes && c in u.meta && u.nodes[c] == t.nodes[c] && u.meta[c] == t.meta[c]
  {
    var cs := JoinedChildren(t, p, i);
    forall q | 0 <= q < |cs| ensures cs[q] != c {
    }
  }

  /** A child of the pair keeps everything but possibly its parent, which lists it. */
  lemma BShiftChildOk(t: Tree, u: Tree, p: Handle, i: nat, m: nat, q: nat)
    requires Shape(t) && BranchPair(t, p, i) && Joined(t, p, i) && CutOk(t, p, i, m)
    requires BranchShiftResult(t, u, p, i, m)
    requires q < |JoinedChildren(t, p, i)|
    ensures NodeOk(u, JoinedChildren(t, p, i)[q])
  {
    var a := t.nodes[p].children[i];
    var b := t.nodes[p].children[i + 1];
    var cs := JoinedChildren(t, p, i);
    var h := cs[q];
    JoinedChild(t, p, i, q);
    assert NodeOk(t, p) && ChildOk(t, p, i) && ChildOk(t, p, i + 1);
    assert t.root != h;
    if q <= m {
      assert cs[..m + 1][q] == h;
    } else {
      assert cs[m + 1..][q - m - 1] == h;
    }
    forall c | c in t.nodes && t.nodes[c].parent == Some(h)
      ensures c in u.nodes && c in u.meta && u.nodes[c].parent == Some(h) && u.meta[c] == t.meta[c]
    {
      var g, k := ParentIndex(t, c);
      ShiftKeeps(t, u, p, i, m, c);
    }
    NodeOkFrame(t, u, h);
  }

  /** Every node outside the pair, its parent and its children is untouched, and so are the
      parent links it relies on. */
  lemma BShiftOtherOk(t: Tree, u: Tree, p: Handle, i: nat, m: nat, h: Handle)
    requires Shape(t) && BranchPair(t, p, i) && Joined(t, p, i) && CutOk(t, p, i, m)
    requires BranchShiftResult(t, u, p, i, m)
    requires h in t.nodes && h != p && h != t.nodes[p].children[i] && h != t.nodes[p].children[i + 1]
    requires h !in JoinedChildren(t, p, i)
    ensures NodeOk(u, h)
  {
    var a := t.nodes[p].children[i];
    var b := t.nodes[p].children[i + 1];
    var cs := JoinedChildren(t, p, i);
    assert NodeOk(t, p) && ChildOk(t, p, i) && ChildOk(t, p, i + 1);
    assert NodeOk(t, h);
    if h != t.root {
      var g, k := ParentIndex(t, h);
      assert g != a && g != b;
    }
    forall c | c in t.nodes && t.nodes[c].parent == Some(h)
      ensures c in u.nodes && c in u.meta && u.nodes[c].parent == Some(h) && u.meta[c] == t.meta[c]
    {
      assert NodeOk(t, c);
      if c != p {
        ShiftKeeps(t, u, p, i, m, c);
      }
    }
    NodeOkFrame(t, u, h);
  }

  lemma BShiftNodesOk(t: Tree, u: Tree, p: Handle, i: nat, m: nat)
    requires Shape(t) && BranchPair(t, p, i) && Joined(t, p, i) && CutOk(t, p, i, m)
    requires BranchShiftResult(t, u, p, i, m)
    ensures forall h :: h in u.nodes ==> NodeOk(u, h)
  {
    var a := t.nodes[p].children[i];
    var b := t.nodes[p].children[i + 1];
    var cs := JoinedChildren(t, p, i);
    BShiftLeftOk(t, u, p, i, m);
    BShiftRightOk(t, u, p, i, m);
    BShiftParentOk(t, u, p, i, m);
    forall h | h in u.nodes ensures NodeOk(u, h) {
      if h in cs {
        var q :| 0 <= q < |cs| && cs[q] == h;
        BShiftChildOk(t, u, p, i, m, q);
      } else if h != p && h != a && h != b {
        BShiftOtherOk(t, u, p, i, m, h);
      }
    }
  }

  /** Leaves keep their records, links and intervals when only internal nodes and parent links
      change. */
  lemma BShiftLeaves(t: Tree, u: Tree, p: Handle, i: nat, m: nat)
    requires t.nodes.Keys <= t.meta.Keys
    requires BranchPair(t, p, i) && Joined(t, p, i) && CutOk(t, p, i, m)
    requires BranchShiftResult(t, u, p, i, m)
    ensures forall h :: h in t.nodes && t.nodes[h].Leaf? ==>
      && h in u.nodes && u.nodes[h].Leaf? && u.meta[h] == t.meta[h] && u.nodes[h].records == t.nodes[h].records
      && u.nodes[h].prev == t.nodes[h].prev && u.nodes[h].next == t.nodes[h].next
    ensures forall h :: h in u.nodes && u.nodes[h].Leaf? ==> h in t.nodes && t.nodes[h].Leaf?
  {
    var cs := JoinedChildren(t, p, i);
    forall h | h in t.nodes && t.nodes[h].Leaf? && h in cs
      ensures u.nodes[h] == WithParent(t.nodes[h], u.nodes[h].parent)
    {
      var q :| 0 <= q < |cs| && cs[q] == h;
    }
    forall h | h in u.nodes && u.nodes[h].Leaf? ensures t.nodes[h].Leaf? {
      if h in cs {
        var q :| 0 <= q < |cs| && cs[q] == h;
      }
    }
  }

  lemma SameLeaves(t: Tree, u: Tree)
    requires u.chain == t.chain
    requires forall h :: h in t.nodes && t.nodes[h].Leaf? ==> h in u.nodes && u.nodes[h].Leaf? && u.nodes[h].records == t.nodes[h].records
    requires forall h :: h in u.nodes && u.nodes[h].Leaf? ==> h in t.nodes && t.nodes[h].Leaf?
    ensures Contents(u) == Contents(t)
  {
    assert Leaves(u) == Leaves(t);
  }

  /** A borrow keeps the tree well-formed and keeps its records. */
  lemma BranchShiftShape(t: Tree, u: Tree, p: Handle, i: nat, m: nat)
    requires Shape(t) && BranchPair(t, p, i) && Joined(t, p, i) && CutOk(t, p, i, m)
    requires BranchShiftResult(t, u, p, i, m)
    ensures Shape(u)
    ensures Contents(u) == Contents(t)
  {
    var a := t.nodes[p].children[i];
    var b := t.nodes[p].children[i + 1];
    BShiftNodesOk(t, u, p, i, m);
    BShiftLeaves(t, u, p, i, m);
    ChainOkFrame(t, u);
    SameLeaves(t, u);
    assert NodeOk(t, p) && ChildOk(t, p, i) && ChildOk(t, p, i + 1);
    assert t.root != a && t.root != b && t.root !in JoinedChildren(t, p, i);
  }

  /** A borrow leaves every node within its bounds when both nodes of the pair end up within
      theirs. */
  lemma BranchShiftSizes(t: Tree, u: Tree, p: Handle, i: nat, m: nat, leafMin: nat, x: Handle)
    requires BranchPair(t, p, i) && Joined(t, p, i) && CutOk(t, p, i, m)
    requires BranchShiftResult(t, u, p, i, m)
    requires SizesOkExcept(t, leafMin, x)
    requires x == t.nodes[p].children[i] || x == t.nodes[p].children[i + 1]
    requires INTERNAL_MIN <= m <= INTERNAL_MAX
    requires INTERNAL_MIN <= |JoinedKeys(t, p, i)| - m - 1 <= INTERNAL_MAX
    ensures SizesOk(u, leafMin)
  {
    var a := t.nodes[p].children[i];
    var b := t.nodes[p].children[i + 1];
    var cs := JoinedChildren(t, p, i);
    forall h | h in u.nodes ensures SizeOk(u, leafMin, h) {
      if h in cs {
        var q :| 0 <= q < |cs| && cs[q] == h;
        assert SizeOk(t, leafMin, h);
      } else if h != a && h != b {
        assert SizeOk(t, leafMin, h);
      }
    }
  }

  // ----- fusion -----

  /** The tree after `handleInternalUnderflow` fused child `i + 1` of `p` into child `i`: the
      left node takes the joined separators and children, the right node's children name it as
      their parent, and the parent drops separator `i` and the right node. */
  ghost function BranchMerge(t: Tree, p: Handle, i: nat): Tree
    requires BranchPair(t, p, i) && Joined(t, p, i)
  {
    var pn := t.nodes[p];
    var a := pn.children[i];
    var b := pn.children[i + 1];
    var moved := t.nodes[b].children;
    var nodes := map h | h in t.nodes.Keys - {b} ::
      if h == a then Internal(JoinedKeys(t, p, i), JoinedChildren(t, p, i), t.nodes[a].parent)
      else if h == p then Internal(RemoveAt(pn.keys, i), RemoveAt(pn.children, i + 1), pn.parent)
      else if h in moved then WithParent(t.nodes[h], Some(a))
      else t.nodes[h];
    Tree(nodes, t.root, t.chain, t.meta[a := Meta(t.meta[a].level, t.meta[a].lo, t.meta[b].hi)])
  }

  /** What `BranchMerge` does, node by node. */
  ghost predicate BranchMergeResult(t: Tree, u: Tree, p: Handle, i: nat)
    requires BranchPair(t, p, i) && Joined(t, p, i)
  {
    var pn := t.nodes[p];
    var a := pn.children[i];
    var b := pn.children[i + 1];
    var cs := JoinedChildren(t, p, i);
    && u.root == t.root && u.chain == t.chain
    && u.nodes.Keys == t.nodes.Keys - {b} && u.meta.Keys == t.meta.Keys
    && u.nodes[a] == Internal(JoinedKeys(t, p, i), cs, t.nodes[a].parent)
    && u.nodes[p] == Internal(RemoveAt(pn.keys, i), RemoveAt(pn.children, i + 1), pn.parent)
    && (forall q :: 0 <= q < |cs| ==> u.nodes[cs[q]] == WithParent(t.nodes[cs[q]], Some(a)))
    && (forall h :: h in t.nodes && h != a && h != b && h != p && h !in cs ==> u.nodes[h] == t.nodes[h])
    && u.meta[a] == Meta(t.meta[a].level, t.meta[a].lo, t.meta[b].hi)
    && (forall h :: h in t.meta && h != a ==> u.meta[h] == t.meta[h])
  }

  lemma BranchMergeFacts(t: Tree, p: Handle, i: nat)
    requires BranchPair(t, p, i) && Joined(t, p, i)
    ensures BranchMergeResult(t, BranchMerge(t, p, i), p, i)
  {
    var a := t.nodes[p].children[i];
    var b := t.nodes[p].children[i + 1];
    var cs := JoinedChildren(t, p, i);
    var u := BranchMerge(t, p, i);
    var na := |t.nodes[a].children|;
    forall q | 0 <= q < |cs| ensures u.nodes[cs[q]] == WithParent(t.nodes[cs[q]], Some(a)) {
      if q < na {
        assert cs[q] !in t.nodes[b].children by {
          forall r | 0 <= r < |t.nodes[b].children| ensures t.nodes[b].children[r] != cs[q] {
            assert t.nodes[b].children[r] == cs[na + r];
          }
        }
        WithParentSame(t.nodes[cs[q]]);
      } else {
        assert cs[q] == t.nodes[b].children[q - na];
      }
    }
    forall h | h in t.nodes && h != a && h != b && h != p && h !in cs ensures u.nodes[h] == t.nodes[h] {
      assert h !in t.nodes[b].children by {
        forall r | 0 <= r < |t.nodes[b].children| ensures t.nodes[b].children[r] != h {
          assert t.nodes[b].children[r] == cs[na + r];
        }
      }
    }
  }

  /** The fused node covers the union of the two intervals, with the joined separators. */
  lemma BMergeLeftOk(t: Tree, u: Tree, p: Handle, i: nat)
    requires Shape(t) && BranchPair(t, p, i) && Joined(t, p, i) && BranchMergeResult(t, u, p, i)
    ensures NodeOk(u, t.nodes[p].children[i])
  {
    var a := t.nodes[p].children[i];
    var b := t.nodes[p].children[i + 1];
    var ks := JoinedKeys(t, p, i);
    var cs := JoinedChildren(t, p, i);
    assert NodeOk(t, p) && ChildOk(t, p, i) && NodeOk(t, a);
    assert t.root != a;
    FencesIncreasing(ks, t.meta[a].lo, t.meta[b].hi, 0, |ks| + 1);
    assert RemoveAt(t.nodes[p].children, i + 1)[i] == a;
    forall q | 0 <= q < |cs| ensures ChildOk(u, a, q) {
    }
  }

  /** The fused node takes the pair's place in the parent, with the pair's joined interval. */
  lemma BMergeParentPair(t: Tree, u: Tree, p: Handle, i: nat)
    requires Shape(t) && BranchPair(t, p, i) && Joined(t, p, i) && BranchMergeResult(t, u, p, i)
    ensures ChildOk(u, p, i)
  {
    var pn := t.nodes[p];
    var m := t.meta[p];
    assert NodeOk(t, p);
    FenceRemove(pn.keys, m.lo, m.hi, i, i);
    FenceRemove(pn.keys, m.lo, m.hi, i, i + 1);
    assert ChildOk(t, p, i) && ChildOk(t, p, i + 1);
  }

  /** The parent's other children keep their intervals between the remaining separators. */
  lemma BMergeParentOther(t: Tree, u: Tree, p: Handle, i: nat, q: nat)
    requires Shape(t) && BranchPair(t, p, i) && Joined(t, p, i) && BranchMergeResult(t, u, p, i)
    requires q < |t.nodes[p].children| - 1 && q != i
    ensures ChildOk(u, p, q)
  {
    var pn := t.nodes[p];
    var m := t.meta[p];
    var k := if q < i then q else q + 1;
    var c := pn.children[k];
    assert NodeOk(t, p);
    FenceRemove(pn.keys, m.lo, m.hi, i, q);
    FenceRemove(pn.keys, m.lo, m.hi, i, q + 1);
    assert ChildOk(t, p, k) && ChildOk(t, p, i) && ChildOk(t, p, i + 1);
    ChildrenOf(t, p);
    assert RemoveAt(pn.children, i + 1)[q] == c;
    assert c != pn.children[i] && c != pn.children[i + 1];
    MergeKeeps(t, u, p, i, c);
  }

  lemma BMergeParentChild(t: Tree, u: Tree, p: Handle, i: nat, q: nat)
    requires Shape(t) && BranchPair(t, p, i) && Joined(t, p, i) && BranchMergeResult(t, u, p, i)
    requires q < |t.nodes[p].children| - 1
    ensures ChildOk(u, p, q)
  {
    if q == i {
      BMergeParentPair(t, u, p, i);
    } else {
      BMergeParentOther(t, u, p, i, q);
    }
  }

  /** The parent loses separator `i` and the right node; the rest of its children keep their
      intervals between the remaining separators. */
  lemma BMergeParentOk(t: Tree, u: Tree, p: Handle, i: nat)
    requires Shape(t) && BranchPair(t, p, i) && Joined(t, p, i) && BranchMergeResult(t, u, p, i)
    ensures NodeOk(u, p)
  {
    var pn := t.nodes[p];
    var a := pn.children[i];
    var b := pn.children[i + 1];
    assert NodeOk(t, p);
    forall q | 0 <= q < |pn.children| - 1 ensures ChildOk(u, p, q) {
      BMergeParentChild(t, u, p, i, q);
    }
    assert ChildOk(t, p, i) && ChildOk(t, p, i + 1);
    assert t.root != b;
    if p != t.root {
      var g, k := ParentIndex(t, p);
      assert t.meta[g].level == t.meta[p].level + 1;
      NotJoined(t, p, i, g);
    }
  }

  /** A node that is neither the parent, nor one of the pair, nor a child of the pair is left
      as it was by a fusion. */
  lemma MergeKeeps(t: Tree, u: Tree, p: Handle, i: nat, c: Handle)
    requires BranchPair(t, p, i) && Joined(t, p, i) && BranchMergeResult(t, u, p, i)
    requires c in t.nodes && c in t.meta && c != p && c != t.nodes[p].children[i] && c != t.nodes[p].children[i + 1]
    requires t.nodes[c].parent != Some(t.nodes[p].children[i]) && t.nodes[c].parent != Some(t.nodes[p].children[i + 1])
    ensures c in u.nodes && c in u.meta && u.nodes[c] == t.nodes[c] && u.meta[c] == t.meta[c]
  {
    var cs := JoinedChildren(t, p, i);
    forall q | 0 <= q < |cs| ensures cs[q] != c {
    }
  }

  /** A child of the pair keeps everything but its parent, which is now the fused node. */
  lemma BMergeChildOk(t: Tree, u: Tree, p: Handle, i: nat, q: nat)
    requires Shape(t) && BranchPair(t, p, i) && Joined(t, p, i) && BranchMergeResult(t, u, p, i)
    requires q < |JoinedChildren(t, p, i)|
    ensures NodeOk(u, JoinedChildren(t, p, i)[q])
  {
    var a := t.nodes[p].children[i];
    var b := t.nodes[p].children[i + 1];
    var cs := JoinedChildren(t, p, i);
    var h := cs[q];
    JoinedChild(t, p, i, q);
    assert NodeOk(t, p) && ChildOk(t, p, i) && ChildOk(t, p, i + 1);
    assert t.root != h;
    forall c | c in t.nodes && t.nodes[c].parent == Some(h)
      ensures c in u.nodes && c in u.meta && u.nodes[c].parent == Some(h) && u.meta[c] == t.meta[c]
    {
      var g, k := ParentIndex(t, c);
      MergeKeeps(t, u, p, i, c);
    }
    NodeOkFrame(t, u, h);
  }

  /** A node outside the pair and its children is still listed by its parent. */
  lemma BMergeOtherParent(t: Tree, u: Tree, p: Handle, i: nat, h: Handle)
    requires Shape(t) && BranchPair(t, p, i) && Joined(t, p, i) && BranchMergeResult(t, u, p, i)
    requires h in u.nodes && h != p && h != t.nodes[p].children[i] && h != t.root
    requires h !in JoinedChildren(t, p, i)
    ensures ParentOk(u, h)
  {
    var a := t.nodes[p].children[i];
    var b := t.nodes[p].children[i + 1];
    var g, k := ParentIndex(t, h);
    assert g != a && g != b;
    if g == p {
      InRemoveAt(t.nodes[p].children, i + 1, h);
    }
  }

  /** The children of a node outside the pair and its children keep it as their parent. */
  lemma BMergeOtherChildren(t: Tree, u: Tree, p: Handle, i: nat, h: Handle)
    requires Shape(t) && BranchPair(t, p, i) && Joined(t, p, i) && BranchMergeResult(t, u, p, i)
    requires h in u.nodes && h != p && h != t.nodes[p].children[i]
    requires h !in JoinedChildren(t, p, i)
    ensures forall c :: c in t.nodes && t.nodes[c].parent == Some(h) ==>
      c in u.nodes && c in u.meta && u.nodes[c].parent == Some(h) && u.meta[c] == t.meta[c]
  {
    var a := t.nodes[p].children[i];
    var b := t.nodes[p].children[i + 1];
    assert NodeOk(t, p) && ChildOk(t, p, i) && ChildOk(t, p, i + 1);
    forall c | c in t.nodes && t.nodes[c].parent == Some(h)
      ensures c in u.nodes && c in u.meta && u.nodes[c].parent == Some(h) && u.meta[c] == t.meta[c]
    {
      assert NodeOk(t, c);
      if c != p {
        MergeKeeps(t, u, p, i, c);
      }
    }
  }

  /** Every node outside the pair, its parent and its children is untouched. */
  lemma BMergeOtherOk(t: Tree, u: Tree, p: Handle, i: nat, h: Handle)
    requires Shape(t) && BranchPair(t, p, i) && Joined(t, p, i) && BranchMergeResult(t, u, p, i)
    requires h in u.nodes && h != p && h != t.nodes[p].children[i]
    requires h !in JoinedChildren(t, p, i)
    ensures NodeOk(u, h)
  {
    assert NodeOk(t, h);
    if h != t.root {
      BMergeOtherParent(t, u, p, i, h);
    }
    BMergeOtherChildren(t, u, p, i, h);
    NodeOkFrame(t, u, h);
  }

  lemma BMergeNodesOk(t: Tree, u: Tree, p: Handle, i: nat)
    requires Shape(t) && BranchPair(t, p, i) && Joined(t, p, i) && BranchMergeResult(t, u, p, i)
    ensures forall h :: h in u.nodes ==> NodeOk(u, h)
  {
    var a := t.nodes[p].children[i];
    var cs := JoinedChildren(t, p, i);
    BMergeLeftOk(t, u, p, i);
    BMergeParentOk(t, u, p, i);
    forall h | h in u.nodes ensures NodeOk(u, h) {
      if h in cs {
        var q :| 0 <= q < |cs| && cs[q] == h;
        BMergeChildOk(t, u, p, i, q);
      } else if h != p && h != a {
        BMergeOtherOk(t, u, p, i, h);
      }
    }
  }

  lemma BMergeLeaves(t: Tree, u: Tree, p: Handle, i: nat)
    requires t.nodes.Keys <= t.meta.Keys
    requires BranchPair(t, p, i) && Joined(t, p, i) && BranchMergeResult(t, u, p, i)
    ensures forall h :: h in t.nodes && t.nodes[h].Leaf? ==>
      && h in u.nodes && u.nodes[h].Leaf? && u.meta[h] == t.meta[h] && u.nodes[h].records == t.nodes[h].records
      && u.nodes[h].prev == t.nodes[h].prev && u.nodes[h].next == t.nodes[h].next
    ensures forall h :: h in u.nodes && u.nodes[h].Leaf? ==> h in t.nodes && t.nodes[h].Leaf?
  {
    var cs := JoinedChildren(t, p, i);
    forall h | h in t.nodes && t.nodes[h].Leaf? && h in cs
      ensures u.nodes[h] == WithParent(t.nodes[h], u.nodes[h].parent)
    {
      var q :| 0 <= q < |cs| && cs[q] == h;
    }
    forall h | h in u.nodes && u.nodes[h].Leaf? ensures t.nodes[h].Leaf? {
      if h in cs {
        var q :| 0 <= q < |cs| && cs[q] == h;
      }
    }
  }

  /** A fusion keeps the tree well-formed and keeps its records. */
  lemma BranchMergeShape(t: Tree, u: Tree, p: Handle, i: nat)
    requires Shape(t) && BranchPair(t, p, i) && Joined(t, p, i) && BranchMergeResult(t, u, p, i)
    ensures Shape(u)
    ensures Contents(u) == Contents(t)
  {
    var a := t.nodes[p].children[i];
    var b := t.nodes[p].children[i + 1];
    BMergeNodesOk(t, u, p, i);
    BMergeLeaves(t, u, p, i);
    ChainOkFrame(t, u);
    SameLeaves(t, u);
    assert NodeOk(t, p) && ChildOk(t, p, i) && ChildOk(t, p, i + 1);
    assert t.root != a && t.root != b && t.root !in JoinedChildren(t, p, i);
  }

  /** After a fusion every node but the parent is within its bounds, given that the fused node
      is. */
  lemma BranchMergeSizes(t: Tree, u: Tree, p: Handle, i: nat, leafMin: nat, x: Handle)
    requires BranchPair(t, p, i) && Joined(t, p, i) && BranchMergeResult(t, u, p, i)
    requires SizesOkExcept(t, leafMin, x)
    requires x == t.nodes[p].children[i] || x == t.nodes[p].children[i + 1]
    requires INTERNAL_MIN <= |JoinedKeys(t, p, i)| <= INTERNAL_MAX
    ensures SizesOkExcept(u, leafMin, p)
  {
    var a := t.nodes[p].children[i];
    var cs := JoinedChildren(t, p, i);
    forall h | h in u.nodes && h != p ensures SizeOk(u, leafMin, h) {
      if h in cs {
        var q :| 0 <= q < |cs| && cs[q] == h;
        assert SizeOk(t, leafMin, h);
      } else if h != a {
        assert SizeOk(t, leafMin, h);
      }
    }
  }
}
