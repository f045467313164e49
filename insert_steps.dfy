/** The steps of insertion as functions on tree snapshots, each proved to lead from a well-formed
    tree to a well-formed tree holding the same records.

    A split happens in two halves in the source: `splitLeaf`/`splitInternal` first cut the node and
    create its right sibling, then `insertIntoParent` tells the parent (or makes a new root). In
    between the tree is not well-formed; `Pending` says it becomes so once the parent is told. */
module InsertSteps {
  import opened Lex
  import opened Options
  import opened LeafNode
  import opened Arena
  import opened TreeFacts
  import opened Frame

  // ----- telling the parent about a new right sibling (`insertIntoParent`) -----

  /** What `insertIntoParent(left, key, right)` needs to find: `left` either is the root or has a
      parent that lists it. */
  ghost predicate CanAttach(t: Tree, left: Handle, right: Handle) {
    && left in t.nodes && right in t.nodes && left in t.meta && left != right
    && (left != t.root ==>
          && t.nodes[left].parent.Some?
          && t.nodes[left].parent.value in t.nodes
          && t.nodes[left].parent.value != right
          && t.nodes[t.nodes[left].parent.value].Internal?
          && left in t.nodes[t.nodes[left].parent.value].children
          && |t.nodes[t.nodes[left].parent.value].children|
             == |t.nodes[t.nodes[left].parent.value].keys| + 1)
  }

  /** The node that receives `key`: a new root `newRoot`, or `left`'s parent. */
  ghost function AttachTarget(t: Tree, left: Handle, newRoot: Handle): Handle
    requires left in t.nodes
  {
    if left == t.root || t.nodes[left].parent.None? then newRoot else t.nodes[left].parent.value
  }

  /** The tree after `insertIntoParent(left, key, right)` has updated the parent (or created the new
      root `newRoot`), before any split of that parent. */
  ghost function Attach(t: Tree, left: Handle, key: string, right: Handle, newRoot: Handle): Tree
    requires CanAttach(t, left, right)
  {
    if left == t.root then
      var n1 := t.nodes[newRoot := Internal([key], [left, right], None)];
      var n2 := n1[left := WithParent(t.nodes[left], Some(newRoot))];
      var n3 := n2[right := WithParent(t.nodes[right], Some(newRoot))];
      Tree(n3, newRoot, t.chain, t.meta[newRoot := Meta(t.meta[left].level + 1, NegInf, PosInf)])
    else
      var p := t.nodes[left].parent.value;
      var pn := t.nodes[p];
      var idx := IndexOfHandle(pn.children, left);
      var n1 := t.nodes[p := Internal(InsertAt(pn.keys, idx, key), InsertAt(pn.children, idx + 1, right), pn.parent)];
      t.(nodes := n1[right := WithParent(t.nodes[right], Some(p))])
  }

  /** Between the two halves of a split: `right` is cut off from `left`, and the tree is well-formed
      again once `key` and `right` are attached next to `left`. */
  ghost predicate Pending(t: Tree, left: Handle, key: string, right: Handle, newRoot: Handle) {
    && CanAttach(t, left, right)
    && newRoot !in t.nodes
    && right != t.root
    && (t.nodes[left].parent.None? <==> left == t.root)
    && Shape(Attach(t, left, key, right, newRoot))
  }

  /** After `insertIntoParent` attaches `right`, every node but the receiving one is within its
      bounds, and the receiving one holds at most one separator too many, and at least one more
      than its minimum unless it is the root. */
  ghost predicate AttachSizes(t: Tree, left: Handle, key: string, right: Handle, newRoot: Handle, leafMin: nat)
    requires CanAttach(t, left, right)
  {
    var u := Attach(t, left, key, right, newRoot);
    var q := AttachTarget(t, left, newRoot);
    && q in u.nodes && u.nodes[q].Internal?
    && SizesOkExcept(u, leafMin, q)
    && |u.nodes[q].keys| <= INTERNAL_MAX + 1
    && (if q == u.root then 1 else INTERNAL_MIN + 1) <= |u.nodes[q].keys|
  }

  // ----- interval ends after inserting a separator -----

  lemma FenceInsert(keys: seq<string>, lo: Bound, hi: Bound, idx: nat, key: string, i: nat)
    requires idx <= |keys| && i <= |keys| + 2
    ensures i <= idx ==> Fence(InsertAt(keys, idx, key), lo, hi, i) == Fence(keys, lo, hi, i)
    ensures i == idx + 1 ==> Fence(InsertAt(keys, idx, key), lo, hi, i) == At(key)
    ensures i > idx + 1 ==> Fence(InsertAt(keys, idx, key), lo, hi, i) == Fence(keys, lo, hi, i - 1)
  {
  }

  /** Parent `p` of `u` lists `left` then `right` where `t`'s `p` listed `left` alone, with `key`
      between them; `left`'s interval was cut at `key` and `right` took the upper part. */
  lemma InsertedParentOk(t: Tree, u: Tree, p: Handle, idx: nat, key: string, left: Handle, right: Handle)
    requires Shape(t) && p in t.nodes && t.nodes[p].Internal?
    requires ChildOk(t, p, idx) && t.nodes[p].children[idx] == left
    requires p in u.nodes && p in u.meta && u.root in u.meta
    requires u.nodes[p] == Internal(InsertAt(t.nodes[p].keys, idx, key),
                                    InsertAt(t.nodes[p].children, idx + 1, right), t.nodes[p].parent)
    requires u.meta[p] == t.meta[p]
    requires t.meta[p].level <= u.meta[u.root].level
    requires p != u.root ==> ParentOk(u, p)
    requires left in u.nodes && left in u.meta && right in u.nodes && right in u.meta
    requires u.nodes[left].parent == Some(p) && u.nodes[right].parent == Some(p)
    requires u.meta[left] == Meta(t.meta[left].level, t.meta[left].lo, At(key))
    requires u.meta[right] == Meta(t.meta[left].level, At(key), t.meta[left].hi)
    requires forall c :: c in t.nodes && t.nodes[c].parent == Some(p) && c != left ==>
      c in u.nodes && c in u.meta && u.nodes[c].parent == Some(p) && u.meta[c] == t.meta[c]
    ensures NodeOk(u, p)
  {
    assert NodeOk(t, p);
    var n := t.nodes[p];
    var m := t.meta[p];
    var cs := u.nodes[p].children;
    ChildrenDistinct(t, p);
    forall i | 0 <= i < |cs| ensures ChildOk(u, p, i) {
      FenceInsert(n.keys, m.lo, m.hi, idx, key, i);
      FenceInsert(n.keys, m.lo, m.hi, idx, key, i + 1);
      if i < idx {
        assert cs[i] == n.children[i];
        assert ChildOk(t, p, i);
      } else if i == idx {
        assert cs[i] == left;
      } else if i == idx + 1 {
        assert cs[i] == right;
      } else {
        assert cs[i] == n.children[i - 1];
        assert ChildOk(t, p, i - 1);
      }
    }
  }

  // ----- splitting a leaf (`splitLeaf`, before `insertIntoParent`) -----

  /** `splitLeaf(l)` up to its call of `insertIntoParent`: `l` keeps the lower half of its records,
      the new leaf `r` takes the upper half and follows `l` in the chain; `r`'s parent is
      `rParent` (BPlusTree.java copies `l`'s, B_Plus_Tree.java leaves it unset). */
  ghost function SplitLeafRaw(t: Tree, l: Handle, r: Handle, rParent: Option<Handle>): Tree
    requires l in t.nodes && t.nodes[l].Leaf? && l in t.meta && l in t.chain
    requires 2 <= |t.nodes[l].records|
  {
    var n := t.nodes[l];
    var mid := |n.records| / 2;
    var key := n.records[mid].id;
    var n1 := t.nodes[r := Leaf(n.records[mid..], rParent, Some(l), n.next)];
    var n2 := if n.next.Some? && n.next.value in n1 && n1[n.next.value].Leaf?
              then n1[n.next.value := n1[n.next.value].(prev := Some(r))] else n1;
    var n3 := n2[l := n.(records := n.records[..mid], next := Some(r))];
    var k := IndexOfHandle(t.chain, l);
    Tree(n3, t.root, InsertAt(t.chain, k + 1, r),
         t.meta[l := Meta(0, t.meta[l].lo, At(key))][r := Meta(0, At(key), t.meta[l].hi)])
  }

  /** The separator `splitLeaf` promotes: the first id of the upper half. */
  ghost function SplitKey(rs: seq<PartRecord>): string
    requires 2 <= |rs|
  {
    rs[|rs| / 2].id
  }

  /** The two halves of a sorted leaf in [lo, hi) are sorted and lie in [lo, key) and [key, hi). */
  lemma SplitHalves(rs: seq<PartRecord>, lo: Bound, hi: Bound)
    requires 2 <= |rs| && SortedById(rs)
    requires forall x :: x in rs ==> KeyIn(x.id, lo, hi)
    ensures SortedById(rs[..|rs| / 2]) && SortedById(rs[|rs| / 2..])
    ensures forall x :: x in rs[..|rs| / 2] ==> KeyIn(x.id, lo, At(SplitKey(rs)))
    ensures forall x :: x in rs[|rs| / 2..] ==> KeyIn(x.id, At(SplitKey(rs)), hi)
    ensures BLt(lo, At(SplitKey(rs))) && BLt(At(SplitKey(rs)), hi)
  {
    var mid := |rs| / 2;
    var key := SplitKey(rs);
    assert rs[mid] in rs;
    forall x | x in rs[..mid] ensures KeyIn(x.id, lo, At(key)) {
      var i :| 0 <= i < mid && rs[..mid][i] == x;
      assert rs[i] == x;
    }
    forall x | x in rs[mid..] ensures KeyIn(x.id, At(key), hi) {
      var i :| 0 <= i < |rs| - mid && rs[mid..][i] == x;
      assert rs[mid + i] == x;
      assert x in rs;
    }
    assert rs[0] in rs[..mid];
    BoundTrans(lo, At(rs[0].id), At(key));
  }

  /** A non-root node of `t` whose parent link is unchanged in `u` keeps a parent that lists it
      when every internal node of `t` is still there, still internal, and lists at least the
      children it listed. */
  lemma ParentsKept(t: Tree, u: Tree, h: Handle)
    requires Shape(t) && h in t.nodes && h != t.root
    requires h in u.nodes && u.nodes[h].parent == t.nodes[h].parent
    requires forall q :: q in t.nodes && t.nodes[q].Internal? ==>
      q in u.nodes && u.nodes[q].Internal? && (forall c :: c in t.nodes[q].children ==> c in u.nodes[q].children)
    ensures ParentOk(u, h)
  {
    var p, i := ParentIndex(t, h);
  }

  /** How the leaves of `u` relate to those of `t` once leaf `l` (at chain position `k`) is split
      into `l` and the new leaf `r`. */
  ghost predicate LeafSplitLinks(t: Tree, u: Tree, l: Handle, r: Handle, k: nat) {
    && Shape(t) && k < |t.chain| && t.chain[k] == l && r !in t.nodes
    && 2 <= |t.nodes[l].records|
    && u.chain == InsertAt(t.chain, k + 1, r)
    && t.nodes.Keys + {r} <= u.nodes.Keys && u.nodes.Keys <= u.meta.Keys
    && (forall h :: h in u.nodes && u.nodes[h].Leaf? ==> h in t.nodes || h == r)
    && u.nodes[l].Leaf? && u.nodes[l].prev == t.nodes[l].prev && u.nodes[l].next == Some(r)
    && u.nodes[r].Leaf? && u.nodes[r].prev == Some(l) && u.nodes[r].next == t.nodes[l].next
    && u.meta[l] == Meta(0, t.meta[l].lo, At(SplitKey(t.nodes[l].records)))
    && u.meta[r] == Meta(0, At(SplitKey(t.nodes[l].records)), t.meta[l].hi)
    && (forall h :: h in t.nodes && h != l && h != r ==> u.meta[h] == t.meta[h])
    && (forall h :: h in t.nodes && h != l ==> (u.nodes[h].Leaf? <==> t.nodes[h].Leaf?))
    && (forall h :: h in t.nodes && t.nodes[h].Leaf? && h != l ==>
          && u.nodes[h].next == t.nodes[h].next
          && u.nodes[h].prev == (if t.nodes[l].next == Some(h) then Some(r) else t.nodes[h].prev))
  }

  lemma SplitLeafLink(t: Tree, u: Tree, l: Handle, r: Handle, k: nat, j: int)
    requires LeafSplitLinks(t, u, l, r, k) && 0 <= j < |u.chain|
    ensures LinkOk(u, j)
  {
    ChainDistinct(t);
    var c := t.chain;
    var c2 := u.chain;
    assert LinkOk(t, k);
    if j < k {
      assert c2[j] == c[j] && c2[j + 1] == c[j + 1];
      assert LinkOk(t, j);
      if j > 0 {
        assert c2[j - 1] == c[j - 1];
      }
    } else if j == k {
      assert c2[j] == l && c2[j + 1] == r;
      if j > 0 {
        assert c2[j - 1] == c[j - 1];
      }
    } else if j == k + 1 {
      assert c2[j] == r;
      if j + 1 < |c2| {
        assert c2[j + 1] == c[k + 1];
        assert LinkOk(t, k + 1);
      }
    } else {
      assert c2[j] == c[j - 1];
      assert LinkOk(t, j - 1);
      if j + 1 < |c2| {
        assert c2[j + 1] == c[j];
      }
      if j == k + 2 {
        assert c2[j - 1] == r;
      } else {
        assert c2[j - 1] == c[j - 2];
      }
    }
  }

  lemma SplitLeafListed(t: Tree, u: Tree, l: Handle, r: Handle, k: nat, h: Handle)
    requires LeafSplitLinks(t, u, l, r, k) && h in u.nodes && u.nodes[h].Leaf?
    ensures h in u.chain
  {
    var c := t.chain;
    var c2 := u.chain;
    if h != r && h != l {
      assert h in c;
      var j :| 0 <= j < |c| && c[j] == h;
      assert c2[if j <= k then j else j + 1] == h;
    } else if h == l {
      assert c2[k] == l;
    } else {
      assert c2[k + 1] == r;
    }
  }

  /** The leaves of `u` are linked as its chain says, and their intervals tile the key space. */
  lemma SplitLeafChainOk(t: Tree, u: Tree, l: Handle, r: Handle, k: nat)
    requires LeafSplitLinks(t, u, l, r, k)
    ensures ChainOk(u)
  {
    var c := t.chain;
    var c2 := u.chain;
    forall j | 0 <= j < |c2| ensures LinkOk(u, j) {
      SplitLeafLink(t, u, l, r, k, j);
    }
    forall j | 0 <= j < |c2| ensures c2[j] in u.nodes && u.nodes[c2[j]].Leaf? {
      assert LinkOk(u, j);
    }
    forall h | h in u.nodes && u.nodes[h].Leaf? ensures h in c2 {
      SplitLeafListed(t, u, l, r, k, h);
    }
    assert LinkOk(t, 0) && LinkOk(t, |c| - 1);
    assert LinkOk(u, 0) && LinkOk(u, |c2| - 1);
    if k > 0 {
      assert c2[0] == c[0];
    }
    assert u.meta[c2[0]].lo == NegInf;
    if k + 1 < |c| {
      assert c2[|c2| - 1] == c[|c| - 1];
    }
    assert u.meta[c2[|c2| - 1]].hi == PosInf;
  }

  /** How the nodes of `u` relate to those of `t` once non-root leaf `l`, child `idx` of `p`, is
      split into `l` and the new leaf `r`, and `p` is told. */
  ghost predicate LeafSplitNodes(t: Tree, u: Tree, l: Handle, r: Handle, p: Handle, idx: nat) {
    && Shape(t) && l in t.nodes && t.nodes[l].Leaf? && l != t.root && r !in t.nodes
    && 2 <= |t.nodes[l].records|
    && t.nodes[l].parent == Some(p) && p in t.nodes && t.nodes[p].Internal?
    && ChildOk(t, p, idx) && t.nodes[p].children[idx] == l
    && u.root == t.root
    && u.nodes.Keys == t.nodes.Keys + {r} && u.nodes.Keys <= u.meta.Keys
    && var rs := t.nodes[l].records;
    && var key := SplitKey(rs);
    && u.nodes[l].Leaf? && u.nodes[l].records == rs[..|rs| / 2] && u.nodes[l].parent == Some(p)
    && u.nodes[r].Leaf? && u.nodes[r].records == rs[|rs| / 2..] && u.nodes[r].parent == Some(p)
    && u.nodes[p] == Internal(InsertAt(t.nodes[p].keys, idx, key),
                              InsertAt(t.nodes[p].children, idx + 1, r), t.nodes[p].parent)
    && u.meta[l] == Meta(0, t.meta[l].lo, At(key))
    && u.meta[r] == Meta(0, At(key), t.meta[l].hi)
    && (forall h :: h in t.nodes && h != l && h != r ==> u.meta[h] == t.meta[h])
    && (forall h :: h in t.nodes && h != l && h != p ==> SameCore(t.nodes[h], u.nodes[h]))
  }

  lemma InsertAtKeeps<T>(s: seq<T>, i: nat, x: T, y: T)
    requires i <= |s| && y in s
    ensures y in InsertAt(s, i, x)
  {
    var j :| 0 <= j < |s| && s[j] == y;
    assert InsertAt(s, i, x)[if j < i then j else j + 1] == y;
  }

  lemma LeafSplitParents(t: Tree, u: Tree, l: Handle, r: Handle, p: Handle, idx: nat, h: Handle)
    requires LeafSplitNodes(t, u, l, r, p, idx) && h in t.nodes && h != t.root
    ensures ParentOk(u, h)
  {
    forall q | q in t.nodes && t.nodes[q].Internal?
      ensures q in u.nodes && u.nodes[q].Internal?
      ensures forall c :: c in t.nodes[q].children ==> c in u.nodes[q].children
    {
      if q == p {
        forall c | c in t.nodes[q].children ensures c in u.nodes[q].children {
          InsertAtKeeps(t.nodes[p].children, idx + 1, r, c);
        }
      } else {
        assert SameCore(t.nodes[q], u.nodes[q]);
      }
    }
    if h != l && h != p {
      assert SameCore(t.nodes[h], u.nodes[h]);
    }
    ParentsKept(t, u, h);
  }

  lemma LeafSplitNodeOk(t: Tree, u: Tree, l: Handle, r: Handle, p: Handle, idx: nat, h: Handle)
    requires LeafSplitNodes(t, u, l, r, p, idx) && h in u.nodes
    ensures NodeOk(u, h)
  {
    var rs := t.nodes[l].records;
    assert NodeOk(t, l);
    assert u.root in u.meta;
    var pi, i := ParentIndex(t, l);
    assert pi == p && i == idx by {
      ChildrenDistinct(t, p);
    }
    if h == l || h == r {
      SplitHalves(rs, t.meta[l].lo, t.meta[l].hi);
      assert l in u.nodes[p].children by {
        assert u.nodes[p].children[idx] == l;
      }
      assert r in u.nodes[p].children by {
        assert u.nodes[p].children[idx + 1] == r;
      }
    } else if h == p {
      assert NodeOk(t, p);
      if p != t.root {
        LeafSplitParents(t, u, l, r, p, idx, p);
      }
      InsertedParentOk(t, u, p, idx, SplitKey(rs), l, r);
    } else {
      assert NodeOk(t, h);
      if h != t.root {
        LeafSplitParents(t, u, l, r, p, idx, h);
      }
      forall c | c in t.nodes && t.nodes[c].parent == Some(h)
        ensures c in u.nodes && c in u.meta && u.nodes[c].parent == Some(h) && u.meta[c] == t.meta[c]
      {
        assert c != l;
        if c != p {
          assert SameCore(t.nodes[c], u.nodes[c]);
        }
      }
      NodeOkFrame(t, u, h);
    }
  }

  /** The new root made by `insertIntoParent` over a split root leaf. */
  lemma RootLeafSplitNodeOk(t: Tree, u: Tree, l: Handle, r: Handle, nr: Handle, h: Handle)
    requires Shape(t) && t.root == l && t.nodes[l].Leaf? && 2 <= |t.nodes[l].records|
    requires r != l && nr != l && nr != r
    requires u.root == nr && u.nodes.Keys == {l, r, nr} && u.nodes.Keys <= u.meta.Keys
    requires var rs := t.nodes[l].records;
      && u.nodes[nr] == Internal([SplitKey(rs)], [l, r], None)
      && u.nodes[l].Leaf? && u.nodes[l].records == rs[..|rs| / 2] && u.nodes[l].parent == Some(nr)
      && u.nodes[r].Leaf? && u.nodes[r].records == rs[|rs| / 2..] && u.nodes[r].parent == Some(nr)
      && u.meta[nr] == Meta(1, NegInf, PosInf)
      && u.meta[l] == Meta(0, NegInf, At(SplitKey(rs)))
      && u.meta[r] == Meta(0, At(SplitKey(rs)), PosInf)
    requires h in u.nodes
    ensures NodeOk(u, h)
  {
    var rs := t.nodes[l].records;
    assert NodeOk(t, l);
    SplitHalves(rs, NegInf, PosInf);
    if h == nr {
      assert ChildOk(u, nr, 0);
      assert ChildOk(u, nr, 1);
    }
  }

  /** `Attach` leaves the chain and the records alone. */
  lemma AttachContents(t: Tree, left: Handle, key: string, right: Handle, nr: Handle)
    requires CanAttach(t, left, right) && nr !in t.nodes
    ensures Attach(t, left, key, right, nr).chain == t.chain
    ensures forall h :: RecordsAt(Attach(t, left, key, right, nr), h) == RecordsAt(t, h)
    ensures Contents(Attach(t, left, key, right, nr)) == Contents(t)
  {
    var u := Attach(t, left, key, right, nr);
    assert Leaves(u) == Leaves(t);
  }

  /** Below the root, `left`'s parent sits one level above `left` and no higher than the root:
      the split that may follow at the parent is closer to the root. */
  lemma AttachLevels(t: Tree, left: Handle, key: string, right: Handle, nr: Handle)
    requires Pending(t, left, key, right, nr) && left != t.root
    ensures var p := t.nodes[left].parent.value;
      && left in t.meta && p in t.meta && t.root in t.meta
      && t.meta[left].level + 1 == t.meta[p].level <= t.meta[t.root].level
      && Depth(Attach(t, left, key, right, nr), p) < Depth(t, left)
  {
    var u := Attach(t, left, key, right, nr);
    var p, i := ParentIndex(u, left);
    ChildLevel(u, p, i);
    assert NodeOk(u, p) && NodeOk(u, u.root);
    if p != u.root {
      NonRootBelow(u, p);
    }
  }

  /** The chain and the leaves' records after `splitLeaf`. */
  lemma SplitLeafRawLeaves(t: Tree, l: Handle, r: Handle, rParent: Option<Handle>, k: nat)
    requires LinkOk(t, k) && t.chain[k] == l && IndexOfHandle(t.chain, l) == k
    requires l in t.meta && 2 <= |t.nodes[l].records|
    requires r !in t.nodes
    ensures SplitLeafRaw(t, l, r, rParent).chain == t.chain[..k] + [l, r] + t.chain[k + 1..]
    ensures RecordsAt(SplitLeafRaw(t, l, r, rParent), l) == t.nodes[l].records[..|t.nodes[l].records| / 2]
    ensures RecordsAt(SplitLeafRaw(t, l, r, rParent), r) == t.nodes[l].records[|t.nodes[l].records| / 2..]
    ensures forall h :: h != l && h != r ==> RecordsAt(SplitLeafRaw(t, l, r, rParent), h) == RecordsAt(t, h)
  {
    SplitLeafRawChain(t, l, r, rParent, k);
    SplitLeafRawHalves(t, l, r, rParent);
    SplitLeafRawOthers(t, l, r, rParent);
  }

  lemma SplitLeafRawChain(t: Tree, l: Handle, r: Handle, rParent: Option<Handle>, k: nat)
    requires l in t.nodes && t.nodes[l].Leaf? && l in t.meta && l in t.chain
    requires 2 <= |t.nodes[l].records|
    requires k < |t.chain| && t.chain[k] == l && IndexOfHandle(t.chain, l) == k
    ensures SplitLeafRaw(t, l, r, rParent).chain == t.chain[..k] + [l, r] + t.chain[k + 1..]
  {
    assert SplitLeafRaw(t, l, r, rParent).chain == InsertAt(t.chain, k + 1, r);
    assert InsertAt(t.chain, k + 1, r) == t.chain[..k + 1] + [r] + t.chain[k + 1..];
    assert t.chain[..k + 1] == t.chain[..k] + [l];
  }

  lemma SplitLeafRawHalves(t: Tree, l: Handle, r: Handle, rParent: Option<Handle>)
    requires l in t.nodes && t.nodes[l].Leaf? && l in t.meta && l in t.chain
    requires 2 <= |t.nodes[l].records| && r !in t.nodes
    ensures RecordsAt(SplitLeafRaw(t, l, r, rParent), l) == t.nodes[l].records[..|t.nodes[l].records| / 2]
    ensures RecordsAt(SplitLeafRaw(t, l, r, rParent), r) == t.nodes[l].records[|t.nodes[l].records| / 2..]
  {
    var n := t.nodes[l];
    var mid := |n.records| / 2;
    var u0 := SplitLeafRaw(t, l, r, rParent);
    assert l != r;
    assert u0.nodes[l] == n.(records := n.records[..mid], next := Some(r));
    assert u0.nodes[r].Leaf? && u0.nodes[r].records == n.records[mid..];
  }

  /** `splitLeaf` changes the records of no leaf but the two halves. */
  lemma SplitLeafRawOthers(t: Tree, l: Handle, r: Handle, rParent: Option<Handle>)
    requires l in t.nodes && t.nodes[l].Leaf? && l in t.meta && l in t.chain
    requires 2 <= |t.nodes[l].records|
    ensures forall h :: h != l && h != r ==> RecordsAt(SplitLeafRaw(t, l, r, rParent), h) == RecordsAt(t, h)
  {
    var u0 := SplitLeafRaw(t, l, r, rParent);
    forall h | h != l && h != r ensures RecordsAt(u0, h) == RecordsAt(t, h) {
      if h in t.nodes {
        assert h in u0.nodes && u0.nodes[h].Leaf? == t.nodes[h].Leaf?;
        assert u0.nodes[h].Leaf? ==> u0.nodes[h].records == t.nodes[h].records;
      } else {
        assert h !in u0.nodes;
      }
    }
  }

  lemma SplitLeafContents(t: Tree, l: Handle, r: Handle, rParent: Option<Handle>, k: nat)
    requires Shape(t) && k < |t.chain| && t.chain[k] == l && 2 <= |t.nodes[l].records|
    requires r !in t.nodes
    ensures Contents(SplitLeafRaw(t, l, r, rParent)) == Contents(t)
  {
    var rs := t.nodes[l].records;
    var u0 := SplitLeafRaw(t, l, r, rParent);
    ChainDistinct(t);
    assert LinkOk(t, k);
    SplitLeafRawLeaves(t, l, r, rParent, k);
    forall j | 0 <= j < |t.chain| && j != k ensures RecordsAt(u0, t.chain[j]) == RecordsAt(t, t.chain[j]) {
      assert t.chain[j] != l && t.chain[j] != r by {
        assert LinkOk(t, j);
      }
    }
    HalvesContents(t, u0, k, r);
  }

  /** Chain position `k` becomes two leaves holding the halves of its records, the rest keep
      theirs: the records read in chain order are the same. */
  lemma HalvesContents(t: Tree, u: Tree, k: nat, r: Handle)
    requires k < |t.chain| && u.chain == t.chain[..k] + [t.chain[k], r] + t.chain[k + 1..]
    requires RecordsAt(u, t.chain[k]) + RecordsAt(u, r) == RecordsAt(t, t.chain[k])
    requires forall j :: 0 <= j < |t.chain| && j != k ==> RecordsAt(u, t.chain[j]) == RecordsAt(t, t.chain[j])
    ensures Contents(u) == Contents(t)
  {
    var l := t.chain[k];
    ContentsSplice(t, u, k, k + 1, [l, r]);
    var lo := RecordsAt(u, l);
    var hi := RecordsAt(u, r);
    assert ListsAt(u, [l, r]) == [lo] + [hi];
    FlattenAppend([lo], [hi]);
    FlattenSingle(lo);
    FlattenSingle(hi);
    assert Leaves(t)[k..k + 1] == [RecordsAt(t, l)];
    FlattenSingle(RecordsAt(t, l));
  }

  lemma SplitRootLeafShape(t: Tree, l: Handle, r: Handle, rParent: Option<Handle>, nr: Handle)
    requires Shape(t) && l == t.root && t.nodes[l].Leaf? && 2 <= |t.nodes[l].records|
    requires r !in t.nodes && nr !in t.nodes && r != nr
    ensures l in t.chain && l in t.meta
    ensures CanAttach(SplitLeafRaw(t, l, r, rParent), l, r)
    ensures Shape(Attach(SplitLeafRaw(t, l, r, rParent), l, SplitKey(t.nodes[l].records), r, nr))
  {
    LeafRootAlone(t);
    assert t.chain[0] == l;
    assert NodeOk(t, l) && LinkOk(t, 0);
    var u0 := SplitLeafRaw(t, l, r, rParent);
    var u := Attach(u0, l, SplitKey(t.nodes[l].records), r, nr);
    forall h | h in u.nodes ensures NodeOk(u, h) {
      RootLeafSplitNodeOk(t, u, l, r, nr, h);
    }
    RootLeafSplitLinks(t, l, r, rParent, nr);
    SplitLeafChainOk(t, u, l, r, 0);
  }

  /** A root leaf split in two: the tree is the two halves under a new root. */
  lemma RootLeafSplitLinks(t: Tree, l: Handle, r: Handle, rParent: Option<Handle>, nr: Handle)
    requires Shape(t) && l == t.root && t.nodes[l].Leaf? && 2 <= |t.nodes[l].records|
    requires r !in t.nodes && nr !in t.nodes && r != nr
    requires t.nodes.Keys == {l} && t.chain == [l] && l in t.meta
    requires CanAttach(SplitLeafRaw(t, l, r, rParent), l, r)
    ensures LeafSplitLinks(t, Attach(SplitLeafRaw(t, l, r, rParent), l, SplitKey(t.nodes[l].records), r, nr), l, r, 0)
  {
    var n := t.nodes[l];
    var rs := n.records;
    var key := SplitKey(rs);
    var u0 := SplitLeafRaw(t, l, r, rParent);
    var u := Attach(u0, l, key, r, nr);
    assert n.next.None? && n.prev.None? by {
      assert LinkOk(t, 0);
    }
    assert u0.nodes.Keys == {l, r};
    assert u0.nodes[l] == n.(records := rs[..|rs| / 2], next := Some(r));
    assert u0.nodes[r] == Leaf(rs[|rs| / 2..], rParent, Some(l), None);
    assert u.nodes.Keys == {l, r, nr};
    assert u.nodes[l] == WithParent(u0.nodes[l], Some(nr));
    assert u.nodes[r] == WithParent(u0.nodes[r], Some(nr));
    assert u.nodes[nr].Internal?;
    assert u.chain == InsertAt(t.chain, 1, r) by {
      assert IndexOfHandle(t.chain, l) == 0;
    }
    assert u.meta[l] == Meta(0, t.meta[l].lo, At(key)) && u.meta[r] == Meta(0, At(key), t.meta[l].hi);
  }

  /** What `InnerLeafSplitFacts` and `InnerLeafSplitOthers` need about `t`. */
  ghost predicate InnerLeafSplitCase(t: Tree, l: Handle, r: Handle, nr: Handle, p: Handle, idx: nat, k: nat) {
    && LinkOk(t, k) && t.chain[k] == l && IndexOfHandle(t.chain, l) == k && l in t.meta
    && l != t.root && 2 <= |t.nodes[l].records|
    && r !in t.nodes && nr !in t.nodes && r != nr
    && (t.nodes[l].next.Some? ==> t.nodes[l].next.value in t.nodes && t.nodes[t.nodes[l].next.value].Leaf?)
    && t.nodes[l].parent == Some(p) && p in t.nodes && t.nodes[p].Internal? && ChildOk(t, p, idx)
    && t.nodes[p].children[idx] == l && IndexOfHandle(t.nodes[p].children, l) == idx
  }

  /** The tree `u` after non-root leaf `l` (chain position `k`, child `idx` of `p`) was split
      into `l` and `r` and `p` was told. */
  ghost predicate InnerLeafSplitResult(t: Tree, u: Tree, l: Handle, r: Handle, p: Handle, idx: nat, k: nat)
  {
    && l in t.nodes && t.nodes[l].Leaf? && 2 <= |t.nodes[l].records| && l in t.meta
    && p in t.nodes && t.nodes[p].Internal? && k < |t.chain| && idx <= |t.nodes[p].keys|
    && idx + 1 <= |t.nodes[p].children|
    && var n := t.nodes[l];
    && var rs := n.records;
    && u.root == t.root
    && u.chain == InsertAt(t.chain, k + 1, r)
    && u.nodes.Keys == t.nodes.Keys + {r}
    && u.meta == t.meta[l := Meta(0, t.meta[l].lo, At(SplitKey(rs)))][r := Meta(0, At(SplitKey(rs)), t.meta[l].hi)]
    && u.nodes[l] == n.(records := rs[..|rs| / 2], next := Some(r))
    && u.nodes[r] == Leaf(rs[|rs| / 2..], Some(p), Some(l), n.next)
    && u.nodes[p] == Internal(InsertAt(t.nodes[p].keys, idx, SplitKey(rs)),
                              InsertAt(t.nodes[p].children, idx + 1, r), t.nodes[p].parent)
    && (forall h :: h in t.nodes && h != l && h != p && Some(h) != n.next ==> u.nodes[h] == t.nodes[h])
    && (forall h :: h in t.nodes && h != l && Some(h) == n.next && t.nodes[h].Leaf? ==> u.nodes[h] == t.nodes[h].(prev := Some(r)))
  }

  /** The nodes `splitLeaf` and `insertIntoParent` rewrite when non-root leaf `l` splits. */
  lemma InnerLeafSplitFacts(t: Tree, l: Handle, r: Handle, rParent: Option<Handle>, nr: Handle, p: Handle, idx: nat, k: nat)
    requires InnerLeafSplitCase(t, l, r, nr, p, idx, k)
    ensures CanAttach(SplitLeafRaw(t, l, r, rParent), l, r)
    ensures var u := Attach(SplitLeafRaw(t, l, r, rParent), l, SplitKey(t.nodes[l].records), r, nr);
      var n := t.nodes[l];
      var rs := n.records;
      && u.root == t.root
      && u.chain == InsertAt(t.chain, k + 1, r)
      && u.nodes.Keys == t.nodes.Keys + {r}
      && u.meta == t.meta[l := Meta(0, t.meta[l].lo, At(SplitKey(rs)))][r := Meta(0, At(SplitKey(rs)), t.meta[l].hi)]
      && u.nodes[l] == n.(records := rs[..|rs| / 2], next := Some(r))
      && u.nodes[r] == Leaf(rs[|rs| / 2..], Some(p), Some(l), n.next)
      && u.nodes[p] == Internal(InsertAt(t.nodes[p].keys, idx, SplitKey(rs)),
                                InsertAt(t.nodes[p].children, idx + 1, r), t.nodes[p].parent)
  {
    var u0 := SplitLeafRaw(t, l, r, rParent);
    assert u0.nodes[p] == t.nodes[p];
    assert u0.nodes[r] == Leaf(t.nodes[l].records[|t.nodes[l].records| / 2..], rParent, Some(l), t.nodes[l].next);
  }

  /** The nodes `splitLeaf` and `insertIntoParent` leave alone, or only relink. */
  lemma InnerLeafSplitOthers(t: Tree, l: Handle, r: Handle, rParent: Option<Handle>, nr: Handle, p: Handle, idx: nat, k: nat)
    requires InnerLeafSplitCase(t, l, r, nr, p, idx, k)
    ensures CanAttach(SplitLeafRaw(t, l, r, rParent), l, r)
    ensures var u := Attach(SplitLeafRaw(t, l, r, rParent), l, SplitKey(t.nodes[l].records), r, nr);
      var n := t.nodes[l];
      && (forall h :: h in t.nodes && h != l && h != p && Some(h) != n.next ==> u.nodes[h] == t.nodes[h])
      && (forall h :: h in t.nodes && h != l && Some(h) == n.next ==> u.nodes[h] == t.nodes[h].(prev := Some(r)))
  {
    var u0 := SplitLeafRaw(t, l, r, rParent);
    assert u0.nodes[p] == t.nodes[p];
  }

  lemma InnerLeafSplitAll(t: Tree, l: Handle, r: Handle, rParent: Option<Handle>, nr: Handle, p: Handle, idx: nat, k: nat)
    requires InnerLeafSplitCase(t, l, r, nr, p, idx, k)
    ensures CanAttach(SplitLeafRaw(t, l, r, rParent), l, r)
    ensures InnerLeafSplitResult(t, Attach(SplitLeafRaw(t, l, r, rParent), l, SplitKey(t.nodes[l].records), r, nr), l, r, p, idx, k)
  {
    InnerLeafSplitFacts(t, l, r, rParent, nr, p, idx, k);
    InnerLeafSplitOthers(t, l, r, rParent, nr, p, idx, k);
  }

  lemma InnerLeafSplitNodes(t: Tree, u: Tree, l: Handle, r: Handle, nr: Handle, p: Handle, idx: nat, k: nat)
    requires Shape(t) && InnerLeafSplitCase(t, l, r, nr, p, idx, k) && InnerLeafSplitResult(t, u, l, r, p, idx, k)
    ensures LeafSplitNodes(t, u, l, r, p, idx)
  {
    assert NodeOk(t, p);
    forall h | h in t.nodes && h != l && h != p ensures SameCore(t.nodes[h], u.nodes[h]) {
    }
  }

  lemma InnerLeafSplitLinks(t: Tree, u: Tree, l: Handle, r: Handle, nr: Handle, p: Handle, idx: nat, k: nat)
    requires Shape(t) && InnerLeafSplitCase(t, l, r, nr, p, idx, k) && InnerLeafSplitResult(t, u, l, r, p, idx, k)
    ensures LeafSplitLinks(t, u, l, r, k)
  {
    forall h | h in t.nodes && h != l
      ensures u.nodes[h].Leaf? <==> t.nodes[h].Leaf?
      ensures t.nodes[h].Leaf? ==> u.nodes[h].next == t.nodes[h].next
      ensures t.nodes[h].Leaf? ==>
        u.nodes[h].prev == (if t.nodes[l].next == Some(h) then Some(r) else t.nodes[h].prev)
    {
      InnerLeafSplitOther(t, u, l, r, nr, p, idx, k, h);
    }
    assert u.nodes.Keys <= u.meta.Keys;
    var rs := t.nodes[l].records;
    MetaElsewhere(t.meta, u.meta, l, r, Meta(0, t.meta[l].lo, At(SplitKey(rs))), Meta(0, At(SplitKey(rs)), t.meta[l].hi));
  }

  /** Two updates of a map leave every other entry alone. */
  lemma MetaElsewhere(m: map<Handle, Meta>, m2: map<Handle, Meta>, x: Handle, y: Handle, vx: Meta, vy: Meta)
    requires m2 == m[x := vx][y := vy]
    ensures forall h :: h in m && h != x && h != y ==> h in m2 && m2[h] == m[h]
  {
  }

  /** A node other than `l` keeps its kind and its links, except that the leaf after `l` now
      links back to `r`. */
  lemma InnerLeafSplitOther(t: Tree, u: Tree, l: Handle, r: Handle, nr: Handle, p: Handle, idx: nat, k: nat, h: Handle)
    requires InnerLeafSplitCase(t, l, r, nr, p, idx, k) && InnerLeafSplitResult(t, u, l, r, p, idx, k)
    requires h in t.nodes && h != l
    ensures u.nodes[h].Leaf? <==> t.nodes[h].Leaf?
    ensures t.nodes[h].Leaf? ==> u.nodes[h].next == t.nodes[h].next
    ensures t.nodes[h].Leaf? ==>
      u.nodes[h].prev == (if t.nodes[l].next == Some(h) then Some(r) else t.nodes[h].prev)
  {
    if h == p {
    } else if Some(h) == t.nodes[l].next {
      assert u.nodes[h] == t.nodes[h].(prev := Some(r));
    } else {
      assert u.nodes[h] == t.nodes[h];
    }
  }

  lemma InnerLeafSplitShape(t: Tree, u: Tree, l: Handle, r: Handle, nr: Handle, p: Handle, idx: nat, k: nat)
    requires Shape(t) && InnerLeafSplitCase(t, l, r, nr, p, idx, k) && InnerLeafSplitResult(t, u, l, r, p, idx, k)
    ensures Shape(u)
  {
    InnerLeafSplitNodes(t, u, l, r, nr, p, idx, k);
    forall h | h in u.nodes ensures NodeOk(u, h) {
      LeafSplitNodeOk(t, u, l, r, p, idx, h);
    }
    InnerLeafSplitLinks(t, u, l, r, nr, p, idx, k);
    SplitLeafChainOk(t, u, l, r, k);
  }

  lemma SplitInnerLeafShape(t: Tree, l: Handle, r: Handle, rParent: Option<Handle>, nr: Handle)
    requires Shape(t) && l != t.root && l in t.nodes && t.nodes[l].Leaf? && 2 <= |t.nodes[l].records|
    requires r !in t.nodes && nr !in t.nodes && r != nr
    ensures l in t.chain && l in t.meta
    ensures CanAttach(SplitLeafRaw(t, l, r, rParent), l, r)
    ensures Shape(Attach(SplitLeafRaw(t, l, r, rParent), l, SplitKey(t.nodes[l].records), r, nr))
  {
    var k := ChainPos(t, l);
    assert IndexOfHandle(t.chain, l) == k by {
      ChainDistinct(t);
    }
    assert NodeOk(t, l) && LinkOk(t, k);
    var p, idx := ParentIndex(t, l);
    assert InnerLeafSplitCase(t, l, r, nr, p, idx, k) by {
      if t.nodes[l].next.Some? {
        assert LinkOk(t, k + 1);
      }
    }
    InnerLeafSplitAll(t, l, r, rParent, nr, p, idx, k);
    InnerLeafSplitShape(t, Attach(SplitLeafRaw(t, l, r, rParent), l, SplitKey(t.nodes[l].records), r, nr), l, r, nr, p, idx, k);
  }

  /** `splitLeaf` leaves the tree pending: well-formed once `insertIntoParent` attaches the new
      leaf, with the same records. */
  lemma SplitLeafPending(t: Tree, l: Handle, r: Handle, rParent: Option<Handle>, nr: Handle)
    requires Shape(t) && l in t.nodes && t.nodes[l].Leaf? && 2 <= |t.nodes[l].records|
    requires r !in t.nodes && nr !in t.nodes && r != nr
    ensures l in t.chain && l in t.meta
    ensures Pending(SplitLeafRaw(t, l, r, rParent), l, SplitKey(t.nodes[l].records), r, nr)
    ensures Contents(SplitLeafRaw(t, l, r, rParent)) == Contents(t)
  {
    var k := ChainPos(t, l);
    SplitLeafContents(t, l, r, rParent, k);
    if l == t.root {
      SplitRootLeafShape(t, l, r, rParent, nr);
    } else {
      SplitInnerLeafShape(t, l, r, rParent, nr);
      assert NodeOk(t, l);
    }
  }

  lemma InnerLeafSplitSizes(t: Tree, u: Tree, l: Handle, r: Handle, nr: Handle, p: Handle, idx: nat, k: nat, leafMin: nat)
    requires InnerLeafSplitCase(t, l, r, nr, p, idx, k) && InnerLeafSplitResult(t, u, l, r, p, idx, k)
    requires |t.nodes[l].records| == LEAF_MAX + 1 && leafMin <= LEAF_MIN
    requires SizesOkExcept(t, leafMin, l)
    ensures p in u.nodes && u.nodes[p].Internal?
    ensures SizesOkExcept(u, leafMin, p) && |u.nodes[p].keys| <= INTERNAL_MAX + 1
    ensures (if p == u.root then 1 else INTERNAL_MIN + 1) <= |u.nodes[p].keys|
  {
    assert SizeOk(t, leafMin, p);
    forall h | h in u.nodes && h != p ensures SizeOk(u, leafMin, h) {
      if h != l && h != r {
        assert SizeOk(t, leafMin, h);
      }
    }
  }

  lemma InnerLeafSplitAttachSizes(t: Tree, l: Handle, r: Handle, rParent: Option<Handle>, nr: Handle, p: Handle, idx: nat, k: nat, leafMin: nat)
    requires InnerLeafSplitCase(t, l, r, nr, p, idx, k)
    requires |t.nodes[l].records| == LEAF_MAX + 1 && leafMin <= LEAF_MIN
    requires SizesOkExcept(t, leafMin, l)
    ensures CanAttach(SplitLeafRaw(t, l, r, rParent), l, r)
    ensures AttachSizes(SplitLeafRaw(t, l, r, rParent), l, SplitKey(t.nodes[l].records), r, nr, leafMin)
  {
    InnerLeafSplitAll(t, l, r, rParent, nr, p, idx, k);
    InnerLeafSplitSizes(t, Attach(SplitLeafRaw(t, l, r, rParent), l, SplitKey(t.nodes[l].records), r, nr),
                        l, r, nr, p, idx, k, leafMin);
    assert AttachTarget(SplitLeafRaw(t, l, r, rParent), l, nr) == p;
  }

  lemma RootLeafSplitSizes(t: Tree, l: Handle, r: Handle, rParent: Option<Handle>, nr: Handle, leafMin: nat)
    requires t.nodes.Keys == {l} && t.root == l && t.chain == [l] && l in t.meta && t.nodes[l].Leaf?
    requires |t.nodes[l].records| == LEAF_MAX + 1 && leafMin <= LEAF_MIN
    requires r !in t.nodes && nr !in t.nodes && r != nr
    requires CanAttach(SplitLeafRaw(t, l, r, rParent), l, r)
    ensures AttachSizes(SplitLeafRaw(t, l, r, rParent), l, SplitKey(t.nodes[l].records), r, nr, leafMin)
  {
  }

  /** An overfull leaf splits into two leaves within bounds, and the receiving node gains one
      separator. */
  lemma SplitLeafSizes(t: Tree, l: Handle, r: Handle, rParent: Option<Handle>, nr: Handle, leafMin: nat)
    requires Shape(t) && l in t.nodes && t.nodes[l].Leaf? && |t.nodes[l].records| == LEAF_MAX + 1
    requires r !in t.nodes && nr !in t.nodes && r != nr && leafMin <= LEAF_MIN
    requires SizesOkExcept(t, leafMin, l)
    ensures l in t.chain && l in t.meta
    ensures CanAttach(SplitLeafRaw(t, l, r, rParent), l, r)
    ensures AttachSizes(SplitLeafRaw(t, l, r, rParent), l, SplitKey(t.nodes[l].records), r, nr, leafMin)
  {
    var k := ChainPos(t, l);
    if l == t.root {
      SplitRootLeafShape(t, l, r, rParent, nr);
      LeafRootAlone(t);
      RootLeafSplitSizes(t, l, r, rParent, nr, leafMin);
    } else {
      assert IndexOfHandle(t.chain, l) == k by {
        ChainDistinct(t);
      }
      assert NodeOk(t, l) && LinkOk(t, k);
      var p, idx := ParentIndex(t, l);
      assert InnerLeafSplitCase(t, l, r, nr, p, idx, k) by {
        if t.nodes[l].next.Some? {
          assert LinkOk(t, k + 1);
        }
      }
      InnerLeafSplitAttachSizes(t, l, r, rParent, nr, p, idx, k, leafMin);
    }
  }

  /** `splitLeaf` adds exactly the new leaf `r` to the arena. */
  lemma SplitLeafRawKeys(t: Tree, l: Handle, r: Handle, rParent: Option<Handle>)
    requires Shape(t) && l in t.nodes && t.nodes[l].Leaf? && 2 <= |t.nodes[l].records|
    requires l in t.chain && l in t.meta && r !in t.nodes
    ensures SplitLeafRaw(t, l, r, rParent).nodes.Keys == t.nodes.Keys + {r}
    ensures |SplitLeafRaw(t, l, r, rParent).nodes| == |t.nodes| + 1
  {
    LeafLinks(t, l);
    var u := SplitLeafRaw(t, l, r, rParent);
    assert u.nodes.Keys == t.nodes.Keys + {r};
  }

  /** What `insertIntoParent` needs once `splitLeaf` has cut the overfull leaf `l` of `t`, giving
      `u`: the tree is pending, within bounds once `r` is attached, holds the same records, and has
      one node more. */
  lemma SplitLeafReady(t: Tree, u: Tree, l: Handle, key: string, r: Handle, rParent: Option<Handle>, nr: Handle, leafMin: nat)
    requires Shape(t) && l in t.nodes && t.nodes[l].Leaf? && |t.nodes[l].records| == LEAF_MAX + 1
    requires r !in t.nodes && nr !in t.nodes && r != nr && leafMin <= LEAF_MIN
    requires SizesOkExcept(t, leafMin, l)
    requires l in t.chain && l in t.meta && u == SplitLeafRaw(t, l, r, rParent)
    requires key == SplitKey(t.nodes[l].records)
    ensures Pending(u, l, key, r, nr)
    ensures AttachSizes(u, l, key, r, nr, leafMin)
    ensures Contents(u) == Contents(t) && |u.nodes| == |t.nodes| + 1 && u.nodes.Keys == t.nodes.Keys + {r}
  {
    SplitLeafPending(t, l, r, rParent, nr);
    SplitLeafSizes(t, l, r, rParent, nr, leafMin);
    SplitLeafRawKeys(t, l, r, rParent);
  }
}
