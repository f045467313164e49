/** Consequences of the structural invariant `Shape`: separators and child intervals are
    ordered, children and chain entries are distinct, every non-root node sits below the root,
    and the records along the chain are sorted, with each leaf holding exactly the live records
    of its interval. */
module TreeFacts {
  import opened Lex
  import opened Options
  import opened LeafNode
  import opened Arena

  /** Interval end `i` of internal node `h` (see `Fence`). */
  ghost function NodeFence(t: Tree, h: Handle, i: nat): Bound
    requires h in t.nodes && h in t.meta && t.nodes[h].Internal? && i <= |t.nodes[h].keys| + 1
  {
    Fence(t.nodes[h].keys, t.meta[h].lo, t.meta[h].hi, i)
  }

  lemma ChildOf(t: Tree, h: Handle, i: int)
    requires Shape(t) && h in t.nodes && t.nodes[h].Internal?
    requires 0 <= i < |t.nodes[h].children|
    ensures ChildOk(t, h, i) && NodeOk(t, t.nodes[h].children[i])
  {
    assert NodeOk(t, h);
  }

  /** Consecutive interval ends of an internal node increase. */
  ghost predicate StepsUp(keys: seq<string>, lo: Bound, hi: Bound) {
    forall i :: 0 <= i <= |keys| ==> BLt(Fence(keys, lo, hi, i), Fence(keys, lo, hi, i + 1))
  }

  lemma FenceStep(t: Tree, h: Handle, i: nat)
    requires Shape(t) && h in t.nodes && t.nodes[h].Internal?
    requires i <= |t.nodes[h].keys|
    ensures BLt(NodeFence(t, h, i), NodeFence(t, h, i + 1))
  {
    assert NodeOk(t, h);
    ChildOf(t, h, i);
  }

  lemma FenceSteps(t: Tree, h: Handle)
    requires Shape(t) && h in t.nodes && t.nodes[h].Internal?
    ensures StepsUp(t.nodes[h].keys, t.meta[h].lo, t.meta[h].hi)
  {
    assert NodeOk(t, h);
    var n := t.nodes[h];
    var m := t.meta[h];
    forall i | 0 <= i <= |n.keys|
      ensures BLt(Fence(n.keys, m.lo, m.hi, i), Fence(n.keys, m.lo, m.hi, i + 1))
    {
      FenceStep(t, h, i);
    }
  }

  /** The interval ends of an internal node strictly increase. */
  lemma {:induction false} FencesIncreasing(keys: seq<string>, lo: Bound, hi: Bound, i: nat, j: nat)
    requires StepsUp(keys, lo, hi)
    requires i < j <= |keys| + 1
    ensures BLt(Fence(keys, lo, hi, i), Fence(keys, lo, hi, j))
    decreases j - i
  {
    if i + 1 < j {
      FencesIncreasing(keys, lo, hi, i + 1, j);
      BoundTrans(Fence(keys, lo, hi, i), Fence(keys, lo, hi, i + 1), Fence(keys, lo, hi, j));
    }
  }

  /** Separators are strictly ascending. */
  lemma KeysAscending(keys: seq<string>, lo: Bound, hi: Bound)
    requires StepsUp(keys, lo, hi)
    ensures forall i, j :: 0 <= i < j < |keys| ==> Less(keys[i], keys[j])
  {
    forall i, j | 0 <= i < j < |keys| ensures Less(keys[i], keys[j]) {
      FencesIncreasing(keys, lo, hi, i + 1, j + 1);
    }
  }

  lemma KeysSorted(t: Tree, h: Handle)
    requires Shape(t) && h in t.nodes && t.nodes[h].Internal?
    ensures forall i, j :: 0 <= i < j < |t.nodes[h].keys| ==> Less(t.nodes[h].keys[i], t.nodes[h].keys[j])
  {
    FenceSteps(t, h);
    KeysAscending(t.nodes[h].keys, t.meta[h].lo, t.meta[h].hi);
  }

  /** An internal node lists each child once. */
  lemma ChildrenDistinct(t: Tree, h: Handle)
    requires Shape(t) && h in t.nodes && t.nodes[h].Internal?
    ensures DistinctHandles(t.nodes[h].children)
  {
    var cs := t.nodes[h].children;
    assert NodeOk(t, h);
    FenceSteps(t, h);
    forall i, j | 0 <= i < j < |cs| ensures cs[i] != cs[j] {
      FencesIncreasing(t.nodes[h].keys, t.meta[h].lo, t.meta[h].hi, i, j);
      ChildOf(t, h, i);
      ChildOf(t, h, j);
      BoundTrans(NodeFence(t, h, i), NodeFence(t, h, i), NodeFence(t, h, i));
    }
  }

  /** The position of a non-root node in its parent's child list. */
  lemma ParentIndex(t: Tree, h: Handle) returns (p: Handle, i: nat)
    requires Shape(t) && h in t.nodes && h != t.root
    ensures t.nodes[h].parent == Some(p) && p in t.nodes && t.nodes[p].Internal?
    ensures i < |t.nodes[p].children| && t.nodes[p].children[i] == h
    ensures i == IndexOfHandle(t.nodes[p].children, h)
    ensures ChildOk(t, p, i)
  {
    assert NodeOk(t, h);
    p := t.nodes[h].parent.value;
    i := IndexOfHandle(t.nodes[p].children, h);
    ChildOf(t, p, i);
  }

  /** Only the root reaches the root's level. */
  lemma NonRootBelow(t: Tree, h: Handle)
    requires Shape(t) && h in t.nodes && h != t.root
    ensures t.meta[h].level < t.meta[t.root].level
  {
    var p, i := ParentIndex(t, h);
    assert NodeOk(t, p);
  }

  /** A parent's children all share one level; leaves' siblings are leaves. */
  lemma ChildLevel(t: Tree, h: Handle, i: int)
    requires Shape(t) && h in t.nodes && t.nodes[h].Internal?
    requires 0 <= i < |t.nodes[h].children|
    ensures ChildOk(t, h, i)
    ensures t.meta[t.nodes[h].children[i]].level + 1 == t.meta[h].level
    ensures t.nodes[t.nodes[h].children[i]].Leaf? <==> t.meta[h].level == 1
  {
    ChildOf(t, h, i);
    var c := t.nodes[h].children[i];
    if t.nodes[c].Internal? {
      ChildOf(t, c, 0);
    }
  }

  /** The children of internal node `x` are distinct nodes one level lower that name `x` as parent. */
  lemma ChildrenOf(t: Tree, x: Handle)
    requires Shape(t) && x in t.nodes && t.nodes[x].Internal?
    ensures NodeOk(t, x)
    ensures DistinctHandles(t.nodes[x].children)
    ensures forall c :: c in t.nodes[x].children ==>
      && c in t.nodes && c in t.meta && c != x
      && t.nodes[c].parent == Some(x) && t.meta[c].level + 1 == t.meta[x].level
  {
    var n := t.nodes[x];
    ChildrenDistinct(t, x);
    assert NodeOk(t, x);
    forall c | c in n.children
      ensures c in t.nodes && c in t.meta && c != x
      ensures t.nodes[c].parent == Some(x) && t.meta[c].level + 1 == t.meta[x].level
    {
      var i :| 0 <= i < |n.children| && n.children[i] == c;
      assert ChildOk(t, x, i);
    }
  }

  // ----- the leaf chain -----

  /** Leaves further along the chain cover larger keys. */
  lemma {:induction false} ChainOrder(t: Tree, i: int, j: int)
    requires Shape(t) && 0 <= i < j < |t.chain|
    ensures BLe(t.meta[t.chain[i]].hi, t.meta[t.chain[j]].lo)
    ensures BLt(t.meta[t.chain[i]].lo, t.meta[t.chain[j]].lo)
    decreases j - i
  {
    assert LinkOk(t, i) && LinkOk(t, j - 1);
    assert NodeOk(t, t.chain[i]) && NodeOk(t, t.chain[j - 1]);
    if i + 1 < j {
      ChainOrder(t, i, j - 1);
      var m := t.meta[t.chain[j - 1]];
      BoundTrans(t.meta[t.chain[i]].hi, m.lo, m.hi);
      BoundTrans(t.meta[t.chain[i]].lo, m.lo, m.hi);
    }
  }

  lemma ChainDistinct(t: Tree)
    requires Shape(t)
    ensures DistinctHandles(t.chain)
  {
    forall i, j | 0 <= i < j < |t.chain| ensures t.chain[i] != t.chain[j] {
      ChainOrder(t, i, j);
      var b := t.meta[t.chain[i]].lo;
      BoundTrans(b, b, b);
    }
  }

  /** Every leaf has exactly one position in the chain. */
  lemma ChainPos(t: Tree, h: Handle) returns (j: nat)
    requires Shape(t) && h in t.nodes && t.nodes[h].Leaf?
    ensures j < |t.chain| && t.chain[j] == h
    ensures forall k :: 0 <= k < |t.chain| && t.chain[k] == h ==> k == j
  {
    assert h in t.chain;
    j :| 0 <= j < |t.chain| && t.chain[j] == h;
    ChainDistinct(t);
  }

  /** The leaf whose interval starts at minus infinity is the first one in the chain. */
  lemma FirstLeaf(t: Tree, h: Handle)
    requires Shape(t) && h in t.nodes && t.nodes[h].Leaf? && t.meta[h].lo == NegInf
    ensures t.chain[0] == h
  {
    var j := ChainPos(t, h);
    if j > 0 {
      ChainOrder(t, 0, j);
    }
  }

  /** Two neighbouring leaves under one parent are neighbours in the chain. */
  lemma SiblingsAdjacent(t: Tree, p: Handle, i: nat) returns (a: nat)
    requires Shape(t) && p in t.nodes && t.nodes[p].Internal? && i + 1 < |t.nodes[p].children|
    requires t.meta[p].level == 1
    ensures a + 1 < |t.chain|
    ensures t.chain[a] == t.nodes[p].children[i] && t.chain[a + 1] == t.nodes[p].children[i + 1]
    ensures t.nodes[t.chain[a]].Leaf? && t.nodes[t.chain[a + 1]].Leaf?
  {
    var cs := t.nodes[p].children;
    ChildLevel(t, p, i);
    ChildLevel(t, p, i + 1);
    assert NodeOk(t, p);
    a := ChainPos(t, cs[i]);
    var b := ChainPos(t, cs[i + 1]);
    var last := |t.chain| - 1;
    assert a != last;
    assert LinkOk(t, a);
    if b != a + 1 {
      var x := t.meta[t.chain[a + 1]].lo;
      if b < a + 1 {
        ChainOrder(t, b, a + 1);
      } else {
        ChainOrder(t, a + 1, b);
      }
      BoundTrans(x, x, x);
    }
  }

  /** A leaf is on the chain, and its `next` and `prev`, when set, are leaves of the arena. */
  lemma LeafLinks(t: Tree, h: Handle)
    requires Shape(t) && h in t.nodes && t.nodes[h].Leaf?
    ensures h in t.chain && h in t.meta
    ensures t.nodes[h].next.Some? ==> t.nodes[h].next.value in t.nodes && t.nodes[t.nodes[h].next.value].Leaf?
    ensures t.nodes[h].prev.Some? ==> t.nodes[h].prev.value in t.nodes && t.nodes[t.nodes[h].prev.value].Leaf?
  {
    var j := ChainPos(t, h);
    assert LinkOk(t, j);
    if t.nodes[h].next.Some? {
      assert LinkOk(t, j + 1);
    }
    if t.nodes[h].prev.Some? {
      assert LinkOk(t, j - 1);
    }
  }

  /** A root that is a leaf is the only node. */
  lemma LeafRootAlone(t: Tree)
    requires Shape(t) && t.nodes[t.root].Leaf?
    ensures t.nodes.Keys == {t.root}
    ensures t.chain == [t.root]
  {
    assert NodeOk(t, t.root);
    forall h | h in t.nodes ensures h == t.root {
      if h != t.root {
        NonRootBelow(t, h);
      }
    }
    var j := ChainPos(t, t.root);
    forall k | 0 <= k < |t.chain| ensures t.chain[k] == t.root {
      assert LinkOk(t, k);
    }
    assert |t.chain| == 1;
  }

  // ----- the records along the chain -----

  lemma {:induction false} FlattenAppend(a: seq<seq<PartRecord>>, b: seq<seq<PartRecord>>)
    ensures Flatten(a + b) == Flatten(a) + Flatten(b)
  {
    if |a| == 0 {
      assert a + b == b;
    } else {
      assert (a + b)[1..] == a[1..] + b;
      FlattenAppend(a[1..], b);
    }
  }

  lemma {:induction false} FlattenMember(ss: seq<seq<PartRecord>>, r: PartRecord)
    ensures r in Flatten(ss) <==> exists i :: 0 <= i < |ss| && r in ss[i]
  {
    if |ss| > 0 {
      FlattenMember(ss[1..], r);
      if r in Flatten(ss[1..]) {
        var i :| 0 <= i < |ss| - 1 && r in ss[1..][i];
        assert r in ss[i + 1];
      }
      forall i | 0 <= i < |ss| && r in ss[i] ensures r in Flatten(ss) {
        if i > 0 {
          assert r in ss[1..][i - 1];
        }
      }
    }
  }

  lemma FlattenSingle(s: seq<PartRecord>)
    ensures Flatten([s]) == s
  {
    assert [s][1..] == [];
  }

  lemma FlattenPair(x: seq<PartRecord>, y: seq<PartRecord>)
    ensures Flatten([x, y]) == x + y
  {
    assert [x, y][1..] == [y];
    FlattenSingle(y);
  }

  /** The records of the leaves before position `j`. */
  ghost function Before(t: Tree, j: nat): seq<PartRecord>
    requires j <= |t.chain|
  {
    Flatten(Leaves(t)[..j])
  }

  /** The records of the leaves after position `j`. */
  ghost function After(t: Tree, j: nat): seq<PartRecord>
    requires j < |t.chain|
  {
    Flatten(Leaves(t)[j + 1..])
  }

  /** The live records are those before leaf `j`, then leaf `j`'s, then those after it. */
  lemma ContentsAround(t: Tree, j: int)
    requires 0 <= j < |t.chain|
    ensures Contents(t) == Before(t, j) + RecordsAt(t, t.chain[j]) + After(t, j)
  {
    var ls := Leaves(t);
    assert ls == ls[..j] + [ls[j]] + ls[j + 1..];
    FlattenAppend(ls[..j] + [ls[j]], ls[j + 1..]);
    FlattenAppend(ls[..j], [ls[j]]);
    FlattenSingle(ls[j]);
  }

  /** The records before leaf `j` lie below its interval. */
  lemma BeforeBelow(t: Tree, j: int)
    requires Shape(t) && 0 <= j < |t.chain|
    ensures forall r :: r in Before(t, j) ==> BLt(At(r.id), t.meta[t.chain[j]].lo)
  {
    var ls := Leaves(t);
    var m := t.meta[t.chain[j]];
    forall r | r in Before(t, j) ensures BLt(At(r.id), m.lo) {
      FlattenMember(ls[..j], r);
      var i :| 0 <= i < j && r in ls[..j][i];
      assert LinkOk(t, i) && NodeOk(t, t.chain[i]);
      ChainOrder(t, i, j);
      BoundTrans(At(r.id), t.meta[t.chain[i]].hi, m.lo);
    }
  }

  /** A record of leaf `chain[j]` lies in that leaf's interval. */
  lemma InLeaf(t: Tree, j: int, r: PartRecord)
    requires Shape(t) && 0 <= j < |t.chain| && r in Leaves(t)[j]
    ensures KeyIn(r.id, t.meta[t.chain[j]].lo, t.meta[t.chain[j]].hi)
  {
    assert LinkOk(t, j) && NodeOk(t, t.chain[j]);
  }

  /** The records after leaf `j` lie at or above its interval's upper end. */
  lemma AfterAbove(t: Tree, j: int)
    requires Shape(t) && 0 <= j < |t.chain|
    ensures forall r :: r in After(t, j) ==> BLe(t.meta[t.chain[j]].hi, At(r.id))
  {
    var ls := Leaves(t);
    var m := t.meta[t.chain[j]];
    forall r | r in After(t, j) ensures BLe(m.hi, At(r.id)) {
      var tail := ls[j + 1..];
      FlattenMember(tail, r);
      var i :| 0 <= i < |tail| && r in tail[i];
      var k := j + 1 + i;
      assert tail[i] == ls[k];
      InLeaf(t, k, r);
      ChainOrder(t, j, k);
      BoundTrans(m.hi, t.meta[t.chain[k]].lo, At(r.id));
    }
  }

  /** Around the leaf whose interval holds `k`, every other live record is strictly smaller
      or strictly larger than `k`: that leaf alone decides whether `k` is stored. */
  lemma Locate(t: Tree, h: Handle, k: string) returns (j: nat)
    requires Shape(t) && h in t.nodes && t.nodes[h].Leaf?
    requires KeyIn(k, t.meta[h].lo, t.meta[h].hi)
    ensures j < |t.chain| && t.chain[j] == h
    ensures Contents(t) == Before(t, j) + t.nodes[h].records + After(t, j)
    ensures forall x :: x in Before(t, j) ==> Less(x.id, k)
    ensures forall x :: x in After(t, j) ==> Less(k, x.id)
    ensures !HasId(Before(t, j), k) && !HasId(After(t, j), k)
    ensures HasId(Contents(t), k) <==> HasId(t.nodes[h].records, k)
  {
    j := ChainPos(t, h);
    ContentsAround(t, j);
    BeforeBelow(t, j);
    AfterAbove(t, j);
    var m := t.meta[h];
    forall x | x in Before(t, j) ensures Less(x.id, k) {
      BoundTrans(At(x.id), m.lo, At(k));
    }
    forall x | x in After(t, j) ensures Less(k, x.id) {
      BoundTrans(At(k), m.hi, At(x.id));
    }
    forall i | 0 <= i < |Before(t, j)| ensures Before(t, j)[i].id != k {
      assert Before(t, j)[i] in Before(t, j);
      LessIrreflexive(k);
    }
    forall i | 0 <= i < |After(t, j)| ensures After(t, j)[i].id != k {
      assert After(t, j)[i] in After(t, j);
      LessIrreflexive(k);
    }
    HasIdAround(Before(t, j), t.nodes[h].records, After(t, j), k);
  }

  lemma SortedConcat(a: seq<PartRecord>, b: seq<PartRecord>)
    requires SortedById(a) && SortedById(b)
    requires forall x, y :: x in a && y in b ==> Less(x.id, y.id)
    ensures SortedById(a + b)
  {
    var ab := a + b;
    forall i, j | 0 <= i < j < |ab| ensures Less(ab[i].id, ab[j].id) {
      if j < |a| {
        assert ab[i] == a[i] && ab[j] == a[j];
      } else if i >= |a| {
        assert ab[i] == b[i - |a|] && ab[j] == b[j - |a|];
      } else {
        assert ab[i] in a && ab[j] in b;
      }
    }
  }

  /** The records from leaf `j` on are sorted and lie at or above leaf `j`'s lower end. */
  lemma {:induction false} SuffixSorted(t: Tree, j: nat)
    requires Shape(t) && j < |t.chain|
    ensures SortedById(Flatten(Leaves(t)[j..]))
    ensures forall r :: r in Flatten(Leaves(t)[j..]) ==> BLe(t.meta[t.chain[j]].lo, At(r.id))
    decreases |t.chain| - j
  {
    var ls := Leaves(t);
    assert LinkOk(t, j) && NodeOk(t, t.chain[j]);
    var m := t.meta[t.chain[j]];
    assert ls[j..][1..] == ls[j + 1..];
    var rest := Flatten(ls[j + 1..]);
    assert Flatten(ls[j..]) == ls[j] + rest;
    if j + 1 < |t.chain| {
      SuffixSorted(t, j + 1);
      var n := t.meta[t.chain[j + 1]];
      forall x: PartRecord, y: PartRecord | x in ls[j] && y in rest ensures Less(x.id, y.id) {
        BoundTrans(At(x.id), m.hi, At(y.id));
      }
      SortedConcat(ls[j], rest);
      forall r | r in rest ensures BLe(m.lo, At(r.id)) {
        BoundTrans(m.lo, m.hi, At(r.id));
      }
    } else {
      assert ls[j + 1..] == [];
      assert rest == [];
      assert Flatten(ls[j..]) == ls[j];
    }
  }

  /** The live records are sorted by id, hence free of duplicate ids. */
  lemma ContentsSorted(t: Tree)
    requires Shape(t)
    ensures SortedById(Contents(t))
  {
    SuffixSorted(t, 0);
    assert Leaves(t)[0..] == Leaves(t);
  }

  /** The interval ends of an internal node after separator `i` is removed: those up to `i` stay,
      those after it shift down by one. */
  lemma FenceRemove(keys: seq<string>, lo: Bound, hi: Bound, i: nat, j: nat)
    requires i < |keys| && j <= |keys|
    ensures Fence(RemoveAt(keys, i), lo, hi, j) ==
      if j <= i then Fence(keys, lo, hi, j) else Fence(keys, lo, hi, j + 1)
  {
  }

  lemma InRemoveAt<T>(s: seq<T>, i: nat, x: T)
    requires i < |s| && x in s && x != s[i]
    ensures x in RemoveAt(s, i)
  {
    var k :| 0 <= k < |s| && s[k] == x;
    if k < i {
      assert RemoveAt(s, i)[k] == x;
    } else {
      assert RemoveAt(s, i)[k - 1] == x;
    }
  }
}
