/** Frame reasoning shared by every step that rewires the tree: a node whose own fields, interval
    and children are left alone stays well-formed, and the records along a chain whose middle
    segment is replaced are the old ones outside that segment. */
module Frame {
  import opened Options
  import opened LeafNode
  import opened Arena
  import opened TreeFacts

  /** The contents of a node: its kind and its records, or its separators and children. */
  ghost predicate SameBody(a: Node, b: Node) {
    && (a.Leaf? <==> b.Leaf?)
    && (a.Leaf? ==> a.records == b.records)
    && (a.Internal? ==> a.keys == b.keys && a.children == b.children)
  }

  /** The fields of a node that `NodeOk` looks at (everything but the chain links). */
  ghost predicate SameCore(a: Node, b: Node) {
    a.parent == b.parent && SameBody(a, b)
  }

  lemma WithParentSame(n: Node)
    ensures WithParent(n, n.parent) == n
  {
  }

  /** `h` keeps its well-formedness from `t` to `u` when its contents, its interval, and its
      children's parent links and intervals are unchanged, and its parent lists it. */
  lemma NodeOkFrame(t: Tree, u: Tree, h: Handle)
    requires Shape(t) && h in t.nodes
    requires h in u.nodes && h in u.meta && u.root in u.meta
    requires SameBody(t.nodes[h], u.nodes[h]) && u.meta[h] == t.meta[h]
    requires t.meta[h].level <= u.meta[u.root].level
    requires h != u.root ==> ParentOk(u, h)
    requires forall c :: c in t.nodes && t.nodes[c].parent == Some(h) ==>
      c in u.nodes && c in u.meta && u.nodes[c].parent == Some(h) && u.meta[c] == t.meta[c]
    ensures NodeOk(u, h)
  {
    assert NodeOk(t, h);
    if t.nodes[h].Internal? {
      var cs := t.nodes[h].children;
      forall i | 0 <= i < |cs| ensures ChildOk(u, h, i) {
        assert ChildOk(t, h, i);
      }
    }
  }

  /** The record lists of a sequence of leaf handles. */
  ghost function ListsAt(t: Tree, hs: seq<Handle>): seq<seq<PartRecord>> {
    seq(|hs|, i requires 0 <= i < |hs| => RecordsAt(t, hs[i]))
  }

  lemma LeavesIsListsAt(t: Tree)
    ensures Leaves(t) == ListsAt(t, t.chain)
  {
  }

  lemma ListsAtAppend(t: Tree, a: seq<Handle>, b: seq<Handle>)
    ensures ListsAt(t, a + b) == ListsAt(t, a) + ListsAt(t, b)
  {
  }

  /** When `u`'s chain is `t`'s with the segment [a, b) replaced by `mid`, and the leaves outside
      the segment keep their records, `u`'s contents are `t`'s with that segment's records
      replaced. */
  lemma ContentsSplice(t: Tree, u: Tree, a: nat, b: nat, mid: seq<Handle>)
    requires a <= b <= |t.chain|
    requires u.chain == t.chain[..a] + mid + t.chain[b..]
    requires forall j :: 0 <= j < a ==> RecordsAt(u, t.chain[j]) == RecordsAt(t, t.chain[j])
    requires forall j :: b <= j < |t.chain| ==> RecordsAt(u, t.chain[j]) == RecordsAt(t, t.chain[j])
    ensures Contents(u) == Flatten(Leaves(t)[..a]) + Flatten(ListsAt(u, mid)) + Flatten(Leaves(t)[b..])
    ensures Contents(t) == Flatten(Leaves(t)[..a]) + Flatten(Leaves(t)[a..b]) + Flatten(Leaves(t)[b..])
  {
    var ls := Leaves(t);
    assert ListsAt(u, t.chain[..a]) == ls[..a];
    assert ListsAt(u, t.chain[b..]) == ls[b..];
    ListsAtAppend(u, t.chain[..a], mid);
    ListsAtAppend(u, t.chain[..a] + mid, t.chain[b..]);
    assert Leaves(u) == ls[..a] + ListsAt(u, mid) + ls[b..];
    FlattenAppend(ls[..a] + ListsAt(u, mid), ls[b..]);
    FlattenAppend(ls[..a], ListsAt(u, mid));
    assert ls == ls[..a] + ls[a..b] + ls[b..];
    FlattenAppend(ls[..a] + ls[a..b], ls[b..]);
    FlattenAppend(ls[..a], ls[a..b]);
  }

  /** The chain stays well-formed when it and its leaves' links and intervals are unchanged and no
      leaf is added. */
  lemma ChainOkFrame(t: Tree, u: Tree)
    requires ChainOk(t) && u.chain == t.chain && u.nodes.Keys <= u.meta.Keys
    requires forall h :: h in t.nodes && t.nodes[h].Leaf? ==>
      && h in u.nodes && u.nodes[h].Leaf? && u.meta[h] == t.meta[h]
      && u.nodes[h].prev == t.nodes[h].prev && u.nodes[h].next == t.nodes[h].next
    requires forall h :: h in u.nodes && u.nodes[h].Leaf? ==> h in t.nodes && t.nodes[h].Leaf?
    ensures ChainOk(u)
  {
    forall j | 0 <= j < |u.chain| ensures LinkOk(u, j) {
      assert LinkOk(t, j);
    }
  }
}
