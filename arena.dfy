/** The node graph of the B+ tree, stored in an arena.

    Java references between nodes (children, `parent`, the leaf chain's `next`/`prev`) become
    integer handles into a map from handle to node. `Node` is the tagged variant of the source's
    `Node` superclass (its `parent` and `isLeaf` fields) with its two subclasses `LeafNode`
    (LeafNode.java) and `InternalNode` (InternalNode.java).

    Each engine also keeps ghost bookkeeping next to the arena: the leaf chain as a sequence of
    handles, and for each node its level (0 for leaves) and the key interval [lo, hi) it is
    responsible for. `Shape` is the structural invariant over all of this; `SizesOk` the
    occupancy bounds. */
module Arena {
  import opened Lex
  import opened Options
  import opened LeafNode

  type Handle = nat

  const LEAF_MAX: nat := 16
  const LEAF_MIN: nat := 8
  const INTERNAL_MAX: nat := 4
  const INTERNAL_MIN: nat := 2

  datatype Node =
    | Leaf(records: seq<PartRecord>, parent: Option<Handle>, prev: Option<Handle>, next: Option<Handle>)
    | Internal(keys: seq<string>, children: seq<Handle>, parent: Option<Handle>)

  /** The node with its `parent` field set to `p`. */
  function WithParent(n: Node, p: Option<Handle>): (r: Node)
    ensures r.parent == p && (r.Leaf? <==> n.Leaf?)
    ensures n.Leaf? ==> r.records == n.records && r.prev == n.prev && r.next == n.next
    ensures n.Internal? ==> r.keys == n.keys && r.children == n.children
  {
    match n
    case Leaf(rs, _, prev, next) => Leaf(rs, p, prev, next)
    case Internal(keys, cs, _) => Internal(keys, cs, p)
  }

  /** An end of a key interval. */
  datatype Bound = NegInf | At(key: string) | PosInf

  /** Ghost bookkeeping per node: its height above the leaves and its key interval [lo, hi). */
  datatype Meta = Meta(level: nat, lo: Bound, hi: Bound)

  /** A snapshot of an engine: the arena, the root handle, and the ghost chain and metadata. */
  datatype Tree = Tree(nodes: map<Handle, Node>, root: Handle, chain: seq<Handle>, meta: map<Handle, Meta>)

  /** How many levels below the root node `h` sits. */
  ghost function Depth(t: Tree, h: Handle): nat {
    if t.root in t.meta && h in t.meta && t.meta[h].level <= t.meta[t.root].level
    then t.meta[t.root].level - t.meta[h].level else 0
  }

  // ----- order on interval ends -----

  predicate BLt(a: Bound, b: Bound) {
    match (a, b)
    case (NegInf, NegInf) => false
    case (NegInf, _) => true
    case (At(x), At(y)) => Less(x, y)
    case (At(_), PosInf) => true
    case _ => false
  }

  predicate BLe(a: Bound, b: Bound) {
    a == b || BLt(a, b)
  }

  /** `k` lies in the half-open interval [lo, hi). */
  predicate KeyIn(k: string, lo: Bound, hi: Bound) {
    BLe(lo, At(k)) && BLt(At(k), hi)
  }

  lemma BoundTrans(a: Bound, b: Bound, c: Bound)
    ensures BLe(a, b) && BLe(b, c) ==> BLe(a, c)
    ensures BLt(a, b) && BLe(b, c) ==> BLt(a, c)
    ensures BLe(a, b) && BLt(b, c) ==> BLt(a, c)
    ensures !BLt(a, a)
    ensures BLt(a, b) ==> !BLe(b, a)
  {
    if a.At? && b.At? && c.At? {
      if Less(a.key, b.key) && Less(b.key, c.key) {
        LessTransitive(a.key, b.key, c.key);
      }
    }
    if a.At? {
      LessIrreflexive(a.key);
    }
    if a.At? && b.At? {
      LessTrichotomy(a.key, b.key);
    }
  }

  // ----- the structural invariant -----

  /** The interval ends of an internal node with separators `keys` and interval [lo, hi):
      child i covers [Fence(i), Fence(i + 1)). */
  function Fence(keys: seq<string>, lo: Bound, hi: Bound, i: nat): Bound
    requires i <= |keys| + 1
  {
    if i == 0 then lo else if i == |keys| + 1 then hi else At(keys[i - 1])
  }

  ghost predicate DistinctHandles(hs: seq<Handle>) {
    forall i, j :: 0 <= i < j < |hs| ==> hs[i] != hs[j]
  }

  /** Child `i` of internal node `h` points back at `h`, is one level lower, and covers the
      interval between the separators around it. */
  ghost predicate ChildOk(t: Tree, h: Handle, i: int) {
    && h in t.nodes && h in t.meta && t.nodes[h].Internal?
    && 0 <= i < |t.nodes[h].children| == |t.nodes[h].keys| + 1
    && var c := t.nodes[h].children[i];
    && c in t.nodes && c in t.meta
    && t.nodes[c].parent == Some(h)
    && t.meta[c].level + 1 == t.meta[h].level
    && t.meta[c].lo == Fence(t.nodes[h].keys, t.meta[h].lo, t.meta[h].hi, i)
    && t.meta[c].hi == Fence(t.nodes[h].keys, t.meta[h].lo, t.meta[h].hi, i + 1)
  }

  /** A non-root node's parent exists, is internal and lists it among its children. */
  ghost predicate ParentOk(t: Tree, h: Handle) {
    && h in t.nodes
    && t.nodes[h].parent.Some?
    && t.nodes[h].parent.value in t.nodes
    && t.nodes[t.nodes[h].parent.value].Internal?
    && h in t.nodes[t.nodes[h].parent.value].children
  }

  ghost predicate NodeOk(t: Tree, h: Handle) {
    && h in t.nodes && h in t.meta && t.root in t.meta
    && BLt(t.meta[h].lo, t.meta[h].hi)
    && t.meta[h].level <= t.meta[t.root].level
    && (h != t.root ==> ParentOk(t, h))
    && match t.nodes[h]
       case Leaf(rs, _, _, _) =>
         && t.meta[h].level == 0
         && SortedById(rs)
         && forall r :: r in rs ==> KeyIn(r.id, t.meta[h].lo, t.meta[h].hi)
       case Internal(keys, cs, _) =>
         && |cs| == |keys| + 1
         && forall i {:trigger ChildOk(t, h, i)} :: 0 <= i < |cs| ==> ChildOk(t, h, i)
  }

  /** Leaf `chain[j]` links to its neighbours in the chain and to nothing else, and its interval
      ends where the next leaf's begins. */
  ghost predicate LinkOk(t: Tree, j: int) {
    && 0 <= j < |t.chain|
    && t.chain[j] in t.nodes
    && t.chain[j] in t.meta
    && t.nodes[t.chain[j]].Leaf?
    && t.nodes[t.chain[j]].prev == (if j == 0 then None else Some(t.chain[j - 1]))
    && t.nodes[t.chain[j]].next == (if j + 1 == |t.chain| then None else Some(t.chain[j + 1]))
    && (j + 1 < |t.chain| ==> t.chain[j + 1] in t.meta && t.meta[t.chain[j]].hi == t.meta[t.chain[j + 1]].lo)
  }

  /** The chain lists every leaf, is linked both ways, and the leaves' intervals tile the key space
      from left to right. */
  ghost predicate ChainOk(t: Tree) {
    && t.nodes.Keys <= t.meta.Keys
    && |t.chain| > 0
    && (forall j :: 0 <= j < |t.chain| ==> t.chain[j] in t.nodes && t.nodes[t.chain[j]].Leaf?)
    && (forall j {:trigger LinkOk(t, j)} :: 0 <= j < |t.chain| ==> LinkOk(t, j))
    && t.chain[0] in t.meta && t.meta[t.chain[0]].lo == NegInf
    && t.chain[|t.chain| - 1] in t.meta && t.meta[t.chain[|t.chain| - 1]].hi == PosInf
    && (forall h :: h in t.nodes && t.nodes[h].Leaf? ==> h in t.chain)
  }

  ghost predicate Shape(t: Tree) {
    && t.nodes.Keys <= t.meta.Keys
    && t.root in t.nodes
    && t.nodes[t.root].parent.None?
    && t.meta[t.root].lo == NegInf
    && t.meta[t.root].hi == PosInf
    && (forall h {:trigger NodeOk(t, h)} :: h in t.nodes ==> NodeOk(t, h))
    && ChainOk(t)
  }

  // ----- occupancy -----

  /** Occupancy bounds of one node; the root may hold fewer. `leafMin` is 8 for the engines that
      rebalance after deletion (or never delete) and 0 for the one whose delete does not. */
  ghost predicate SizeOk(t: Tree, leafMin: nat, h: Handle)
    requires h in t.nodes
  {
    match t.nodes[h]
    case Leaf(rs, _, _, _) => |rs| <= LEAF_MAX && (h != t.root ==> leafMin <= |rs|)
    case Internal(keys, _, _) =>
      && |keys| <= INTERNAL_MAX
      && (if h == t.root then 1 <= |keys| else INTERNAL_MIN <= |keys|)
  }

  ghost predicate SizesOk(t: Tree, leafMin: nat) {
    forall h :: h in t.nodes ==> SizeOk(t, leafMin, h)
  }

  ghost predicate SizesOkExcept(t: Tree, leafMin: nat, x: Handle) {
    forall h :: h in t.nodes && h != x ==> SizeOk(t, leafMin, h)
  }

  // ----- the abstraction: the records along the leaf chain -----

  function Flatten(ss: seq<seq<PartRecord>>): seq<PartRecord> {
    if |ss| == 0 then [] else ss[0] + Flatten(ss[1..])
  }

  ghost function RecordsAt(t: Tree, h: Handle): seq<PartRecord> {
    if h in t.nodes && t.nodes[h].Leaf? then t.nodes[h].records else []
  }

  /** The record lists of the leaves, in chain order. */
  ghost function Leaves(t: Tree): seq<seq<PartRecord>> {
    seq(|t.chain|, j requires 0 <= j < |t.chain| => RecordsAt(t, t.chain[j]))
  }

  /** All live records, in the order of the leaf chain. */
  ghost function Contents(t: Tree): seq<PartRecord> {
    Flatten(Leaves(t))
  }

  /** The height of the tree: the root's level. */
  ghost function Height(t: Tree): nat
    requires t.root in t.meta
  {
    t.meta[t.root].level
  }

  // ----- small helpers on sequences -----

  function InsertAt<T>(s: seq<T>, i: nat, x: T): (r: seq<T>)
    requires i <= |s|
    ensures |r| == |s| + 1
    ensures forall j :: 0 <= j < i ==> r[j] == s[j]
    ensures r[i] == x
    ensures forall j :: i < j <= |s| ==> r[j] == s[j - 1]
  {
    s[..i] + [x] + s[i..]
  }

  function RemoveAt<T>(s: seq<T>, i: nat): (r: seq<T>)
    requires i < |s|
    ensures |r| == |s| - 1
    ensures forall j :: 0 <= j < i ==> r[j] == s[j]
    ensures forall j :: i <= j < |s| - 1 ==> r[j] == s[j + 1]
  {
    s[..i] + s[i + 1..]
  }

  /** Java's `List.indexOf` over child handles: the first position of `c`, or |cs|. */
  function IndexOfHandle(cs: seq<Handle>, c: Handle): (i: nat)
    ensures i <= |cs|
    ensures i < |cs| ==> cs[i] == c
    ensures forall j :: 0 <= j < i ==> cs[j] != c
    ensures c in cs ==> i < |cs|
  {
    if |cs| == 0 then 0 else if cs[0] == c then 0 else 1 + IndexOfHandle(cs[1..], c)
  }
}
