/** The read-only walks of the engines, shared by the three of them since their code is the same:
    `findLeaf` (descend by separators), `getLeftmostLeaf` (descend along first children),
    `computeDepth`, `countAllRecords` (walk the leaf chain) and `scanFrom` (walk the leaf chain
    from the leaf of a start id). Each takes the arena and root handle the engine holds, and the
    ghost snapshot that describes them. */
module Queries {
  import opened Lex
  import opened Options
  import opened LeafNode
  import opened Arena
  import opened TreeFacts

  /** The arena and root a method reads are those of the snapshot `t`, which is well-formed. */
  ghost predicate Describes(t: Tree, nodes: map<Handle, Node>, root: Handle) {
    t.nodes == nodes && t.root == root && Shape(t)
  }

  // ----- what a range scan returns -----

  /** The records of a sorted list from the first one whose id is not below `k`. */
  function AtLeast(rs: seq<PartRecord>, k: string): seq<PartRecord> {
    rs[InsertPos(rs, k)..]
  }

  /** The first `n` elements of `rs`, or all of them when there are fewer; none when `n` is not
      positive. */
  function Take(rs: seq<PartRecord>, n: int): (r: seq<PartRecord>)
    ensures |r| == if n <= 0 then 0 else if n < |rs| then n else |rs|
    ensures r == rs[..|r|]
  {
    if n <= 0 then [] else if n < |rs| then rs[..n] else rs
  }

  /** In a sorted list, `AtLeast(rs, k)` holds exactly the records whose id is not below `k`,
      in their order. */
  lemma AtLeastMembers(rs: seq<PartRecord>, k: string)
    requires SortedById(rs)
    ensures forall x :: x in AtLeast(rs, k) <==> x in rs && !Less(x.id, k)
    ensures SortedById(AtLeast(rs, k))
  {
    var p := InsertPos(rs, k);
    forall x | x in rs && !Less(x.id, k) ensures x in AtLeast(rs, k) {
      var q :| 0 <= q < |rs| && rs[q] == x;
      if p <= q {
        assert x == AtLeast(rs, k)[q - p];
      }
    }
    forall x | x in AtLeast(rs, k) ensures !Less(x.id, k) {
      var q :| 0 <= q < |AtLeast(rs, k)| && AtLeast(rs, k)[q] == x;
      if q > 0 {
        assert Less(rs[p].id, rs[p + q].id);
        LessTrichotomy(rs[p].id, k);
        if Less(x.id, k) {
          LessTransitive(rs[p].id, x.id, k);
        }
      }
    }
  }

  /** Where the records from `k` on begin, when every record before a stretch is below `k` and
      every one after it above. */
  lemma AtLeastAround(b: seq<PartRecord>, l: seq<PartRecord>, a: seq<PartRecord>, k: string)
    requires forall x :: x in b ==> Less(x.id, k)
    requires forall x :: x in a ==> Less(k, x.id)
    ensures AtLeast(b + l + a, k) == AtLeast(l, k) + a
  {
    var all := b + l + a;
    var q := |b| + InsertPos(l, k);
    forall i | 0 <= i < q ensures Less(all[i].id, k) {
      if i < |b| {
        assert all[i] in b;
      } else {
        assert all[i] == l[i - |b|];
      }
    }
    if q < |all| && q == |b| + |l| {
      assert all[q] in a;
      LessTrichotomy(k, all[q].id);
    }
    InsertPosUnique(all, k, q);
    assert all[q..] == l[InsertPos(l, k)..] + a;
  }

  // ----- walks -----

  /** `findLeaf(id)`: at each internal node, skip the separators not above `id` and descend into
      the child after them. The leaf reached is the one whose interval holds `id`, so `id` is in
      the tree exactly when it is in that leaf. */
  method FindLeaf(nodes: map<Handle, Node>, root: Handle, id: string, ghost t: Tree) returns (leaf: Handle)
    requires Describes(t, nodes, root)
    ensures leaf in nodes && nodes[leaf].Leaf?
    ensures KeyIn(id, t.meta[leaf].lo, t.meta[leaf].hi)
    ensures HasId(Contents(t), id) <==> HasId(nodes[leaf].records, id)
  {
    var node := root;
    assert NodeOk(t, node);
    while nodes[node].Internal?
      invariant node in nodes && NodeOk(t, node)
      invariant KeyIn(id, t.meta[node].lo, t.meta[node].hi)
      decreases t.meta[node].level
    {
      var n := nodes[node];
      var lo, hi := t.meta[node].lo, t.meta[node].hi;
      var i := 0;
      while i < |n.keys| && !Less(id, n.keys[i])
        invariant 0 <= i <= |n.keys|
        invariant BLe(Fence(n.keys, lo, hi, i), At(id))
      {
        LessTrichotomy(id, n.keys[i]);
        i := i + 1;
      }
      assert ChildOk(t, node, i);
      ChildOf(t, node, i);
      node := n.children[i];
    }
    var j := Locate(t, node, id);
    leaf := node;
  }

  /** `getLeftmostLeaf`: following first children from the root reaches the first leaf of the
      chain. */
  method LeftmostLeaf(nodes: map<Handle, Node>, root: Handle, ghost t: Tree) returns (leaf: Handle)
    requires Describes(t, nodes, root)
    ensures leaf in nodes && nodes[leaf].Leaf?
    ensures leaf == t.chain[0]
  {
    var node := root;
    assert NodeOk(t, node);
    while !nodes[node].Leaf?
      invariant node in nodes && NodeOk(t, node)
      invariant t.meta[node].lo == NegInf
      decreases t.meta[node].level
    {
      assert ChildOk(t, node, 0);
      ChildOf(t, node, 0);
      node := nodes[node].children[0];
    }
    FirstLeaf(t, node);
    leaf := node;
  }

  /** `computeDepth`: the number of nodes on the path of first children, which is one more than
      the tree's height. */
  method ComputeDepth(nodes: map<Handle, Node>, root: Handle, ghost t: Tree) returns (depth: nat)
    requires Describes(t, nodes, root)
    ensures depth == Height(t) + 1
  {
    depth := 0;
    var node: Option<Handle> := Some(root);
    assert NodeOk(t, root);
    while node.Some?
      invariant node.Some? ==> node.value in nodes && NodeOk(t, node.value)
      invariant node.Some? ==> depth + t.meta[node.value].level == Height(t)
      invariant node.None? ==> depth == Height(t) + 1
      decreases if node.Some? then t.meta[node.value].level + 1 else 0
    {
      depth := depth + 1;
      if nodes[node.value].Leaf? {
        break;
      }
      ChildLevel(t, node.value, 0);
      ChildOf(t, node.value, 0);
      node := Some(nodes[node.value].children[0]);
    }
  }

  lemma BeforeStep(t: Tree, j: nat)
    requires j < |t.chain|
    ensures Before(t, j + 1) == Before(t, j) + RecordsAt(t, t.chain[j])
  {
    var ls := Leaves(t);
    assert ls[..j + 1] == ls[..j] + [ls[j]];
    FlattenAppend(ls[..j], [ls[j]]);
    FlattenSingle(ls[j]);
  }

  lemma AfterStep(t: Tree, j: nat)
    requires j < |t.chain|
    ensures j + 1 < |t.chain| ==> After(t, j) == RecordsAt(t, t.chain[j + 1]) + After(t, j + 1)
    ensures j + 1 == |t.chain| ==> After(t, j) == []
  {
    var ls := Leaves(t);
    if j + 1 < |t.chain| {
      assert ls[j + 1..][1..] == ls[j + 2..];
    }
  }

  /** The inner loop of `scanFrom`: copy records of one leaf from position `idx` on until the leaf
      is exhausted or `count` records are collected. */
  method CopyRecords(crs: seq<PartRecord>, idx0: nat, out0: seq<PartRecord>, count: int)
    returns (out: seq<PartRecord>, idx: nat)
    requires idx0 <= |crs|
    ensures idx0 <= idx <= |crs|
    ensures out == out0 + crs[idx0..idx]
    ensures idx == |crs| || |out| >= count
    ensures idx > idx0 ==> |out0| < count && |out| <= count
  {
    out, idx := out0, idx0;
    while idx < |crs| && |out| < count
      invariant idx0 <= idx <= |crs|
      invariant out == out0 + crs[idx0..idx]
      invariant idx > idx0 ==> |out0| < count && |out| <= count
    {
      assert crs[idx0..idx + 1] == crs[idx0..idx] + [crs[idx]];
      out := out + [crs[idx]];
      idx := idx + 1;
    }
  }

  /** Copying a stretch of the current leaf extends the collected prefix of the stream. */
  lemma TakeChunk(all: seq<PartRecord>, out0: seq<PartRecord>, crs: seq<PartRecord>, idx0: nat, idx: nat,
                  out: seq<PartRecord>, rest: seq<PartRecord>, count: int)
    requires |out0| <= |all| && out0 == all[..|out0|]
    requires idx0 <= idx <= |crs| && out == out0 + crs[idx0..idx]
    requires |out0| < count ==> all[|out0|..] == crs[idx0..] + rest
    requires idx > idx0 ==> |out0| < count
    ensures |out| <= |all| && out == all[..|out|]
    ensures |out| < count ==> all[|out|..] == crs[idx..] + rest
  {
    if |out0| < count {
      assert all[|out0|..][..idx - idx0] == crs[idx0..idx];
      assert all[|out0|..][idx - idx0..] == crs[idx..] + rest;
    }
  }

  /** `countAllRecords`: summing the leaf sizes along the chain counts every live record. */
  method CountAllRecords(nodes: map<Handle, Node>, root: Handle, ghost t: Tree) returns (count: nat)
    requires Describes(t, nodes, root)
    ensures count == |Contents(t)|
  {
    count := 0;
    var first := LeftmostLeaf(nodes, root, t);
    var cur: Option<Handle> := Some(first);
    ghost var j: nat := 0;
    while cur.Some?
      invariant j <= |t.chain|
      invariant cur.Some? <==> j < |t.chain|
      invariant cur.Some? ==> cur.value == t.chain[j]
      invariant count == |Before(t, j)|
      decreases |t.chain| - j
    {
      assert LinkOk(t, j);
      BeforeStep(t, j);
      count := count + |nodes[cur.value].records|;
      cur := nodes[cur.value].next;
      j := j + 1;
    }
    assert Leaves(t)[..j] == Leaves(t);
  }

  /** The records from `k` on are those of `k`'s leaf from its first one not below `k`, then
      those of the leaves after it. */
  lemma ScanStart(t: Tree, leaf: Handle, k: string, idx: nat) returns (j: nat)
    requires Shape(t) && leaf in t.nodes && t.nodes[leaf].Leaf?
    requires KeyIn(k, t.meta[leaf].lo, t.meta[leaf].hi)
    requires idx <= |t.nodes[leaf].records|
    requires forall q :: 0 <= q < idx ==> Less(t.nodes[leaf].records[q].id, k)
    requires idx < |t.nodes[leaf].records| ==> !Less(t.nodes[leaf].records[idx].id, k)
    ensures j < |t.chain| && t.chain[j] == leaf
    ensures AtLeast(Contents(t), k) == t.nodes[leaf].records[idx..] + After(t, j)
  {
    var rs := t.nodes[leaf].records;
    InsertPosUnique(rs, k, idx);
    j := Locate(t, leaf, k);
    AtLeastAround(Before(t, j), rs, After(t, j), k);
  }

  /** Moving on from leaf `j` of the chain: its `next` is the following leaf, and unless `count`
      records are collected, what is left to collect starts there, or nothing is left. */
  lemma NextLeaf(t: Tree, j: nat, all: seq<PartRecord>, n: nat, count: int, idx: nat)
    requires Shape(t) && j < |t.chain| && n <= |all|
    requires n < count ==> idx == |RecordsAt(t, t.chain[j])| && all[n..] == RecordsAt(t, t.chain[j])[idx..] + After(t, j)
    ensures t.chain[j] in t.nodes && t.nodes[t.chain[j]].Leaf?
    ensures t.nodes[t.chain[j]].next == if j + 1 < |t.chain| then Some(t.chain[j + 1]) else None
    ensures j + 1 < |t.chain| ==> t.chain[j + 1] in t.nodes && t.nodes[t.chain[j + 1]].Leaf?
    ensures n < count && j + 1 < |t.chain| ==> all[n..] == t.nodes[t.chain[j + 1]].records[0..] + After(t, j + 1)
    ensures n < count && j + 1 == |t.chain| ==> n == |all|
  {
    assert LinkOk(t, j);
    if j + 1 < |t.chain| {
      assert LinkOk(t, j + 1);
    }
    AfterStep(t, j);
  }

  /** `scanFrom(startId, count)`: skip the records of `startId`'s leaf that lie below it, then
      collect records along the chain until `count` are collected or the chain ends. The result is
      the first `count` records of the tree whose ids are not below `startId`. */
  method ScanFrom(nodes: map<Handle, Node>, root: Handle, startId: string, count: int, ghost t: Tree)
    returns (out: seq<PartRecord>)
    requires Describes(t, nodes, root)
    ensures out == Take(AtLeast(Contents(t), startId), count)
  {
    out := [];
    var leaf := FindLeaf(nodes, root, startId, t);
    var rs := nodes[leaf].records;
    var idx := 0;
    while idx < |rs| && Less(rs[idx].id, startId)
      invariant 0 <= idx <= |rs|
      invariant forall q :: 0 <= q < idx ==> Less(rs[q].id, startId)
    {
      idx := idx + 1;
    }
    ghost var j := ScanStart(t, leaf, startId, idx);
    ghost var all := AtLeast(Contents(t), startId);
    var cur: Option<Handle> := Some(leaf);
    while cur.Some? && |out| < count
      invariant j <= |t.chain|
      invariant cur.Some? <==> j < |t.chain|
      invariant cur.Some? ==> cur.value == t.chain[j] && cur.value in nodes && nodes[cur.value].Leaf?
      invariant cur.Some? ==> idx <= |nodes[cur.value].records|
      invariant |out| <= |all| && out == all[..|out|]
      invariant |out| == 0 || |out| <= count
      invariant |out| < count && cur.Some? ==> all[|out|..] == nodes[cur.value].records[idx..] + After(t, j)
      invariant |out| < count && cur.None? ==> |out| == |all|
      decreases |t.chain| - j
    {
      var crs := nodes[cur.value].records;
      ghost var before, from := out, idx;
      out, idx := CopyRecords(crs, idx, out, count);
      TakeChunk(all, before, crs, from, idx, out, After(t, j), count);
      NextLeaf(t, j, all, |out|, count, idx);
      cur := nodes[cur.value].next;
      idx := 0;
      j := j + 1;
    }
  }
}
