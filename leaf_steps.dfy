/** Replacing the records of one leaf in place, as `insertSorted`, the removal loop of `delete`,
    `deleteRecord` and `UpdateRecord` do: the tree stays well-formed as long as the new list is
    sorted and stays within the leaf's interval, and the records of the whole tree change only in
    that leaf's stretch. */
module LeafSteps {
  import opened Options
  import opened LeafNode
  import opened Arena
  import opened TreeFacts
  import opened Frame

  /** The tree with leaf `l`'s records replaced by `rs`. */
  ghost function PutRecords(t: Tree, l: Handle, rs: seq<PartRecord>): Tree
    requires l in t.nodes && t.nodes[l].Leaf?
  {
    t.(nodes := t.nodes[l := t.nodes[l].(records := rs)])
  }

  lemma PutRecordsNodeOk(t: Tree, l: Handle, rs: seq<PartRecord>, h: Handle)
    requires Shape(t) && l in t.nodes && t.nodes[l].Leaf?
    requires SortedById(rs) && forall x :: x in rs ==> KeyIn(x.id, t.meta[l].lo, t.meta[l].hi)
    requires h in t.nodes
    ensures NodeOk(PutRecords(t, l, rs), h)
  {
    var u := PutRecords(t, l, rs);
    assert NodeOk(t, h);
    if h != t.root {
      var p, i := ParentIndex(t, h);
      assert u.nodes[p].children == t.nodes[p].children;
    }
    if h != l {
      NodeOkFrame(t, u, h);
    }
  }

  /** Storing a sorted list that stays within the leaf's interval keeps the tree well-formed; the
      tree's records become those before the leaf, the new list, and those after it. */
  lemma PutRecordsShape(t: Tree, l: Handle, rs: seq<PartRecord>, j: nat)
    requires Shape(t) && l in t.nodes && t.nodes[l].Leaf? && j < |t.chain| && t.chain[j] == l
    requires SortedById(rs) && forall x :: x in rs ==> KeyIn(x.id, t.meta[l].lo, t.meta[l].hi)
    ensures Shape(PutRecords(t, l, rs))
    ensures Contents(PutRecords(t, l, rs)) == Before(t, j) + rs + After(t, j)
  {
    var u := PutRecords(t, l, rs);
    forall h | h in u.nodes ensures NodeOk(u, h) {
      PutRecordsNodeOk(t, l, rs, h);
    }
    ChainOkFrame(t, u);
    ChainDistinct(t);
    PutRecordsContents(t, l, rs, j);
  }

  /** Only leaf `l`'s stretch of the tree's records changes. */
  lemma PutRecordsContents(t: Tree, l: Handle, rs: seq<PartRecord>, j: nat)
    requires l in t.nodes && t.nodes[l].Leaf? && j < |t.chain| && t.chain[j] == l
    requires DistinctHandles(t.chain)
    ensures Contents(PutRecords(t, l, rs)) == Before(t, j) + rs + After(t, j)
  {
    var u := PutRecords(t, l, rs);
    ContentsAround(u, j);
    assert Leaves(u)[..j] == Leaves(t)[..j] by {
      forall q | 0 <= q < j ensures Leaves(u)[q] == Leaves(t)[q] {
        assert t.chain[q] != l;
      }
    }
    assert Leaves(u)[j + 1..] == Leaves(t)[j + 1..] by {
      forall q | j + 1 <= q < |t.chain| ensures Leaves(u)[q] == Leaves(t)[q] {
        assert t.chain[q] != l;
      }
    }
  }

  /** Every node but `l` keeps its bounds. */
  lemma PutRecordsSizes(t: Tree, l: Handle, rs: seq<PartRecord>, leafMin: nat)
    requires SizesOk(t, leafMin) && l in t.nodes && t.nodes[l].Leaf?
    ensures SizesOkExcept(PutRecords(t, l, rs), leafMin, l)
    ensures SizeOk(PutRecords(t, l, rs), leafMin, l) <==>
      |rs| <= LEAF_MAX && (l != t.root ==> leafMin <= |rs|)
  {
    var u := PutRecords(t, l, rs);
    forall h | h in u.nodes && h != l ensures SizeOk(u, leafMin, h) {
      assert SizeOk(t, leafMin, h);
    }
  }

  /** Inserting a record with a new id into the leaf whose interval holds that id keeps the tree
      well-formed and inserts the record into the tree's records at its place. */
  lemma InsertStep(t: Tree, l: Handle, rec: PartRecord)
    requires Shape(t) && l in t.nodes && t.nodes[l].Leaf?
    requires KeyIn(rec.id, t.meta[l].lo, t.meta[l].hi) && !HasId(t.nodes[l].records, rec.id)
    ensures Shape(PutRecords(t, l, Inserted(t.nodes[l].records, rec)))
    ensures Contents(PutRecords(t, l, Inserted(t.nodes[l].records, rec))) == Inserted(Contents(t), rec)
  {
    var rs := t.nodes[l].records;
    var m := t.meta[l];
    assert NodeOk(t, l);
    var j := Locate(t, l, rec.id);
    InsertedSorted(rs, rec);
    forall x | x in Inserted(rs, rec) ensures KeyIn(x.id, m.lo, m.hi) {
      assert x in multiset(Inserted(rs, rec));
    }
    PutRecordsShape(t, l, Inserted(rs, rec), j);
    InsertedAround(Before(t, j), rs, After(t, j), rec);
  }

  /** Removing the record with `id` from the leaf whose interval holds `id` keeps the tree
      well-formed and removes that record from the tree's records. */
  lemma RemoveStep(t: Tree, l: Handle, id: string)
    requires Shape(t) && l in t.nodes && t.nodes[l].Leaf?
    requires KeyIn(id, t.meta[l].lo, t.meta[l].hi)
    ensures Shape(PutRecords(t, l, Removed(t.nodes[l].records, id)))
    ensures Contents(PutRecords(t, l, Removed(t.nodes[l].records, id))) == Removed(Contents(t), id)
  {
    var rs := t.nodes[l].records;
    var m := t.meta[l];
    assert NodeOk(t, l);
    var j := Locate(t, l, id);
    RemovedSorted(rs, id, id);
    var i := IndexOf(rs, id);
    forall x | x in Removed(rs, id) ensures KeyIn(x.id, m.lo, m.hi) {
      if i < |rs| {
        assert x in rs[..i] || x in rs[i + 1..];
      }
    }
    PutRecordsShape(t, l, Removed(rs, id), j);
    RemovedAround(Before(t, j), rs, After(t, j), id);
  }

  /** Replacing the description of the record with `id` in the leaf whose interval holds `id`
      keeps the tree well-formed and does the same to the tree's records. */
  lemma RedescribeStep(t: Tree, l: Handle, id: string, desc: string)
    requires Shape(t) && l in t.nodes && t.nodes[l].Leaf?
    requires KeyIn(id, t.meta[l].lo, t.meta[l].hi)
    ensures Shape(PutRecords(t, l, Redescribed(t.nodes[l].records, id, desc)))
    ensures Contents(PutRecords(t, l, Redescribed(t.nodes[l].records, id, desc))) == Redescribed(Contents(t), id, desc)
  {
    var rs := t.nodes[l].records;
    var rs2 := Redescribed(rs, id, desc);
    var m := t.meta[l];
    assert NodeOk(t, l);
    var j := Locate(t, l, id);
    RedescribedIds(rs, id, desc);
    forall x | x in rs2 ensures KeyIn(x.id, m.lo, m.hi) {
      var q :| 0 <= q < |rs2| && rs2[q] == x;
      assert rs[q] in rs;
    }
    PutRecordsShape(t, l, rs2, j);
    RedescribedAround(Before(t, j), rs, After(t, j), id, desc);
  }
}
