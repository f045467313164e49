/** A part record and the operations a leaf performs on its sorted list of records
    (LeafNode.java and src/LeafNode.java; the two files share everything but
    `deleteRecord`, which only the second has).

    A leaf's `records` list is a value here: each operation that the Java performs in
    place on the list returns the new list, and the tree stores it back into its node. */
module LeafNode {
  import opened Lex
  import opened Options

  /** A part: its id never changes once stored, its description can be replaced. */
  datatype PartRecord = PartRecord(id: string, description: string)

  /** Some record in `rs` carries `id`. */
  ghost predicate HasId(rs: seq<PartRecord>, id: string) {
    exists i :: 0 <= i < |rs| && rs[i].id == id
  }

  /** Ids strictly ascending, hence also unique. */
  ghost predicate SortedById(rs: seq<PartRecord>) {
    forall i, j :: 0 <= i < j < |rs| ==> Less(rs[i].id, rs[j].id)
  }

  /** Position of the first record carrying `id`, or |rs| when there is none. */
  function IndexOf(rs: seq<PartRecord>, id: string): (i: nat)
    ensures i <= |rs|
    ensures forall j :: 0 <= j < i ==> rs[j].id != id
    ensures i < |rs| ==> rs[i].id == id
    ensures i < |rs| <==> HasId(rs, id)
  {
    if |rs| == 0 then 0
    else if rs[0].id == id then 0
    else 1 + IndexOf(rs[1..], id)
  }

  /** `contains`: does any record carry `id`? */
  function Contains(rs: seq<PartRecord>, id: string): (b: bool)
    ensures b <==> HasId(rs, id)
  {
    if |rs| == 0 then false
    else rs[0].id == id || Contains(rs[1..], id)
  }

  /** Where `insertSorted` puts a record with `id`: before the first record whose id is not
      smaller than `id`. */
  function InsertPos(rs: seq<PartRecord>, id: string): (i: nat)
    ensures i <= |rs|
    ensures forall j :: 0 <= j < i ==> Less(rs[j].id, id)
    ensures i < |rs| ==> !Less(rs[i].id, id)
  {
    if |rs| == 0 || !Less(rs[0].id, id) then 0
    else 1 + InsertPos(rs[1..], id)
  }

  /** The list after `insertSorted(rec)`. */
  function Inserted(rs: seq<PartRecord>, rec: PartRecord): seq<PartRecord> {
    var p := InsertPos(rs, rec.id);
    rs[..p] + [rec] + rs[p..]
  }

  /** The list after removing the first record carrying `id` (unchanged when there is none). */
  function Removed(rs: seq<PartRecord>, id: string): seq<PartRecord> {
    var i := IndexOf(rs, id);
    if i < |rs| then rs[..i] + rs[i + 1..] else rs
  }

  /** The list after replacing the description of the first record carrying `id`. */
  function Redescribed(rs: seq<PartRecord>, id: string, desc: string): seq<PartRecord> {
    var i := IndexOf(rs, id);
    if i < |rs| then rs[i := rs[i].(description := desc)] else rs
  }

  /** `insertSorted`: a linear scan for the first record whose id is not smaller. */
  method InsertSorted(records: seq<PartRecord>, record: PartRecord) returns (r: seq<PartRecord>)
    ensures r == Inserted(records, record)
  {
    var i := 0;
    while i < |records| && Less(records[i].id, record.id)
      invariant 0 <= i <= |records|
      invariant forall j :: 0 <= j < i ==> Less(records[j].id, record.id)
    {
      i := i + 1;
    }
    r := records[..i] + [record] + records[i..];
  }

  /** `getRecord`: the first record carrying `id`, or null. */
  method GetRecord(records: seq<PartRecord>, id: string) returns (r: Option<PartRecord>)
    ensures r.Some? <==> HasId(records, id)
    ensures r.Some? ==> r.value == records[IndexOf(records, id)] && r.value.id == id
  {
    var i := 0;
    while i < |records|
      invariant 0 <= i <= |records|
      invariant forall j :: 0 <= j < i ==> records[j].id != id
    {
      if records[i].id == id {
        return Some(records[i]);
      }
      i := i + 1;
    }
    return None;
  }

  /** `UpdateRecord`: replace the description of the record carrying `id`; false when absent. */
  method UpdateRecord(records: seq<PartRecord>, id: string, newDesc: string)
    returns (ok: bool, r: seq<PartRecord>)
    ensures ok <==> HasId(records, id)
    ensures r == Redescribed(records, id, newDesc)
    ensures |r| == |records|
    ensures forall j :: 0 <= j < |r| ==> r[j].id == records[j].id
    ensures forall j :: 0 <= j < |r| && r[j] != records[j] ==> ok && j == IndexOf(records, id)
    ensures ok ==> r[IndexOf(records, id)].description == newDesc
  {
    var found := GetRecord(records, id);
    if found.None? {
      return false, records;
    }
    var i := IndexOf(records, id);
    r := records[i := records[i].(description := newDesc)];
    ok := true;
  }

  /** `deleteRecord` (src/LeafNode.java): remove and return the first record carrying `id`. */
  method DeleteRecord(records: seq<PartRecord>, id: string)
    returns (removed: Option<PartRecord>, r: seq<PartRecord>)
    ensures removed.Some? <==> HasId(records, id)
    ensures removed.Some? ==> removed.value == records[IndexOf(records, id)]
    ensures r == Removed(records, id)
    ensures removed.Some? ==> |r| + 1 == |records| && multiset(r) + multiset{removed.value} == multiset(records)
    ensures removed.None? ==> r == records
  {
    var i := 0;
    while i < |records|
      invariant 0 <= i <= |records|
      invariant forall j :: 0 <= j < i ==> records[j].id != id
    {
      if records[i].id == id {
        assert records == records[..i] + [records[i]] + records[i + 1..];
        return Some(records[i]), records[..i] + records[i + 1..];
      }
      i := i + 1;
    }
    return None, records;
  }

  // ----- properties of the list operations -----

  /** Position `k` of `rs` with `rec` spliced in at `p`: the old record before `p`, `rec` at
      it, the old record one place earlier after it. */
  lemma SplicedAt(rs: seq<PartRecord>, p: nat, rec: PartRecord, k: nat)
    requires p <= |rs| && k <= |rs|
    ensures (rs[..p] + [rec] + rs[p..])[k] == if k < p then rs[k] else if k == p then rec else rs[k - 1]
  {
  }

  lemma InsertedPairOrdered(rs: seq<PartRecord>, rec: PartRecord, i: nat, j: nat)
    requires SortedById(rs) && !HasId(rs, rec.id)
    requires i < j <= |rs|
    ensures Less(Inserted(rs, rec)[i].id, Inserted(rs, rec)[j].id)
  {
    var p := InsertPos(rs, rec.id);
    assert Inserted(rs, rec) == rs[..p] + [rec] + rs[p..];
    SplicedAt(rs, p, rec, i);
    SplicedAt(rs, p, rec, j);
    if i == p {
      assert rs[p].id != rec.id;
      LessTrichotomy(rs[p].id, rec.id);
      if j - 1 > p {
        LessTransitive(rec.id, rs[p].id, rs[j - 1].id);
      }
    }
  }

  /** `insertSorted` of an absent id keeps a sorted list sorted and adds exactly one record. */
  lemma InsertedSorted(rs: seq<PartRecord>, rec: PartRecord)
    requires SortedById(rs) && !HasId(rs, rec.id)
    ensures SortedById(Inserted(rs, rec))
    ensures |Inserted(rs, rec)| == |rs| + 1
    ensures multiset(Inserted(rs, rec)) == multiset(rs) + multiset{rec}
  {
    var p := InsertPos(rs, rec.id);
    var r := Inserted(rs, rec);
    assert rs == rs[..p] + rs[p..];
    forall i, j | 0 <= i < j < |r| ensures Less(r[i].id, r[j].id) {
      InsertedPairOrdered(rs, rec, i, j);
    }
  }

  /** Membership after `insertSorted`: exactly the old ids and the new one. */
  lemma InsertedHasId(rs: seq<PartRecord>, rec: PartRecord, id: string)
    ensures HasId(Inserted(rs, rec), id) <==> HasId(rs, id) || id == rec.id
  {
    var p := InsertPos(rs, rec.id);
    var r := Inserted(rs, rec);
    if HasId(rs, id) {
      var i :| 0 <= i < |rs| && rs[i].id == id;
      assert r[if i < p then i else i + 1] == rs[i];
    }
    if HasId(r, id) {
      var i :| 0 <= i < |r| && r[i].id == id;
      if i < p {
        assert r[i] == rs[i];
      } else if i > p {
        assert r[i] == rs[i - 1];
      }
    }
    assert r[p] == rec;
  }

  /** Position `a` of `rs` without position `i`. */
  lemma DroppedAt(rs: seq<PartRecord>, i: nat, a: nat)
    requires i < |rs| && a + 1 < |rs|
    ensures (rs[..i] + rs[i + 1..])[a] == rs[if a < i then a else a + 1]
  {
  }

  lemma RemovedStaysSorted(rs: seq<PartRecord>, id: string)
    requires SortedById(rs)
    ensures SortedById(Removed(rs, id))
  {
    var i := IndexOf(rs, id);
    if i < |rs| {
      var r := rs[..i] + rs[i + 1..];
      assert Removed(rs, id) == r;
      forall a, b | 0 <= a < b < |r| ensures Less(r[a].id, r[b].id) {
        DroppedAt(rs, i, a);
        DroppedAt(rs, i, b);
      }
    }
  }

  lemma RemovedHasId(rs: seq<PartRecord>, id: string, k: string)
    requires SortedById(rs)
    ensures HasId(Removed(rs, id), k) <==> HasId(rs, k) && k != id
  {
    var i := IndexOf(rs, id);
    if i < |rs| {
      var r := rs[..i] + rs[i + 1..];
      assert Removed(rs, id) == r;
      if HasId(rs, k) && k != id {
        var j :| 0 <= j < |rs| && rs[j].id == k;
        DroppedAt(rs, i, if j < i then j else j - 1);
      }
      if HasId(r, k) {
        var j :| 0 <= j < |r| && r[j].id == k;
        DroppedAt(rs, i, j);
        if j >= i {
          LessIrreflexive(k);
          assert Less(rs[i].id, rs[j + 1].id);
        }
      }
    }
  }

  /** Removing a record keeps a sorted list sorted and removes exactly the id asked for. */
  lemma RemovedSorted(rs: seq<PartRecord>, id: string, k: string)
    requires SortedById(rs)
    ensures SortedById(Removed(rs, id))
    ensures HasId(Removed(rs, id), k) <==> HasId(rs, k) && k != id
  {
    RemovedStaysSorted(rs, id);
    RemovedHasId(rs, id, k);
  }

  /** Replacing a description leaves every id and the order untouched. */
  lemma RedescribedIds(rs: seq<PartRecord>, id: string, desc: string)
    ensures |Redescribed(rs, id, desc)| == |rs|
    ensures forall j :: 0 <= j < |rs| ==> Redescribed(rs, id, desc)[j].id == rs[j].id
    ensures SortedById(rs) ==> SortedById(Redescribed(rs, id, desc))
  {
  }

  // ----- the list operations inside a longer list -----
  // A leaf's list sits between the records of the leaves before it (all smaller) and after it
  // (all larger); these lemmas say that operating on the leaf is operating on the whole.

  lemma InsertPosUnique(rs: seq<PartRecord>, id: string, q: nat)
    requires q <= |rs|
    requires forall j :: 0 <= j < q ==> Less(rs[j].id, id)
    requires q < |rs| ==> !Less(rs[q].id, id)
    ensures q == InsertPos(rs, id)
  {
  }

  /** Every id before position `q` of `p + r + s` is smaller than `id` when `q` lies inside
      `r`'s stretch and before `r`'s own insertion point. */
  lemma SmallerBefore(p: seq<PartRecord>, r: seq<PartRecord>, s: seq<PartRecord>, id: string, j: nat)
    requires forall x :: x in p ==> Less(x.id, id)
    requires j < |p| + InsertPos(r, id)
    ensures Less((p + r + s)[j].id, id)
  {
    if j < |p| {
      assert (p + r + s)[j] == p[j];
    } else {
      assert (p + r + s)[j] == r[j - |p|];
    }
  }

  lemma InsertPosAround(p: seq<PartRecord>, r: seq<PartRecord>, s: seq<PartRecord>, id: string)
    requires forall x :: x in p ==> Less(x.id, id)
    requires forall x :: x in s ==> Less(id, x.id)
    ensures InsertPos(p + r + s, id) == |p| + InsertPos(r, id)
  {
    var all := p + r + s;
    var k := InsertPos(r, id);
    var q := |p| + k;
    forall j | 0 <= j < q ensures Less(all[j].id, id) {
      SmallerBefore(p, r, s, id, j);
    }
    if q < |all| {
      if k < |r| {
        assert all[q] == r[k];
      } else {
        assert all[q] == s[0];
        LessTrichotomy(id, s[0].id);
      }
    }
    InsertPosUnique(all, id, q);
  }

  /** Splicing `rec` in at position `k` of the middle part is splicing it into the whole. */
  lemma SpliceAround(p: seq<PartRecord>, r: seq<PartRecord>, s: seq<PartRecord>, k: nat, rec: PartRecord)
    requires k <= |r|
    ensures var all := p + r + s;
      all[..|p| + k] + [rec] + all[|p| + k..] == p + (r[..k] + [rec] + r[k..]) + s
  {
    var all := p + r + s;
    assert all[..|p| + k] == p + r[..k];
    assert all[|p| + k..] == r[k..] + s;
  }

  /** Dropping position `k` of the middle part is dropping it from the whole. */
  lemma DropAround(p: seq<PartRecord>, r: seq<PartRecord>, s: seq<PartRecord>, k: nat)
    requires k < |r|
    ensures var all := p + r + s;
      all[..|p| + k] + all[|p| + k + 1..] == p + (r[..k] + r[k + 1..]) + s
  {
    var all := p + r + s;
    assert all[..|p| + k] == p + r[..k];
    assert all[|p| + k + 1..] == r[k + 1..] + s;
  }

  lemma InsertedAround(p: seq<PartRecord>, r: seq<PartRecord>, s: seq<PartRecord>, rec: PartRecord)
    requires forall x :: x in p ==> Less(x.id, rec.id)
    requires forall x :: x in s ==> Less(rec.id, x.id)
    ensures Inserted(p + r + s, rec) == p + Inserted(r, rec) + s
  {
    InsertPosAround(p, r, s, rec.id);
    SpliceAround(p, r, s, InsertPos(r, rec.id), rec);
  }

  lemma HasIdAround(p: seq<PartRecord>, r: seq<PartRecord>, s: seq<PartRecord>, id: string)
    ensures HasId(p + r + s, id) <==> HasId(p, id) || HasId(r, id) || HasId(s, id)
  {
    var all := p + r + s;
    if HasId(all, id) {
      var i :| 0 <= i < |all| && all[i].id == id;
      if i < |p| {
        assert all[i] == p[i];
      } else if i < |p| + |r| {
        assert all[i] == r[i - |p|];
      } else {
        assert all[i] == s[i - |p| - |r|];
      }
    }
    if HasId(p, id) {
      var i :| 0 <= i < |p| && p[i].id == id;
      assert all[i] == p[i];
    }
    if HasId(r, id) {
      var i :| 0 <= i < |r| && r[i].id == id;
      assert all[|p| + i] == r[i];
    }
    if HasId(s, id) {
      var i :| 0 <= i < |s| && s[i].id == id;
      assert all[|p| + |r| + i] == s[i];
    }
  }

  lemma IndexOfAround(p: seq<PartRecord>, r: seq<PartRecord>, s: seq<PartRecord>, id: string)
    requires !HasId(p, id) && HasId(r, id)
    ensures IndexOf(p + r + s, id) == |p| + IndexOf(r, id)
    ensures (p + r + s)[IndexOf(p + r + s, id)] == r[IndexOf(r, id)]
  {
    var all := p + r + s;
    var k := IndexOf(r, id);
    var q := |p| + k;
    assert all[q] == r[k];
    forall j | 0 <= j < q ensures all[j].id != id {
      if j < |p| {
        assert all[j] == p[j];
      } else {
        assert all[j] == r[j - |p|];
      }
    }
    var i := IndexOf(all, id);
    assert i == q;
  }

  lemma RemovedAround(p: seq<PartRecord>, r: seq<PartRecord>, s: seq<PartRecord>, id: string)
    requires !HasId(p, id) && !HasId(s, id)
    ensures Removed(p + r + s, id) == p + Removed(r, id) + s
  {
    HasIdAround(p, r, s, id);
    if HasId(r, id) {
      IndexOfAround(p, r, s, id);
      DropAround(p, r, s, IndexOf(r, id));
    }
  }

  /** Replacing position `k` of the middle part is replacing it in the whole. */
  lemma ReplaceAround(p: seq<PartRecord>, r: seq<PartRecord>, s: seq<PartRecord>, k: nat, v: PartRecord)
    requires k < |r|
    ensures (p + r + s)[|p| + k := v] == p + r[k := v] + s
  {
  }

  lemma RedescribedAround(p: seq<PartRecord>, r: seq<PartRecord>, s: seq<PartRecord>, id: string, desc: string)
    requires !HasId(p, id) && !HasId(s, id)
    ensures Redescribed(p + r + s, id, desc) == p + Redescribed(r, id, desc) + s
  {
    HasIdAround(p, r, s, id);
    if HasId(r, id) {
      IndexOfAround(p, r, s, id);
      var k := IndexOf(r, id);
      ReplaceAround(p, r, s, k, r[k].(description := desc));
    }
  }
}
