# B+ tree of part records, in Dafny

This project models the in-memory B+ tree that stores part records (an id and a description) of
the Java inventory program. Three copies of the engine exist in the repository and all three are
modelled:

- `BPlusTree.java` (module `Engine`, class `BPlusTree`). It has search, insert with leaf and
  internal splits, and delete with borrow, fusion and root collapse. It also has the range scan,
  depth and record count, and the split and fusion statistics.
- `src/BPlusTree.java` (module `SrcEngine`, class `BPlusTree`). It has search, insert with splits,
  update, range scan, depth and count, and a delete that removes the record from its leaf and
  never rebalances.
- `B_Plus_Tree.java` (module `AltEngine`, class `B_Plus_Tree`). It has search, insert with splits
  and update. It counts leaf splits and internal splits separately.

The leaf operations of `LeafNode.java` and `src/LeafNode.java` live in module `LeafNode`, over a
leaf's record list taken as a value.

**The node graph is an arena.** Java references between nodes become integer handles into a map
`nodes` from handle to `Node`: `Leaf(records, parent, prev, next)` or
`Internal(keys, children, parent)`. Each engine class owns this map, the `root` handle and the
allocator `nextFree` as fields, and its methods update them in place, as the Java methods update
the objects.

**Ghost bookkeeping.** Next to the arena each engine keeps ghost state:

- `chain`: the leaves from left to right.
- `meta`: each node's level and the key interval `[lo, hi)` it is responsible for.

**The structural invariant is `Arena.Shape`.** It requires:

- Every child points back at its parent and sits one level lower.
- Every child covers exactly the interval between the separators around it.
- Leaves are sorted, and their records lie in their interval.
- The chain lists every leaf, is linked both ways through `prev`/`next`, and its intervals tile the
  key space from left to right.

All leaves have the same depth, because `Shape` gives every leaf level 0 and puts every child one
level below its parent. From `Shape` the model also proves:

- The records read along the chain (`Arena.Contents`) are strictly ascending.
- `findLeaf` reaches the only leaf that can hold a key.

**Occupancy bounds are `Arena.SizesOk`.** Every leaf holds at most 16 records, and at least 8
unless it is the root. Every internal node holds at most 4 separators, and at least 2 unless it is
the root, which holds at least 1. In `SrcEngine` the lower leaf bound is 0, because its delete
never rebalances.

**How the operations are stated.** Every public operation is stated against the ascending record
sequence `Records()`:

- insert gives `Inserted(old, rec)`, or refuses a duplicate;
- delete gives `Removed(old, id)`;
- update gives `Redescribed(old, id, desc)`;
- search gives the record with that id, if any;
- the scan gives the first `count` records whose id is not below `startId`.

Every state-changing method keeps the class invariant `Valid()`. `Valid()` also ties the
statistics counters to the number of nodes: splits add nodes, fusions and root collapses remove
them.

**Restructuring steps.** Each step is a ghost function on the whole tree (split, attach to parent,
borrow, fuse, collapse). Lemmas prove that each step keeps `Shape`, keeps the occupancy bounds
and keeps `Contents`. The methods are proved against these functions. Java's string
`compareTo` is modelled as lexicographic order on character sequences (module `Lex`).

## Model

| member | source | states |
|---|---|---|
| Lex.LessIsStrictTotalOrder | LeafNode.java:22 | the `compareTo` order used to place ids is irreflexive, transitive, total and asymmetric on ids |
| LeafNode.IndexOf | LeafNode.java:26-29 | the position of the first record with the id: no earlier record has it, and it is within the list exactly when some record has the id |
| LeafNode.Contains | LeafNode.java:16-18 | true exactly when some record of the leaf carries the id (same in src/LeafNode.java) |
| LeafNode.InsertPos | LeafNode.java:20-24 | the scan of `insertSorted` stops at the first record whose id is not smaller than the new one; every record before it is smaller |
| LeafNode.InsertSorted | LeafNode.java:20-24 | the loop and `add(i, record)` give exactly `Inserted`: the new record spliced in at `InsertPos` |
| LeafNode.InsertedSorted | LeafNode.java:20-24 | inserting an absent id into a sorted leaf keeps it sorted, adds one record and keeps the multiset of the others |
| LeafNode.InsertedHasId | LeafNode.java:20-24 | after insertion the leaf holds exactly the old ids plus the new one |
| LeafNode.GetRecord | LeafNode.java:26-29 | finds a record exactly when one carries the id, and returns the first such record |
| LeafNode.UpdateRecord | LeafNode.java:31-36 | succeeds exactly when the id is present; only the matching record changes, its description becomes the new one, and ids and order are untouched |
| LeafNode.RedescribedIds | LeafNode.java:31-36 | changing a description keeps every id in place, so a sorted leaf stays sorted |
| LeafNode.DeleteRecord | src/LeafNode.java:71-78 | removes and returns the first record with the id exactly when one exists; otherwise the list is unchanged; the multiset loses exactly that record |
| LeafNode.RemovedSorted | src/LeafNode.java:71-78 | removing an id from a sorted leaf keeps it sorted and leaves exactly the other ids |
| JavaText.TrimStart | src/BPlusTree.java:288 | the suffix left by dropping leading characters up to `' '`; it is empty or starts above `' '` |
| JavaText.TrimEnd | src/BPlusTree.java:288 | the prefix left by dropping trailing characters up to `' '`; it is empty or ends above `' '` |
| JavaText.TrimEmpty | src/BPlusTree.java:288 | `id.trim().isEmpty()` holds exactly when every character of the id is at most `' '` |
| TreeFacts.ContentsSorted | BPlusTree.java:299-314 | in a well-formed tree the records read along the leaf chain are strictly ascending by id |
| TreeFacts.ChainOrder | BPlusTree.java:299-314 | a leaf earlier in the chain covers keys wholly below those of a later leaf |
| TreeFacts.KeysSorted | BPlusTree.java:44-54 | the separators of every internal node are strictly ascending |
| TreeFacts.Locate | BPlusTree.java:44-54 | every record before the leaf whose interval holds a key is smaller than that key and every record after it is larger, so the key is in the tree exactly when it is in that leaf |
| TreeFacts.FirstLeaf | BPlusTree.java:346-350 | the leaf whose interval starts at minus infinity is the first leaf of the chain |
| Queries.FindLeaf | BPlusTree.java:44-54 | the descent through `id.compareTo(key) >= 0` ends at a leaf whose interval holds the id, and the id is in the tree exactly when it is in that leaf (same loop in src/BPlusTree.java:74-89 and B_Plus_Tree.java:64-80) |
| Queries.LeftmostLeaf | BPlusTree.java:346-350 | following `children.get(0)` ends at the first leaf of the chain |
| Queries.ComputeDepth | BPlusTree.java:353-362 | the depth is the height of the tree plus one |
| Queries.CountAllRecords | BPlusTree.java:364-372 | summing leaf sizes along the chain gives the number of records in the tree |
| Queries.ScanFrom | BPlusTree.java:299-314 | the scan returns the first `count` records, in ascending order, whose id is not below `startId` (none for `count <= 0`) |
| Queries.Take | BPlusTree.java:306-309 | the scan stops after `count` records or at the end: the result is the prefix of length `min(count, n)`, or empty when `count <= 0` |
| Queries.AtLeastMembers | BPlusTree.java:304 | the records from the first id not below `startId` on are exactly the records whose id is not below it, still sorted |
| LeafSteps.InsertStep | BPlusTree.java:37 | inserting a record into the leaf whose interval holds its id keeps the tree well-formed and inserts it into the ascending record sequence |
| LeafSteps.RemoveStep | BPlusTree.java:145-150 | removing an id from the leaf whose interval holds it keeps the tree well-formed and removes it from the record sequence |
| LeafSteps.RedescribeStep | src/BPlusTree.java:65-70 | redescribing a record in its leaf keeps the tree well-formed and redescribes it in the record sequence |
| InsertSteps.SplitHalves | BPlusTree.java:56-79 | the halves at `mid = total / 2` are sorted; the lower half lies below the promoted key (the upper half's first id) and the upper half at or above it, both inside the leaf's interval |
| InsertSteps.SplitLeafPending | BPlusTree.java:56-79 | after the split and the relinking, the tree is well-formed once the new leaf is attached to the parent, and the record sequence is unchanged |
| InsertSteps.SplitLeafSizes | BPlusTree.java:56-79 | a leaf of 17 records splits into halves of 8 and 9, within the leaf bounds |
| InsertSteps.SplitLeafReady | BPlusTree.java:56-79 | the split leaf state awaits attachment, respects the size bounds, keeps the record sequence and has exactly one node more |
| InsertSteps.AttachContents | BPlusTree.java:85-106 | adding the new node and separator to the parent, or to a new root, changes neither the chain nor any leaf's records |
| InsertSteps.AttachLevels | BPlusTree.java:99-106 | the parent of a non-root node sits one level higher and nearer the root, so the upward cascade of splits terminates |
| InternalSplit.SplitInternalPending | BPlusTree.java:109-131 | moving separators `mid+1..` and children `mid+1..` to a new node and reparenting them leaves a tree that is well-formed once the new node is attached with `keys[mid]` |
| InternalSplit.SplitRawContents | BPlusTree.java:109-131 | splitting an internal node does not change the record sequence |
| InternalSplit.SplitInternalSizes | BPlusTree.java:109-131 | an internal node of 5 separators splits into two nodes of 2 around the promoted one |
| InternalSplit.SplitInternalReady | BPlusTree.java:109-131 | the split internal state awaits attachment, respects the bounds, keeps the record sequence and the node's depth, and has one node more |
| LeafRebalance.ShiftShape | BPlusTree.java:175-192 | moving records between adjacent sibling leaves, with the separator between them reset to the right leaf's first id, keeps the tree well-formed and its record sequence |
| LeafRebalance.ShiftSizes | BPlusTree.java:175-192 | after a borrow both leaves are within the bounds |
| LeafRebalance.MergeShape | BPlusTree.java:195-213 | fusing a leaf into its left neighbour, relinking the chain and dropping the separator and child from the parent keeps the tree well-formed and its record sequence |
| LeafRebalance.MergeSizes | BPlusTree.java:195-213 | after a leaf fusion every node but the parent is within the bounds |
| InternalRebalance.BranchShiftShape | BPlusTree.java:238-264 | rotating a child and a separator through the parent between sibling internal nodes keeps the tree well-formed and its record sequence |
| InternalRebalance.BranchShiftSizes | BPlusTree.java:238-264 | after an internal borrow both siblings are within the bounds |
| InternalRebalance.BranchMergeShape | BPlusTree.java:267-285 | folding the separator and the right sibling's separators and children into the left one, reparenting the children, keeps the tree well-formed and its record sequence |
| InternalRebalance.BranchMergeSizes | BPlusTree.java:267-285 | after an internal fusion every node but the parent is within the bounds |
| RootSteps.EmptyTreeOk | BPlusTree.java:19-21 | a tree made of one empty leaf is well-formed, within the bounds, holds no records and has height 0 |
| RootSteps.CollapseRootShape | BPlusTree.java:216-221 | replacing a root without separators by its only child keeps the tree well-formed and its record sequence |
| RootSteps.CollapseRootSizes | BPlusTree.java:216-221 | a root collapse lowers the height by one, removes one node and keeps the bounds |
| DeleteSteps.LeafFromLeftReady | BPlusTree.java:175-182 | when the left sibling has more than 8 records, moving its last record to the front of the short leaf restores every bound and keeps the records and the node set |
| DeleteSteps.LeafFromRightReady | BPlusTree.java:185-192 | when the right sibling has more than 8 records, moving its first record to the end of the short leaf restores every bound and keeps the records and the node set |
| DeleteSteps.LeafMergeReady | BPlusTree.java:195-213 | a leaf fusion keeps the records, removes exactly the right leaf of the pair and leaves only the parent possibly short |
| DeleteSteps.BranchFromLeftReady | BPlusTree.java:238-250 | when the left sibling has more than 2 separators, the rotation from the left restores every bound and keeps the records and the node set |
| DeleteSteps.BranchFromRightReady | BPlusTree.java:253-264 | when the right sibling has more than 2 separators, the rotation from the right restores every bound and keeps the records and the node set |
| DeleteSteps.BranchMergeReady | BPlusTree.java:267-285 | an internal fusion keeps the records, removes exactly the right node of the pair, leaves only the parent possibly short, and the parent is nearer the root |
| DeleteSteps.CollapseReady | BPlusTree.java:287-291 | collapsing an internal root without separators restores every bound, keeps the records, removes one node and lowers the height by one |
| Common.MoveChildren | src/BPlusTree.java:162-165 | children `from..` are copied, in order, and each of them, and nothing else, names the new node as parent |
| Engine.HalveRecords | BPlusTree.java:62-68 | the copy loop and the removal loop leave the lower half `rs[..mid]` in the leaf and the upper half `rs[mid..]` in the new one |
| Engine.CopySlice | BPlusTree.java:125-128 | the copying loops of `splitInternal` produce exactly the slice |
| Engine.AppendEach | BPlusTree.java:197 | appending records one by one gives the concatenation |
| Engine.BPlusTree.constructor | BPlusTree.java:19-21 | a new tree is valid, holds no records, and all counters are 0 |
| Engine.BPlusTree.Search | BPlusTree.java:24-28 | finds a record exactly when the tree holds the id, and returns the record with that id |
| Engine.BPlusTree.Insert | BPlusTree.java:31-42 | refuses a missing record and a duplicate id, leaving the tree untouched; otherwise inserts the record into the ascending record sequence; keeps the tree valid; every new node is counted in `totalSplits`, and every new node but the split leaf's in `parentSplits`; fusion counters unchanged |
| Engine.BPlusTree.InsertIntoLeaf | BPlusTree.java:37 | inserts the record into its leaf; only that leaf may now be one record over the maximum |
| Engine.BPlusTree.SplitLeaf | BPlusTree.java:56-83 | splitting an overfull leaf and propagating to the parent gives a valid tree with the same records; nodes are added, and all but the new leaf count as parent splits |
| Engine.BPlusTree.CutLeaf | BPlusTree.java:57-79 | after the cut the tree awaits only the attachment of the new leaf; it has one node more and the same records |
| Engine.BPlusTree.MoveUpperHalf | BPlusTree.java:57-79 | the new leaf takes the upper half, the old leaf's parent, and its place in the chain; the promoted key is the new leaf's first id |
| Engine.BPlusTree.CountSplit | BPlusTree.java:82 | `totalSplits` grows by one, `parentSplits` too for an internal split or a new root; nothing else changes |
| Engine.BPlusTree.InsertIntoParent | BPlusTree.java:85-107 | attaching the new node to the parent, splitting upwards as needed, gives a well-formed tree within bounds with the same records; each new node is counted, in `totalSplits` and in `parentSplits` |
| Engine.BPlusTree.NewRoot | BPlusTree.java:86-97 | a node without parent gets a new root above it and the new node; one node more, and `totalSplits` and `parentSplits` each grow by one |
| Engine.BPlusTree.GrowRoot | BPlusTree.java:88-94 | the new root holds the key and the two children, which name it as parent |
| Engine.BPlusTree.IntoParent | BPlusTree.java:99-106 | the parent takes the key and the new child after `left`, and is split when it holds 5 separators; every node added is counted in `parentSplits` |
| Engine.BPlusTree.AttachToParent | BPlusTree.java:99-104 | the key goes at `left`'s index among the separators and the new node right after `left`; no node is added |
| Engine.BPlusTree.SplitInternal | BPlusTree.java:109-137 | splitting an overfull internal node and propagating gives a well-formed tree within bounds with the same records; every node added is counted in `parentSplits` |
| Engine.BPlusTree.CutInternal | BPlusTree.java:110-131 | after the cut the tree awaits only the attachment of the new node; the depth of the split node is kept |
| Engine.BPlusTree.MoveUpperChildren | BPlusTree.java:110-131 | the new node takes separators and children after `mid` and becomes their parent; `keys[mid]` is promoted |
| Engine.BPlusTree.Delete | BPlusTree.java:140-162 | succeeds exactly when the tree holds the id; removes it from the record sequence, leaves the tree and the fusion counters untouched when absent, and keeps the tree valid; the split counters are unchanged, `parentFusions` grows by the number of levels the tree lost, and `totalFusions` by the other removed nodes |
| Engine.BPlusTree.RemoveFromLeaf | BPlusTree.java:145-150 | removes the id from its leaf; only that leaf may now be one record short |
| Engine.BPlusTree.RepairAfterRemoval | BPlusTree.java:152-161 | an emptied root leaf is replaced, and a short non-root leaf is repaired; the tree is valid with the same records; `parentFusions` grows by the number of levels lost |
| Engine.BPlusTree.ResetRoot | BPlusTree.java:153-156 | an empty root leaf is replaced by a fresh empty leaf; the height stays 0 |
| Engine.BPlusTree.HandleLeafUnderflow | BPlusTree.java:164-226 | borrowing from the left, else the right, else fusing left, else right, then repairing the parent, gives a valid tree with the same records; `parentFusions` grows by the number of levels lost |
| Engine.BPlusTree.BorrowFromLeftLeaf | BPlusTree.java:175-182 | the borrow from the left sibling gives a valid tree with the same records and the same height |
| Engine.BPlusTree.MoveLastRecord | BPlusTree.java:177-180 | the arena after the borrow is `LeafFromLeft` of the one before |
| Engine.BPlusTree.BorrowFromRightLeaf | BPlusTree.java:185-192 | the borrow from the right sibling gives a valid tree with the same records and the same height |
| Engine.BPlusTree.MoveFirstRecord | BPlusTree.java:186-190 | the arena after the borrow is `LeafFromRight` of the one before |
| Engine.BPlusTree.FuseLeafPair | BPlusTree.java:195-213 | a leaf fusion keeps the records, the root and the height, and takes one separator from the parent, which alone may now be short |
| Engine.BPlusTree.FuseLeafAndRepair | BPlusTree.java:194-225 | fusing the two leaves and then repairing the parent gives a valid tree with the same records; `parentFusions` grows by the number of levels lost |
| Engine.BPlusTree.FuseLeaves | BPlusTree.java:195-213 | the arena after the fusion is `LeafMerge` of the one before, and `totalFusions` grows by one |
| Engine.BPlusTree.RepairParent | BPlusTree.java:215-225 | a root without separators collapses, and a short non-root parent is repaired recursively; the tree is valid with the same records, and `parentFusions` grows by the number of levels lost (also BPlusTree.java:287-295) |
| Engine.BPlusTree.CollapseRootNode | BPlusTree.java:216-222 | the root's only child becomes the root with no parent, and the old root is removed; `parentFusions` grows by one and the height drops by one; the tree is valid with the same records |
| Engine.BPlusTree.HandleInternalUnderflow | BPlusTree.java:228-296 | the same policy for internal nodes gives a valid tree with the same records; `parentFusions` grows by the number of levels lost |
| Engine.BPlusTree.BorrowFromLeftBranch | BPlusTree.java:238-250 | the rotation from the left sibling gives a valid tree with the same records and the same height |
| Engine.BPlusTree.MoveLastChild | BPlusTree.java:240-248 | the arena after the rotation is `BranchShift` of the one before |
| Engine.BPlusTree.BorrowFromRightBranch | BPlusTree.java:253-264 | the rotation from the right sibling gives a valid tree with the same records and the same height |
| Engine.BPlusTree.MoveFirstChild | BPlusTree.java:254-262 | the arena after the rotation is `BranchShift` of the one before |
| Engine.BPlusTree.FuseBranchPair | BPlusTree.java:267-285 | an internal fusion keeps the records, the root and the height; the parent loses a separator and is nearer the root than the short node was, which bounds the upward repair |
| Engine.BPlusTree.FuseBranchAndRepair | BPlusTree.java:266-295 | fusing the two internal nodes and then repairing the parent gives a valid tree with the same records; `parentFusions` grows by the number of levels lost |
| Engine.BPlusTree.FuseBranches | BPlusTree.java:267-285 | the arena after the fusion is `BranchMerge` of the one before, and `totalFusions` grows by one |
| Engine.BPlusTree.ScanFrom | BPlusTree.java:299-314 | the first `count` records from `startId` on, in ascending order |
| Engine.BPlusTree.ComputeDepth | BPlusTree.java:353-362 | the height of the tree plus one |
| Engine.BPlusTree.CountAllRecords | BPlusTree.java:364-372 | the number of records in the tree |
| SrcEngine.BPlusTree.constructor | src/BPlusTree.java:29-32 | a new tree is valid, holds no records, and all counters are 0 |
| SrcEngine.BPlusTree.Search | src/BPlusTree.java:36-41 | a null id finds nothing; otherwise it finds the record exactly when the tree holds the id |
| SrcEngine.BPlusTree.Update | src/BPlusTree.java:65-70 | succeeds exactly when the id is non-null and present; only that record's description changes, the tree is untouched otherwise and no node is added or removed |
| SrcEngine.BPlusTree.Insert | src/BPlusTree.java:45-61 | refuses a null record and a duplicate id, leaving the tree untouched; otherwise inserts into the record sequence and keeps the tree valid; every new node is counted in `totalSplits`, and every new node but the split leaf's in `parentSplits` |
| SrcEngine.BPlusTree.InsertIntoLeaf | src/BPlusTree.java:54 | inserts the record into its leaf; only that leaf may now be one record over the maximum |
| SrcEngine.BPlusTree.SplitLeaf | src/BPlusTree.java:92-118 | splitting an overfull leaf and propagating gives a valid tree with the same records; all new nodes but the new leaf count as parent splits |
| SrcEngine.BPlusTree.CutLeaf | src/BPlusTree.java:93-111 | after the cut the tree awaits only the attachment of the new leaf |
| SrcEngine.BPlusTree.MoveUpperHalf | src/BPlusTree.java:93-111 | the `subList` copies: the new leaf takes the upper half and the old leaf's place after it in the chain |
| SrcEngine.BPlusTree.CountSplit | src/BPlusTree.java:117 | `totalSplits` grows by one, `parentSplits` too for internal splits and new roots |
| SrcEngine.BPlusTree.InsertIntoParent | src/BPlusTree.java:121-150 | attaching the new node, splitting upwards as needed, keeps the tree well-formed with the same records; every node added is counted in `parentSplits` |
| SrcEngine.BPlusTree.NewRoot | src/BPlusTree.java:123-135 | a node without parent gets a new root; one node more, and `totalSplits` and `parentSplits` each grow by one |
| SrcEngine.BPlusTree.GrowRoot | src/BPlusTree.java:124-131 | the new root holds the key and both children, which name it as parent |
| SrcEngine.BPlusTree.IntoParent | src/BPlusTree.java:138-149 | the parent takes the key and the new child, and splits when it holds 5 separators; every node added is counted in `parentSplits` |
| SrcEngine.BPlusTree.AttachToParent | src/BPlusTree.java:138-144 | key at `left`'s index, new child right after `left`; no node is added |
| SrcEngine.BPlusTree.SplitInternal | src/BPlusTree.java:153-176 | splitting an overfull internal node and propagating keeps the tree well-formed with the same records; every node added is counted in `parentSplits` |
| SrcEngine.BPlusTree.CutInternal | src/BPlusTree.java:154-169 | after the cut the tree awaits only the attachment of the new node |
| SrcEngine.BPlusTree.MoveUpperChildren | src/BPlusTree.java:154-169 | the new node takes separators and children after `mid` and becomes their parent |
| SrcEngine.BPlusTree.ScanFrom | src/BPlusTree.java:190-207 | the first `count` records from `startId` on, in ascending order |
| SrcEngine.BPlusTree.ComputeDepth | src/BPlusTree.java:265-274 | the height of the tree plus one |
| SrcEngine.BPlusTree.CountAllRecords | src/BPlusTree.java:276-284 | the number of records in the tree |
| SrcEngine.BPlusTree.Delete | src/BPlusTree.java:287-325 | succeeds exactly when the id is non-null, not blank, present and the deletion is confirmed; it then removes the record, and the tree is untouched otherwise; no node is added or removed |
| SrcEngine.BPlusTree.RemoveFromLeaf | src/BPlusTree.java:317 | the record leaves its leaf and the tree stays valid without rebalancing |
| AltEngine.B_Plus_Tree.constructor | B_Plus_Tree.java:8-11 | a new tree is valid, holds no records, and both counters are 0 |
| AltEngine.B_Plus_Tree.Search | B_Plus_Tree.java:37-43 | finds the record exactly when the tree holds the id |
| AltEngine.B_Plus_Tree.Update | B_Plus_Tree.java:48-59 | succeeds exactly when the id is present; only that record's description changes, and the tree is untouched otherwise |
| AltEngine.B_Plus_Tree.Insert | B_Plus_Tree.java:16-32 | refuses a duplicate id, leaving the tree untouched; otherwise inserts into the record sequence and keeps the tree valid; `leafSplits` grows by one exactly when the tree gained nodes, and `internalSplits` by the number of new nodes other than the split leaf's |
| AltEngine.B_Plus_Tree.SplitIfOverfull | B_Plus_Tree.java:26-29 | an overfull leaf is split, which adds nodes, and counted in `leafSplits`; a leaf within the maximum leaves the tree and `leafSplits` unchanged; every other new node is counted in `internalSplits` |
| AltEngine.B_Plus_Tree.InsertIntoLeaf | B_Plus_Tree.java:24 | inserts the record into its leaf; only that leaf may now be over the maximum |
| AltEngine.B_Plus_Tree.SplitLeaf | B_Plus_Tree.java:85-102 | the split and propagation keep the tree well-formed with the same records, add nodes, and leave `leafSplits` to the caller; all new nodes but the new leaf are counted in `internalSplits` |
| AltEngine.B_Plus_Tree.CutLeaf | B_Plus_Tree.java:86-99 | after the cut the tree awaits only the attachment of the new leaf |
| AltEngine.B_Plus_Tree.MoveUpperHalf | B_Plus_Tree.java:86-99 | the new leaf takes the upper half and its place in the chain, and no parent, which the attachment sets |
| AltEngine.B_Plus_Tree.InsertIntoParent | B_Plus_Tree.java:107-135 | attaching the new node, with the root test `left == root`, keeps the tree well-formed with the same records; every node added is counted in `internalSplits` |
| AltEngine.B_Plus_Tree.NewRoot | B_Plus_Tree.java:109-122 | a new root above the old root and the new node; one node more, and `internalSplits` grows by one |
| AltEngine.B_Plus_Tree.GrowRoot | B_Plus_Tree.java:110-118 | the new root holds the key and both children, which name it as parent |
| AltEngine.B_Plus_Tree.IntoParent | B_Plus_Tree.java:124-134 | the parent takes the key and the new child, and splits when it holds 5 separators; every node added is counted in `internalSplits` |
| AltEngine.B_Plus_Tree.AttachToParent | B_Plus_Tree.java:124-130 | key at `left`'s index, new child right after `left`; no node is added |
| AltEngine.B_Plus_Tree.SplitInternal | B_Plus_Tree.java:140-160 | splitting an overfull internal node and propagating keeps the tree well-formed; every node added is counted in `internalSplits` |
| AltEngine.B_Plus_Tree.CutInternal | B_Plus_Tree.java:142-155 | after the cut the tree awaits only the attachment of the new node |
| AltEngine.B_Plus_Tree.MoveUpperChildren | B_Plus_Tree.java:142-155 | the new node takes separators and children after `mid` and becomes their parent |

## Left out

- Reading and writing the record file (`loadFromFile`, `saveToFile`) is left out: it is I/O. Its
  parsing and padding is not part of the balancing engine.
- Console output (`displayNextTen`, `printStats`, the error and confirmation messages) is left
  out. In `BPlusTree.java` and `src/BPlusTree.java`, `displayNextTen` prints what
  `scanFrom(startID, 10)` returns, and `scanFrom` is modelled.
- `displayNextTen` in `B_Plus_Tree.java` (lines 165-198) is left out: it prints from its own
  loop and has no `scanFrom`. Its scan differs from `scanFrom`. When no id in the found leaf is
  at least `startID`, the start index stays 0 and the whole leaf is printed, followed by the
  next leaves.
- `Main.java`, the interactive menu, is left out, and so is `src/B_Plus_Tree.java`, which is not
  part of this model.
- The yes/no prompt of `delete` in `src/BPlusTree.java` reads the console. It is the parameter
  `confirmed` of `SrcEngine.BPlusTree.Delete`.
- `SrcEngine.BPlusTree.Delete` leaves out the branch for a `deleteRecord` that returns null after
  `getRecord` found the id (src/BPlusTree.java:318-321). That branch cannot be reached, because
  both scan the same list for the same id.
- The `findLeaf` branch of `src/BPlusTree.java` that creates a root when `root` is null
  (src/BPlusTree.java:76-79) is left out. It cannot be reached, because the constructor sets
  `root` and nothing clears it.
- `PartRecord` objects are values. `UpdateDescription` mutates a record object that the caller of
  `search` may still hold. The model does not capture that aliasing: an update replaces the
  record in its leaf.
- `LeafNode.size()` and `toString` are not separate members. `size()` is `|records|`.
- A record with a null id is left out. Ids are strings that are never null, and a missing record
  is `None`. So `insert(null)` is modelled in `Engine` and `SrcEngine`, but a null id inside a
  record is not. `B_Plus_Tree.java` does not check for null and would throw; its engine takes
  plain values.
- The Java `int` counters could wrap around after 2^31 splits. The model counts with `nat`.
- Ids are compared by Unicode code point (`Lex.Less` over Dafny characters). Java's `compareTo`
  compares UTF-16 code units. The two orders agree except when a character at U+10000 or above
  meets a character from U+E000 to U+FFFF at the first difference. There Java puts the
  supplementary character first, because its high surrogate is below U+E000, while the model
  puts it last. Ids with such characters are not modelled faithfully.

Facts about the code that shape the model:

- A separator need not equal the first id of the child after it. When `delete` removes a leaf's
  first record, the separators above that leaf are left unchanged. So the model's invariant is
  the interval rule: separator `i` bounds child `i` from above and child `i + 1` from below.
- The first leaf split leaves `totalSplits` at 2 and `parentSplits` at 1. The leaf split adds 1
  to `totalSplits` (`BPlusTree.java` line 82, `src/BPlusTree.java` line 117). The new root above
  the two leaves adds 1 to both counters (`BPlusTree.java` lines 95-96, `src/BPlusTree.java`
  lines 133-134). In the model, `totalSplits` equals the number of nodes created by splits, and
  `parentSplits` the number of those that are internal nodes.
- Deleting the last record replaces the root leaf: `delete` in `BPlusTree.java` puts a new, empty
  leaf in its place (lines 153-156), and the model does the same.
