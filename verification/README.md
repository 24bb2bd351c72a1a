# Verified models of the on-disk B+ tree and its neighbours

Dafny models of the parts of the repository whose correctness is hard to see by reading them, with
proofs of what they are for. `dafny verify dfyconfig.toml` checks everything.

## The B+ tree

`Bpt.BplusTree` (BplusTree.dfy) is the class `bplus_tree` of `src/common/bpt.cc`: the in-memory meta
block, and the file as a store from offset to typed block (`Internal` or `Leaf`). Reads copy a block
into a local; writes put a block, or only its header, back, in the order of the code. The order is
20, as in the repository.

*The reading of a file.* A file holds a tree when its blocks form levels (BptLevels.dfy): level 0
is the list of the leaves, level `l + 1` a list of internal nodes whose slots, put end to end, list
the nodes of level `l` in order. `BptTree.Inv` says in one place that all leaves have the same
depth, that nodes hold 10 to 20 entries (the root at least two children), that parent, next and prev offsets are
exact on every level whatever the parents, that meta counts the reachable nodes, that blocks lie
below `meta.slot` without overlap, that keys are strictly increasing and bound the subtrees in
half-open ranges, and the *hidden key* invariant: the last, unused key of every internal node off
the right spine equals the separator above it. With it, "the key of slot c separates node c from
node c + 1" holds on every level in the same words, and every operation is a local change of two
neighbouring levels. `BptTree.Sound` says that some such reading exists; it is unique
(`BptTree.Unique`), so the file alone determines the map it holds (`BptPaths.Contents`).

*Operations in progress.* While a split or a merge climbs, the slots of one level are still to be
written; `StructP`, `KeysP`, `PendingIndex`, `PendingDelete` and `PendingKey` describe the tree at
such a moment, and each step of the recursion is a lemma that hands the pending change to the next
level.

*Two versions.* Three places of the deletion code break the tree. The class has a constant
`version`: `AsWritten` follows the code; `Repaired` differs in three lines:

- root collapse also writes parent = 0 into the new root (`src/common/bpt.cc:290-298` leaves the
  offset of the dead root there, so that the next root split would write into that block);
- the left borrow between internal nodes gives the parent's separator to the lent slot
  (`src/common/bpt.cc:383` gives it to the borrower's first slot, which loses its own separator);
- the merge of a last child passes the first key of its left neighbour upwards, as `remove` does
  for leaves (`src/common/bpt.cc:318-343` passes the node's own first key, which deletes the
  parent's last slot, leaves a stale last key, and touches slot `n` of a full parent).

For `Repaired`, `Remove` deletes exactly the given key and keeps `Inv`, whatever the height. For
`AsWritten` it does so *if and only if* `RemoveDoomed` does not hold of the tree and the key, a
condition read off the tree before the call: a record leaves a leaf that has to be merged, and the
deletion above it (`Cascade`) meets one of the three branches - except for a last-child merge under
a parent that is rightmost on its level and not full, where the stale key is harmless. When it holds,
no reading of the file is a tree any more, or a slot has been written past the end of a node.
BptWitness.dfy builds files for each of the three cases, and `BptRuns.RemovalThatFails` runs `Remove` on them.

*What searches still find.* Whatever a removal does as written, it leaves a file whose blocks are linked like
those of a tree and whose keys are in order within every level, two of them perhaps equal (`BptTwin.Readable`). On
every such file `Search` answers 0 exactly if the key is found (`BptAnswers.Found`: the slots lead to the leaf that
holds it), then with the right value, and `Update` changes exactly what is found. `RemoveLoses`, again a condition on
the tree before the call, tells exactly when some bound key is not found any more: on the way up, a left borrow, or a
slot put behind a stale last key by a right borrow or by a merge with the right sibling. If it does not hold, there is
a well-formed file with the same leaves beside the one left (`Searchable`), which differs from it in last keys and
parent offsets only; `Search`, `Update` and `SearchRange` are as right there as in a tree. So, as written, the collapse
of the root alone and a stale key alone leave every search right, and a left borrow always hides a key.
`RemoveOverruns` tells exactly when a removal writes past the end of a node. That write lies outside the file; what it
does to the program is not modelled.

BptGuard.dfy evaluates the three conditions by reading the file, so that a caller can ask first. `BptRuns.Replay`
does, and is right about every run of operations up to the first doomed removal; if that one hides nothing and stays
within its nodes, the run goes on as long as it looks up and updates. `BptRuns.GrowAndShrink` shows that doomed
removals cannot be avoided: as written, every client who inserts more than 400 keys and removes all but fewer than
200 meets one, in whatever order, because only a collapse of the root makes a tree lower.

`search_range` is exact in its values; its "next" flag is characterised exactly: it misses further
records just when the page ends where a leaf ends (`BptRuns.PageThatHidesTheRest` is an instance).

Every assert of the code is an assert at the same place of the model, and is proved.

## The other models

- **Chained hash table** (HashChains.dfy, HashTable.dfy): `hash.c` in its pointer-valued form, for
  any hash function. The outcome of every `malloc` is a parameter. The table refines a finite map,
  call by call and over whole runs; growth, failed growth and the counters are covered. It is proved
  exactly when the load stays below the load factor: a step in the list of primes makes room, except
  the one from 1 to 3 buckets when the load factor is at most a third.
- **Scheduler** (Schedule.dfy): the chain of `sched_thread.c` as linked objects re-linked in
  place. The clock, the time bases and the continue flag are parameters. `sched_add_entries` leaves
  entries waiting whose interval it refuses, and the thread merges them: what a pass does to them is
  part of the contracts, and with an interval of at most 0 they stay due for ever
  (`Schedule.RefusedButCalled`). The comparison of two times is cut off to `int`, as in the code: a chain is
  sorted if its times lie less than 2^31 seconds apart, which a run keeps as long as the clock does not
  go back (`Schedule.RunPasses`). Nor does the code check ids when it starts: deletion and merging are
  stated for any list, and as a finite map for entries with different ids.
- **Producer threads** (Drain.dfy): `WaitProducer` as interleaved atomic steps of any number of
  threads on a shared queue and counter. Every interleaving ends exactly if the limit does not exceed
  the number of messages; above that, a thread that runs alone waits for ever, although some other
  interleaving lets threads leave while the limit stays below messages plus threads and there are
  messages at all. Messages may stay behind exactly if there are more than the limit and more than
  threads.
- **Base64** (Base64Spec.dfy, Base64.dfy, Base64Laws.dfy, Base64Tools.dfy): both codecs against
  section 4 of RFC 4648, which is stated bit by bit. The round trips are those of the methods: what
  the encoder wrote is given to the decoder. The length given in advance is exact for all sources
  only if whole groups fill the lines; otherwise it is too small or too large for some.
- **Connection pool** (Pool.dfy): the idle list of one server with its counters.

A definition called "folded" is one whose meaning shows only where a lemma mentions its `Unfold`;
this keeps proof obligations small and has no other purpose.

## Model

| member | source | states |
|---|---|---|
| KeyOrder.KeyCmp | src/common/bpt_predefined.h:23-26 | the difference of the lengths if there is one, else the comparison of the bytes; a total order, that of ranks in the natural numbers, in which only equal keys compare equal |
| KeyOrder.CompareRanks | src/common/bpt_predefined.h:23-26 | length first, then the first differing byte decides; ranks tell keys apart |
| KeyOrder.FirstByteDecides | src/common/bpt_predefined.h:23-26 | of two keys of one length the one smaller in the first differing byte comes first |
| BptSearch.FindSlot | src/common/bpt.cc:29-31 | upper_bound over all slots but the last returns the partition point |
| BptSearch.FindLowerSlot | src/common/bpt.cc:372-374 | lower_bound over all slots but the last returns the partition point |
| BptSearch.FindRec | src/common/bpt.cc:32-34 | lower_bound over the records of a leaf |
| BptSearch.FindUpperRec | src/common/bpt.cc:107-108 | upper_bound over the records of a leaf |
| BptSearch.StepDown | src/common/bpt.cc:592-606 | because of hidden keys, the slot found inside the right node is the right slot among all slots of its level |
| BptSearch.LeafSides | src/common/bpt.cc:592-615 | only the leaf where the search ends can hold the key: leaves to its left hold smaller keys, leaves to its right larger ones |
| BptTree.LevelsDetermined | src/common/bpt.cc:36-54 | two readings of one file as a tree agree on every level |
| BptTree.Unique | src/common/bpt.cc:36-54 | a file has at most one reading as a tree |
| BptTree.WrongKeys | src/common/bpt.cc:377-390 | a file whose links are right but whose keys are not holds no tree under any reading |
| BptTree.WrongRoot | src/common/bpt.cc:290-298 | a file whose root block names a parent holds no tree under any reading |
| BptPaths.ContentsUnique | src/common/bpt.cc:36-54 | the stored blocks alone determine the map |
| BptPaths.LeafDecides | src/common/bpt.cc:56-71 | all records of the leaf chain are sorted, and a key is bound exactly if the leaf of its search holds it |
| BptPaths.LowerBoundKey | src/common/bpt.cc:61-67 | the record found in the leaf has the smallest bound key not below the one searched for, over the whole tree |
| BptEmpty.EmptyTree | src/common/bpt.cc:649-674 | the file of init_from_empty holds a tree with no bindings |
| BptChain.ChainEnumerates | src/common/bpt.cc:617-647 | following next from meta.leaf_offset lists every entry once in key order, ends after leaf_node_num leaves, and prev retraces it |
| BptChain.LogarithmicHeight | src/common/bpt.cc:592-615 | a tree of height h >= 2 holds between 2 * 10^h and 20^(h + 1) entries |
| BptChain.SmallTree | src/common/bpt.cc:592-615 | more than 400 entries need a height of at least 2, and a tree of such a height holds at least 200 |
| BptRange.LowerInTree | src/common/bpt.cc:79-94 | the lower bound of a key in its leaf is its lower bound among all records |
| BptRange.UpperInTree | src/common/bpt.cc:103-110 | the upper bound of a key in its leaf is its upper bound among all records |
| BptRange.CopyValues | src/common/bpt.cc:95-98 | the copy loop writes exactly the next values of the leaf that fit and leaves the rest of the buffer alone |
| BptInsertSteps.KeysSplit | src/common/bpt.cc:521-547 | the middle key of an internal split separates the halves on the level above, mirrored by the left half's last key |
| BptInsertSteps.SplitLeft | src/common/bpt.cc:521-547 | cutting a full node and inserting into the left half gives the same slots as inserting first |
| BptInsertSteps.SplitRight | src/common/bpt.cc:521-547 | the same for the right half, with the key's place in it |
| BptLeafSplit.SplitLeafDone | src/common/bpt.cc:214-245 | after a leaf split exactly one index pair is pending on the level above |
| BptLeafSplit.InsertIntoLeaf | src/common/bpt.cc:246-249 | inserting into a leaf with room keeps the tree and adds one binding |
| BptIndexInsert.IndexSplitDone | src/common/bpt.cc:515-553 | after an internal split the middle pair is pending one level higher and nothing below changed |
| BptSplitSteps.NewRoot | src/common/bpt.cc:489-510 | a pair pending above the root makes a tree one level higher |
| BptIndexDelete.AbsorbDelete | src/common/bpt.cc:280-287 | a node with enough slots absorbs the deletion; the file holds a tree exactly if the pending keys were right |
| BptBorrow.BorrowRightDone | src/common/bpt.cc:368-376 | a right borrow restores the tree, or proves the file broken if a key was broken before |
| BptBorrow.BorrowLeftDone | src/common/bpt.cc:377-390 | a left borrow restores the tree when repaired; as written it always leaves two equal separators, and no tree |
| BptMerge.MergeDone | src/common/bpt.cc:318-343 | a merge hands the deletion to the parent; a stale key breaks the keys unless the merged node is the last of its level |
| BptMerge.CollapseDone | src/common/bpt.cc:290-298 | taking off a root with one child, with the repair, gives a tree one level lower |
| BptRemoveFacts.RightPlace | src/common/bpt.cc:372-375 | lower_bound of the borrower's last key finds the borrower's own slot |
| BptRemoveFacts.SeparatorPlace | src/common/bpt.cc:381-383 | upper_bound of a node's separator finds the node's own slot in its parent |
| BptLeafRemove.AbsorbRemove | src/common/bpt.cc:147-150 | a leaf with records to spare loses one, and the map exactly its binding |
| BptKeyChange.LeafShiftDone | src/common/bpt.cc:404-441 | moving a record between neighbour leaves, even under different parents, leaves exactly one separator to change |
| BptKeyChange.KeyStep | src/common/bpt.cc:443-457 | changing one slot either finishes, or leaves the same change pending for the parent, when the slot is the last |
| BptLeafMerge.LeafMergeDone | src/common/bpt.cc:163-192 | merging two leaves of one parent leaves exactly one slot of the parent to delete |
| BptLeafMerge.LeafKeyPlace | src/common/bpt.cc:169-192 | the first key of a leaf leads to the leaf's own slot in its parent |
| BptLeafMerge.DoomedAt | src/common/bpt.cc:126-201 | the condition under which the code as written fails can be read off the leaf, its neighbours and the path above it |
| BptWitness.SampleTree | src/common/bpt.h:19-66 | a family of concrete files, by width of the first node and number of nodes, are trees |
| BptWitness.CollapseFails | src/common/bpt.cc:290-298 | a tree of 20 leaves on which a removal collapses the root and fails as written |
| BptWitness.LeftBorrowFails | src/common/bpt.cc:377-390 | trees on which a removal borrows from the left and fails as written |
| BptWitness.LastMergeFails | src/common/bpt.cc:318-343 | trees with a full root on which a removal merges the last child and fails as written |
| BptWitness.CollapseKeeps | src/common/bpt.cc:290-298 | the collapse in that tree loses no record |
| BptWitness.LeftBorrowHides | src/common/bpt.cc:377-390 | the left borrow in those trees loses one |
| BptWitness.LastMergeKeeps | src/common/bpt.cc:318-343 | the merge of the last child in those trees loses none, but overruns the root |
| BptLookup.TwoEqualHide | src/common/bpt.cc:592-615 | a node whose first two keys are equal hides the records below its second child |
| BptLoss.BorrowLeftLoses | src/common/bpt.cc:377-390 | so the two equal keys of a left borrow as written hide a record |
| BptLoss.BorrowRightTracked | src/common/bpt.cc:368-376 | a slot put behind a stale last key hides a record; otherwise a right borrow leaves the keys that searches read right |
| BptLoss.MergeNextTracked | src/common/bpt.cc:329-343 | the same for a merge with the right sibling |
| BptLoss.MergePrevTracked | src/common/bpt.cc:318-328 | a merge with the left sibling hides nothing, but passes up a stale key, which is not above all records on its left |
| BptTwin.TwinStruct | src/common/bpt.cc:592-606 | with only the last keys exchanged the blocks still form the same levels |
| BptTwin.OutcomeMeans | src/common/bpt.cc:126-201 | the file left is linked and in order, and searchable exactly if no record is hidden |
| BptTwin.RemoveLosesAt | src/common/bpt.cc:126-201 | the conditions under which a record gets hidden or a node overrun can be read off the leaf, its neighbours and the path above it |
| BptOrder.BorrowLeftOrdered | src/common/bpt.cc:377-390 | a left borrow as written keeps all levels in order, with the separator twice |
| BptOrder.MergeSorted | src/common/bpt.cc:318-343 | a merge keeps the level in strict order, whether the slot that goes is the right one or the stale one |
| BptAnswers.LeadsUnique | src/common/bpt.cc:592-615 | the slots lead to one node of a level only |
| BptAnswers.HiddenKeys | src/common/bpt.cc:56-71 | some record lies off the path of its key exactly if some bound key is not found |
| BptReads.UpdateKeeps | src/common/bpt.cc:254-272 | an update keeps the file well formed, searchable or readable, and changes one binding |
| BptAnswers.LeadsReach | src/common/bpt.cc:592-615 | where a search ends, told by the slots it reads, is where the ranges of the keys say |
| Bpt.BplusTree.constructor | src/common/bpt.cc:36-54 | opening a file that holds a tree keeps its contents; otherwise the tree starts empty |
| Bpt.BplusTree.InitFromEmpty | src/common/bpt.cc:649-674 | writes an empty well-formed tree |
| Bpt.BplusTree.Alloc | src/common/bpt.h:167-187 | hands out the next slot and counts the node |
| Bpt.BplusTree.NodeCreate | src/common/bpt.cc:617-633 | links a new right neighbour, fixes the old neighbour's prev by a header write, stores meta |
| Bpt.BplusTree.NodeRemove | src/common/bpt.cc:635-647 | unlinks the right neighbour, fixes the next node's prev by a header write, stores meta |
| Bpt.BplusTree.ResetIndexChildrenParent | src/common/bpt.cc:576-590 | exactly the children's parent fields change |
| Bpt.BplusTree.SearchIndex | src/common/bpt.cc:592-606 | ends at the lowest internal node whose range holds the key, after height - 1 block reads |
| Bpt.BplusTree.SearchLeafFrom | src/common/bpt.cc:608-615 | ends at the leaf whose range holds the key |
| Bpt.BplusTree.Search | src/common/bpt.cc:56-71 | 0 with the value iff the key is found, on every file that a removal may leave; in a well-formed file, and in any whose searches come to the right leaves, iff it is bound, and a positive answer carries the value of the next larger key and, if the lengths differ, their difference; -1 means that the key's leaf has none; height + 1 block reads |
| Bpt.BplusTree.CopyLeaf | src/common/bpt.cc:86-101 | one round of the walk copies the records of its leaf from the left bound on, as many as fit |
| Bpt.BplusTree.CopyLastLeaf | src/common/bpt.cc:103-111 | the last leaf contributes exactly its records between the bounds, as many as fit |
| Bpt.BplusTree.SearchRange | src/common/bpt.cc:73-124 | writes exactly the first min(max, m) values in key order; the next flag and the new left bound are given exactly, with the missed case at a leaf's end; an empty page writes nothing; well formed or not, if only searches come to the right leaves |
| Bpt.BplusTree.Insert | src/common/bpt.cc:203-252 | returns 1 and changes nothing iff bound, else binds; the tree stays well formed and leaf_offset is constant |
| Bpt.BplusTree.SplitRecs | src/common/bpt.cc:221-237 | both halves of a leaf split keep their minimum, have the sizes the code gives them, and together hold the records with the new one |
| Bpt.BplusTree.SplitSlots | src/common/bpt.cc:521-547 | both halves of an internal split keep their minimum and have the sizes the code gives them, and the middle key is the left half's last |
| Bpt.BplusTree.InsertKeyToIndexNoSplit | src/common/bpt.cc:560-574 | the pair goes to its place and the child there moves one slot right |
| Bpt.BplusTree.SplitIndexNode | src/common/bpt.cc:515-553 | hands the middle key to the parent |
| Bpt.BplusTree.InsertKeyToIndex | src/common/bpt.cc:486-558 | a pending index pair becomes a well-formed tree, through any number of splits |
| Bpt.BplusTree.InsertRoot | src/common/bpt.cc:489-510 | a new root over two nodes |
| Bpt.BplusTree.Update | src/common/bpt.cc:254-272 | changes exactly one binding iff the key is found, on every file that a removal may leave, and keeps what held of the file; otherwise nothing changes, and the answer is -1 iff the key's leaf ends below it, else 1 |
| Bpt.BplusTree.Remove | src/common/bpt.cc:126-201 | -1 and no change iff unbound, else deletes exactly the key; repaired, it always keeps the tree; as written, iff the removal is not doomed; as written, the file left is linked and in order, some bound key is not found in it iff RemoveLoses held before, and a node was overrun iff RemoveOverruns did; a well-formed file keeps its height |
| Bpt.BplusTree.RemoveFromIndex | src/common/bpt.cc:274-350 | repaired, restores the tree through any cascade; as written, iff the deletion is not doomed and nothing was broken before; what searches still find is decided by the nodes above |
| Bpt.BplusTree.Rebalance | src/common/bpt.cc:300-349 | the choice between left borrow, right borrow and the two merges |
| Bpt.BplusTree.BorrowSlot | src/common/bpt.cc:304-311 | left first, then right; as written a left borrow leaves no tree and a hidden record, a right borrow hides one iff the last key was stale |
| Bpt.BplusTree.BorrowFromRight | src/common/bpt.cc:352-402 | what a right borrow writes, and when it happens |
| Bpt.BplusTree.BorrowFromLeft | src/common/bpt.cc:352-402 | what a left borrow writes in either version, and when it happens |
| Bpt.BplusTree.MergeIndexNodes | src/common/bpt.cc:465-473 | children of the right node get the left node as parent, its slots are appended, and it is unlinked |
| Bpt.BplusTree.RemoveSlot | src/common/bpt.cc:280-287 | the slot found goes and its child replaces its right neighbour's; past a full node's end this writes out of bounds |
| Bpt.BplusTree.CollapseRoot | src/common/bpt.cc:290-298 | repaired, a tree one level lower; as written, no tree, and if no key was wrong before, only because of the parent offset of the new root |
| Bpt.BplusTree.MergeNodes | src/common/bpt.cc:318-343 | two siblings become one node, and exactly one slot of their parent is pending to go |
| Bpt.BplusTree.MergeWithPrev | src/common/bpt.cc:318-328 | a merge into the left sibling, and exactly when it goes well as written |
| Bpt.BplusTree.MergeWithNext | src/common/bpt.cc:329-343 | a merge with the right sibling, which goes well if the deletion above does |
| Bpt.BplusTree.ChangeParentChild | src/common/bpt.cc:443-457 | on a path upwards from the given parent, each block takes the key in the slot of the child below: in its last slot, except for the block at which the path ends, which has a slot further right; no other block changes, and the tree is restored |
| Bpt.BplusTree.ShiftRecords | src/common/bpt.cc:404-441 | with the index key between two leaves rewritten and the leaves stored, the tree is whole and the map has lost exactly the removed key |
| Bpt.BplusTree.BorrowRecordLeft | src/common/bpt.cc:404-441 | borrows iff the left neighbour can spare a record, and then the map loses exactly the removed key |
| Bpt.BplusTree.BorrowRecordRight | src/common/bpt.cc:404-441 | the same for the right neighbour |
| Bpt.BplusTree.MergeLeafs | src/common/bpt.cc:459-463 | the left leaf takes the records of the right one, which is unlinked |
| Bpt.BplusTree.RemoveRecord | src/common/bpt.cc:144-201 | one record leaves its leaf, and the leaf and the path above it decide the outcome |
| Bpt.BplusTree.RebalanceLeaf | src/common/bpt.cc:152-195 | left borrow, right borrow or merge of a leaf; the outcome as written is decided by the path above it |
| BptRuns.Replay | src/common/bpt.cc:36-272 | any run of searches, ranges, insertions, updates, removals and reopenings answers like a finite map and keeps a well-formed file; the leaves at each answer tell which searches that miss give the next larger key, and when a page says that there is more; as written, up to the first doomed removal, and on from there through searches, ranges and updates if that removal hides no key and overruns no node |
| BptGuard.CascadeFrom | src/common/bpt.cc:274-350 | decides from the blocks on the path upwards whether a deletion goes wrong as written |
| BptGuard.LosesFrom | src/common/bpt.cc:274-350 | decides from the blocks on the path upwards whether a deletion hides a record |
| BptGuard.OverrunsFrom | src/common/bpt.cc:274-350 | decides from the blocks on the path upwards whether a deletion writes past the end of a node |
| BptGuard.RemovalLoses | src/common/bpt.cc:126-201 | decides before the call, by reading the file, whether some bound key will not be found after remove as written |
| BptGuard.RemovalOverruns | src/common/bpt.cc:126-201 | decides before the call whether remove as written will write past the end of a node |
| BptGuard.RemovalIsDoomed | src/common/bpt.cc:126-201 | decides before the call, by reading the file, whether remove would spoil it as written |
| BptRuns.RangeKeys | src/common/bpt.cc:73-124 | the records between the two bounds are the bindings of exactly the keys in the range |
| BptRuns.RemovalThatFails | src/common/bpt.cc:126-201 | one call of remove on a well-formed file leaves no tree, or writes out of bounds, in each of the three cases; the file left is linked and in order; some bound key is not found in it in the case of the left borrow only, and a node is overrun in the case of the last child only |
| BptRuns.SearchThatStillWorks | src/common/bpt.cc:56-71 | after a collapse of the root, search answers right for every key; after the merge of a last child too, as far as the file goes |
| BptRuns.SearchThatGoesWrong | src/common/bpt.cc:56-71 | after the left borrow, a client who searches for all bound keys comes to one for which search does not return 0 |
| BptRuns.GrowAndShrink | src/common/bpt.cc:126-252 | as written, inserting more than 400 keys and removing all but fewer than 200, in any order, comes to a removal that leaves no tree or writes out of bounds; the map is then that of the keys not yet removed |
| BptRuns.Shrink | src/common/bpt.cc:126-201 | the same for any tree of more than 400 entries: removals that go well keep the height, and a tree of that height holds at least 200 |
| BptRuns.PageThatHidesTheRest | src/common/bpt.cc:113-121 | a page of ten out of sixteen records that is reported as the last |
| HashChains.WalkOrder | src/third_part/fastdfs/common/hash.c:650-677 | the nodes in walk order have distinct keys and are exactly the bindings, as many as the map has |
| HashChains.SlotIs | src/third_part/fastdfs/common/hash.c:529-530 | the bucket of a key is the remainder of its hash code, taken as unsigned 32-bit, by the capacity |
| HashChains.OneBucket | src/third_part/fastdfs/common/hash.c:529-530 | a code has one such remainder |
| HashChains.WalkByBucket | src/third_part/fastdfs/common/hash.c:650-677 | along a walk these remainders do not decrease |
| HashChains.PushRepresents | src/third_part/fastdfs/common/hash.c:154-158 | a node pushed to the front of its bucket adds exactly its binding |
| HashChains.RemoveRepresents | src/third_part/fastdfs/common/hash.c:160-173 | a node taken out of its chain removes exactly its binding |
| HashTable.Run | src/third_part/fastdfs/common/hash.c:498-648 | any run of insertions, deletions and lookups acts like a finite map with its number of items, its prime and its bytes, which decide every answer, while the largest prime has room for the keys; without a byte limit and with memory for buckets the load stays below the load factor |
| HashTable.CallKeeps | src/third_part/fastdfs/common/hash.c:518-620 | without a byte limit and with memory for buckets every call keeps the load below the load factor |
| HashTable.PrimesAreCapacities | src/third_part/fastdfs/common/hash.c:15-46 | the primes increase, by at least ten from the second on, and from the third to the last but one each is twice the one before and less than 60 more |
| HashTable.NextPrimeIsLight | src/third_part/fastdfs/common/hash.c:613-617 | one step in the list of primes makes room for one more item below the load factor, always from the second prime on, and from the first exactly if three buckets have room for one item |
| HashTable.FirstStep | src/third_part/fastdfs/common/hash.c:15-46 | three buckets have room for one item exactly if the load factor exceeds a third |
| HashTable.OneBucketFails | src/third_part/fastdfs/common/hash.c:72-115 | a table of capacity 0 with a load factor of at most a third is not below it after its first key |
| HashTable.HashArray.AllocBuckets | src/third_part/fastdfs/common/hash.c:50-70 | ENOSPC and ENOMEM exactly, nothing changed then; else empty buckets and the bytes accounted for |
| HashTable.HashArray.Init | src/third_part/fastdfs/common/hash.c:72-115 | the smallest prime above the capacity asked for, the default load factor, an empty table; the error cases exactly |
| HashTable.HashArray.FindInChain | src/third_part/fastdfs/common/hash.c:467-485 | the first node with the key, or the end of the chain |
| HashTable.HashArray.Find | src/third_part/fastdfs/common/hash.c:498-516 | the value of the key, or NULL |
| HashTable.HashArray.Insert | src/third_part/fastdfs/common/hash.c:518-620 | refines a map update with exact result codes; a new node hangs at the front of its bucket, a known key only gets its value; the byte limit is kept; the table grows by one prime exactly if it is too full and the larger buckets are granted, and stays below its load factor exactly if the old or the larger buckets have room |
| HashTable.HashArray.AddNode | src/third_part/fastdfs/common/hash.c:589-620 | a new node is hung at the front of its bucket and adds its binding; growth, the buckets and the load afterwards are given exactly |
| HashTable.HashArray.Rehash | src/third_part/fastdfs/common/hash.c:310-355 | keeps every binding and count whether it succeeds or is rolled back, and says when it does; the new buckets are those of hanging all nodes in walk order |
| HashTable.HashArray.MoveAll | src/third_part/fastdfs/common/hash.c:264-308 | after the loop every node hangs in its new bucket, latest moved first, and item_count and bytes are those of before |
| HashTable.HashArray.Delete | src/third_part/fastdfs/common/hash.c:622-648 | takes exactly the node of the key out of its chain, or returns ENOENT and changes nothing; the counters follow |
| HashTable.HashArray.Walk | src/third_part/fastdfs/common/hash.c:650-677 | visits each node once, bucket by bucket in the order of the remainders of the hash codes, with consecutive indices, and stops at the first non-zero answer |
| Schedule.FirstCall | src/third_part/fastdfs/common/sched_thread.c:55-90 | the first call lies in (now, now + interval] and a whole number of intervals after the base |
| Schedule.FirstCallUnique | src/third_part/fastdfs/common/sched_thread.c:85-90 | no other time does |
| Schedule.FirstMeans | src/third_part/fastdfs/common/sched_thread.c:55-90 | what a first call has to be: an interval from now without a time base, else in (now, now + interval] and a whole number of intervals after the base, which is one time only |
| Schedule.InitEntries | src/third_part/fastdfs/common/sched_thread.c:30-106 | EINVAL iff an interval is not positive; every entry before the first such gets a first call as it has to be, and no other is set |
| Schedule.ScheduleContext.Start | src/third_part/fastdfs/common/sched_thread.c:277-282 | EINVAL iff an interval is not positive, else every entry gets a first call as it has to be and the chain is made; ids are not looked at |
| Schedule.AddEntries | src/third_part/fastdfs/common/sched_thread.c:386-440 | the entries are copied to the waiting array, with their first calls as they have to be, and stay there even if the answer is EINVAL |
| Schedule.ScheduleContext.MakeChain | src/third_part/fastdfs/common/sched_thread.c:108-131 | the chain is an acyclic permutation of the entries with the right head and tail, sorted if no two times lie 2^31 seconds apart |
| Schedule.CompareRight | src/third_part/fastdfs/common/sched_thread.c:24-28 | the difference cut off to int has the right sign exactly for times less than 2^31 seconds apart, up to 2^32 |
| Schedule.ScheduleContext.CheckWaiting | src/third_part/fastdfs/common/sched_thread.c:133-260 | the first entry with the id goes, each waiting one replaces the first with its id or is added; any intervals and ids; different ids stay different and are merged like a finite map; the new chain is complete, and sorted as far as the comparison can tell; result codes exactly |
| Schedule.UpdatedById | src/third_part/fastdfs/common/sched_thread.c:133-260 | on entries with different ids, deletion and merging are those of a finite map, later entries winning |
| Schedule.ScheduleContext.RunDue | src/third_part/fastdfs/common/sched_thread.c:316-327 | calls a prefix of the chain once each and leaves the rest alone |
| Schedule.ScheduleContext.Relink | src/third_part/fastdfs/common/sched_thread.c:343-373 | hangs one entry into the sorted chain in place: at the end if it is not earlier than the last, else before the first entry that is not earlier |
| Schedule.ScheduleContext.RelinkExecuted | src/third_part/fastdfs/common/sched_thread.c:341-374 | re-linking the executed prefix gives a sorted chain of the same entries |
| Schedule.ScheduleContext.Pass | src/third_part/fastdfs/common/sched_thread.c:316-374 | every entry is called at most once and only if due, whatever the order of the chain, and the chain is complete again; an uninterrupted pass over a sorted chain calls all that are due, and afterwards an entry is due exactly if it was and its interval is not positive; the thread sleeps exactly if there is none; the chain is then sorted again if the times are near, as they are when intervals are positive |
| Schedule.RunPasses | src/third_part/fastdfs/common/sched_thread.c:284-384 | in a run from sched_start on whose clock does not go back, no comparison is cut off: after every complete pass the chain is sorted and no entry is due; the calls of every entry are those of its own beat, whatever the other entries do |
| Schedule.FirstBeat | src/third_part/fastdfs/common/sched_thread.c:316-327 | an entry is first called in the first pass at or after the time set |
| Schedule.NextBeat | src/third_part/fastdfs/common/sched_thread.c:316-327 | an entry called at some time is called again in the first pass an interval or more later, and in none before |
| Schedule.RefusedButCalled | src/third_part/fastdfs/common/sched_thread.c:416-440 | a refused entry is merged, called in every pass, and due again after each |
| Drain.InvStep | src/jobschedule/ProducerCli.cc:231-252 | every step of every thread keeps the accounts of queue, counter and threads |
| Drain.EmptyMeansExit | src/jobschedule/ProducerCli.cc:231-252 | an empty queue implies that the exit test is true |
| Drain.CounterBound | src/jobschedule/ProducerCli.cc:231-252 | the counter never exceeds the number of messages plus threads minus one |
| Drain.DrainedAtTheEnd | src/jobschedule/ProducerCli.cc:212-252 | once all threads have left, every message was taken by exactly one thread, in queue order |
| Drain.EveryRunEnds | src/jobschedule/ProducerCli.cc:231-252 | the steps of all interleavings are bounded exactly if the limit does not exceed the number of messages; otherwise a thread that runs alone never leaves |
| Drain.WhenSomeoneLeaves | src/jobschedule/ProducerCli.cc:231-252 | some interleaving lets a thread leave exactly if the limit is at most messages plus threads minus one (0 for an empty queue) |
| Drain.WhenMessagesStay | src/jobschedule/ProducerCli.cc:212-252 | some interleaving ends with messages in the queue exactly if there are more than the limit and more than threads |
| Drain.Progress | src/jobschedule/ProducerCli.cc:231-252 | with a limit of at most the number of messages, every step of a thread that has not left decreases a measure |
| Drain.LeftStays | src/jobschedule/ProducerCli.cc:249-250 | a thread that has left changes nothing, so that a schedule may pass it over |
| Drain.MovesAreBounded | src/jobschedule/ProducerCli.cc:231-252 | with a limit of at most the number of messages, the steps of threads that have not left are at most five for every message and for every thread but one, and three for every thread |
| Drain.ConcurrentQueue.Push | src/common/mq.h:30-36 | appends under the lock |
| Drain.ConcurrentQueue.TryPop | src/common/mq.h:60-74 | takes the first element, or reports an empty queue |
| Drain.ProducerCli.constructor | src/jobschedule/ProducerCli.cc:191-229 | the queue holds the volumes and all threads stand at the start of their loop |
| Drain.ProducerCli.Step | src/jobschedule/ProducerCli.cc:231-252 | one atomic step is one transition of the protocol |
| Drain.ProducerCli.Run | src/jobschedule/ProducerCli.cc:212-252 | for every schedule: the state is the one after all its steps, and the steps are counted that a thread makes before it has left; so accounts, counter bound, a bound on the number of steps, and a drained queue at the end |
| Base64Spec.SextetsCarryTheBits | src/common/base64.c:193-209 | the sextets of a byte string are its bits, filled up with zeros |
| Base64Spec.BytesOfSextets | src/common/base64.c:309-392 | regrouping the sextets gives back the bytes |
| Base64.InitEx | src/common/base64.c:55-95 | the letters and digits of Table 1 of RFC 4648 in their order, then the two chosen characters; the two tables are inverse to each other exactly if the three chosen characters are no letters or digits and differ, and all other characters are ignored |
| Base64.Init | src/common/base64.h:43-44 | with plus, slash and the equals sign the tables are those of the standard alphabet |
| Base64.EncodeEx | src/common/base64.c:126-255 | writes the text of the source, with lines, padded or cut off |
| Base64.Decode | src/common/base64.c:309-392 | reads the values of all characters that are not ignored; if they are a multiple of four, writes their bytes and reports that many less one for every pad, else the length is 0 |
| Base64.DecodeAuto | src/common/base64.c:257-302 | decodes the text filled up with pads to a multiple of four characters; length 0 if the copy cannot be allocated |
| Base64Laws.RoundTrip | src/common/base64.c:97-392 | what decode may return for the padded text of a byte string is that string, for every line length and separator outside the alphabet |
| Base64Laws.EncodeThenDecode | src/common/base64.c:126-392 | calling the encoder and then the decoder gives the bytes back, with their length |
| Base64Laws.RoundTripAuto | src/common/base64.c:257-302 | for unpadded text decode_auto returns the bytes exactly if the separators of all lines together are a multiple of four characters |
| Base64Laws.EncodeThenDecodeAuto | src/common/base64.c:126-302 | calling the encoder without padding and then decode_auto: the same condition, which always holds without line breaks |
| Base64Laws.EncodeLengthIsExact | src/common/base64.c:97-117 | the length given in advance is that of the padded text, for every source, exactly if the line length is a multiple of four and not negative, or the separator is empty |
| Base64Laws.TooShort | src/common/base64.c:97-117 | lines of five or more characters that whole groups do not fill: one group more than four lines hold gives a longer text than announced |
| Base64Laws.TwoLinesFail | src/common/base64.c:257-302 | two lines with a separator that is no multiple of four characters: decode_auto does not give the bytes back |
| Base64Laws.EncodeLengthIs | src/common/base64.c:97-117 | the length given in advance is four characters a group of three bytes and one separator a line end, as many as full lines come before the last character; with a line length of -1 one separator for no characters at all |
| Base64Tools.BastEncode | src/common/tools.cc:37-88 | writes exactly what the other codec writes with the standard alphabet, padding and no lines |
| Base64Tools.FooBar | src/common/tools.cc:37-88 | examples of section 10 of RFC 4648: no, two and one bytes left over, character by character |
| Base64Tools.BastDecode | src/common/tools.cc:89-117 | writes the bytes of the letters before the first other character, although the accumulator wraps around; tells when that character indexes outside the table |
| Base64Tools.LowBits | src/common/tools.cc:104-112 | the wrap-around does not reach the bits that are written |
| Base64Tools.BastRoundTrip | src/common/tools.cc:37-117 | the letters of an encoded text are read up to its end or its first pad, and are the bytes |
| Base64Tools.BastEncodeThenDecode | src/common/tools.cc:37-117 | calling the encoder and then the decoder gives back every byte string |
| Pool.ConnectionManager.Get | src/third_part/fastdfs/common/connection_pool.c:205-298 | hands out the head iff it is young enough, else closes the whole list; limit and memory decide the rest; the accounts and the order of the list are kept |
| Pool.ConnectionManager.Connected | src/third_part/fastdfs/common/connection_pool.c:245-255 | a failed attempt is never subtracted from the count |
| Pool.ConnectionManager.Close | src/third_part/fastdfs/common/connection_pool.c:301-366 | a closed connection leaves the count, a returned one becomes the latest of the idle list |
| Pool.Run | src/third_part/fastdfs/common/connection_pool.c:205-366 | over every order of the steps, each answer and the state afterwards are those of an abstract pool; total_count is idle + lent + connecting + failed attempts, within the limit; once the failed attempts have reached the limit, every request of every further run is answered with ENOSPC |
| Pool.FailedAttemptsExhaust | src/third_part/fastdfs/common/connection_pool.c:216-255 | after as many failed attempts as the limit allows, every further run leaves nothing idle, lent or connecting and answers every request with ENOSPC |

## Left out

- Real file input and output (`open_file`, short reads and writes, the byte image of blocks): reads and writes succeed, and blocks are typed values with a header; the sizes used for the disjointness of blocks are those of a 64-bit layout.
- Keys of 64 or more characters: `strcpy` in the key constructor would overflow its buffer; a key has at most 63 characters, none of them NUL.
- Array elements from `n` on, which the code never reads: a node is the list of its first `n` children.
- Overflow of 64-bit file offsets and of the node counters.
- Bpt.BplusTree.SearchRange: a page of no values with a next flag is excluded, because the code then compares pointers that it never set.
- Bpt.BplusTree.Remove: as written and on a doomed removal, what further insertions and removals do to the broken file is not modelled; searches and updates are, and range searches where every bound key is found. What is written past the end of a node is recorded as such, and its effect outside the file is not modelled.
- Nodes of hash chains are values in a list per bucket, so re-use of node memory and aliasing of chains are not captured; `is_malloc_value` tables and `hash_best_op` are not modelled.
- HashTable.HashArray.Insert: growth beyond the largest prime, where the code reads past its array, is excluded by the precondition for new keys; `int` overflow of the item count is not modelled.
- The load factor is a real number: rounding of `double` is not modelled.
- HashTable.HashArray.MoveAll: the loop moves the values of the nodes from list to list, where the code links the same nodes into other chains.
- HashTable.HashArray.Walk: the visiting function is a pure function of index and node; its side effects are not modelled.
- Schedule.ScheduleContext.MakeChain: `qsort` is an insertion sort, so the order of entries with equal times, or with times that the comparison cannot tell, is one of those `qsort` may choose.
- Calendar functions (`localtime_r`, `mktime`): the time base is a parameter not after now. Sleeping and the outer loop of the thread are not modelled; a pass starts with the time already read.
- What a producer does with a message, and the shared connection pointers it uses; the unlocked read of the counter is one atomic step.
- Base64.Decode: when a text has more pads than bytes the length is negative, and the code also writes before its buffer; only the length is modelled.
- Base64Tools.BastDecode: what is read outside the table is not modelled; decoding ends there, and the result says so.
- Pool.ConnectionManager.Get: the age of a connection is measured at the time the caller read before it waited for the lock, as in the code; the hash table from address to manager is not connected to this model.
- `BptDelegate`, `MongoDelegate`, sockets, the event server, logging, the work queue, INI parsing, string and URL helpers: thin wrappers, foreign calls, or easy members.
