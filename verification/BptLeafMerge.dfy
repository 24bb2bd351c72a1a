/** Two leaves under one parent become one, and the parent has a slot too many. */
module BptLeafMerge {
  import opened KeyOrder
  import opened BptLevels
  import opened BptTree
  import opened BptSteps
  import opened BptAdvance
  import opened BptSearch
  import opened BptLeafSteps
  import opened BptLeafInsert
  import opened BptPaths
  import opened BptDeleteSteps
  import opened BptIndexDelete
  import opened BptLeafRemove
  import opened BptLeafSplit
  import opened BptRemoveFacts

  ghost function LeafMergeDisk(disk: Disk, x: Node, next: Off): Disk
    requires x.LeafNode? && x.off in disk && disk[x.off].Leaf? && (next != 0 ==> next in disk)
  {
    (if next != 0 then disk[next := disk[next].(prev := x.off)] else disk)
      [x.off := disk[x.off].(next := next, recs := x.recs)]
  }

  lemma LeafMergeLinks(disk: Disk, disk': Disk, lvl: map<Off, nat>, L: Level, c: nat, x: Node)
    requires LevelOK(disk, lvl, L, 0) && c + 1 < |L|
    requires x.LeafNode? && x.off == L[c].off && x.off in disk && disk[x.off].Leaf? && L[c+1].off in disk
    requires var n := disk[L[c+1].off].next; (n != 0 ==> n in disk) && disk' == LeafMergeDisk(disk, x, n)
    ensures OnlyLevel(disk, disk', lvl, 0)
    ensures LevelOK(disk', lvl, WithMerge(L, c, x), 0)
    ensures disk'.Keys == disk.Keys && forall o :: o in disk ==> (disk'[o].Leaf? <==> disk[o].Leaf?)
  {
    assert NodeOK(disk, lvl, L, 0, c) && NodeOK(disk, lvl, L, 0, c + 1);
    var n := disk[L[c+1].off].next;
    assert n == OffAt(L, c + 2);
    assert c + 2 < |L| ==> NodeOK(disk, lvl, L, 0, c + 2);
    forall k | 0 <= k < |L| && k != c && k != c + 1
      ensures Relinked(disk, disk', L[k], if k == c + 2 then x.off else OffAt(L, k - 1))
    {
      assert NodeOK(disk, lvl, L, 0, k);
    }
    LevelMerge(disk, disk', lvl, L, 0, c, x);
  }

  lemma LeafSizesMerge(L: Level, c: nat, x: Node)
    requires c + 1 < |L| && SizesOK(L, 0) && MIN_FILL <= Count(x) <= BP_ORDER
    ensures SizesOK(WithMerge(L, c, x), 0)
  {
    var L' := WithMerge(L, c, x);
    forall m | 0 <= m < |L'| ensures MinSize(0, |L'|) <= Count(L'[m]) <= BP_ORDER {
      if m != c {
        assert L'[m] == L[if m < c then m else m + 1];
      }
    }
  }

  lemma LeafMergeMeta(meta: Meta, meta': Meta, disk: Disk, disk': Disk, lv: seq<Level>, lvl: map<Off, nat>, c: nat,
      x: Node)
    requires FoldedStruct(meta, disk, lv, lvl, 0, []) && c + 1 < |lv[0]|
    requires x.LeafNode? && x.off == lv[0][c].off && x.off in disk && disk[x.off].Leaf? && lv[0][c+1].off in disk
    requires var n := disk[lv[0][c+1].off].next; (n != 0 ==> n in disk) && disk' == LeafMergeDisk(disk, x, n)
    requires MIN_FILL <= |x.recs| <= BP_ORDER
    requires meta.leafNum >= 1 && meta' == meta.(leafNum := meta.leafNum - 1)
    ensures OnlyLevel(disk, disk', lvl, 0) && LevelOK(disk', lvl, WithMerge(lv[0], c, x), 0)
    ensures SizesOK(WithMerge(lv[0], c, x), 0)
    ensures MetaOK(meta', lv[0 := WithMerge(lv[0], c, x)]) && AllocOK(meta', disk', lvl)
  {
    var L := lv[0];
    OpenStruct(meta, disk, lv, lvl, 0, []);
    assert LevelOK(disk, lvl, L, 0) && SizesOK(L, 0);
    LeafMergeLinks(disk, disk', lvl, L, c, x);
    LeafSizesMerge(L, c, x);
    MetaAfter(meta, meta', lv, 0, WithMerge(L, c, x));
    AllocKept(meta, meta', disk, disk', lvl);
  }

  lemma LeafMergeStruct(meta: Meta, meta': Meta, disk: Disk, disk': Disk, lv: seq<Level>, lvl: map<Off, nat>,
      c: nat, x: Node)
    requires FoldedStruct(meta, disk, lv, lvl, 0, []) && c + 1 < |lv[0]|
    requires x.LeafNode? && x.off == lv[0][c].off && x.off in disk && disk[x.off].Leaf? && lv[0][c+1].off in disk
    requires var n := disk[lv[0][c+1].off].next; (n != 0 ==> n in disk) && disk' == LeafMergeDisk(disk, x, n)
    requires MIN_FILL <= |x.recs| <= BP_ORDER
    requires Kids(lv[0], Slots(lv[1]))
    requires meta.leafNum >= 1 && meta' == meta.(leafNum := meta.leafNum - 1)
    ensures FoldedStruct(meta', disk', lv[0 := WithMerge(lv[0], c, x)], lvl, 1, DeleteSlot(Slots(lv[1]), c))
  {
    var L, L' := lv[0], WithMerge(lv[0], c, x);
    LeafMergeMeta(meta, meta', disk, disk', lv, lvl, c, x);
    KidsMerge(L, Slots(lv[1]), c, x, false);
    StructAdvance(meta, meta', disk, disk', lv, lvl, lvl, 0, [], L', 1, DeleteSlot(Slots(lv[1]), c));
  }

  lemma LeafMergeKeys(lv: seq<Level>, c: nat, x: Node)
    requires |lv| >= 2 && KeysP(lv, 0, []) && c + 1 < |lv[0]|
    requires forall m :: 0 <= m < |lv[0]| ==> lv[0][m].LeafNode?
    requires x.LeafNode? && SortedRecs(x.recs) && InPair(Slots(lv[1]), c, x.recs)
    requires |Slots(lv[1])| == |lv[0]|
    ensures KeysState(lv[0 := WithMerge(lv[0], c, x)], 1, DeleteSlot(Slots(lv[1]), c), true, 0)
    ensures UpperKeys(lv[0 := WithMerge(lv[0], c, x)], 1)
  {
    var L, L' := lv[0], WithMerge(lv[0], c, x);
    var lv' := lv[0 := L'];
    assert KeysAt(L, Flat(lv, 1, 0, []));
    KeysMergeLeaves(L, Slots(lv[1]), c, x);
    assert LeavesSorted(L') by {
      forall m | 0 <= m < |L'| ensures SortedRecs(RecsOf(L'[m])) {
        assert m != c ==> L'[m] == L[if m < c then m else m + 1];
      }
    }
    KeysAdvance(lv, 0, [], L', 1, DeleteSlot(Slots(lv[1]), c));
    forall m | 1 < m < |lv'| ensures KeysAt(lv'[m-1], Slots(lv'[m])) {
      assert KeysAt(lv[m-1], Flat(lv, m, 0, []));
    }
  }

  /** The merge of leaves c and c + 1, one of which lost record q, leaves slot pi + 1 of their
      parent, node k, to be deleted. */
  lemma LeafMergeDone(meta: Meta, meta': Meta, disk: Disk, disk': Disk, lv: seq<Level>, lvl: map<Off, nat>,
      j: nat, q: nat, c: nat, k: nat, pi: nat, x: Node)
    requires Inv(meta, disk, lv, lvl) && c + 1 < |lv[0]| && (j == c || j == c + 1) && q < |RecsOf(lv[0][j])|
    requires Under(lv, 0, c, k, pi) && lv[1][k].InnerNode? && pi + 1 < |lv[1][k].slots|
    requires x == LeafNode(lv[0][c].off, Pair(lv[0], j, q, c)) && MIN_FILL <= |x.recs| <= BP_ORDER
    requires x.off in disk && disk[x.off].Leaf? && lv[0][c+1].off in disk
    requires var n := disk[lv[0][c+1].off].next; (n != 0 ==> n in disk) && disk' == LeafMergeDisk(disk, x, n)
    requires meta.leafNum >= 1 && meta' == meta.(leafNum := meta.leafNum - 1)
    ensures PendingDelete(meta', disk', lv[0 := WithMerge(lv[0], c, x)], lvl, 1, k, pi, false, true, 0)
  {
    var lv' := lv[0 := WithMerge(lv[0], c, x)];
    PairFacts(meta, disk, lv, lvl, j, q, c);
    var S2 := DeleteSlot(Slots(lv[1]), c);
    LeafMergeStruct(meta, meta', disk, disk', lv, lvl, c, x);
    SlotsAt(lv[1], k, pi + 1);
    assert KeysState(lv', 1, S2, true, 0) && UpperKeys(lv', 1) by {
      OpenTree(meta, disk, lv, lvl, 0, []);
      LeafMergeKeys(lv, c, x);
    }
  }

  lemma LeafMergeEntries(lv: seq<Level>, lv': seq<Level>, j: nat, q: nat, c: nat, x: Node)
    requires |lv| >= 1 && |lv'| >= 1 && c + 1 < |lv[0]| && (j == c || j == c + 1)
    requires lv[0][j].LeafNode? && q < |lv[0][j].recs|
    requires x.LeafNode? && x.recs == Pair(lv[0], j, q, c)
    requires lv'[0] == WithMerge(lv[0], c, x) && SortedRecs(Recs(lv[0]))
    ensures Entries(lv') == Entries(lv) - {lv[0][j].recs[q].key}
  {
    RecsOne(x);
    RegroupedEntries(lv, lv', j, q, c, [x]);
  }

  // Two neighbouring leaves, as a merge finds them.
  lemma NeighbourLeaves(meta: Meta, disk: Disk, lv: seq<Level>, lvl: map<Off, nat>, c: nat)
    requires Inv(meta, disk, lv, lvl) && c + 1 < |lv[0]|
    ensures forall d :: c <= d <= c + 1 ==>
      && lv[0][d].LeafNode? && lv[0][d].off in disk && disk[lv[0][d].off].Leaf?
      && disk[lv[0][d].off].recs == lv[0][d].recs
    ensures disk[lv[0][c].off].next == lv[0][c+1].off != 0 && disk[lv[0][c+1].off].prev == lv[0][c].off != 0
    ensures var n := disk[lv[0][c+1].off].next; n != 0 ==> n in disk && n != lv[0][c].off
    ensures var n := disk[lv[0][c+1].off].next; n != 0 ==> n in lvl && lvl[n] == 0
    ensures lv[0][c].off in lvl && lvl[lv[0][c].off] == 0
    ensures lv[0][c+1].off in lvl && lvl[lv[0][c+1].off] == 0 && lv[0][c].off != lv[0][c+1].off
  {
    LeafAt(meta, disk, lv, lvl, c);
    LeafAt(meta, disk, lv, lvl, c + 1);
    LeafNext(meta, disk, lv, lvl, c);
    LeafNext(meta, disk, lv, lvl, c + 1);
    if c + 2 < |lv[0]| {
      LeafNext(meta, disk, lv, lvl, c + 2);
    }
  }

  lemma LeafMerged(meta: Meta, meta': Meta, disk: Disk, disk': Disk, lv: seq<Level>, lvl: map<Off, nat>,
      j: nat, q: nat, c: nat, k: nat, pi: nat, x: Node)
    requires Inv(meta, disk, lv, lvl) && c + 1 < |lv[0]| && (j == c || j == c + 1) && q < |RecsOf(lv[0][j])|
    requires Under(lv, 0, c, k, pi) && pi + 1 < |SlotsOf(lv[1][k])|
    requires x == LeafNode(lv[0][c].off, Pair(lv[0], j, q, c)) && MIN_FILL <= |x.recs| <= BP_ORDER
    requires x.off in disk && disk[x.off].Leaf? && lv[0][c+1].off in disk
    requires var n := disk[lv[0][c+1].off].next; (n != 0 ==> n in disk) && disk' == LeafMergeDisk(disk, x, n)
    requires meta.leafNum >= 1 && meta' == meta.(leafNum := meta.leafNum - 1)
    ensures var lv' := lv[0 := WithMerge(lv[0], c, x)];
      && PendingDelete(meta', disk', lv', lvl, 1, k, pi, false, true, 0)
      && Entries(lv') == Entries(lv) - {RecsOf(lv[0][j])[q].key}
      && (Cascade(lv', 1, k) <==> Cascade(lv, 1, k))
    ensures lv[1][k].off in disk && lv[1][k].off in disk' && disk'[lv[1][k].off] == disk[lv[1][k].off]
  {
    var lv' := lv[0 := WithMerge(lv[0], c, x)];
    LeafFamily(meta, disk, lv, lvl, c, k, pi);
    LeafMergeDone(meta, meta', disk, disk', lv, lvl, j, q, c, k, pi, x);
    CascadeAbove(lv, lv', 1, k);
    LeafRoom(meta, disk, lv, lvl, c);
    NeighbourLeaves(meta, disk, lv, lvl, c);
    LeafMergeEntries(lv, lv', j, q, c, x);
  }

  // ---------- the parent of a leaf ----------

  // Leaf c is child pi of node k of the lowest internal level.
  lemma LeafFamily(meta: Meta, disk: Disk, lv: seq<Level>, lvl: map<Off, nat>, c: nat, k: nat, pi: nat)
    requires Inv(meta, disk, lv, lvl) && Under(lv, 0, c, k, pi)
    ensures lv[1][k].InnerNode? && lv[1][k].off in disk && disk[lv[1][k].off].Internal?
    ensures disk[lv[1][k].off].slots == lv[1][k].slots && SortedSlots(lv[1][k].slots)
    ensures |Slots(lv[1])| == |lv[0]| && lv[1][k].slots[pi].child == lv[0][c].off
    ensures pi > 0 ==> c > 0 && Under(lv, 0, c - 1, k, pi - 1)
    ensures pi + 1 < |lv[1][k].slots| ==> c + 1 < |lv[0]|
    ensures |lv[0]| >= 2 ==> |lv[1][k].slots| >= 2
    ensures meta.leafNum == |lv[0]| && meta.order == BP_ORDER
    ensures lv[1][k].off in lvl && lvl[lv[1][k].off] == 1
  {
    OpenTree(meta, disk, lv, lvl, 0, []);
    NodeFacts(meta, disk, lv, lvl, 0, [], 1, k);
    assert Kids(lv[0], Flat(lv, 1, 0, [])) && KeysAt(lv[0], Flat(lv, 1, 0, []));
    NodeSorted(lv[1], k);
    SlotsAt(lv[1], k, pi);
    SlotsAt(lv[1], k, |lv[1][k].slots|);
    if |lv[1]| == 1 {
      StartEnds(lv[1]);
    }
  }

  // The first key of a leaf leads to its own slot in its parent.
  lemma LeafKeyPlace(meta: Meta, disk: Disk, lv: seq<Level>, lvl: map<Off, nat>, c: nat, k: nat, pi: nat, q: nat)
    requires Inv(meta, disk, lv, lvl) && Under(lv, 0, c, k, pi)
    requires q < |RecsOf(lv[0][c])|
    ensures Between(Slots(lv[1]), c, RecsOf(lv[0][c])[q].key)
    ensures UpperAt(SlotsOf(lv[1][k]), RecsOf(lv[0][c])[q].key, pi)
  {
    LeafRoom(meta, disk, lv, lvl, c);
    assert Between(Slots(lv[1]), c, lv[0][c].recs[q].key);
    OpenTree(meta, disk, lv, lvl, 0, []);
    assert KeysAt(lv[0], Flat(lv, 1, 0, []));
    BetweenNode(lv[1], k, pi, RecsOf(lv[0][c])[q].key);
  }

  // ---------- the removals that break the tree as the code is written ----------

  // No neighbour of leaf c can spare a record when it needs one.
  ghost predicate LeafMerges(lv: seq<Level>, c: nat)
  {
    && |lv| >= 2 && 1 < |lv[0]| && c < |lv[0]| && Count(lv[0][c]) <= MIN_FILL
    && (c > 0 ==> Count(lv[0][c-1]) <= MIN_FILL)
    && (c + 1 < |lv[0]| ==> Count(lv[0][c+1]) <= MIN_FILL)
  }

  // Removing a record from leaf c, a child of node k, ends in a merge of leaves whose deletion
  // above is doomed.
  ghost predicate LeafDoomedUnder(lv: seq<Level>, c: nat, k: nat)
  {
    LeafMerges(lv, c) && Cascade(lv, 1, k)
  }

  ghost predicate LeafDoomed(lv: seq<Level>, c: nat)
  {
    exists k, pi :: Under(lv, 0, c, k, pi) && LeafDoomedUnder(lv, c, k)
  }

  ghost predicate RemoveDoomed(lv: seq<Level>, key: Key)
  {
    |lv| >= 1 && exists c :: 0 <= c < |lv[0]| && HasRec(RecsOf(lv[0][c]), key) && LeafDoomed(lv, c)
  }

  lemma DoomedAt(meta: Meta, disk: Disk, lv: seq<Level>, lvl: map<Off, nat>, c: nat, key: Key, k: nat, pi: nat)
    requires Inv(meta, disk, lv, lvl) && c < |lv[0]| && Reach(lv, 0, c, key)
    requires HasRec(RecsOf(lv[0][c]), key) && Under(lv, 0, c, k, pi)
    ensures RemoveDoomed(lv, key) <==> LeafDoomed(lv, c)
    ensures LeafDoomed(lv, c) <==> LeafDoomedUnder(lv, c, k)
  {
    forall d: nat | d < |lv[0]| && HasRec(RecsOf(lv[0][d]), key) ensures d == c {
      var i: nat :| i < |RecsOf(lv[0][d])| && RecsOf(lv[0][d])[i].key == key;
      SameLeaf(meta, disk, lv, lvl, c, key, d, i);
    }
    forall k2: nat, p2: nat | Under(lv, 0, c, k2, p2) ensures k2 == k {
      UnderUnique(lv, 0, c, k, pi, k2, p2);
    }
  }

  lemma NoRecord(lv: seq<Level>, key: Key)
    requires |lv| >= 1 && SortedRecs(Recs(lv[0])) && key !in Entries(lv)
    ensures forall c: nat :: c < |lv[0]| ==> !HasRec(RecsOf(lv[0][c]), key)
  {
    forall c: nat, i | c < |lv[0]| && 0 <= i < |RecsOf(lv[0][c])| ensures RecsOf(lv[0][c])[i].key != key {
      RecsAt(lv[0], c, i);
    }
  }

  lemma NotDoomed(lv: seq<Level>, key: Key)
    requires |lv| >= 1 && SortedRecs(Recs(lv[0])) && key !in Entries(lv)
    ensures !RemoveDoomed(lv, key)
  {
    NoRecord(lv, key);
  }

  lemma SameLeaf(meta: Meta, disk: Disk, lv: seq<Level>, lvl: map<Off, nat>, c: nat, key: Key, d: nat, i: nat)
    requires Inv(meta, disk, lv, lvl) && c < |lv[0]| && Reach(lv, 0, c, key)
    requires d < |lv[0]| && i < |RecsOf(lv[0][d])| && RecsOf(lv[0][d])[i].key == key
    ensures d == c
  {
    LeafReach(meta, disk, lv, lvl, c, key);
    LeafRoom(meta, disk, lv, lvl, c);
    OpenTree(meta, disk, lv, lvl, 0, []);
    assert KeysAt(lv[0], Flat(lv, 1, 0, []));
    LeafSides(lv[0], Slots(lv[1]), c, key, d, i);
  }

  lemma LeafFill(meta: Meta, disk: Disk, lv: seq<Level>, lvl: map<Off, nat>, c: nat)
    requires Inv(meta, disk, lv, lvl) && c < |lv[0]| && |lv[0]| >= 2
    ensures MIN_FILL <= Count(lv[0][c]) <= BP_ORDER
  {
    OpenTree(meta, disk, lv, lvl, 0, []);
    assert SizesOK(lv[0], 0);
  }

  lemma LeafKeyRange(meta: Meta, disk: Disk, lv: seq<Level>, lvl: map<Off, nat>, c: nat, q: nat)
    requires Inv(meta, disk, lv, lvl) && c < |lv[0]| && q < |RecsOf(lv[0][c])|
    ensures Between(Slots(lv[1]), c, RecsOf(lv[0][c])[q].key)
  {
    LeafRoom(meta, disk, lv, lvl, c);
    assert Between(Slots(lv[1]), c, lv[0][c].recs[q].key);
  }
}
