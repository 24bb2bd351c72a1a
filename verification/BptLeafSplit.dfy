/** Inserting a record: into a leaf with room, and into a full leaf that is split first. */
module BptLeafSplit {
  import opened KeyOrder
  import opened BptLevels
  import opened BptTree
  import opened BptSteps
  import opened BptAdvance
  import opened BptSearch
  import opened BptInsertSteps
  import opened BptSplitSteps
  import opened BptLeafSteps
  import opened BptLeafInsert
  import opened BptPaths
  import opened BptIndexInsert

  // A new record for a key that is not bound, and its place in the leaf of that key.
  ghost predicate NewRecord(lv: seq<Level>, c: nat, q: nat, r: Record)
  {
    && |lv| >= 2 && c < |lv[0]| && lv[0][c].LeafNode?
    && Reach(lv, 0, c, r.key)
    && UpperRecAt(lv[0][c].recs, r.key, q)
    && !HasRec(lv[0][c].recs, r.key)
  }

  // Where the records of leaf c together with r fit, in order.
  lemma InsertedLeaf(meta: Meta, disk: Disk, lv: seq<Level>, lvl: map<Off, nat>, c: nat, q: nat, r: Record)
    requires Inv(meta, disk, lv, lvl) && NewRecord(lv, c, q, r)
    ensures SortedRecs(InsertRec(lv[0][c].recs, q, r))
    ensures Fits(Slots(lv[1]), c, InsertRec(lv[0][c].recs, q, r))
  {
    LeafRoom(meta, disk, lv, lvl, c);
    LeafAt(meta, disk, lv, lvl, c);
    LeafReach(meta, disk, lv, lvl, c, r.key);
    InsertSorted(lv[0][c].recs, q, r);
    InsertFits(Slots(lv[1]), c, lv[0][c].recs, q, r);
  }

  lemma LeafReach(meta: Meta, disk: Disk, lv: seq<Level>, lvl: map<Off, nat>, c: nat, key: Key)
    requires Inv(meta, disk, lv, lvl) && c < |lv[0]| && Reach(lv, 0, c, key)
    ensures Between(Slots(lv[1]), c, key)
  {
  }

  // The bindings gain exactly the new record, whatever leaves hold it.
  lemma InsertedEntries(lv: seq<Level>, lv': seq<Level>, c: nat, q: nat, r: Record, X: Level)
    requires |lv| >= 2 && |lv'| >= 1 && c < |lv[0]| && q <= |RecsOf(lv[0][c])|
    requires lv'[0] == lv[0][..c] + X + lv[0][c+1..]
    requires Recs(X) == InsertRec(RecsOf(lv[0][c]), q, r)
    requires SortedRecs(Recs(lv[0])) && SortedRecs(Recs(lv'[0]))
    ensures r.key !in Entries(lv) && Entries(lv') == Entries(lv)[r.key := r.value]
  {
    RecsInsert(lv[0], c, q, r, X);
    DictInsert(Recs(lv[0]), RecStart(lv[0], c) + q, r);
  }

  /** A leaf with room takes the record. */
  lemma InsertIntoLeaf(meta: Meta, disk: Disk, lv: seq<Level>, lvl: map<Off, nat>, c: nat, q: nat, r: Record)
    requires Inv(meta, disk, lv, lvl) && NewRecord(lv, c, q, r)
    requires |lv[0][c].recs| < BP_ORDER
    requires lv[0][c].off in disk && disk[lv[0][c].off].Leaf?
    ensures var recs := InsertRec(lv[0][c].recs, q, r);
      var lv' := lv[0 := lv[0][c := LeafNode(lv[0][c].off, recs)]];
      && Inv(meta, disk[lv[0][c].off := disk[lv[0][c].off].(recs := recs)], lv', lvl)
      && Entries(lv') == Entries(lv)[r.key := r.value]
  {
    var recs := InsertRec(lv[0][c].recs, q, r);
    var x := LeafNode(lv[0][c].off, recs);
    var lv' := lv[0 := lv[0][c := x]];
    var disk' := disk[x.off := disk[x.off].(recs := recs)];
    InsertedLeaf(meta, disk, lv, lvl, c, q, r);
    LeafAt(meta, disk, lv, lvl, c);
    RewriteLeaf(meta, disk, lv, lvl, c, recs);
    LeafRoom(meta, disk, lv, lvl, c);
    LeafRoom(meta, disk', lv', lvl, c);
    RecsOne(x);
    assert lv'[0] == lv[0][..c] + [x] + lv[0][c+1..];
    InsertedEntries(lv, lv', c, q, r, [x]);
  }

  ghost function LeafSplitDisk(disk: Disk, block: Block, offset: Off, slot: Off, left: seq<Record>,
      right: seq<Record>): Disk
    requires block.Leaf? && (block.next != 0 ==> block.next in disk)
  {
    (if block.next != 0 then disk[block.next := disk[block.next].(prev := slot)] else disk)
      [offset := block.(next := slot, recs := left)]
      [slot := Leaf(block.parent, block.next, offset, right)]
  }

  lemma LeafSplitWrite(meta: Meta, disk: Disk, disk': Disk, lv: seq<Level>, lvl: map<Off, nat>, c: nat, x: Node,
      y: Node)
    requires FoldedStruct(meta, disk, lv, lvl, 0, []) && c < |lv[0]|
    requires x.LeafNode? && y.LeafNode? && x.off == lv[0][c].off && y.off == meta.slot
    requires x.off in disk && disk[x.off].Leaf? && (disk[x.off].next != 0 ==> disk[x.off].next in disk)
    requires disk' == LeafSplitDisk(disk, disk[x.off], x.off, y.off, x.recs, y.recs)
    ensures SplitWrite(disk, disk', lv[0], c, x, y) && OnlyLevel(disk, disk', lvl, 0)
    ensures disk'[y.off].Leaf?
  {
    OpenStruct(meta, disk, lv, lvl, 0, []);
    assert LevelOK(disk, lvl, lv[0], 0);
    SplitOnDisk(disk, disk', lvl, lv[0], 0, c, x, y, disk'[x.off], disk'[y.off]);
  }

  lemma LeafSplitStruct(meta: Meta, meta': Meta, disk: Disk, disk': Disk, lv: seq<Level>, lvl: map<Off, nat>,
      c: nat, x: Node, y: Node, S2: seq<Slot>)
    requires FoldedStruct(meta, disk, lv, lvl, 0, []) && c < |lv[0]|
    requires x.LeafNode? && y.LeafNode? && x.off == lv[0][c].off && y.off == meta.slot
    requires Count(lv[0][c]) == BP_ORDER
    requires MIN_FILL <= |x.recs| <= BP_ORDER && MIN_FILL <= |y.recs| <= BP_ORDER
    requires x.off in disk && disk[x.off].Leaf? && (disk[x.off].next != 0 ==> disk[x.off].next in disk)
    requires disk' == LeafSplitDisk(disk, disk[x.off], x.off, y.off, x.recs, y.recs)
    requires meta' == meta.(slot := meta.slot + LEAF_SIZE, leafNum := meta.leafNum + 1)
    requires Kids(WithSplit(lv[0], c, x, y), S2)
    ensures FoldedStruct(meta', disk', lv[0 := WithSplit(lv[0], c, x, y)], lvl[y.off := 0], 1, S2)
  {
    LeafSplitWrite(meta, disk, disk', lv, lvl, c, x, y);
    StructSplit(meta, meta', disk, disk', lv, lvl, 0, [], c, x, y, S2);
  }

  /** A full leaf is split around the record; the first key of its right half goes up. */
  lemma SplitLeafDone(meta: Meta, meta': Meta, disk: Disk, disk': Disk, lv: seq<Level>, lvl: map<Off, nat>,
      c: nat, q: nat, r: Record, x: Node, y: Node, parent: Off)
    requires Inv(meta, disk, lv, lvl) && NewRecord(lv, c, q, r) && |lv[0][c].recs| == BP_ORDER
    requires x.LeafNode? && y.LeafNode? && x.off == lv[0][c].off && y.off == meta.slot
    requires x.recs + y.recs == InsertRec(lv[0][c].recs, q, r)
    requires MIN_FILL <= |x.recs| <= BP_ORDER && MIN_FILL <= |y.recs| <= BP_ORDER
    requires x.off in disk && disk[x.off].Leaf? && (disk[x.off].next != 0 ==> disk[x.off].next in disk)
    requires disk[x.off].parent == parent
    requires disk' == LeafSplitDisk(disk, disk[x.off], x.off, y.off, x.recs, y.recs)
    requires meta' == meta.(slot := meta.slot + LEAF_SIZE, leafNum := meta.leafNum + 1)
    ensures PendingIndex(meta', disk', lv[0 := WithSplit(lv[0], c, x, y)], lvl[y.off := 0],
                         1, c, y.recs[0].key, x.off, y.off, parent)
  {
    var L', key := WithSplit(lv[0], c, x, y), y.recs[0].key;
    LeafSlot(meta, disk, lv, lvl, c);
    var S2 := InsertSlot(Slots(lv[1]), c, key, y.off);
    assert Kids(lv[0], Slots(lv[1])) by {
      OpenTree(meta, disk, lv, lvl, 0, []);
      assert Kids(lv[0], Flat(lv, 1, 0, []));
    }
    KidsSplit(lv[0], Slots(lv[1]), c, x, y, key);
    assert FoldedStruct(meta', disk', lv[0 := L'], lvl[y.off := 0], 1, S2) by {
      OpenTree(meta, disk, lv, lvl, 0, []);
      LeafSplitStruct(meta, meta', disk, disk', lv, lvl, c, x, y, S2);
    }
    InsertedLeaf(meta, disk, lv, lvl, c, q, r);
    LeafRoom(meta, disk, lv, lvl, c);
    assert KeysP(lv[0 := L'], 1, S2) by {
      OpenTree(meta, disk, lv, lvl, 0, []);
      SplitLeafKeys(lv, c, x, y);
    }
    FoldTree(meta', disk', lv[0 := L'], lvl[y.off := 0], 1, S2);
  }

  lemma LeafSlot(meta: Meta, disk: Disk, lv: seq<Level>, lvl: map<Off, nat>, c: nat)
    requires Inv(meta, disk, lv, lvl) && c < |lv[0]|
    ensures c < |Slots(lv[1])| && Slots(lv[1])[c].child == lv[0][c].off
  {
    OpenTree(meta, disk, lv, lvl, 0, []);
    assert Kids(lv[0], Flat(lv, 1, 0, []));
  }

  lemma SplitLeafKeys(lv: seq<Level>, c: nat, x: Node, y: Node)
    requires KeysP(lv, 0, []) && |lv| >= 2 && c < |lv[0]|
    requires forall m :: 0 <= m < |lv[0]| ==> lv[0][m].LeafNode?
    requires x.LeafNode? && y.LeafNode? && |x.recs| >= 1 && |y.recs| >= 1
    requires SortedRecs(x.recs + y.recs) && Fits(Slots(lv[1]), c, x.recs + y.recs)
    ensures KeysP(lv[0 := WithSplit(lv[0], c, x, y)], 1, InsertSlot(Slots(lv[1]), c, y.recs[0].key, y.off))
  {
    var L', R := WithSplit(lv[0], c, x, y), x.recs + y.recs;
    assert KeysAt(lv[0], Flat(lv, 1, 0, []));
    KeysLeafSplit(lv[0], Slots(lv[1]), c, x, y);
    assert SortedRecs(x.recs) by {
      forall a, b | 0 <= a < b < |x.recs| ensures Rank(x.recs[a].key) < Rank(x.recs[b].key) {
        assert R[a] == x.recs[a] && R[b] == x.recs[b];
      }
    }
    assert SortedRecs(y.recs) by {
      forall a, b | 0 <= a < b < |y.recs| ensures Rank(y.recs[a].key) < Rank(y.recs[b].key) {
        assert R[|x.recs| + a] == y.recs[a] && R[|x.recs| + b] == y.recs[b];
      }
    }
    assert LeavesSorted(L') by {
      forall j | 0 <= j < |L'| ensures SortedRecs(RecsOf(L'[j])) {
        assert j > c + 1 ==> L'[j] == lv[0][j-1];
      }
    }
    KeysAdvance(lv, 0, [], L', 1, InsertSlot(Slots(lv[1]), c, y.recs[0].key, y.off));
  }

  lemma SplitLeafEntries(meta: Meta, disk: Disk, lv: seq<Level>, lvl: map<Off, nat>, lv': seq<Level>,
      c: nat, q: nat, r: Record, x: Node, y: Node)
    requires Inv(meta, disk, lv, lvl) && NewRecord(lv, c, q, r) && |lv'| >= 1
    requires x.LeafNode? && y.LeafNode? && x.recs + y.recs == InsertRec(lv[0][c].recs, q, r)
    requires lv'[0] == WithSplit(lv[0], c, x, y) && SortedRecs(Recs(lv'[0]))
    ensures Entries(lv') == Entries(lv)[r.key := r.value]
  {
    LeafRoom(meta, disk, lv, lvl, c);
    RecsTwo(x, y);
    InsertedEntries(lv, lv', c, q, r, [x, y]);
  }
}
