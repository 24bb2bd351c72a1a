/** The class `bplus_tree`: its in-memory meta block, its file, and the operations on them.
    Reads of the file copy a block into a local; every write puts a whole block, or only its
    header, back. */
module Bpt {
  import opened Options
  import opened KeyOrder
  import opened BptLevels
  import opened BptTree
  import opened BptSteps
  import opened BptSearch
  import opened BptInsertSteps
  import opened BptSplitSteps
  import opened BptLeafSteps
  import opened BptLeafInsert
  import opened BptPaths
  import opened BptIndexInsert
  import opened BptLeafSplit
  import opened BptDeleteSteps
  import opened BptIndexDelete
  import opened BptRebalance
  import opened BptBorrow
  import opened BptMerge
  import opened BptRemoveFacts
  import opened BptLeafRemove
  import opened BptKeyChange
  import opened BptLeafMerge
  import opened BptRange
  import opened BptEmpty
  import opened BptLoss
  import opened BptOrder
  import opened BptLookup
  import opened BptTwin
  import opened BptAnswers
  import opened BptReads

  // What a tree file holds: the block at offset 0 and the blocks after it.
  datatype File = File(metaBlock: Meta, blocks: Disk)

  // The code as it stands, or with three of its lines repaired: see BorrowFromLeft (the slot lent),
  // MergeWithPrev (the key passed up) and CollapseRoot (the parent of a new root).
  datatype Version = AsWritten | Repaired

  class BplusTree {
    const version: Version
    var meta: Meta
    var metaBlock: Meta
    var disk: Disk
    // The levels of the tree in the file, leaves first, and the level of every block.
    ghost var lv: seq<Level>
    ghost var lvl: map<Off, nat>
    // Whether a slot was written past the end of a node's array.
    ghost var overrun: bool

    ghost predicate Valid()
      reads this
    {
      !overrun && metaBlock == meta && Inv(meta, disk, lv, lvl)
    }

    /** Opens a file that holds a tree, or starts with an empty one. */
    constructor (version: Version, file: Option<File>, forceEmpty: bool)
      requires file.Some? && !forceEmpty ==> Sound(file.value.metaBlock, file.value.blocks)
      ensures Valid() && this.version == version
      ensures file.Some? && !forceEmpty ==>
        && metaBlock == file.value.metaBlock && disk == file.value.blocks
        && Entries(lv) == Contents(file.value.metaBlock, file.value.blocks)
      ensures file.None? || forceEmpty ==> Entries(lv) == map[]
    {
      this.version := version;
      overrun := false;
      if file.Some? {
        metaBlock := file.value.metaBlock;
        meta := file.value.metaBlock;
        disk := file.value.blocks;
      }
      if file.None? || forceEmpty {
        meta := Meta(BP_ORDER, 0, 0, 1, META_SIZE, 0, 0);
      }
      new;
      if file.None? || forceEmpty {
        InitFromEmpty();
      } else {
        ghost var levels: seq<Level>, levelOf: map<Off, nat> :| Inv(meta, disk, levels, levelOf);
        lv, lvl := levels, levelOf;
        ContentsUnique(meta, disk, lv, lvl);
      }
    }

    method InitFromEmpty()
      requires !overrun && meta == Meta(BP_ORDER, 0, 0, 1, META_SIZE, 0, 0)
      modifies this
      ensures Valid() && Entries(lv) == map[]
    {
      var root := Alloc(false);
      meta := meta.(rootOffset := root);
      var leaf := Alloc(true);
      meta := meta.(leafOffset := leaf);
      // both blocks go to the file after the meta block
      metaBlock := meta;
      disk := map[root := Internal(0, 0, 0, [Slot(EMPTY_KEY, leaf)]), leaf := Leaf(root, 0, 0, [])];
      EmptyTree(meta, disk, root, leaf);
      lv, lvl := EmptyLevels(root, leaf), EmptyLevelOf(root, leaf);
    }

    // ---------- blocks ----------

    method Alloc(leaf: bool) returns (slot: Off)
      modifies this`meta
      ensures slot == old(meta.slot)
      ensures leaf ==> meta == old(meta).(slot := old(meta.slot) + LEAF_SIZE, leafNum := old(meta.leafNum) + 1)
      ensures !leaf ==>
        meta == old(meta).(slot := old(meta.slot) + INTERNAL_SIZE, internalNum := old(meta.internalNum) + 1)
    {
      slot := meta.slot;
      if leaf {
        meta := meta.(leafNum := meta.leafNum + 1, slot := meta.slot + LEAF_SIZE);
      } else {
        meta := meta.(internalNum := meta.internalNum + 1, slot := meta.slot + INTERNAL_SIZE);
      }
    }

    // A new right neighbour of the block at `offset`; neither of the two is written yet.
    method NodeCreate(offset: Off, block: Block) returns (node: Block, next: Block)
      requires block.next != 0 ==> block.next in disk
      modifies this`meta, this`metaBlock, this`disk
      ensures node == block.(next := old(meta.slot))
      ensures next.Leaf? <==> block.Leaf?
      ensures next.parent == block.parent && next.next == block.next && next.prev == offset
      ensures disk == if block.next != 0
        then old(disk)[block.next := old(disk)[block.next].(prev := old(meta.slot))] else old(disk)
      ensures metaBlock == meta
      ensures block.Leaf? ==>
        meta == old(meta).(slot := old(meta.slot) + LEAF_SIZE, leafNum := old(meta.leafNum) + 1)
      ensures block.Internal? ==>
        meta == old(meta).(slot := old(meta.slot) + INTERNAL_SIZE, internalNum := old(meta.internalNum) + 1)
    {
      var slot := Alloc(block.Leaf?);
      if block.Leaf? {
        next := Leaf(block.parent, block.next, offset, []);
      } else {
        next := Internal(block.parent, block.next, offset, [Slot(EMPTY_KEY, 0)]);
      }
      node := block.(next := slot);
      // only the header of the block after the new one is written
      if next.next != 0 {
        disk := disk[next.next := disk[next.next].(prev := node.next)];
      }
      metaBlock := meta;
    }

    method ResetIndexChildrenParent(slots: seq<Slot>, parent: Off)
      requires forall i :: 0 <= i < |slots| ==> slots[i].child in disk
      modifies this`disk
      ensures ParentsReset(old(disk), disk, slots, parent)
    {
      var k := 0;
      while k < |slots|
        invariant 0 <= k <= |slots|
        invariant ParentsReset(old(disk), disk, slots[..k], parent)
      {
        ghost var before := disk;
        var o := slots[k].child;
        disk := disk[o := disk[o].(parent := parent)];
        forall p | p in old(disk)
          ensures disk[p] == (if IsChild(slots[..k+1], p) then old(disk)[p].(parent := parent) else old(disk)[p])
        {
          ResetOneMore(slots, k, p);
        }
        k := k + 1;
      }
      assert slots[..k] == slots;
    }

    // ---------- search ----------

    // Reads a block, and counts it.
    method Map(offset: Off, ghost blocks: nat) returns (b: Block, ghost blocks': nat)
      requires offset in disk
      ensures b == disk[offset] && blocks' == blocks + 1
    {
      b, blocks' := disk[offset], blocks + 1;
    }

    method SearchIndex(key: Key) returns (org: Off, ghost j: nat, ghost blocks: nat)
      requires Valid() || Readable(meta, disk, lv, lvl)
      ensures |lv| == meta.height + 1 >= 2 && j < |lv[1]| && org == lv[1][j].off && Comes(lv, 1, j, key)
      ensures Valid() ==> Reach(lv, 1, j, key)
      ensures blocks == meta.height - 1
    {
      CanRead(meta, disk, lv, lvl);
      org := meta.rootOffset;
      var height := meta.height;
      SearchRoot(meta, disk, lv, lvl, key);
      j := 0;
      blocks := 0;
      while height > 1
        invariant 1 <= height <= meta.height
        invariant j < |lv[height]| && org == lv[height][j].off && Comes(lv, height, j, key)
        invariant blocks == meta.height - height
      {
        SearchNode(meta, disk, lv, lvl, height, j);
        var node;
        node, blocks := Map(org, blocks);
        var i := FindSlot(node.slots, key);
        SearchStep(meta, disk, lv, lvl, height, j, key, i);
        j := Start(lv[height], j) + i;
        org := node.slots[i].child;
        height := height - 1;
      }
      if Valid() {
        WellFormedComes(meta, disk, lv, lvl, 1, j, key);
      }
    }

    method SearchLeafFrom(index: Off, key: Key, ghost j: nat, ghost blocks: nat)
      returns (leaf: Off, ghost c: nat, ghost blocks': nat)
      requires Valid() || Readable(meta, disk, lv, lvl)
      requires |lv| >= 2 && j < |lv[1]| && index == lv[1][j].off && Comes(lv, 1, j, key)
      ensures c < |lv[0]| && leaf == lv[0][c].off && Comes(lv, 0, c, key)
      ensures leaf in disk && blocks' == blocks + 1
      ensures Valid() ==> Reach(lv, 0, c, key) && disk[leaf].parent == index
    {
      CanRead(meta, disk, lv, lvl);
      SearchNode(meta, disk, lv, lvl, 1, j);
      var node;
      node, blocks' := Map(index, blocks);
      var i := FindSlot(node.slots, key);
      SearchStep(meta, disk, lv, lvl, 1, j, key, i);
      c := Start(lv[1], j) + i;
      leaf := node.slots[i].child;
      if Valid() {
        WellFormedComes(meta, disk, lv, lvl, 1, j, key);
        PathNode(meta, disk, lv, lvl, 1, j);
        PathStep(meta, disk, lv, lvl, 1, j, key, i);
      }
    }

    // k is the smallest bound key larger than key.
    ghost predicate NextLarger(key: Key, k: Key)
      reads this
    {
      IsNextLarger(Entries(lv), key, k)
    }

    /** Returns 0 with the value exactly if the key is found. A positive answer gives the value of a
        larger key instead, with the comparison of the two; -1 gives nothing: the key's leaf c ends
        below the key, although the next leaf may hold larger ones. One block is read per level. In a
        well-formed file, and in any file whose searches come to the right leaves, every bound key is
        found, and the larger key is the next one. */
    method Search(key: Key) returns (r: int, value: Option<int>, ghost blocks: nat, ghost c: nat)
      requires Valid() || Readable(meta, disk, lv, lvl)
      ensures |lv| >= 1 && c < |lv[0]| && Comes(lv, 0, c, key) && (Valid() ==> Reach(lv, 0, c, key))
      ensures r < 0 <==> LowerRecAt(RecsOf(lv[0][c]), key, |RecsOf(lv[0][c])|)
      ensures r == 0 <==> Found(lv, key)
      ensures Valid() || Searchable(meta, disk, lv, lvl) ==> (r == 0 <==> key in Entries(lv))
      ensures r == 0 ==> key in Entries(lv) && value == Some(Entries(lv)[key])
      // the first larger key of the leaf, and the difference of the lengths; of equally long keys only the sign
      ensures r > 0 ==> exists i: nat ::
        var recs := RecsOf(lv[0][c]);
        && i < |recs| && LowerRecAt(recs, key, i) && value == Some(recs[i].value)
        && Rank(key) < Rank(recs[i].key) && (|recs[i].key| != |key| ==> r == |recs[i].key| - |key|)
      ensures (Valid() || Searchable(meta, disk, lv, lvl)) && r > 0 ==>
        exists k :: NextLarger(key, k) && value == Some(Entries(lv)[k]) && (|k| != |key| ==> r == |k| - |key|)
      ensures r < 0 ==> r == -1 && value == None
      ensures blocks == meta.height + 1
    {
      var index, off, leaf;
      ghost var j;
      index, j, blocks := SearchIndex(key);
      off, c, blocks := SearchLeafFrom(index, key, j, blocks);
      CanRead(meta, disk, lv, lvl);
      SearchLeaf(meta, disk, lv, lvl, c);
      FoundAt(lv, c, key, 0);
      leaf, blocks := Map(off, blocks);
      var i := FindRec(leaf.recs, key);
      LowerBoundNone(leaf.recs, key, i);
      if Valid() || Searchable(meta, disk, lv, lvl) {
        SearchAnswers(meta, disk, lv, lvl, c, key, i);
      }
      if i < |leaf.recs| {
        value := Some(leaf.recs[i].value);
        r := KeyCmp(leaf.recs[i].key, key);
      } else {
        value := None;
        r := -1;
      }
    }

    // The walk of search_range up to, but not including, the leaf of the right bound. If it fills
    // the page, it stops at record b of recs, at or before the end e of that leaf.
    method WalkLeaves(offLeft: Off, left: Key, offRight: Off, values: array<int>, max: nat, ghost cl: nat,
        ghost cr: nat, ghost D: Disk, ghost B: seq<Level>)
      returns (i: nat, recs: seq<Record>, b: nat, e: nat, ghost a: nat)
      requires IsTwin(meta, disk, lv, lvl, D, B) && max <= values.Length && cl <= cr < |lv[0]|
      requires offLeft == lv[0][cl].off && Reach(B, 0, cl, left) && offRight == lv[0][cr].off
      modifies values
      ensures i <= max && a + i <= |Recs(lv[0])|
      ensures cl == cr ==> i == 0
      ensures cl < cr && max > 0 ==> LowerRecAt(Recs(lv[0]), left, a) && a + i <= RecStart(lv[0], cr)
      ensures cl < cr && i < max ==> a + i == RecStart(lv[0], cr)
      ensures forall t :: 0 <= t < values.Length ==>
        values[t] == if t < i then Recs(lv[0])[a + t].value else old(values[t])
      ensures i == max > 0 ==> (b == e <==> FirstOfLeaf(lv[0], a + max))
      ensures i == max > 0 && b != e ==>
        b < |recs| && a + max < RecStart(lv[0], cr) <= |Recs(lv[0])| && Recs(lv[0])[a + max] == recs[b]
    {
      LeafNext(meta, D, B, lvl, cl);
      LeafNext(meta, D, B, lvl, cr);
      var off := offLeft;
      i, recs, b, e, a := 0, [], 0, 0, 0;
      ghost var d := cl;
      while off != offRight && off != 0 && i < max
        invariant cl <= d <= cr && off == lv[0][d].off && i <= max
        invariant d == cl ==> i == 0
        invariant d > cl ==> recs == RecsOf(lv[0][d-1]) && b <= e == |recs| && a + i == RecStart(lv[0], d - 1) + b
        invariant d > cl ==> RecStart(lv[0], d) == RecStart(lv[0], d - 1) + e
        invariant d > cl ==> LowerRecAt(Recs(lv[0]), left, a) && (i < max ==> b == e) && (i == max ==> b > 0)
        invariant a + i <= |Recs(lv[0])|
        invariant forall t :: 0 <= t < values.Length ==>
          values[t] == if t < i then Recs(lv[0])[a + t].value else old(values[t])
        decreases cr - d
      {
        off, i, recs, b, e, a := CopyLeaf(off, offLeft == off, left, values, i, max, d, a, D, B);
        d := d + 1;
      }
      if d > cl {
        if i == max > 0 {
          PageEnd(lv[0], d, cr, a + i, b);
        }
      }
    }

    // One leaf of that walk: from the left bound on, if it is the first, and as many as fit.
    method CopyLeaf(off: Off, first: bool, left: Key, values: array<int>, i0: nat, max: nat,
                    ghost d: nat, ghost a0: nat, ghost D: Disk, ghost B: seq<Level>)
      returns (next: Off, i: nat, recs: seq<Record>, b: nat, e: nat, ghost a: nat)
      requires IsTwin(meta, disk, lv, lvl, D, B) && i0 < max <= values.Length && d < |lv[0]| && off == lv[0][d].off
      requires first ==> i0 == 0 && Reach(B, 0, d, left)
      requires !first ==> LowerRecAt(Recs(lv[0]), left, a0) && a0 + i0 == RecStart(lv[0], d)
      modifies values
      ensures next == OffAt(lv[0], d + 1)
      ensures recs == RecsOf(lv[0][d]) && b <= e == |recs|
      ensures i0 <= i <= max && (i < max ==> b == e) && (i == max ==> b > 0)
      ensures LowerRecAt(Recs(lv[0]), left, a) && (!first ==> a == a0)
      ensures a + i == RecStart(lv[0], d) + b <= |Recs(lv[0])| && RecStart(lv[0], d + 1) == RecStart(lv[0], d) + e
      ensures forall t :: 0 <= t < values.Length ==>
        values[t] == if i0 <= t < i then Recs(lv[0])[a + t].value else old(values[t])
    {
      LeafRead(meta, disk, lv, lvl, D, B, d);
      var leaf := disk[off];
      a := a0;
      if first {
        b := FindRec(leaf.recs, left);
        LowerInTree(meta, D, B, lvl, d, left, b);
        a := RecStart(lv[0], d) + b;
      } else {
        b := 0;
      }
      RecsStretch(lv[0], d);
      recs := leaf.recs;
      e := |recs|;
      b, i := CopyValues(recs, b, e, values, i0, max);
      next := leaf.next;
    }

    // The values of search_range; if the page is full, record b of recs is where it stopped, and
    // e the end of that leaf or of the range.
    method CollectRange(offLeft: Off, left: Key, offRight: Off, right: Key, values: array<int>, max: nat,
                        ghost cl: nat, ghost cr: nat, ghost D: Disk, ghost B: seq<Level>)
      returns (i: nat, recs: seq<Record>, b: nat, e: nat, ghost a: nat, ghost z: nat)
      requires IsTwin(meta, disk, lv, lvl, D, B) && max <= values.Length && Rank(left) <= Rank(right)
      requires cl < |lv[0]| && offLeft == lv[0][cl].off && Reach(B, 0, cl, left)
      requires cr < |lv[0]| && offRight == lv[0][cr].off && Reach(B, 0, cr, right)
      modifies values
      ensures max > 0 ==> LowerRecAt(Recs(lv[0]), left, a) && UpperRecAt(Recs(lv[0]), right, z) && a <= z
      ensures max > 0 ==> i == if z - a < max then z - a else max
      ensures i <= max && a + i <= |Recs(lv[0])|
      ensures forall t :: 0 <= t < values.Length ==>
        values[t] == if t < i then Recs(lv[0])[a + t].value else old(values[t])
      ensures i == max > 0 ==> (b == e <==> max == z - a || FirstOfLeaf(lv[0], a + max))
      ensures i == max > 0 && b != e ==> b < |recs| && a + max < z && Recs(lv[0])[a + max] == recs[b]
    {
      LeavesInOrder(meta, D, B, lvl, cl, left, cr, right);
      i, recs, b, e, a := WalkLeaves(offLeft, left, offRight, values, max, cl, cr, D, B);
      if i < max {
        i, recs, b, e, a, z := CopyLastLeaf(offRight, left, right, values, i, max, cl, cr, a, D, B);
      } else {
        ghost var q;
        q, z := RangeEnd(meta, D, B, lvl, cr, right);
      }
    }

    // The leaf of the right bound, after i0 values from the leaves before it.
    method CopyLastLeaf(offRight: Off, left: Key, right: Key, values: array<int>, i0: nat, max: nat,
                        ghost cl: nat, ghost cr: nat, ghost a0: nat, ghost D: Disk,
                        ghost B: seq<Level>)
      returns (i: nat, recs: seq<Record>, b: nat, e: nat, ghost a: nat, ghost z: nat)
      requires IsTwin(meta, disk, lv, lvl, D, B) && i0 < max <= values.Length && Rank(left) <= Rank(right)
      requires cl <= cr < |lv[0]| && offRight == lv[0][cr].off && Reach(B, 0, cl, left) && Reach(B, 0, cr, right)
      requires cl == cr ==> i0 == 0
      requires cl < cr ==> LowerRecAt(Recs(lv[0]), left, a0) && a0 + i0 == RecStart(lv[0], cr)
      modifies values
      ensures LowerRecAt(Recs(lv[0]), left, a) && UpperRecAt(Recs(lv[0]), right, z) && a + i <= z <= |Recs(lv[0])|
      ensures cl < cr ==> a == a0
      ensures i0 <= i <= max && (i < max ==> a + i == z)
      ensures forall t :: 0 <= t < values.Length ==>
        values[t] == if i0 <= t < i then Recs(lv[0])[a + t].value else old(values[t])
      ensures b == e <==> a + i == z
      ensures b != e ==> b < |recs| && Recs(lv[0])[a + i] == recs[b] && (i > i0 ==> !FirstOfLeaf(lv[0], a + i))
    {
      LeafRead(meta, disk, lv, lvl, D, B, cr);
      var leaf := disk[offRight];
      recs := leaf.recs;
      b := FindRec(recs, left);
      e := FindUpperRec(recs, right);
      LastLeaf(meta, D, B, lvl, cl, left, cr, right, b, e);
      UpperInTree(meta, D, B, lvl, cr, right, e);
      ghost var n := RecStart(lv[0], cr);
      a := if cl == cr then n + b else a0;
      z := n + e;
      b, i := CopyValues(recs, b, e, values, i0, max);
      if b < e && i > i0 {
        InsideLeaf(lv[0], cr, a + i);
      }
    }

    /** Walks the leaf chain and writes the values of the first `max` of the z - a records whose
        keys lie in [left, right], in key order. With wantNext it also says whether there are more
        and then replaces the left bound by the next key - but it misses them when the page ends
        where a leaf ends. A page of no values is empty; with wantNext, the code would then compare
        pointers that were never set. The searches must come to the right leaves. */
    method SearchRange(left: Option<Key>, right: Key, values: array<int>, max: nat, wantNext: bool)
      returns (r: int, left': Option<Key>, next: Option<bool>, ghost a: nat, ghost z: nat)
      requires Valid() || Searchable(meta, disk, lv, lvl)
      requires max <= values.Length && (wantNext ==> max > 0)
      modifies values
      ensures r == -1 <==> left.None? || Rank(left.value) > Rank(right)
      ensures r == -1 ==> left' == left && next == None && values[..] == old(values[..])
      ensures r != -1 && max > 0 ==>
        && LowerRecAt(Recs(lv[0]), left.value, a) && UpperRecAt(Recs(lv[0]), right, z) && a <= z
        && r == (if z - a < max then z - a else max)
      ensures r != -1 && max == 0 ==> r == 0
      ensures r != -1 ==> 0 <= r && a + r <= |Recs(lv[0])|
      ensures r != -1 ==> forall t :: 0 <= t < values.Length ==>
        values[t] == if t < r then Recs(lv[0])[a + t].value else old(values[t])
      ensures r != -1 ==>
        next == if wantNext then Some(max < z - a && !FirstOfLeaf(lv[0], a + max)) else None
      ensures next == Some(true) ==> a + max < z && left' == Some(Recs(lv[0])[a + max].key)
      ensures next != Some(true) ==> left' == left
    {
      left', next := left, None;
      a, z := 0, 0;
      if left.None? || KeyCmp(left.value, right) > 0 {
        return -1, left, None, 0, 0;
      }
      var index, j, _ := SearchIndex(left.value);
      var offLeft, cl, _ := SearchLeafFrom(index, left.value, j, 0);
      ghost var D, B := Beside(meta, disk, lv, lvl);
      LeafBeside(meta, disk, lv, lvl, D, B, cl, left.value);
      var indexRight, jr, _ := SearchIndex(right);
      var offRight, cr, _ := SearchLeafFrom(indexRight, right, jr, 0);
      LeafBeside(meta, disk, lv, lvl, D, B, cr, right);
      var i, recs, b, e;
      i, recs, b, e, a, z := CollectRange(offLeft, left.value, offRight, right, values, max, cl, cr, D, B);
      // tell the caller whether to ask for another page
      if wantNext {
        if i == max && b != e {
          next := Some(true);
          left' := Some(recs[b].key);
        } else {
          next := Some(false);
        }
      }
      r := i;
    }

    /** Binds a key that is found to a new value and returns 0. For any other key nothing changes; the
        answer is -1 if the key's leaf c ends below it, and 1 if that leaf holds a larger key. */
    method Update(key: Key, value: int) returns (r: int, ghost c: nat)
      requires Valid() || Readable(meta, disk, lv, lvl)
      modifies this
      ensures old(Valid()) ==> Valid()
      ensures Readable(meta, disk, lv, lvl)
      ensures old(Searchable(meta, disk, lv, lvl)) ==> Searchable(meta, disk, lv, lvl)
      ensures |old(lv)| >= 1 && c < |old(lv)[0]| && Comes(old(lv), 0, c, key)
      ensures old(Valid()) ==> Reach(old(lv), 0, c, key)
      ensures r == -1 <==> LowerRecAt(RecsOf(old(lv)[0][c]), key, |RecsOf(old(lv)[0][c])|)
      ensures r == 0 <==> Found(old(lv), key)
      ensures old(Valid() || Searchable(meta, disk, lv, lvl)) ==> (r == 0 <==> key in Entries(old(lv)))
      ensures r == 0 ==> key in Entries(old(lv)) && Entries(lv) == Entries(old(lv))[key := value]
      // one record of one leaf is rewritten
      ensures r == 0 ==> exists i: nat ::
        && old(lv)[0][c].LeafNode? && i < |old(lv)[0][c].recs| && old(lv)[0][c].recs[i].key == key
        && lv == old(lv)[0 := old(lv)[0][c := UpdatedLeaf(old(lv)[0][c], i, value)]]
      ensures r != 0 ==> disk == old(disk) && lv == old(lv)
      ensures r == 0 || r == 1 || r == -1
      ensures meta == old(meta)
    {
      CanRead(meta, disk, lv, lvl);
      var index, j, _ := SearchIndex(key);
      var off;
      ghost var blocks;
      off, c, blocks := SearchLeafFrom(index, key, j, 0);
      SearchLeaf(meta, disk, lv, lvl, c);
      FoundAt(lv, c, key, 0);
      var leaf := disk[off];
      var i := FindRec(leaf.recs, key);
      LowerBoundNone(leaf.recs, key, i);
      if Valid() || Searchable(meta, disk, lv, lvl) {
        SearchAnswers(meta, disk, lv, lvl, c, key, i);
      }
      if i < |leaf.recs| {
        if KeyCmp(key, leaf.recs[i].key) == 0 {
          UpdateKeeps(meta, disk, lv, lvl, c, i, value);
          var recs := leaf.recs[i := leaf.recs[i].(value := value)];
          disk := disk[off := leaf.(recs := recs)];
          lv := lv[0 := lv[0][c := LeafNode(off, recs)]];
          return 0, c;
        } else {
          return 1, c;
        }
      } else {
        return -1, c;
      }
    }

    // ---------- insertion ----------

    method InsertKeyToIndexNoSplit(slots: seq<Slot>, key: Key, value: Off) returns (r: seq<Slot>, ghost i: nat)
      requires |slots| >= 1 && SortedSlots(slots)
      ensures UpperAt(slots, key, i) && r == InsertSlot(slots, i, key, value)
    {
      var k := FindSlot(slots, key);
      // slot k is doubled: the first copy takes the key, the second the new child
      r := slots[..k+1] + slots[k..];
      r := r[k := Slot(key, r[k+1].child)];
      r := r[k+1 := r[k+1].(child := value)];
      i := k;
    }

    method InsertRoot(key: Key, before: Off, after: Off, ghost c: nat)
      requires !overrun && metaBlock == meta && PendingIndex(meta, disk, lv, lvl, |lv|, c, key, before, after, 0)
      modifies this
      ensures Valid() && lv[0] == old(lv[0]) && meta.leafOffset == old(meta.leafOffset)
    {
      ghost var S := [Slot(key, before), Slot(EMPTY_KEY, after)];
      var slot := Alloc(false);
      meta := meta.(rootOffset := slot, height := meta.height + 1);
      var root := Internal(0, 0, 0, [Slot(key, before), Slot(EMPTY_KEY, after)]);
      metaBlock := meta;
      disk := disk[slot := root];
      ResetIndexChildrenParent(root.slots, slot);
      NewRoot(old(meta), meta, old(disk), disk, lv, lvl, S);
      lv, lvl := lv + [[InnerNode(slot, S)]], lvl[slot := |lv|];
    }

    // Where a full node is cut, and whether the new pair goes to the right of the cut.
    method SplitPoint(slots: seq<Slot>, key: Key, ghost i: nat) returns (point: nat, placeRight: bool)
      requires |slots| == BP_ORDER && SortedSlots(slots) && UpperAt(slots, key, i)
      requires forall m :: 0 <= m < |slots| - 1 ==> Rank(slots[m].key) != Rank(key)
      ensures (placeRight <==> i >= MIN_FILL) && point == if i > MIN_FILL then MIN_FILL else MIN_FILL - 1
    {
      point := (|slots| - 1) / 2;
      placeRight := KeyCmp(key, slots[point].key) > 0;
      if placeRight {
        point := point + 1;
      }
      // a key that lies between the two middle slots goes left
      if placeRight && KeyCmp(key, slots[point].key) < 0 {
        point := point - 1;
      }
    }

    // Shares out a full node's slots and puts the new pair into the half it belongs to.
    method SplitSlots(slots: seq<Slot>, key: Key, after: Off, ghost i: nat)
      returns (left: seq<Slot>, right: seq<Slot>, middle: Key, ghost k: nat)
      requires |slots| == BP_ORDER && SortedSlots(slots) && UpperAt(slots, key, i)
      requires forall m :: 0 <= m < |slots| - 1 ==> Rank(slots[m].key) != Rank(key)
      ensures Halved(slots, i, key, after, left, right, middle)
      ensures k < BP_ORDER - 1 && middle == slots[k].key
    {
      var point, placeRight := SplitPoint(slots, key, i);
      middle := slots[point].key;
      k := point;
      left, right := slots[..point+1], slots[point+1..];
      ghost var i';
      if placeRight {
        SplitRight(slots, i, key, after, point);
        right, i' := InsertKeyToIndexNoSplit(right, key, after);
        RightHalf(slots, i, key, after, point, i');
      } else {
        SplitLeft(slots, i, key, after, point);
        left, i' := InsertKeyToIndexNoSplit(left, key, after);
        LeftHalf(slots, i, key, after, point, i');
      }
    }

    // Writes the two halves of a full internal node and the new parents of the right half's
    // children.
    method WriteHalves(offset: Off, block: Block, key: Key, after: Off, ghost i: nat)
      returns (node: Block, left: seq<Slot>, right: seq<Slot>, middle: Key, ghost k: nat)
      requires offset in disk && block == disk[offset] && block.Internal? && (block.next != 0 ==> block.next in disk)
      requires meta.slot != offset && meta.slot !in disk
      requires i < |block.slots| == BP_ORDER && SortedSlots(block.slots) && UpperAt(block.slots, key, i)
      requires forall m :: 0 <= m < |block.slots| - 1 ==> Rank(block.slots[m].key) != Rank(key)
      requires after in disk && forall m :: 0 <= m < |block.slots| ==> block.slots[m].child in disk
      modifies this`meta, this`metaBlock, this`disk
      ensures node == Internal(block.parent, old(meta.slot), block.prev, block.slots) && metaBlock == meta
      ensures meta == old(meta).(slot := old(meta.slot) + INTERNAL_SIZE, internalNum := old(meta.internalNum) + 1)
      ensures EvenSplit(block.slots, i, key, after, left, right, middle)
      ensures k < BP_ORDER - 1 && middle == block.slots[k].key
      ensures right[|right|-1].key == block.slots[BP_ORDER-1].key
      ensures ParentsReset(SplitDisk(old(disk), block, offset, old(meta.slot), left, right), disk, right,
        old(meta.slot))
    {
      ghost var disk0 := disk;
      var newNode;
      node, newNode := NodeCreate(offset, block);
      left, right, middle, k := SplitSlots(node.slots, key, after, i);
      disk := disk[offset := node.(slots := left)][node.next := newNode.(slots := right)];
      assert disk == SplitDisk(disk0, block, offset, node.next, left, right);
      SplitChildrenKnown(block.slots, i, key, after, left, right, disk0);
      ResetIndexChildrenParent(right, node.next);
    }

    // Splits a full internal node; the middle key still has to go up.
    method SplitIndexNode(offset: Off, block: Block, key: Key, after: Off, ghost l: nat, ghost c: nat, ghost j: nat,
        ghost i: nat)
      returns (parent: Off, middle: Key, sibling: Off)
      requires 1 <= l < |lv| && c < |Slots(lv[l])|
      requires !overrun && PendingIndex(meta, disk, lv, lvl, l, c, key, Slots(lv[l])[c].child, after, offset)
      requires j < |lv[l]| && lv[l][j].off == offset && lv[l][j].InnerNode?
      requires i < |lv[l][j].slots| == BP_ORDER && c == Start(lv[l], j) + i
      requires offset in disk && block == disk[offset] && block.Internal? && block.slots == lv[l][j].slots
      modifies this
      ensures |lv| == |old(lv)| && lv[0] == old(lv[0]) && meta.leafOffset == old(meta.leafOffset)
      ensures !overrun && metaBlock == meta && PendingIndex(meta, disk, lv, lvl, l + 1, j, middle, offset, sibling,
        parent)
    {
      ghost var meta0, disk0 := meta, disk;
      ghost var S := Wanted(lv, l, c, key, Slots(lv[l])[c].child, after);
      IndexPointFolded(meta, disk, lv, lvl, l, S, j, i, key, after);
      IndexBefore(meta, disk, lv, lvl, l, S, j);
      IndexChildren(meta, disk, lv, lvl, l, S, j);
      var node, left, right;
      ghost var k;
      node, left, right, middle, k := WriteHalves(offset, block, key, after, i);
      ghost var x, y := InnerNode(offset, left), InnerNode(meta0.slot, right);
      IndexSplitDone(meta0, meta, disk0, disk, lv, lvl, l, S, j, i, key, after, x, y, k);
      lv, lvl := lv[l := WithSplit(lv[l], j, x, y)], lvl[y.off := l];
      parent, sibling := node.parent, node.next;
    }

    method InsertKeyToIndex(offset: Off, key: Key, before: Off, after: Off, ghost l: nat, ghost c: nat)
      requires !overrun && metaBlock == meta && PendingIndex(meta, disk, lv, lvl, l, c, key, before, after, offset)
      modifies this
      ensures Valid() && lv[0] == old(lv[0]) && meta.leafOffset == old(meta.leafOffset)
      decreases |lv| - l
    {
      ghost var S := Wanted(lv, l, c, key, before, after);
      ghost var j, i := 0, 0;
      if l < |lv| {
        j, i := IndexNode(meta, disk, lv, lvl, l, c, S);
      }
      if offset == 0 {
        InsertRoot(key, before, after, c);
        return;
      }
      IndexPointFolded(meta, disk, lv, lvl, l, S, j, i, key, after);
      var node := disk[offset];
      NodeFills(meta, disk, lv, lvl, l, S, j);
      assert |node.slots| <= meta.order;
      if |node.slots| == BP_ORDER {
        // the middle key is pending one level up
        var parent, middle, sibling := SplitIndexNode(offset, node, key, after, l, c, j, i);
        InsertKeyToIndex(parent, middle, offset, sibling, l + 1, j);
      } else {
        var slots, i' := InsertKeyToIndexNoSplit(node.slots, key, after);
        UpperUnique(node.slots, key, i, i');
        ghost var x := InnerNode(offset, slots);
        InsertInPlace(meta, disk, disk[offset := node.(slots := slots)], lv, lvl, l, S, j, i, key, after, x);
        disk := disk[offset := node.(slots := slots)];
        lv := lv[l := lv[l][j := x]];
      }
    }

    method InsertRecordNoSplit(recs: seq<Record>, key: Key, value: int) returns (r: seq<Record>, ghost q: nat)
      requires SortedRecs(recs)
      ensures UpperRecAt(recs, key, q) && r == InsertRec(recs, q, Record(key, value))
    {
      var k := FindUpperRec(recs, key);
      r := recs[..k] + [Record(key, value)] + recs[k..];
      q := k;
    }

    // Shares out a full leaf's records and puts the new one into the half it belongs to.
    method SplitRecs(recs: seq<Record>, key: Key, value: int) returns (left: seq<Record>, right: seq<Record>,
        ghost q: nat)
      requires |recs| == BP_ORDER && SortedRecs(recs) && !HasRec(recs, key)
      ensures UpperRecAt(recs, key, q)
      ensures left + right == InsertRec(recs, q, Record(key, value))
      ensures |left| == MIN_FILL + 1 && |right| == MIN_FILL
    {
      var point := |recs| / 2;
      var placeRight := KeyCmp(key, recs[point].key) > 0;
      if placeRight {
        point := point + 1;
      }
      left, right := recs[..point], recs[point..];
      if placeRight {
        right, q := InsertRecordNoSplit(right, key, value);
        q := q + point;
        SplitRecsRight(recs, key, point, q, Record(key, value));
      } else {
        left, q := InsertRecordNoSplit(left, key, value);
        SplitRecsLeft(recs, key, point, q, Record(key, value));
      }
    }

    /** Binds a key that is not bound and returns 0; returns 1 and changes nothing otherwise. */
    method Insert(key: Key, value: int) returns (r: int)
      requires Valid()
      modifies this
      ensures Valid()
      ensures r == 1 <==> key in Entries(old(lv))
      ensures r == 1 ==> disk == old(disk) && lv == old(lv) && meta == old(meta)
      ensures r != 1 ==> r == 0 && Entries(lv) == Entries(old(lv))[key := value]
      ensures meta.leafOffset == old(meta.leafOffset)
    {
      var parent, j, _ := SearchIndex(key);
      var offset, c, _ := SearchLeafFrom(parent, key, j, 0);
      LeafAt(meta, disk, lv, lvl, c);
      LeafDecides(meta, disk, lv, lvl, c, key);
      var leaf := disk[offset];
      var found := HasKey(leaf.recs, key);
      assert found <==> HasRec(leaf.recs, key);
      if found {
        return 1;
      }
      if |leaf.recs| == BP_ORDER {
        SplitAndInsert(parent, offset, leaf, key, value, c);
      } else {
        var recs, q := InsertRecordNoSplit(leaf.recs, key, value);
        InsertIntoLeaf(meta, disk, lv, lvl, c, q, Record(key, value));
        disk := disk[offset := leaf.(recs := recs)];
        lv := lv[0 := lv[0][c := LeafNode(offset, recs)]];
      }
      return 0;
    }

    method SplitAndInsert(parent: Off, offset: Off, block: Block, key: Key, value: int, ghost c: nat)
      requires Valid()
      requires c < |lv[0]| && offset == lv[0][c].off && Reach(lv, 0, c, key)
      requires offset in disk && block == disk[offset] && block.Leaf? && block.parent == parent
      requires lv[0][c].LeafNode? && block.recs == lv[0][c].recs && |block.recs| == BP_ORDER
      requires SortedRecs(block.recs) && !HasRec(block.recs, key)
      modifies this
      ensures Valid()
      ensures Entries(lv) == Entries(old(lv))[key := value]
      ensures meta.leafOffset == old(meta.leafOffset)
    {
      ghost var meta0, disk0, lv0, lvl0 := meta, disk, lv, lvl;
      LeafNext(meta, disk, lv, lvl, c);
      var leaf, newLeaf := NodeCreate(offset, block);
      var left, right;
      ghost var q;
      left, right, q := SplitRecs(leaf.recs, key, value);
      // the halves are written before the parent learns of the new leaf
      disk := disk[offset := leaf.(recs := left)][leaf.next := newLeaf.(recs := right)];
      ghost var x, y := LeafNode(offset, left), LeafNode(meta0.slot, right);
      assert disk == LeafSplitDisk(disk0, block, offset, y.off, left, right);
      SplitLeafDone(meta0, meta, disk0, disk, lv, lvl, c, q, Record(key, value), x, y, parent);
      lv, lvl := lv[0 := WithSplit(lv[0], c, x, y)], lvl[y.off := 0];
      InsertKeyToIndex(parent, right[0].key, offset, leaf.next, 1, c);
      LeafRoom(meta, disk, lv, lvl, c);
      SplitLeafEntries(meta0, disk0, lv0, lvl0, lv, c, q, Record(key, value), x, y);
    }

    // ---------- removal ----------

    // Unlinks `node`, the right neighbour of `block`, and counts it out.
    method NodeRemove(block: Block, node: Block) returns (r: Block)
      requires node.Leaf? <==> block.Leaf?
      requires node.next != 0 ==> node.next in disk
      requires node.Leaf? ==> meta.leafNum >= 1
      requires node.Internal? ==> meta.internalNum >= 1
      modifies this`meta, this`metaBlock, this`disk
      ensures r == block.(next := node.next)
      ensures disk == if node.next != 0
        then old(disk)[node.next := old(disk)[node.next].(prev := node.prev)] else old(disk)
      ensures metaBlock == meta
      ensures node.Leaf? ==> meta == old(meta).(leafNum := old(meta.leafNum) - 1)
      ensures node.Internal? ==> meta == old(meta).(internalNum := old(meta.internalNum) - 1)
    {
      if node.Leaf? {
        meta := meta.(leafNum := meta.leafNum - 1);
      } else {
        meta := meta.(internalNum := meta.internalNum - 1);
      }
      r := block.(next := node.next);
      if node.next != 0 {
        disk := disk[node.next := disk[node.next].(prev := node.prev)];
      }
      metaBlock := meta;
    }

    // The borrower, a copy of node j of level l that lost a slot, takes the first slot of its
    // right sibling.
    method BorrowFromRight(borrower: Block, offset: Off, ghost l: nat, ghost j: nat, ghost k: nat, ghost pi: nat)
      returns (borrowed: bool, r: Block)
      requires Family(disk, lv, l, j, k, pi) && offset == lv[l][j].off && pi + 1 < |lv[l+1][k].slots|
      requires offset in disk && disk[offset].Internal?
      requires borrower.Internal? && borrower == disk[offset].(slots := borrower.slots) && |borrower.slots| >= 1
      requires SortedSlots(lv[l+1][k].slots)
      requires LowerAt(lv[l+1][k].slots, borrower.slots[|borrower.slots|-1].key, pi)
      requires lv[l][j+1].slots[0].child in disk
      requires FourOffsets(lv[l+1][k].off, lv[l][j+1].slots[0].child, offset, lv[l][j+1].off)
      modifies this`disk
      ensures borrowed <==> |lv[l][j+1].slots| > MIN_FILL
      ensures !borrowed ==> disk == old(disk) && r == borrower
      ensures borrowed ==> r == borrower.(slots := borrower.slots + [lv[l][j+1].slots[0]])
      ensures borrowed ==>
        var x, y := InnerNode(offset, r.slots), InnerNode(lv[l][j+1].off, lv[l][j+1].slots[1..]);
        disk[offset := r] == ParentWritten(ShiftDisk(old(disk), x, y, lv[l][j+1].slots[0].child, offset),
                                           lv[l+1][k], pi, lv[l][j+1].slots[0].key)
    {
      r := borrower;
      var lenderOff := borrower.next;
      assert OnDisk(disk, lv[l][j+1]);
      var lender := disk[lenderOff];
      assert |lender.slots| >= MIN_FILL;
      if |lender.slots| == MIN_FILL {
        return false, r;
      }
      ghost var disk0 := disk;
      var lent := lender.slots[0];
      // the parent's separator becomes the key of the slot lent
      var parent := disk[borrower.parent];
      var w := FindLowerSlot(parent.slots, borrower.slots[|borrower.slots|-1].key);
      LowerUnique(parent.slots, borrower.slots[|borrower.slots|-1].key, w, pi);
      disk := disk[borrower.parent := parent.(slots := parent.slots[w := parent.slots[w].(key := lent.key)])];
      r := borrower.(slots := borrower.slots + [lent]);
      ghost var disk1 := disk;
      ResetIndexChildrenParent([lent], offset);
      ResetOne(disk1, disk, lent, offset);
      disk := disk[lenderOff := lender.(slots := lender.slots[1..])];
      ShiftInOrder(disk0, lv[l+1][k], pi, lent.key, lent.child, offset,
                   InnerNode(offset, r.slots), InnerNode(lenderOff, lender.slots[1..]));
      return true, r;
    }

    // ... or the last slot of its left sibling.
    method BorrowFromLeft(borrower: Block, offset: Off, ghost l: nat, ghost j: nat, ghost k: nat, ghost pi: nat)
      returns (borrowed: bool, r: Block)
      requires Family(disk, lv, l, j, k, pi) && offset == lv[l][j].off && pi > 0
      requires offset in disk && disk[offset].Internal?
      requires borrower.Internal? && borrower == disk[offset].(slots := borrower.slots) && |borrower.slots| >= 1
      requires SortedSlots(lv[l+1][k].slots)
      requires UpperAt(lv[l+1][k].slots, lv[l][j-1].slots[0].key, pi - 1)
      requires lv[l][j-1].slots[|lv[l][j-1].slots|-1].child in disk
      requires FourOffsets(lv[l+1][k].off, lv[l][j-1].slots[|lv[l][j-1].slots|-1].child, offset, lv[l][j-1].off)
      modifies this`disk
      ensures borrowed <==> |lv[l][j-1].slots| > MIN_FILL
      ensures !borrowed ==> disk == old(disk) && r == borrower
      ensures r.Internal?
      ensures borrowed ==> r == borrower.(slots := r.slots)
      ensures borrowed ==>
        LeftWrite(old(disk), disk[offset := r], lv, l, j, borrower.slots, version.Repaired?, k, pi, r.slots)
    {
      r := borrower;
      var lenderOff := borrower.prev;
      assert OnDisk(disk, lv[l][j-1]);
      var lender := disk[lenderOff];
      assert |lender.slots| >= MIN_FILL;
      if |lender.slots| == MIN_FILL {
        return false, r;
      }
      ghost var disk0 := disk;
      var last := |lender.slots| - 1;
      var lent := lender.slots[last];
      // the separator is found by the lender's first key
      var parent := disk[lender.parent];
      var w := FindSlot(parent.slots, lender.slots[0].key);
      UpperUnique(parent.slots, lender.slots[0].key, w, pi - 1);
      var sep := parent.slots[w].key;
      var slots := borrower.slots;
      if version.Repaired? {
        lent := lent.(key := sep);
      } else {
        // as written, where_to_put is the borrower's first slot, which still has to move
        slots := slots[0 := slots[0].(key := sep)];
      }
      var separator := parent.slots[w].(key := lender.slots[last-1].key);
      disk := disk[lender.parent := parent.(slots := parent.slots[w := separator])];
      r := borrower.(slots := [lent] + slots);
      assert r.slots == LeftBorrowed(lender.slots[last], sep, borrower.slots, version.Repaired?);
      ghost var disk1 := disk;
      ResetIndexChildrenParent([lent], offset);
      ResetOne(disk1, disk, lent, offset);
      disk := disk[lenderOff := lender.(slots := lender.slots[..last])];
      ShiftInOrder(disk0, lv[l+1][k], pi - 1, lender.slots[last-1].key, lent.child, offset,
                   InnerNode(lenderOff, lender.slots[..last]), InnerNode(offset, r.slots));
      return true, r;
    }

    // The slots of a node after remove_from_index took out the slot found for the key: the
    // child found moves one slot to the right.
    method RemoveSlot(slots: seq<Slot>, key: Key, ghost i: nat, ghost stale: bool) returns (r: seq<Slot>)
      requires SortedSlots(slots) && |slots| <= BP_ORDER && i + 1 < |slots| && (stale ==> i + 2 == |slots|)
      requires UpperAt(slots, key, if stale then i + 1 else i)
      modifies this`overrun
      ensures r == Deleted(slots, i, stale)
      ensures overrun <==> old(overrun) || (stale && |slots| == BP_ORDER)
    {
      var t := FindSlot(slots, key);
      UpperUnique(slots, key, t, if stale then i + 1 else i);
      if t + 1 < |slots| {
        r := slots[..t] + [Slot(slots[t+1].key, slots[t].child)] + slots[t+2..];
      } else {
        // the child goes to the slot after the last, which a full node does not have
        if |slots| == BP_ORDER {
          overrun := true;
        }
        r := slots[..t];
      }
    }

    // Takes off a root that is left with one child. As written, the new root keeps the offset of the
    // old one as its parent; if nothing else was wrong, that is all that is wrong then.
    method CollapseRoot(block: Block, slots: seq<Slot>, ghost l: nat, ghost i: nat, ghost stale: bool,
        ghost ok: bool, ghost b: nat, ghost B: seq<Level>, ghost lost: bool)
      requires metaBlock == meta
      requires PendingDelete(meta, disk, lv, lvl, l, 0, i, stale, ok, b) && l == |lv| - 1 && l >= 2
      requires |lv[l][0].slots| == 2 && slots == Deleted(lv[l][0].slots, i, stale)
      requires version.Repaired? ==> ok && !stale && !overrun
      requires version.AsWritten? ==> Climbing(lv, B, l, 0, i, stale, lost)
      modifies this
      ensures version.Repaired? ==> Valid()
      ensures version.AsWritten? ==> !Sound(meta, disk)
      ensures ok && !stale ==> meta.rootOffset in disk && Inv(meta, WithoutParent(disk, meta.rootOffset), lv, lvl)
      ensures version.AsWritten? ==> Outcome(meta, disk, lv, lvl, lost)
      ensures overrun == old(overrun)
      ensures |lv| >= 1 && lv[0] == old(lv[0]) && meta.leafOffset == old(meta.leafOffset)
    {
      DeleteEntry(meta, disk, lv, lvl, l, 0, i, stale, ok, b);
      ghost var lower := meta.(internalNum := meta.internalNum - 1, height := meta.height - 1,
        rootOffset := slots[0].child);
      if ok && !stale {
        CollapseDone(meta, lower, disk, WithoutParent(disk, slots[0].child), lv, lvl, l, i, stale, b);
      }
      if version.AsWritten? {
        CollapseOutcome(meta, lower, disk, lv, lvl, l, i, stale, ok, b, B, lost);
      }
      meta := meta.(internalNum := meta.internalNum - 1);
      meta := meta.(height := meta.height - 1);
      meta := meta.(rootOffset := slots[0].child);
      metaBlock := meta;
      if version.Repaired? {
        // the new root has no parent
        ghost var disk0 := disk;
        disk := disk[slots[0].child := disk[slots[0].child].(parent := 0)];
        assert disk == WithoutParent(disk0, slots[0].child) == WithoutParent(disk, slots[0].child);
      } else {
        WrongRoot(meta, disk);
      }
      lv := lv[..l];
    }

    // Merges `right` into `left`; the children of `right` get a new parent first.
    method MergeIndexNodes(left: Block, leftOff: Off, right: Block) returns (ghost d: Disk)
      requires left.Internal? && right.Internal? && meta.internalNum >= 1
      requires forall a :: 0 <= a < |right.slots| ==> right.slots[a].child in disk
      requires right.next != 0 ==> right.next in disk
      requires leftOff in disk && disk[leftOff].Internal? && disk[leftOff] == left.(slots := disk[leftOff].slots)
      requires right.prev == leftOff && !IsChild(right.slots, leftOff) && right.next != leftOff
      modifies this`meta, this`metaBlock, this`disk
      ensures meta == old(meta).(internalNum := old(meta.internalNum) - 1) && metaBlock == meta
      ensures ParentsReset(old(disk), d, right.slots, leftOff) && leftOff in d && d[leftOff].Internal?
      ensures right.next != 0 ==> right.next in d
      ensures disk == MergeDisk(d, InnerNode(leftOff, left.slots + right.slots), right.next)
    {
      ResetIndexChildrenParent(right.slots, leftOff);
      d := disk;
      var merged := left.(slots := left.slots + right.slots);
      merged := NodeRemove(merged, right);
      disk := disk[leftOff := merged];
      assert ParentsReset(old(disk), d, right.slots, leftOff);
      assert disk == MergeDisk(d, InnerNode(leftOff, left.slots + right.slots), right.next);
    }

    method TryLeft(offset: Off, node: Block,
                   ghost l: nat, ghost j: nat, ghost i: nat, ghost stale: bool, ghost ok: bool, ghost b: nat,
                   ghost k: nat, ghost pi: nat) returns (borrowed: bool)
      requires !overrun && metaBlock == meta
      requires PendingDelete(meta, disk, lv, lvl, l, j, i, stale, ok, b) && l < |lv| - 1
      requires Family(disk, lv, l, j, k, pi) && pi > 0
      requires offset == lv[l][j].off && offset in disk && disk[offset].Internal?
      requires node == disk[offset].(slots := Remaining(lv, l, j, i, stale)) && |lv[l][j].slots| == MIN_FILL
      requires version.Repaired? ==> ok && !stale
      requires version.AsWritten? ==> SortedBelow(lv, l)
      modifies this`disk, this`lv
      ensures borrowed <==> |old(lv)[l][j-1].slots| > MIN_FILL
      ensures !borrowed ==> disk == old(disk) && lv == old(lv)
      ensures |lv| >= 1 && lv[0] == old(lv[0])
      ensures borrowed && version.Repaired? ==> Valid()
      ensures borrowed && version.AsWritten? ==> !Sound(meta, disk) && Outcome(meta, disk, lv, lvl, true)
    {
      LeftReady(meta, disk, lv, lvl, l, j, i, stale, ok, b, k, pi);
      ghost var disk0: Disk, L: seq<Level> := disk, lv;
      var r;
      borrowed, r := BorrowFromLeft(node, offset, l, j, k, pi);
      if borrowed {
        ghost var L' := LeftOutcome(meta, disk0, disk[offset := r], L, lvl, l, j, i, stale, ok, b, version.Repaired?,
                                    k, pi, r.slots);
        disk := disk[offset := r];
        lv := L';
      }
    }

    method TryRight(offset: Off, node: Block,
                   ghost l: nat, ghost j: nat, ghost i: nat, ghost stale: bool, ghost ok: bool, ghost b: nat,
                   ghost k: nat, ghost pi: nat, ghost B: seq<Level>, ghost lost: bool) returns (borrowed: bool)
      requires !overrun && metaBlock == meta
      requires PendingDelete(meta, disk, lv, lvl, l, j, i, stale, ok, b) && l < |lv| - 1
      requires Family(disk, lv, l, j, k, pi) && pi + 1 < |lv[l+1][k].slots|
      requires offset == lv[l][j].off && offset in disk && disk[offset].Internal?
      requires node == disk[offset].(slots := Remaining(lv, l, j, i, stale)) && |lv[l][j].slots| == MIN_FILL
      requires version.AsWritten? ==> Climbing(lv, B, l, j, i, stale, lost)
      modifies this`disk, this`lv
      ensures borrowed <==> |old(lv)[l][j+1].slots| > MIN_FILL
      ensures !borrowed ==> disk == old(disk) && lv == old(lv)
      ensures |lv| >= 1 && lv[0] == old(lv[0])
      ensures borrowed && ok ==> Valid()
      ensures borrowed && !ok ==> !Sound(meta, disk)
      ensures borrowed && version.AsWritten? ==> Outcome(meta, disk, lv, lvl, lost || stale)
    {
      RightPlace(meta, disk, lv, lvl, l, j, i, stale, ok, b, k, pi);
      BorrowOffsets(meta, disk, lv, lvl, l, j, i, stale, ok, b, k, j + 1, 0);
      ghost var disk0: Disk, L: seq<Level> := disk, lv;
      var r;
      borrowed, r := BorrowFromRight(node, offset, l, j, k, pi);
      if borrowed {
        ghost var x, y := InnerNode(offset, r.slots), InnerNode(L[l][j+1].off, L[l][j+1].slots[1..]);
        BorrowRightDone(meta, disk0, disk[offset := r], L, lvl, l, j, i, stale, ok, b, k, pi, x, y);
        if version.AsWritten? {
          RightTracked(meta, disk0, disk[offset := r], L, lvl, l, j, i, stale, ok, b, k, pi, x, y, B, lost);
        }
        disk := disk[offset := r];
        lv := ShiftedLevels(L, l, j, x, y, k, pi, L[l][j+1].slots[0].key);
      }
    }

    // Nodes c and c + 1 of level l, one of which lost a slot, become one; a slot of their parent
    // is to go next.
    method MergeNodes(left: Block, leftOff: Off, right: Block,
                      ghost l: nat, ghost j: nat, ghost i: nat, ghost stale: bool, ghost ok: bool, ghost b: nat,
                      ghost c: nat, ghost k: nat, ghost pi: nat, ghost stale2: bool,
                      ghost B: seq<Level>, ghost lost: bool) returns (ghost B': seq<Level>)
      requires !overrun && metaBlock == meta && meta.internalNum >= 1
      requires PendingDelete(meta, disk, lv, lvl, l, j, i, stale, ok, b) && l < |lv| - 1
      requires (j == c || j == c + 1) && c + 1 < |lv[l]| && lv[l][c].InnerNode? && lv[l][c+1].InnerNode?
      requires Under(lv, l, c, k, pi) && lv[l+1][k].InnerNode? && pi + 1 < |lv[l+1][k].slots|
      requires stale2 ==> pi + 2 == |lv[l+1][k].slots|
      requires stale2 && c + 2 == |lv[l]| ==> k + 1 == |lv[l+1]|
      requires leftOff == lv[l][c].off && leftOff in disk && disk[leftOff].Internal?
      requires lv[l][c+1].off in disk && disk[lv[l][c+1].off].Internal?
      requires left == disk[leftOff].(slots := MergeLeft(lv, l, j, i, stale, c))
      requires right == disk[lv[l][c+1].off].(slots := MergeRight(lv, l, j, i, stale, c))
      requires MIN_FILL <= |left.slots| + |right.slots| <= BP_ORDER
      requires version.AsWritten? ==> Climbing(lv, B, l, j, i, stale, lost) && (stale2 <==> j == c + 1)
      modifies this
      ensures !overrun && metaBlock == meta && meta.leafOffset == old(meta.leafOffset)
      ensures meta.height == old(meta.height)
      ensures |lv| == |old(lv)| && forall m :: 0 <= m < |lv| && m != l ==> lv[m] == old(lv)[m]
      ensures PendingDelete(meta, disk, lv, lvl, l + 1, k, pi, stale2,
                            ok && (stale2 ==> c + 2 == |old(lv)[l]|), if ok then l + 1 else b)
      ensures var o := lv[l+1][k].off; o in old(disk) && o in disk && disk[o] == old(disk)[o]
      ensures version.AsWritten? ==> Climbing(lv, B', l + 1, k, pi, stale2, lost || (j == c && stale))
    {
      MergeReady(meta, disk, lv, lvl, l, j, i, stale, ok, b, c, k);
      ghost var disk0, meta0 := disk, meta;
      ghost var d := MergeIndexNodes(left, leftOff, right);
      ghost var x := InnerNode(leftOff, left.slots + right.slots);
      MergeWritten(meta0, disk0, d, disk, lv, lvl, l, j, i, stale, ok, b, c, k, x);
      MergeDone(meta0, meta, disk0, d, disk, lv, lvl, l, j, i, stale, ok, b, c, k, pi, x, right.slots, stale2);
      B' := B;
      if version.AsWritten? {
        B' := MergeTracked(meta0, disk0, lv, lvl, l, j, i, stale, ok, b, c, k, pi, x, B, lost);
      }
      lv := lv[l := WithMerge(lv[l], c, x)];
    }

    // The last child of its parent goes into its left sibling.
    method MergeWithPrev(offset: Off, node: Block, parent: Block, indexKey: Key,
                         ghost l: nat, ghost j: nat, ghost i: nat, ghost stale: bool, ghost ok: bool, ghost b: nat,
                         ghost k: nat, ghost pi: nat, ghost B: seq<Level>, ghost lost: bool)
      requires !overrun && metaBlock == meta
      requires PendingDelete(meta, disk, lv, lvl, l, j, i, stale, ok, b) && l < |lv| - 1
      requires Family(disk, lv, l, j, k, pi) && pi + 1 == |lv[l+1][k].slots|
      requires offset == lv[l][j].off && offset in disk && disk[offset].Internal?
      requires node == disk[offset].(slots := Remaining(lv, l, j, i, stale))
      requires parent == disk[lv[l+1][k].off]
      requires |lv[l][j].slots| == MIN_FILL == |lv[l][j-1].slots| && indexKey == lv[l][j].slots[0].key
      requires version.Repaired? ==> ok && !stale
      requires version.AsWritten? ==> Climbing(lv, B, l, j, i, stale, lost)
      modifies this
      ensures |lv| >= 1 && lv[0] == old(lv[0]) && meta.leafOffset == old(meta.leafOffset)
      ensures version.AsWritten? ==> meta.height == old(meta.height) || !Sound(meta, disk)
      ensures var good := ok && Count(old(lv)[l+1][k]) < BP_ORDER && k + 1 == |old(lv)[l+1]|
        && !Cascade(old(lv), l + 1, k);
        && (version.Repaired? || good ==> Valid())
        && (version.AsWritten? && !good ==> overrun || !Sound(meta, disk))
      ensures version.AsWritten? ==> Outcome(meta, disk, lv, lvl, lost || Loses(old(lv), l + 1, k, true))
      ensures version.AsWritten? ==> (overrun <==> Overruns(old(lv), l + 1, k, true))
      decreases |lv| - l, 0
    {
      ghost var c := j - 1;
      MergeReady(meta, disk, lv, lvl, l, j, i, stale, ok, b, c, k);
      LastReady(meta, disk, lv, lvl, l, j, i, stale, ok, b, k, pi);
      ghost var lv0 := lv;
      var prevOff := node.prev;
      assert node.prev != 0;
      var prev := disk[prevOff];
      assert |prev.slots| == MIN_FILL;
      var prevKey := prev.slots[0].key;
      ghost var stale2 := version.AsWritten?;
      ghost var B' := MergeNodes(prev, prevOff, node, l, j, i, stale, ok, b, c, k, pi - 1, stale2, B, lost);
      FateAbove(lv0, lv, l + 1, k, true);
      // as written, the parent is searched for the node's own first key, not for that of prev
      var key := if version.Repaired? then prevKey else indexKey;
      RemoveFromIndex(node.parent, parent, key, l + 1, k, pi - 1, stale2,
                      ok && (stale2 ==> c + 2 == |lv0[l]|), if ok then l + 1 else b, B', lost);
    }

    // Any other child takes in its right sibling.
    method MergeWithNext(offset: Off, node: Block, parent: Block, indexKey: Key,
                         ghost l: nat, ghost j: nat, ghost i: nat, ghost stale: bool, ghost ok: bool, ghost b: nat,
                         ghost k: nat, ghost pi: nat, ghost B: seq<Level>, ghost lost: bool)
      requires !overrun && metaBlock == meta
      requires PendingDelete(meta, disk, lv, lvl, l, j, i, stale, ok, b) && l < |lv| - 1
      requires Family(disk, lv, l, j, k, pi) && pi + 1 < |lv[l+1][k].slots|
      requires offset == lv[l][j].off && offset in disk && disk[offset].Internal?
      requires node == disk[offset].(slots := Remaining(lv, l, j, i, stale))
      requires parent == disk[lv[l+1][k].off]
      requires |lv[l][j].slots| == MIN_FILL == |lv[l][j+1].slots| && indexKey == lv[l][j].slots[0].key
      requires version.Repaired? ==> ok && !stale
      requires version.AsWritten? ==> Climbing(lv, B, l, j, i, stale, lost)
      modifies this
      ensures |lv| >= 1 && lv[0] == old(lv[0]) && meta.leafOffset == old(meta.leafOffset)
      ensures version.AsWritten? ==> meta.height == old(meta.height) || !Sound(meta, disk)
      ensures var good := ok && !Cascade(old(lv), l + 1, k);
        && (version.Repaired? || good ==> Valid())
        && (version.AsWritten? && !good ==> overrun || !Sound(meta, disk))
      ensures version.AsWritten? ==> Outcome(meta, disk, lv, lvl, lost || stale || Loses(old(lv), l + 1, k, false))
      ensures version.AsWritten? ==> (overrun <==> Overruns(old(lv), l + 1, k, false))
      decreases |lv| - l, 0
    {
      DeleteEntry(meta, disk, lv, lvl, l, j, i, stale, ok, b);
      MergeReady(meta, disk, lv, lvl, l, j, i, stale, ok, b, j, k);
      SeparatorPlace(meta, disk, lv, lvl, l, j, i, stale, ok, b, j, 0, k, pi);
      ghost var lv0 := lv;
      assert node.next != 0;
      var next := disk[node.next];
      ghost var B' := MergeNodes(node, offset, next, l, j, i, stale, ok, b, j, k, pi, false, B, lost);
      FateAbove(lv0, lv, l + 1, k, false);
      RemoveFromIndex(node.parent, parent, indexKey, l + 1, k, pi, false, ok, if ok then l + 1 else b, B',
                      lost || stale);
    }

    /** Takes slot i + 1 out of node j of level l, a copy of which is `block`, and rebalances on
        the way up. Repaired, it always restores the tree; as written, it does exactly if the
        deletion is not doomed and nothing was broken before. */
    method RemoveFromIndex(offset: Off, block: Block, key: Key,
                           ghost l: nat, ghost j: nat, ghost i: nat, ghost stale: bool, ghost ok: bool, ghost b: nat,
                           ghost B: seq<Level>, ghost lost: bool)
      requires !overrun && metaBlock == meta
      requires PendingDelete(meta, disk, lv, lvl, l, j, i, stale, ok, b)
      requires offset == lv[l][j].off && offset in disk && block == disk[offset] && block.Internal?
      requires UpperAt(block.slots, key, if stale then i + 1 else i)
      requires version.Repaired? ==> ok && !stale
      requires version.AsWritten? ==> Climbing(lv, B, l, j, i, stale, lost)
      modifies this
      ensures |lv| >= 1 && lv[0] == old(lv[0]) && meta.leafOffset == old(meta.leafOffset)
      ensures version.AsWritten? ==> meta.height == old(meta.height) || !Sound(meta, disk)
      ensures version.Repaired? || (ok && !Doomed(old(lv), l, j, stale)) ==> Valid()
      ensures version.AsWritten? && !(ok && !Doomed(old(lv), l, j, stale)) ==> overrun || !Sound(meta, disk)
      ensures version.AsWritten? ==> Outcome(meta, disk, lv, lvl, lost || Loses(old(lv), l, j, stale))
      ensures version.AsWritten? ==> (overrun <==> Overruns(old(lv), l, j, stale))
      decreases |lv| - l, 2
    {
      DeleteEntry(meta, disk, lv, lvl, l, j, i, stale, ok, b);
      var minN := if meta.rootOffset == offset then 1 else meta.order / 2;
      assert minN <= |block.slots| <= meta.order;
      var indexKey := block.slots[0].key;
      var slots := RemoveSlot(block.slots, key, i, stale);
      var node := block.(slots := slots);
      // only the root may be left with one child
      if |slots| == 1 && meta.rootOffset == offset && meta.internalNum != 1 {
        CollapseRoot(block, slots, l, i, stale, ok, b, B, lost);
        return;
      }
      if |slots| < minN {
        Rebalance(offset, node, indexKey, l, j, i, stale, ok, b, B, lost);
      } else {
        ghost var x := InnerNode(offset, slots);
        AbsorbDelete(meta, disk, disk[offset := node], lv, lvl, l, j, i, stale, ok, b, x);
        if version.AsWritten? {
          AbsorbOutcome(meta, disk, disk[offset := node], lv, lvl, l, j, i, stale, ok, b, x, B, lost);
        }
        disk := disk[offset := node];
        lv := lv[l := lv[l][j := x]];
      }
    }

    // A slot from the left sibling, or else one from the right.
    method BorrowSlot(offset: Off, node: Block, first: Off, last: Off,
                      ghost l: nat, ghost j: nat, ghost i: nat, ghost stale: bool, ghost ok: bool, ghost b: nat,
                      ghost k: nat, ghost pi: nat, ghost B: seq<Level>, ghost lost: bool) returns (borrowed: bool)
      requires !overrun && metaBlock == meta
      requires PendingDelete(meta, disk, lv, lvl, l, j, i, stale, ok, b) && l < |lv| - 1
      requires Family(disk, lv, l, j, k, pi)
      requires offset == lv[l][j].off && offset in disk && disk[offset].Internal?
      requires (first == offset <==> pi == 0) && (last == offset <==> pi + 1 == |lv[l+1][k].slots|)
      requires node == disk[offset].(slots := Remaining(lv, l, j, i, stale)) && |lv[l][j].slots| == MIN_FILL
      requires version.Repaired? ==> ok && !stale
      requires version.AsWritten? ==> Climbing(lv, B, l, j, i, stale, lost)
      modifies this`disk, this`lv
      ensures borrowed <==> ((pi > 0 && |old(lv)[l][j-1].slots| > MIN_FILL)
        || (pi + 1 < |old(lv)[l+1][k].slots| && |old(lv)[l][j+1].slots| > MIN_FILL))
      ensures !borrowed ==> disk == old(disk) && lv == old(lv)
      ensures |lv| >= 1 && lv[0] == old(lv[0])
      ensures borrowed ==> var left := pi > 0 && |old(lv)[l][j-1].slots| > MIN_FILL;
        && (version.Repaired? || (!left && ok) ==> Valid())
        && (version.AsWritten? && (left || !ok) ==> !Sound(meta, disk))
        && (version.AsWritten? ==> Outcome(meta, disk, lv, lvl, left || lost || stale))
    {
      borrowed := false;
      if offset != first {
        borrowed := TryLeft(offset, node, l, j, i, stale, ok, b, k, pi);
      }
      if !borrowed && offset != last {
        borrowed := TryRight(offset, node, l, j, i, stale, ok, b, k, pi, B, lost);
      }
    }

    // The part of remove_from_index for a node that has too few slots left.
    method Rebalance(offset: Off, node: Block, indexKey: Key,
                     ghost l: nat, ghost j: nat, ghost i: nat, ghost stale: bool, ghost ok: bool, ghost b: nat,
                     ghost B: seq<Level>, ghost lost: bool)
      requires !overrun && metaBlock == meta
      requires PendingDelete(meta, disk, lv, lvl, l, j, i, stale, ok, b) && l < |lv| - 1
      requires offset == lv[l][j].off && offset in disk && disk[offset].Internal?
      requires node == disk[offset].(slots := Remaining(lv, l, j, i, stale))
      requires |lv[l][j].slots| == MIN_FILL && indexKey == lv[l][j].slots[0].key
      requires version.Repaired? ==> ok && !stale
      requires version.AsWritten? ==> Climbing(lv, B, l, j, i, stale, lost)
      modifies this
      ensures |lv| >= 1 && lv[0] == old(lv[0]) && meta.leafOffset == old(meta.leafOffset)
      ensures version.AsWritten? ==> meta.height == old(meta.height) || !Sound(meta, disk)
      ensures version.Repaired? || (ok && !Doomed(old(lv), l, j, stale)) ==> Valid()
      ensures version.AsWritten? && !(ok && !Doomed(old(lv), l, j, stale)) ==> overrun || !Sound(meta, disk)
      ensures version.AsWritten? ==> Outcome(meta, disk, lv, lvl, lost || Loses(old(lv), l, j, stale))
      ensures version.AsWritten? ==> (overrun <==> Overruns(old(lv), l, j, stale))
      decreases |lv| - l, 1
    {
      ghost var S := Deleted(Slots(lv[l]), Start(lv[l], j) + i, stale);
      ghost var k, pi := FamilyOf(meta, disk, lv, lvl, l, S, j);
      CascadeHere(lv, l, j, k, pi);
      LosesHere(lv, l, j, k, pi, stale);
      OverrunsHere(lv, l, j, k, pi, stale);
      HasNeighbour(meta, disk, lv, lvl, l, S, j, k, pi);
      var parent := disk[node.parent];
      var last := parent.slots[|parent.slots|-1].child;
      var borrowed := BorrowSlot(offset, node, parent.slots[0].child, last, l, j, i, stale, ok, b, k, pi, B, lost);
      if borrowed {
        return;
      }
      // neither sibling had a slot to spare
      assert node.next != 0 || node.prev != 0;
      if offset == last {
        MergeWithPrev(offset, node, parent, indexKey, l, j, i, stale, ok, b, k, pi, B, lost);
      } else {
        MergeWithNext(offset, node, parent, indexKey, l, j, i, stale, ok, b, k, pi, B, lost);
      }
    }

    // Writes the key n into the separator right of child c of level l, for which o is a key of
    // that child, and into the last keys that mirror it: the blocks of the path, in the slot of the
    // child below each, and nothing else. D is the file with the leaves already as they will be.
    method ChangeParentChild(parent: Off, o: Key, n: Key, ghost D: Disk, ghost L: seq<Level>, ghost l: nat,
        ghost c: nat)
      returns (ghost D': Disk, ghost L': seq<Level>, ghost path: seq<Off>)
      requires PendingKey(meta, D, L, lvl, l, c, n, o)
      requires Slots(L[l])[c].child in D && parent == D[Slots(L[l])[c].child].parent
      requires SameInner(lvl, disk, D)
      modifies this`disk
      ensures Inv(meta, D', L', lvl) && L'[0] == L[0]
      ensures SameInner(lvl, disk, D') && D'.Keys == D.Keys
      ensures PathWritten(old(disk), disk, lvl, l, Slots(L[l])[c].child, parent, n, path)
      ensures OnlyPath(old(disk), disk, path)
      ensures SameOthers(lvl, D, D') && SameOthers(lvl, old(disk), disk)
      decreases |L| - l
    {
      ghost var j, i := KeyNode(meta, D, L, lvl, l, c, n, o);
      var node := disk[parent];
      var w := FindSlot(node.slots, o);
      UpperUnique(node.slots, o, w, i);
      assert w != |node.slots|;
      var slots := node.slots[w := node.slots[w].(key := n)];
      disk := disk[parent := node.(slots := slots)];
      ghost var x := InnerNode(parent, slots);
      D' := D[parent := D[parent].(slots := slots)];
      L' := L[l := L[l][j := x]];
      KeyStep(meta, D, D', L, lvl, l, c, n, o, j, i, x);
      path := [parent];
      if w == |slots| - 1 {
        ghost var disk0, disk1, D1 := old(disk), disk, D';
        D', L', path := ChangeParentChild(node.parent, o, n, D1, L', l + 1, j);
        PathGrows(disk0, disk1, disk, lvl, l, Slots(L[l])[c].child, parent, n, w, path);
        path := [parent] + path;
      }
    }

    // The writes of borrow_key for leaves: the index key n between the leaves a and b, for which o
    // is a key of the left one, and the two leaves, one short of record q of leaf j.
    method ShiftRecords(parent: Off, o: Key, n: Key, a: Off, left: Block, b: Off, right: Block, ghost j: nat,
        ghost q: nat, ghost c: nat)
      requires Valid() && c + 1 < |lv[0]| && (j == c || j == c + 1) && lv[0][j].LeafNode? && q < |lv[0][j].recs|
      requires left.Leaf? && right.Leaf?
      requires a == lv[0][c].off && a in disk && disk[a].Leaf? && left == disk[a].(recs := left.recs)
      requires b == lv[0][c+1].off && b in disk && disk[b].Leaf? && right == disk[b].(recs := right.recs)
      requires left.recs + right.recs == Pair(lv[0], j, q, c)
      requires MIN_FILL <= |left.recs| <= BP_ORDER && MIN_FILL <= |right.recs| <= BP_ORDER
      requires parent == left.parent && n == right.recs[0].key && Between(Slots(lv[1]), c, o)
      modifies this`disk, this`lv
      ensures Valid() && Entries(lv) == Entries(old(lv)) - {old(lv)[0][j].recs[q].key}
    {
      NeighbourLeaves(meta, disk, lv, lvl, c);
      ghost var disk0, lv0 := disk, lv;
      ghost var x, y := LeafNode(a, left.recs), LeafNode(b, right.recs);
      ghost var D := disk[a := left][b := right];
      ghost var L := lv[0 := Shifted(lv[0], c, x, y)];
      LeafShiftDone(meta, disk, D, lv, lvl, j, q, c, x, y, o);
      LeafSlot(meta, disk, lv, lvl, c);
      // the index key is written before the leaves
      ghost var D', L', path;
      D', L', path := ChangeParentChild(parent, o, n, D, L, 1, c);
      LeavesStored(lvl, disk0, disk, D, D', a, left, b, right);
      disk := disk[a := left][b := right];
      lv := L';
      LeafShiftEntries(meta, disk0, lv0, lvl, lv, j, q, c, x, y);
    }

    // A leaf short of one record takes the last record of the leaf before it, even across
    // parents.
    method BorrowRecordLeft(offset: Off, leaf: Block, ghost c: nat, ghost q: nat) returns (borrowed: bool)
      requires Valid() && 1 <= c < |lv[0]| && lv[0][c].LeafNode? && q < |lv[0][c].recs| == MIN_FILL
      requires offset == lv[0][c].off && offset in disk && disk[offset].Leaf?
      requires leaf == disk[offset].(recs := RemoveRec(lv[0][c].recs, q))
      modifies this`disk, this`lv
      ensures borrowed <==> Count(old(lv)[0][c-1]) > MIN_FILL
      ensures !borrowed ==> disk == old(disk) && lv == old(lv)
      ensures borrowed ==> Valid() && Entries(lv) == Entries(old(lv)) - {old(lv)[0][c].recs[q].key}
    {
      NeighbourLeaves(meta, disk, lv, lvl, c - 1);
      var lenderOff := leaf.prev;
      var lender := disk[lenderOff];
      LeafFill(meta, disk, lv, lvl, c - 1);
      assert |lender.recs| >= MIN_FILL;
      if |lender.recs| == MIN_FILL {
        return false;
      }
      var last := |lender.recs| - 1;
      var lent := lender.recs[last];
      var left, right := lender.recs[..last], [lent] + leaf.recs;
      LentLeft(lv[0], c, q, left, right);
      LeafKeyRange(meta, disk, lv, lvl, c - 1, 0);
      ShiftRecords(lender.parent, lender.recs[0].key, lent.key, lenderOff, lender.(recs := left),
                   offset, leaf.(recs := right), c, q, c - 1);
      return true;
    }

    // ... or the first record of the leaf after it.
    method BorrowRecordRight(offset: Off, leaf: Block, ghost c: nat, ghost q: nat) returns (borrowed: bool)
      requires Valid() && c + 1 < |lv[0]| && lv[0][c].LeafNode? && q < |lv[0][c].recs| == MIN_FILL
      requires offset == lv[0][c].off && offset in disk && disk[offset].Leaf?
      requires leaf == disk[offset].(recs := RemoveRec(lv[0][c].recs, q))
      modifies this`disk, this`lv
      ensures borrowed <==> Count(old(lv)[0][c+1]) > MIN_FILL
      ensures !borrowed ==> disk == old(disk) && lv == old(lv)
      ensures borrowed ==> Valid() && Entries(lv) == Entries(old(lv)) - {old(lv)[0][c].recs[q].key}
    {
      NeighbourLeaves(meta, disk, lv, lvl, c);
      var lenderOff := leaf.next;
      var lender := disk[lenderOff];
      LeafFill(meta, disk, lv, lvl, c + 1);
      assert |lender.recs| >= MIN_FILL;
      if |lender.recs| == MIN_FILL {
        return false;
      }
      var left, right := leaf.recs + [lender.recs[0]], lender.recs[1..];
      LentRight(lv[0], c, q, left, right);
      LeafKeyRange(meta, disk, lv, lvl, c, if q == 0 then 1 else 0);
      ShiftRecords(leaf.parent, leaf.recs[0].key, lender.recs[1].key, offset, leaf.(recs := left),
                   lenderOff, lender.(recs := right), c, q, c);
      return true;
    }

    // merge_leafs and node_remove, and the write of the merged leaf.
    method MergeLeafs(left: Block, leftOff: Off, right: Block)
      requires left.Leaf? && right.Leaf? && meta.leafNum >= 1
      requires leftOff in disk && disk[leftOff].Leaf? && disk[leftOff] == left.(recs := disk[leftOff].recs)
      requires right.next != 0 ==> right.next in disk && right.next != leftOff
      requires right.prev == leftOff
      modifies this`meta, this`metaBlock, this`disk
      ensures meta == old(meta).(leafNum := old(meta.leafNum) - 1) && metaBlock == meta
      ensures disk == LeafMergeDisk(old(disk), LeafNode(leftOff, left.recs + right.recs), right.next)
    {
      var merged := left.(recs := left.recs + right.recs);
      merged := NodeRemove(merged, right);
      disk := disk[leftOff := merged];
    }

    // A leaf that is the last child of its parent goes into the leaf before it.
    method MergeLeafWithPrev(parentOff: Off, parent: Block, offset: Off, leaf: Block,
                             ghost key: Key, ghost c: nat, ghost q: nat, ghost k: nat, ghost pi: nat)
      requires Valid() && Under(lv, 0, c, k, pi) && lv[0][c].LeafNode? && q < |lv[0][c].recs| == MIN_FILL
      requires key == lv[0][c].recs[q].key && |lv[0]| >= 2
      requires offset == lv[0][c].off && offset in disk && disk[offset].Leaf?
      requires leaf == disk[offset].(recs := RemoveRec(lv[0][c].recs, q))
      requires parentOff == lv[1][k].off && parentOff in disk && parent == disk[parentOff] && parent.Internal?
      requires pi + 1 == |parent.slots| && (c > 0 ==> Count(lv[0][c-1]) == MIN_FILL)
      modifies this
      ensures |lv| >= 1 && Entries(lv) == Entries(old(lv)) - {key} && meta.leafOffset == old(meta.leafOffset)
      ensures version.AsWritten? ==> meta.height == old(meta.height) || !Sound(meta, disk)
      ensures version.Repaired? || !Cascade(old(lv), 1, k) ==> Valid()
      ensures version.AsWritten? && Cascade(old(lv), 1, k) ==> overrun || !Sound(meta, disk)
      ensures version.AsWritten? ==> Outcome(meta, disk, lv, lvl, Loses(old(lv), 1, k, false))
      ensures version.AsWritten? ==> (overrun <==> Overruns(old(lv), 1, k, false))
    {
      LeafFamily(meta, disk, lv, lvl, c, k, pi);
      NeighbourLeaves(meta, disk, lv, lvl, c - 1);
      ghost var disk0, meta0, lv0 := disk, meta, lv;
      assert leaf.prev != 0;
      var prev := disk[leaf.prev];
      var indexKey := prev.recs[0].key;
      LeafKeyPlace(meta, disk, lv, lvl, c - 1, k, pi - 1, 0);
      MergeLeafs(prev, leaf.prev, leaf);
      ghost var x := LeafNode(leaf.prev, prev.recs + leaf.recs);
      LeafMerged(meta0, meta, disk0, disk, lv, lvl, c, q, c - 1, k, pi - 1, x);
      lv := lv[0 := WithMerge(lv[0], c - 1, x)];
      ClimbStarts(meta, disk, lv, lvl, 1, k, pi - 1, 0);
      FateAbove(lv0, lv, 1, k, false);
      RemoveFromIndex(parentOff, parent, indexKey, 1, k, pi - 1, false, true, 0, lv, false);
    }

    // Any other leaf takes in the leaf after it.
    method MergeLeafWithNext(parentOff: Off, parent: Block, offset: Off, leaf: Block,
                             ghost key: Key, ghost c: nat, ghost q: nat, ghost k: nat, ghost pi: nat)
      requires Valid() && Under(lv, 0, c, k, pi) && lv[0][c].LeafNode? && q < |lv[0][c].recs| == MIN_FILL
      requires key == lv[0][c].recs[q].key && |lv[0]| >= 2
      requires offset == lv[0][c].off && offset in disk && disk[offset].Leaf?
      requires leaf == disk[offset].(recs := RemoveRec(lv[0][c].recs, q))
      requires parentOff == lv[1][k].off && parentOff in disk && parent == disk[parentOff] && parent.Internal?
      requires pi + 1 < |parent.slots| && (c + 1 < |lv[0]| ==> Count(lv[0][c+1]) == MIN_FILL)
      modifies this
      ensures |lv| >= 1 && Entries(lv) == Entries(old(lv)) - {key} && meta.leafOffset == old(meta.leafOffset)
      ensures version.AsWritten? ==> meta.height == old(meta.height) || !Sound(meta, disk)
      ensures version.Repaired? || !Cascade(old(lv), 1, k) ==> Valid()
      ensures version.AsWritten? && Cascade(old(lv), 1, k) ==> overrun || !Sound(meta, disk)
      ensures version.AsWritten? ==> Outcome(meta, disk, lv, lvl, Loses(old(lv), 1, k, false))
      ensures version.AsWritten? ==> (overrun <==> Overruns(old(lv), 1, k, false))
    {
      LeafFamily(meta, disk, lv, lvl, c, k, pi);
      NeighbourLeaves(meta, disk, lv, lvl, c);
      ghost var disk0, meta0, lv0 := disk, meta, lv;
      assert leaf.next != 0;
      var next := disk[leaf.next];
      var indexKey := leaf.recs[0].key;
      LeafKeyPlace(meta, disk, lv, lvl, c, k, pi, if q == 0 then 1 else 0);
      MergeLeafs(leaf, offset, next);
      ghost var x := LeafNode(offset, leaf.recs + next.recs);
      LeafMerged(meta0, meta, disk0, disk, lv, lvl, c, q, c, k, pi, x);
      lv := lv[0 := WithMerge(lv[0], c, x)];
      ClimbStarts(meta, disk, lv, lvl, 1, k, pi, 0);
      FateAbove(lv0, lv, 1, k, false);
      RemoveFromIndex(parentOff, parent, indexKey, 1, k, pi, false, true, 0, lv, false);
    }

    // The part of remove for a leaf that has too few records left.
    method RebalanceLeaf(parentOff: Off, parent: Block, last: bool, offset: Off, leaf: Block,
                         ghost key: Key, ghost c: nat, ghost q: nat, ghost k: nat, ghost pi: nat)
      requires Valid() && Under(lv, 0, c, k, pi) && lv[0][c].LeafNode? && q < |lv[0][c].recs| == MIN_FILL
      requires key == lv[0][c].recs[q].key && |lv[0]| >= 2
      requires offset == lv[0][c].off && offset in disk && disk[offset].Leaf?
      requires leaf == disk[offset].(recs := RemoveRec(lv[0][c].recs, q))
      requires parentOff == lv[1][k].off && parentOff in disk && parent == disk[parentOff]
      requires parent.Internal? && (last <==> pi + 1 == |parent.slots|)
      modifies this
      ensures |lv| >= 1 && Entries(lv) == Entries(old(lv)) - {key} && meta.leafOffset == old(meta.leafOffset)
      ensures version.AsWritten? ==> meta.height == old(meta.height) || !Sound(meta, disk)
      ensures version.Repaired? || !LeafDoomedUnder(old(lv), c, k) ==> Valid()
      ensures version.AsWritten? && LeafDoomedUnder(old(lv), c, k) ==> overrun || !Sound(meta, disk)
      ensures version.AsWritten? ==> Outcome(meta, disk, lv, lvl, LosesAt(old(lv), c, k))
      ensures version.AsWritten? ==> (overrun <==> OverrunsAt(old(lv), c, k))
    {
      LeafFamily(meta, disk, lv, lvl, c, k, pi);
      LeafNext(meta, disk, lv, lvl, c);
      if c > 0 {
        LeafFill(meta, disk, lv, lvl, c - 1);
      }
      if c + 1 < |lv[0]| {
        LeafFill(meta, disk, lv, lvl, c + 1);
      }
      var borrowed := false;
      if leaf.prev != 0 {
        borrowed := BorrowRecordLeft(offset, leaf, c, q);
      }
      if !borrowed && leaf.next != 0 {
        borrowed := BorrowRecordRight(offset, leaf, c, q);
      }
      if borrowed {
        WellFormedOutcome(meta, disk, lv, lvl);
      }
      // neither neighbour had a record to spare
      if !borrowed {
        assert leaf.next != 0 || leaf.prev != 0;
        if last {
          MergeLeafWithPrev(parentOff, parent, offset, leaf, key, c, q, k, pi);
        } else {
          MergeLeafWithNext(parentOff, parent, offset, leaf, key, c, q, k, pi);
        }
      }
    }

    // The part of remove for a leaf that holds the key.
    method RemoveRecord(parentOff: Off, parent: Block, last: bool, offset: Off, leaf: Block, key: Key,
                        ghost c: nat, ghost k: nat, ghost pi: nat)
      requires Valid() && Under(lv, 0, c, k, pi) && HasRec(RecsOf(lv[0][c]), key)
      requires offset == lv[0][c].off && offset in disk && disk[offset].Leaf? && leaf == disk[offset]
      requires parentOff == lv[1][k].off && parentOff in disk && parent == disk[parentOff]
      requires parent.Internal? && (last <==> pi + 1 == |parent.slots|)
      modifies this
      ensures |lv| >= 1 && Entries(lv) == Entries(old(lv)) - {key} && meta.leafOffset == old(meta.leafOffset)
      ensures version.AsWritten? ==> meta.height == old(meta.height) || !Sound(meta, disk)
      ensures version.Repaired? || !LeafDoomedUnder(old(lv), c, k) ==> Valid()
      ensures version.AsWritten? && LeafDoomedUnder(old(lv), c, k) ==> overrun || !Sound(meta, disk)
      ensures version.AsWritten? ==> Outcome(meta, disk, lv, lvl, LosesAt(old(lv), c, k))
      ensures version.AsWritten? ==> (overrun <==> OverrunsAt(old(lv), c, k))
    {
      LeafAt(meta, disk, lv, lvl, c);
      LeafFamily(meta, disk, lv, lvl, c, k, pi);
      var minN := if meta.leafNum == 1 then 0 else meta.order / 2;
      assert minN <= |leaf.recs| <= meta.order;
      var q := FindRec(leaf.recs, key);
      LowerBoundNone(leaf.recs, key, q);
      var rest := leaf.(recs := leaf.recs[..q] + leaf.recs[q+1..]);
      if |rest.recs| < minN {
        RebalanceLeaf(parentOff, parent, last, offset, rest, key, c, q, k, pi);
      } else {
        AbsorbRemove(meta, disk, lv, lvl, c, q);
        disk := disk[offset := rest];
        lv := lv[0 := lv[0][c := LeafNode(offset, rest.recs)]];
        WellFormedOutcome(meta, disk, lv, lvl);
      }
    }

    /** Takes a key out of the tree. Repaired, it always does; as written, it does exactly if
        RemoveDoomed does not hold of the tree and the key, and otherwise leaves a file that
        holds no well-formed tree, or has written past the end of a node. The file left is linked
        and in order all the same; some bound key is not found in it exactly if RemoveLoses held of
        the tree and the key. What is written past the end of a node, exactly if RemoveOverruns
        held, lies outside the file and is not followed further. */
    method Remove(key: Key) returns (r: int)
      requires Valid()
      modifies this
      ensures r == -1 <==> key !in Entries(old(lv))
      ensures r == -1 ==> disk == old(disk) && lv == old(lv) && meta == old(meta) && Valid()
      ensures r == -1 || r == 0
      ensures r == 0 ==> |lv| >= 1 && Entries(lv) == Entries(old(lv)) - {key}
      ensures version.Repaired? ==> Valid()
      ensures version.AsWritten? ==> (Valid() <==> !RemoveDoomed(old(lv), key))
      ensures RemoveDoomed(old(lv), key) && version.AsWritten? ==> overrun || !Sound(meta, disk)
      ensures version.AsWritten? ==> Readable(meta, disk, lv, lvl)
      ensures version.AsWritten? ==> (Searchable(meta, disk, lv, lvl) <==> !RemoveLoses(old(lv), key))
      ensures version.AsWritten? ==> (Hides(lv) <==> RemoveLoses(old(lv), key))
      ensures version.AsWritten? ==> (MissesKey(lv) <==> RemoveLoses(old(lv), key))
      ensures version.AsWritten? ==> (overrun <==> RemoveOverruns(old(lv), key))
      ensures meta.leafOffset == old(meta.leafOffset)
      ensures version.AsWritten? ==> meta.height == old(meta.height) || !Sound(meta, disk)
    {
      var parentOff, k, _ := SearchIndex(key);
      PathNode(meta, disk, lv, lvl, 1, k);
      var parent := disk[parentOff];
      var pi := FindSlot(parent.slots, key);
      PathStep(meta, disk, lv, lvl, 1, k, key, pi);
      ghost var c := Start(lv[1], k) + pi;
      var offset := parent.slots[pi].child;
      LeafAt(meta, disk, lv, lvl, c);
      LeafDecides(meta, disk, lv, lvl, c, key);
      var leaf := disk[offset];
      var found := HasKey(leaf.recs, key);
      assert found <==> HasRec(leaf.recs, key);
      if !found {
        NotDoomed(lv, key);
        NotLost(meta, disk, lv, lvl, key);
        LostKeys(meta, disk, lv, lvl);
        return -1;
      }
      LeafFamily(meta, disk, lv, lvl, c, k, pi);
      DoomedAt(meta, disk, lv, lvl, c, key, k, pi);
      RemoveLosesAt(meta, disk, lv, lvl, c, key, k, pi);
      ghost var lost := LosesAt(lv, c, k);
      RemoveRecord(parentOff, parent, pi == |parent.slots| - 1, offset, leaf, key, c, k, pi);
      if version.AsWritten? {
        OutcomeMeans(meta, disk, lv, lvl, lost);
        LostKeys(meta, disk, lv, lvl);
      }
      return 0;
    }
  }
}
