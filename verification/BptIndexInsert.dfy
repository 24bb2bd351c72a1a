/** insert_key_to_index on one level: the blocks it writes, and what is left pending above. */
module BptIndexInsert {
  import opened KeyOrder
  import opened BptLevels
  import opened BptTree
  import opened BptSteps
  import opened BptAdvance
  import opened BptSearch
  import opened BptInsertSteps
  import opened BptSplitSteps
  import opened BptPaths

  // node_create, then the two halves written back.
  lemma SplitOnDisk(disk: Disk, d: Disk, lvl: map<Off, nat>, L: Level, p: nat,
                    j: nat, x: Node, y: Node, bX: Block, bY: Block)
    requires LevelOK(disk, lvl, L, p) && j < |L| && lvl.Keys <= disk.Keys
    requires x.off == L[j].off && y.off !in disk && x.off in disk
    requires bX.parent == bY.parent == disk[x.off].parent
    requires Matches(bX, x) && bX.next == y.off && bX.prev == disk[x.off].prev
    requires Matches(bY, y) && bY.next == disk[x.off].next && bY.prev == x.off
    requires (x.LeafNode? <==> p == 0) && (y.LeafNode? <==> p == 0)
    requires disk[x.off].next != 0 ==> disk[x.off].next in disk
    requires var n := disk[x.off].next;
      d == (if n != 0 then disk[n := disk[n].(prev := y.off)] else disk)[x.off := bX][y.off := bY]
    ensures SplitWrite(disk, d, L, j, x, y)
    ensures OnlyLevel(disk, d, lvl, p)
  {
    var n := disk[x.off].next;
    assert NodeOK(disk, lvl, L, p, j);
    assert j + 1 < |L| ==> NodeOK(disk, lvl, L, p, j + 1);
    assert n != x.off;
    SplitRelinks(disk, d, lvl, L, p, j, y.off, n, bX, bY);
  }

  lemma SplitRelinks(disk: Disk, d: Disk, lvl: map<Off, nat>, L: Level, p: nat, j: nat, y: Off, n: Off, bX: Block,
      bY: Block)
    requires LevelOK(disk, lvl, L, p) && j < |L| && y !in disk && n == OffAt(L, j + 1) && (n != 0 ==> n in disk)
    requires d == (if n != 0 then disk[n := disk[n].(prev := y)] else disk)[L[j].off := bX][y := bY]
    ensures forall k :: 0 <= k < |L| && k != j ==> Relinked(disk, d, L[k], if k == j + 1 then y else OffAt(L, k - 1))
  {
    forall k | 0 <= k < |L| && k != j
      ensures Relinked(disk, d, L[k], if k == j + 1 then y else OffAt(L, k - 1))
    {
      assert NodeOK(disk, lvl, L, p, k) && L[k].off != L[j].off;
      if j + 1 < |L| && k != j + 1 {
        assert L[k].off != L[j+1].off;
      }
    }
  }

  lemma SplitThenReset(disk: Disk, d: Disk, disk': Disk, lvl: map<Off, nat>, L: Level, j: nat, x: Node, y: Node, p: nat)
    requires p >= 1 && j < |L| && LevelOK(disk, lvl, L, p)
    requires SplitWrite(disk, d, L, j, x, y) && OnlyLevel(disk, d, lvl, p)
    requires ParentsReset(d, disk', SlotsOf(y), y.off)
    requires forall i :: 0 <= i < |SlotsOf(y)| ==>
      SlotsOf(y)[i].child in lvl && SlotsOf(y)[i].child in disk && lvl[SlotsOf(y)[i].child] == p - 1
    ensures SplitWrite(disk, disk', L, j, x, y) && OnlyLevel(disk, disk', lvl, p)
  {
    assert !IsChild(SlotsOf(y), y.off);
    forall k | 0 <= k < |L| ensures !IsChild(SlotsOf(y), L[k].off) && L[k].off in disk {
      assert NodeOK(disk, lvl, L, p, k);
    }
    forall o | o in lvl && o in disk && lvl[o] + 1 != p ensures disk'[o] == d[o] {
      assert !IsChild(SlotsOf(y), o);
    }
  }

  // The slots that level l must get: the child `after` enters right of child number c of the
  // level below, with `key` between the two.
  ghost function Wanted(lv: seq<Level>, l: nat, c: nat, key: Key, before: Off, after: Off): seq<Slot>
    requires l < |lv| ==> c < |Slots(lv[l])|
  {
    if l < |lv| then InsertSlot(Slots(lv[l]), c, key, after) else [Slot(key, before), Slot(EMPTY_KEY, after)]
  }

  // insert_key_to_index(offset, key, before, after) is still to be done on level l.
  ghost predicate PendingIndex(meta: Meta, disk: Disk, lv: seq<Level>, lvl: map<Off, nat>,
      l: nat, c: nat, key: Key, before: Off, after: Off, offset: Off)
  {
    && 1 <= l <= |lv|
    && (l < |lv| ==> c < |Slots(lv[l])| && Slots(lv[l])[c].child == before)
    && Folded(meta, disk, lv, lvl, l, Wanted(lv, l, c, key, before, after))
    && before in disk && after in disk
    && disk[before].parent == disk[after].parent == offset
    && (l == |lv| ==> offset == 0)
  }

  lemma KidsAboveSplit(lv: seq<Level>, p: nat, S: seq<Slot>, j: nat, x: Node, y: Node, middle: Key)
    requires Children(lv, p, S) && p < |lv| && j < |lv[p]| && x.off == lv[p][j].off
    requires p + 1 == |lv| ==> |lv[p]| == 1
    ensures p + 1 < |lv| ==> j < |Slots(lv[p+1])|
    ensures Kids(WithSplit(lv[p], j, x, y), Wanted(lv, p + 1, j, middle, x.off, y.off))
  {
    if p + 1 < |lv| {
      assert Kids(lv[p], Flat(lv, p + 1, p, S));
      KidsSplit(lv[p], Slots(lv[p+1]), j, x, y, middle);
    }
  }

  lemma KeysIndexSplit(lv: seq<Level>, p: nat, S: seq<Slot>, j: nat, x: Node, y: Node, middle: Key, k: nat)
    requires KeysP(lv, p, S) && 1 <= p < |lv| && j < |lv[p]|
    requires forall m :: 0 <= m < |lv[p]| ==> lv[p][m].InnerNode? && |lv[p][m].slots| >= 1
    requires p + 1 == |lv| ==> |lv[p]| == 1
    requires SortedSlots(Slots(lv[p]))
    requires x.InnerNode? && y.InnerNode? && |x.slots| >= 1 && |y.slots| >= 1
    requires Slots(WithSplit(lv[p], j, x, y)) == S
    requires k < |lv[p][j].slots| - 1 && middle == lv[p][j].slots[k].key
    requires x.slots[|x.slots|-1].key == middle
    requires y.slots[|y.slots|-1].key == lv[p][j].slots[|lv[p][j].slots|-1].key
    ensures p + 1 < |lv| ==> j < |Slots(lv[p+1])|
    ensures KeysP(lv[p := WithSplit(lv[p], j, x, y)], p + 1, Wanted(lv, p + 1, j, middle, x.off, y.off))
  {
    var L := lv[p];
    var S2: seq<Slot>;
    if p + 1 < |lv| {
      var U := Slots(lv[p+1]);
      assert KeysAt(L, Flat(lv, p + 1, p, S));
      MiddleBetween(L, U, j, k);
      KeysSplit(L, U, j, x, y, middle);
      S2 := InsertSlot(U, j, middle, y.off);
    } else {
      S2 := [Slot(middle, x.off), Slot(EMPTY_KEY, y.off)];
      assert WithSplit(L, j, x, y) == [x, y];
    }
    KeysAdvance(lv, p, S, WithSplit(L, j, x, y), p + 1, S2);
  }

  // The children of the two halves after reset_index_children_parent.
  lemma SplitChildren(disk: Disk, d: Disk, disk': Disk, lower: Level, L: Level, lvl: map<Off, nat>,
      p: nat, S: seq<Slot>, j: nat, i: nat, key: Key, after: Off, x: Node, y: Node)
    requires p >= 1 && LevelOK(disk, lvl, lower, p - 1) && LevelOK(disk, lvl, L, p) && ParentsOK(disk, L)
    requires j < |L| && L[j].InnerNode? && i < |L[j].slots| && x.InnerNode? && y.InnerNode?
    requires x.slots + y.slots == InsertSlot(L[j].slots, i, key, after)
    requires Slots(WithSplit(L, j, x, y)) == S && Kids(lower, S)
    requires after in disk && disk[after].parent == L[j].off
    requires SplitWrite(disk, d, L, j, x, y) && OnlyLevel(disk, d, lvl, p)
    requires forall o :: o in disk ==> d[o].parent == disk[o].parent
    requires ParentsReset(d, disk', y.slots, y.off)
    ensures ParentsOK(disk', WithSplit(L, j, x, y))
    ensures SplitWrite(disk, disk', L, j, x, y) && OnlyLevel(disk, disk', lvl, p)
  {
    var both := InnerNode(x.off, x.slots + y.slots);
    assert ParentOK(disk, L[j]);
    InsertParent(disk, disk, L[j], both, i, key, after);
    ParentsSplit(disk, d, disk', lower, L, j, x, y);
    forall m | 0 <= m < |y.slots|
      ensures y.slots[m].child in lvl && y.slots[m].child in disk && lvl[y.slots[m].child] == p - 1
    {
      ChildLevel(disk, lvl, lower, WithSplit(L, j, x, y), p, j + 1, m);
    }
    SplitThenReset(disk, d, disk', lvl, L, j, x, y, p);
  }

  lemma IndexSplitFlat(L: Level, S: seq<Slot>, j: nat, i: nat, key: Key, after: Off, x: Node, y: Node)
    requires j < |L| && L[j].InnerNode? && i < |L[j].slots| && x.InnerNode? && y.InnerNode?
    requires Start(L, j) + i < |Slots(L)| && S == InsertSlot(Slots(L), Start(L, j) + i, key, after)
    requires x.slots + y.slots == InsertSlot(L[j].slots, i, key, after)
    ensures Slots(WithSplit(L, j, x, y)) == S
  {
    SlotsTwo(x, y);
    FlatInsert(L, j, i, key, after, [x, y]);
  }

  lemma KidsAboveFolded(meta: Meta, disk: Disk, lv: seq<Level>, lvl: map<Off, nat>, p: nat, S: seq<Slot>, j: nat,
      x: Node, y: Node, middle: Key)
    requires FoldedStruct(meta, disk, lv, lvl, p, S) && p < |lv| && j < |lv[p]| && x.off == lv[p][j].off
    ensures p + 1 == |lv| ==> j == 0
    ensures p + 1 < |lv| ==> j < |Slots(lv[p+1])|
    ensures Kids(WithSplit(lv[p], j, x, y), Wanted(lv, p + 1, j, middle, x.off, y.off))
  {
    OpenStruct(meta, disk, lv, lvl, p, S);
    KidsAboveSplit(lv, p, S, j, x, y, middle);
  }

  lemma IndexSplit(meta: Meta, meta': Meta, disk: Disk, d: Disk, disk': Disk, lv: seq<Level>, lvl: map<Off, nat>,
      p: nat, S: seq<Slot>, j: nat, i: nat, key: Key, after: Off, x: Node, y: Node, middle: Key)
    requires FoldedStruct(meta, disk, lv, lvl, p, S) && 1 <= p < |lv|
    requires j < |lv[p]| && lv[p][j].InnerNode? && i < |lv[p][j].slots| == BP_ORDER
    requires Start(lv[p], j) + i < |Slots(lv[p])|
    requires S == InsertSlot(Slots(lv[p]), Start(lv[p], j) + i, key, after)
    requires after in disk && disk[after].parent == lv[p][j].off
    requires x.InnerNode? && y.InnerNode? && x.off == lv[p][j].off && y.off == meta.slot
    requires EvenSplit(lv[p][j].slots, i, key, after, x.slots, y.slots, middle)
    requires SplitWrite(disk, d, lv[p], j, x, y) && OnlyLevel(disk, d, lvl, p)
    requires forall o :: o in disk ==> d[o].parent == disk[o].parent
    requires ParentsReset(d, disk', y.slots, y.off)
    requires meta' == meta.(slot := meta.slot + INTERNAL_SIZE, internalNum := meta.internalNum + 1)
    ensures p + 1 < |lv| ==> j < |Slots(lv[p+1])|
    ensures FoldedStruct(meta', disk', lv[p := WithSplit(lv[p], j, x, y)], lvl[y.off := p],
                    p + 1, Wanted(lv, p + 1, j, middle, x.off, y.off))
  {
    var L := lv[p];
    IndexSplitFlat(L, S, j, i, key, after, x, y);
    assert LevelOK(disk, lvl, L, p) && LevelOK(disk, lvl, lv[p-1], p - 1) && Kids(lv[p-1], S) && ParentsOK(disk, L) by {
      OpenStruct(meta, disk, lv, lvl, p, S);
      assert Kids(lv[p-1], Flat(lv, p, p, S));
    }
    SplitChildren(disk, d, disk', lv[p-1], L, lvl, p, S, j, i, key, after, x, y);
    KidsAboveFolded(meta, disk, lv, lvl, p, S, j, x, y, middle);
    StructSplit(meta, meta', disk, disk', lv, lvl, p, S, j, x, y, Wanted(lv, p + 1, j, middle, x.off, y.off));
  }

  // The node that holds child number c is the parent its header names.
  lemma IndexNode(meta: Meta, disk: Disk, lv: seq<Level>, lvl: map<Off, nat>, l: nat, c: nat, S: seq<Slot>)
    returns (j: nat, i: nat)
    requires Folded(meta, disk, lv, lvl, l, S) && 1 <= l < |lv| && c < |Slots(lv[l])|
    ensures j < |lv[l]| && lv[l][j].InnerNode? && i < |lv[l][j].slots| && c == Start(lv[l], j) + i
    ensures lv[l][j].off != 0 && lv[l][j].off in disk && disk[lv[l][j].off].Internal?
    ensures disk[lv[l][j].off].slots == lv[l][j].slots && |lv[l][j].slots| <= BP_ORDER
    ensures Slots(lv[l])[c].child in disk && disk[Slots(lv[l])[c].child].parent == lv[l][j].off
  {
    OpenTree(meta, disk, lv, lvl, l, S);
    j, i := Locate(lv[l], c);
    NodeFacts(meta, disk, lv, lvl, l, S, l, j);
    assert ParentsOK(disk, lv[l]) && ParentOK(disk, lv[l][j]);
  }

  lemma IndexNeighbour(meta: Meta, disk: Disk, lv: seq<Level>, lvl: map<Off, nat>, l: nat, S: seq<Slot>, j: nat)
    requires StructP(meta, disk, lv, lvl, l, S) && l < |lv| && j < |lv[l]|
    ensures LevelOK(disk, lvl, lv[l], l) && lv[l][j].off in disk && lv[l][j].off != 0
    ensures disk[lv[l][j].off].next != 0 ==> disk[lv[l][j].off].next in disk
    ensures meta.slot !in disk && lvl.Keys <= disk.Keys
    ensures disk[lv[l][j].off].next == OffAt(lv[l], j + 1)
    ensures l >= 1 ==> forall m :: 0 <= m < |lv[l]| ==> lv[l][m].InnerNode? && |lv[l][m].slots| >= 1
    ensures l == |lv| - 1 ==> |lv[l]| == 1 && disk[lv[l][j].off].parent == 0
    ensures l + 1 < |lv| ==> |lv[l]| == |Slots(lv[l+1])| && Slots(lv[l+1])[j].child == lv[l][j].off
  {
    assert LevelOK(disk, lvl, lv[l], l) && NodeOK(disk, lvl, lv[l], l, j);
    if j + 1 < |lv[l]| {
      assert NodeOK(disk, lvl, lv[l], l, j + 1);
    }
    if l >= 1 {
      LevelFacts(meta, disk, lv, lvl, l, S, l);
    }
    if l + 1 < |lv| {
      assert Kids(lv[l], Flat(lv, l + 1, l, S));
    }
  }

  lemma IndexPoint(lv: seq<Level>, l: nat, S: seq<Slot>, j: nat, i: nat, key: Key, after: Off)
    requires KeysP(lv, l, S) && 1 <= l < |lv|
    requires j < |lv[l]| && lv[l][j].InnerNode? && i < |lv[l][j].slots| && Start(lv[l], j) + i < |Slots(lv[l])|
    requires S == InsertSlot(Slots(lv[l]), Start(lv[l], j) + i, key, after)
    ensures SortedSlots(Slots(lv[l])) && SortedSlots(lv[l][j].slots) && UpperAt(lv[l][j].slots, key, i)
    ensures forall k :: 0 <= k < |lv[l][j].slots| - 1 ==> Rank(lv[l][j].slots[k].key) != Rank(key)
  {
    assert KeysAt(lv[l-1], Flat(lv, l, l, S));
    InsertPoint(lv[l], j, i, key, after);
  }

  lemma SplitChildrenKnown(slots: seq<Slot>, i: nat, key: Key, after: Off, left: seq<Slot>, right: seq<Slot>,
      disk: Disk)
    requires i < |slots| && left + right == InsertSlot(slots, i, key, after)
    requires after in disk && forall m :: 0 <= m < |slots| ==> slots[m].child in disk
    ensures forall m :: 0 <= m < |right| ==> right[m].child in disk
  {
    var T := InsertSlot(slots, i, key, after);
    forall m | 0 <= m < |right| ensures right[m].child in disk {
      var n := |left| + m;
      assert T[n] == right[m];
      assert n <= i ==> T[n].child == slots[n].child;
      assert n > i + 1 ==> T[n].child == slots[n-1].child;
    }
  }

  lemma IndexChildren(meta: Meta, disk: Disk, lv: seq<Level>, lvl: map<Off, nat>, l: nat, S: seq<Slot>, j: nat)
    requires Folded(meta, disk, lv, lvl, l, S) && 1 <= l < |lv| && j < |lv[l]| && lv[l][j].InnerNode?
    ensures forall m :: 0 <= m < |lv[l][j].slots| ==> lv[l][j].slots[m].child in disk
  {
    OpenTree(meta, disk, lv, lvl, l, S);
    assert ParentsOK(disk, lv[l]) && ParentOK(disk, lv[l][j]);
    assert SlotsOf(lv[l][j]) == lv[l][j].slots;
  }

  // The writes of an internal split, from node_create to the children's new parents.
  ghost function SplitDisk(disk: Disk, block: Block, offset: Off, slot: Off, left: seq<Slot>, right: seq<Slot>): Disk
    requires block.Internal? && (block.next != 0 ==> block.next in disk)
  {
    (if block.next != 0 then disk[block.next := disk[block.next].(prev := slot)] else disk)
      [offset := block.(next := slot, slots := left)]
      [slot := Internal(block.parent, block.next, offset, right)]
  }

  // What is known at node j before its split.
  lemma IndexBefore(meta: Meta, disk: Disk, lv: seq<Level>, lvl: map<Off, nat>, l: nat, S: seq<Slot>, j: nat)
    requires Folded(meta, disk, lv, lvl, l, S) && 1 <= l < |lv| && j < |lv[l]|
    ensures lv[l][j].off in disk && lv[l][j].off != 0 && meta.slot !in disk
    ensures disk[lv[l][j].off].next != 0 ==> disk[lv[l][j].off].next in disk
    ensures l == |lv| - 1 ==> j == 0 && disk[lv[l][j].off].parent == 0
    ensures l + 1 < |lv| ==> j < |Slots(lv[l+1])| && Slots(lv[l+1])[j].child == lv[l][j].off
  {
    OpenTree(meta, disk, lv, lvl, l, S);
    IndexNeighbour(meta, disk, lv, lvl, l, S, j);
  }

  lemma IndexSplitStruct(meta: Meta, meta': Meta, disk: Disk, disk': Disk, lv: seq<Level>, lvl: map<Off, nat>,
      l: nat, S: seq<Slot>, j: nat, i: nat, key: Key, after: Off, x: Node, y: Node, k: nat)
    requires Folded(meta, disk, lv, lvl, l, S) && 1 <= l < |lv|
    requires j < |lv[l]| && lv[l][j].InnerNode? && i < |lv[l][j].slots| == BP_ORDER && k < BP_ORDER - 1
    requires Start(lv[l], j) + i < |Slots(lv[l])|
    requires S == InsertSlot(Slots(lv[l]), Start(lv[l], j) + i, key, after)
    requires after in disk && disk[after].parent == lv[l][j].off
    requires x.InnerNode? && y.InnerNode? && x.off == lv[l][j].off && y.off == meta.slot
    requires EvenSplit(lv[l][j].slots, i, key, after, x.slots, y.slots, lv[l][j].slots[k].key)
    requires y.slots[|y.slots|-1].key == lv[l][j].slots[BP_ORDER-1].key
    requires x.off in disk && disk[x.off].Internal? && (disk[x.off].next != 0 ==> disk[x.off].next in disk)
    requires ParentsReset(SplitDisk(disk, disk[x.off], x.off, y.off, x.slots, y.slots), disk', y.slots, y.off)
    requires meta' == meta.(slot := meta.slot + INTERNAL_SIZE, internalNum := meta.internalNum + 1)
    ensures l + 1 < |lv| ==> j < |Slots(lv[l+1])|
    ensures FoldedStruct(meta', disk', lv[l := WithSplit(lv[l], j, x, y)], lvl[y.off := l],
                    l + 1, Wanted(lv, l + 1, j, lv[l][j].slots[k].key, x.off, y.off))
  {
    var d := SplitDisk(disk, disk[x.off], x.off, y.off, x.slots, y.slots);
    IndexSplitWrite(meta, disk, lv, lvl, l, S, j, x, y);
    IndexSplit(meta, meta', disk, d, disk', lv, lvl, l, S, j, i, key, after, x, y, lv[l][j].slots[k].key);
  }

  lemma IndexSplitWrite(meta: Meta, disk: Disk, lv: seq<Level>, lvl: map<Off, nat>, l: nat, S: seq<Slot>, j: nat,
      x: Node, y: Node)
    requires Folded(meta, disk, lv, lvl, l, S) && 1 <= l < |lv| && j < |lv[l]|
    requires x.InnerNode? && y.InnerNode? && x.off == lv[l][j].off && y.off == meta.slot
    requires x.off in disk && disk[x.off].Internal? && (disk[x.off].next != 0 ==> disk[x.off].next in disk)
    ensures var d := SplitDisk(disk, disk[x.off], x.off, y.off, x.slots, y.slots);
      SplitWrite(disk, d, lv[l], j, x, y) && OnlyLevel(disk, d, lvl, l)
      && forall o :: o in disk ==> o in d && d[o].parent == disk[o].parent
  {
    var d := SplitDisk(disk, disk[x.off], x.off, y.off, x.slots, y.slots);
    OpenTree(meta, disk, lv, lvl, l, S);
    IndexNeighbour(meta, disk, lv, lvl, l, S, j);
    SplitOnDisk(disk, d, lvl, lv[l], l, j, x, y, d[x.off], d[y.off]);
  }

  lemma IndexSplitKeys(meta: Meta, disk: Disk, lv: seq<Level>, lvl: map<Off, nat>,
      l: nat, S: seq<Slot>, j: nat, i: nat, key: Key, after: Off, x: Node, y: Node, k: nat)
    requires Folded(meta, disk, lv, lvl, l, S) && 1 <= l < |lv|
    requires j < |lv[l]| && lv[l][j].InnerNode? && i < |lv[l][j].slots| == BP_ORDER && k < BP_ORDER - 1
    requires Start(lv[l], j) + i < |Slots(lv[l])|
    requires S == InsertSlot(Slots(lv[l]), Start(lv[l], j) + i, key, after)
    requires x.InnerNode? && y.InnerNode? && x.off == lv[l][j].off && y.off == meta.slot
    requires EvenSplit(lv[l][j].slots, i, key, after, x.slots, y.slots, lv[l][j].slots[k].key)
    requires y.slots[|y.slots|-1].key == lv[l][j].slots[BP_ORDER-1].key
    ensures l + 1 < |lv| ==> j < |Slots(lv[l+1])|
    ensures KeysP(lv[l := WithSplit(lv[l], j, x, y)], l + 1,
                  Wanted(lv, l + 1, j, lv[l][j].slots[k].key, x.off, y.off))
  {
    OpenTree(meta, disk, lv, lvl, l, S);
    IndexPoint(lv, l, S, j, i, key, after);
    IndexNeighbour(meta, disk, lv, lvl, l, S, j);
    IndexSplitFlat(lv[l], S, j, i, key, after, x, y);
    KeysIndexSplit(lv, l, S, j, x, y, lv[l][j].slots[k].key, k);
  }

  /** After an internal split the tree waits, one level up, for the middle key. */
  lemma IndexSplitDone(meta: Meta, meta': Meta, disk: Disk, disk': Disk, lv: seq<Level>, lvl: map<Off, nat>,
      l: nat, S: seq<Slot>, j: nat, i: nat, key: Key, after: Off, x: Node, y: Node, k: nat)
    requires Folded(meta, disk, lv, lvl, l, S) && 1 <= l < |lv|
    requires j < |lv[l]| && lv[l][j].InnerNode? && i < |lv[l][j].slots| == BP_ORDER && k < BP_ORDER - 1
    requires Start(lv[l], j) + i < |Slots(lv[l])|
    requires S == InsertSlot(Slots(lv[l]), Start(lv[l], j) + i, key, after)
    requires after in disk && disk[after].parent == lv[l][j].off
    requires x.InnerNode? && y.InnerNode? && x.off == lv[l][j].off && y.off == meta.slot
    requires EvenSplit(lv[l][j].slots, i, key, after, x.slots, y.slots, lv[l][j].slots[k].key)
    requires y.slots[|y.slots|-1].key == lv[l][j].slots[BP_ORDER-1].key
    requires x.off in disk && disk[x.off].Internal? && (disk[x.off].next != 0 ==> disk[x.off].next in disk)
    requires ParentsReset(SplitDisk(disk, disk[x.off], x.off, y.off, x.slots, y.slots), disk', y.slots, y.off)
    requires meta' == meta.(slot := meta.slot + INTERNAL_SIZE, internalNum := meta.internalNum + 1)
    ensures PendingIndex(meta', disk', lv[l := WithSplit(lv[l], j, x, y)], lvl[y.off := l],
                         l + 1, j, lv[l][j].slots[k].key, x.off, y.off, disk[x.off].parent)
  {
    var lv' := lv[l := WithSplit(lv[l], j, x, y)];
    IndexBefore(meta, disk, lv, lvl, l, S, j);
    var S2 := Wanted(lv, l + 1, j, lv[l][j].slots[k].key, x.off, y.off);
    IndexSplitStruct(meta, meta', disk, disk', lv, lvl, l, S, j, i, key, after, x, y, k);
    IndexSplitKeys(meta, disk, lv, lvl, l, S, j, i, key, after, x, y, k);
    FoldTree(meta', disk', lv', lvl[y.off := l], l + 1, S2);
    assert !IsChild(y.slots, x.off) && !IsChild(y.slots, y.off) by {
      OpenTree(meta, disk, lv, lvl, l, S);
      SplitHalvesNotChildren(meta, disk, lv, lvl, l, S, j, i, key, after, x, y);
    }
  }

  // Neither half of a split is among the children of the right half.
  lemma SplitHalvesNotChildren(meta: Meta, disk: Disk, lv: seq<Level>, lvl: map<Off, nat>,
      l: nat, S: seq<Slot>, j: nat, i: nat, key: Key, after: Off, x: Node, y: Node)
    requires StructP(meta, disk, lv, lvl, l, S) && 1 <= l < |lv|
    requires j < |lv[l]| && lv[l][j].InnerNode? && i < |lv[l][j].slots| && x.InnerNode? && y.InnerNode?
    requires Start(lv[l], j) + i < |Slots(lv[l])|
    requires S == InsertSlot(Slots(lv[l]), Start(lv[l], j) + i, key, after)
    requires x.slots + y.slots == InsertSlot(lv[l][j].slots, i, key, after)
    requires x.off == lv[l][j].off && y.off == meta.slot
    ensures !IsChild(y.slots, x.off) && !IsChild(y.slots, y.off)
  {
    IndexSplitFlat(lv[l], S, j, i, key, after, x, y);
    assert Kids(lv[l-1], Flat(lv, l, l, S)) && LevelOK(disk, lvl, lv[l-1], l - 1) && LevelOK(disk, lvl, lv[l], l);
    assert NodeOK(disk, lvl, lv[l], l, j);
    forall m | 0 <= m < |y.slots| ensures y.slots[m].child != x.off && y.slots[m].child != y.off {
      ChildLevel(disk, lvl, lv[l-1], WithSplit(lv[l], j, x, y), l, j + 1, m);
    }
  }

  lemma IndexPointFolded(meta: Meta, disk: Disk, lv: seq<Level>, lvl: map<Off, nat>,
      l: nat, S: seq<Slot>, j: nat, i: nat, key: Key, after: Off)
    requires Folded(meta, disk, lv, lvl, l, S) && 1 <= l < |lv|
    requires j < |lv[l]| && lv[l][j].InnerNode? && i < |lv[l][j].slots| && Start(lv[l], j) + i < |Slots(lv[l])|
    requires S == InsertSlot(Slots(lv[l]), Start(lv[l], j) + i, key, after)
    ensures SortedSlots(lv[l][j].slots) && UpperAt(lv[l][j].slots, key, i)
    ensures forall k :: 0 <= k < |lv[l][j].slots| - 1 ==> Rank(lv[l][j].slots[k].key) != Rank(key)
  {
    OpenTree(meta, disk, lv, lvl, l, S);
    IndexPoint(lv, l, S, j, i, key, after);
  }

  lemma NodeFills(meta: Meta, disk: Disk, lv: seq<Level>, lvl: map<Off, nat>, l: nat, S: seq<Slot>, j: nat)
    requires Folded(meta, disk, lv, lvl, l, S) && 1 <= l < |lv| && j < |lv[l]| && lv[l][j].InnerNode?
    ensures |lv[l][j].slots| <= meta.order == BP_ORDER
  {
    OpenTree(meta, disk, lv, lvl, l, S);
    assert SizesOK(lv[l], l);
  }
}
