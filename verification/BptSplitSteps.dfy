/** Node splits, of leaves and of internal nodes, and the new root. */
module BptSplitSteps {
  import opened BptLevels
  import opened BptTree
  import opened BptSteps
  import opened BptAdvance

  // ---------- reset_index_children_parent ----------

  ghost predicate IsChild(slots: seq<Slot>, o: Off)
  {
    exists i :: 0 <= i < |slots| && slots[i].child == o
  }

  // disk' is disk with the children of these slots handed to a new parent.
  ghost predicate ParentsReset(disk: Disk, disk': Disk, slots: seq<Slot>, parent: Off)
  {
    && disk'.Keys == disk.Keys
    && forall o :: o in disk ==> disk'[o] == (if IsChild(slots, o) then disk[o].(parent := parent) else disk[o])
  }

  lemma ResetOneMore(slots: seq<Slot>, k: nat, o: Off)
    requires k < |slots|
    ensures IsChild(slots[..k+1], o) <==> IsChild(slots[..k], o) || slots[k].child == o
  {
    assert slots[..k+1][k] == slots[k];
    if IsChild(slots[..k], o) {
      var i :| 0 <= i < k && slots[..k][i].child == o;
      assert slots[..k+1][i].child == o;
    }
    if IsChild(slots[..k+1], o) {
      var i :| 0 <= i < k + 1 && slots[..k+1][i].child == o;
      assert i < k ==> slots[..k][i].child == o;
    }
  }

  // Slots of two different nodes of a level have different children.
  lemma ChildrenApart(lower: Level, L: Level, j: nat, i: nat, k: nat, o: Off)
    requires Kids(lower, Slots(L)) && Distinct(lower)
    requires j < |L| && i < |SlotsOf(L[j])| && k < |L| && k != j
    requires o == SlotsOf(L[j])[i].child
    ensures !IsChild(SlotsOf(L[k]), o)
  {
    SlotsAt(L, j, i);
    forall m | 0 <= m < |SlotsOf(L[k])| ensures SlotsOf(L[k])[m].child != o {
      SlotsAt(L, k, m);
      if j < k {
        StartMono(L, j + 1, k);
        SlotsAt(L, j, 0);
      } else {
        StartMono(L, k + 1, j);
        SlotsAt(L, k, 0);
      }
      assert lower[Start(L, j) + i].off != lower[Start(L, k) + m].off;
    }
  }

  // ---------- one more node on level p ----------

  ghost predicate SplitWrite(disk: Disk, disk': Disk, L: Level, j: nat, x: Node, y: Node)
    requires j < |L|
  {
    && y.off !in disk && x.off == L[j].off && x.off in disk
    && disk'.Keys == disk.Keys + {y.off}
    && (forall o :: o in disk ==> (disk'[o].Leaf? <==> disk[o].Leaf?))
    && Matches(disk'[x.off], x) && disk'[x.off].next == y.off && disk'[x.off].prev == OffAt(L, j - 1)
    && Matches(disk'[y.off], y) && disk'[y.off].next == OffAt(L, j + 1) && disk'[y.off].prev == x.off
    && disk'[x.off].parent == disk[x.off].parent == disk'[y.off].parent
    && (forall k :: 0 <= k < |L| && k != j ==>
          Relinked(disk, disk', L[k], if k == j + 1 then y.off else OffAt(L, k - 1)))
  }

  lemma AllocMore(meta: Meta, meta': Meta, disk: Disk, disk': Disk, lvl: map<Off, nat>, l: nat)
    requires AllocOK(meta, disk, lvl)
    requires meta.slot !in disk && disk'.Keys == disk.Keys + {meta.slot}
    requires forall o :: o in disk ==> (disk'[o].Leaf? <==> disk[o].Leaf?)
    requires meta'.slot == meta.slot + SizeOf(disk'[meta.slot])
    ensures AllocOK(meta', disk', lvl[meta.slot := l])
  {
  }

  lemma SizesSplit(L: Level, p: nat, j: nat, x: Node, y: Node)
    requires SizesOK(L, p) && j < |L| && |L| >= 1
    requires MIN_FILL <= Count(x) <= BP_ORDER && MIN_FILL <= Count(y) <= BP_ORDER
    ensures SizesOK(WithSplit(L, j, x, y), p)
  {
    var L' := WithSplit(L, j, x, y);
    forall k | 0 <= k < |L'| ensures MinSize(p, |L'|) <= Count(L'[k]) <= BP_ORDER {
      if k < j {
        assert L'[k] == L[k];
      } else if k > j + 1 {
        assert L'[k] == L[k-1];
      }
    }
  }

  lemma TopSplit(disk: Disk, disk': Disk, L: Level, x: Node, y: Node)
    requires |L| == 1 && TopOK(disk, L) && SplitWrite(disk, disk', L, 0, x, y)
    ensures WithSplit(L, 0, x, y) == [x, y] && TopOK(disk', WithSplit(L, 0, x, y))
  {
  }

  lemma SplitLevel(meta: Meta, disk: Disk, disk': Disk, lv: seq<Level>, lvl: map<Off, nat>,
      p: nat, S: seq<Slot>, j: nat, x: Node, y: Node)
    requires FoldedStruct(meta, disk, lv, lvl, p, S) && p < |lv| && j < |lv[p]|
    requires y.off == meta.slot && SplitWrite(disk, disk', lv[p], j, x, y)
    requires (x.LeafNode? <==> p == 0) && (y.LeafNode? <==> p == 0)
    requires MIN_FILL <= Count(x) <= BP_ORDER && MIN_FILL <= Count(y) <= BP_ORDER
    ensures LevelOK(disk', lvl[y.off := p], WithSplit(lv[p], j, x, y), p)
    ensures SizesOK(WithSplit(lv[p], j, x, y), p)
  {
    OpenStruct(meta, disk, lv, lvl, p, S);
    assert LevelOK(disk, lvl, lv[p], p) && SizesOK(lv[p], p);
    LevelSplit(disk, disk', lvl, lvl[y.off := p], lv[p], p, j, x, y);
    SizesSplit(lv[p], p, j, x, y);
  }

  lemma SplitMeta(meta: Meta, meta': Meta, disk: Disk, disk': Disk, lv: seq<Level>, lvl: map<Off, nat>,
      p: nat, S: seq<Slot>, j: nat, x: Node, y: Node)
    requires FoldedStruct(meta, disk, lv, lvl, p, S) && p < |lv| && j < |lv[p]|
    requires y.off == meta.slot && SplitWrite(disk, disk', lv[p], j, x, y)
    requires meta' == meta.(slot := meta.slot + SizeOf(disk'[y.off]),
                            leafNum := meta.leafNum + (if p == 0 then 1 else 0),
                            internalNum := meta.internalNum + (if p == 0 then 0 else 1))
    requires p + 1 == |lv| ==> j == 0
    ensures MetaOK(meta', lv[p := WithSplit(lv[p], j, x, y)]) && AllocOK(meta', disk', lvl[y.off := p])
    ensures y.off !in lvl
    ensures p + 1 == |lv| ==> |WithSplit(lv[p], j, x, y)| == 2 && TopOK(disk', WithSplit(lv[p], j, x, y))
  {
    OpenStruct(meta, disk, lv, lvl, p, S);
    MetaAfter(meta, meta', lv, p, WithSplit(lv[p], j, x, y));
    AllocMore(meta, meta', disk, disk', lvl, p);
    if p + 1 == |lv| {
      TopSplit(disk, disk', lv[p], x, y);
    }
  }

  lemma StructSplit(meta: Meta, meta': Meta, disk: Disk, disk': Disk, lv: seq<Level>, lvl: map<Off, nat>,
      p: nat, S: seq<Slot>, j: nat, x: Node, y: Node, S2: seq<Slot>)
    requires FoldedStruct(meta, disk, lv, lvl, p, S) && p < |lv| && j < |lv[p]|
    requires y.off == meta.slot && SplitWrite(disk, disk', lv[p], j, x, y)
    requires OnlyLevel(disk, disk', lvl, p)
    requires (x.LeafNode? <==> p == 0) && (y.LeafNode? <==> p == 0)
    requires meta' == meta.(slot := meta.slot + SizeOf(disk'[y.off]),
                            leafNum := meta.leafNum + (if p == 0 then 1 else 0),
                            internalNum := meta.internalNum + (if p == 0 then 0 else 1))
    requires MIN_FILL <= Count(x) <= BP_ORDER && MIN_FILL <= Count(y) <= BP_ORDER
    requires Count(lv[p][j]) == BP_ORDER
    requires p >= 1 ==> ParentsOK(disk', WithSplit(lv[p], j, x, y)) && Slots(WithSplit(lv[p], j, x, y)) == S
    requires Kids(WithSplit(lv[p], j, x, y), S2)
    requires p + 1 == |lv| ==> j == 0
    ensures FoldedStruct(meta', disk', lv[p := WithSplit(lv[p], j, x, y)], lvl[y.off := p], p + 1, S2)
  {
    var lvl' := lvl[y.off := p];
    SplitLevel(meta, disk, disk', lv, lvl, p, S, j, x, y);
    SplitMeta(meta, meta', disk, disk', lv, lvl, p, S, j, x, y);
    StructAdvance(meta, meta', disk, disk', lv, lvl, lvl', p, S, WithSplit(lv[p], j, x, y), p + 1, S2);
  }

  /** Children after an internal split: the right half answers to the new node. */
  lemma ParentsSplit(disk: Disk, d: Disk, disk': Disk, lower: Level, L: Level, j: nat, x: Node, y: Node)
    requires j < |L| && ParentsOK(disk, L) && x.off == L[j].off
    requires Kids(lower, Slots(WithSplit(L, j, x, y))) && Distinct(lower)
    requires forall o :: o in disk ==> o in d && d[o].parent == disk[o].parent
    requires ParentOK(disk, InnerNode(x.off, SlotsOf(x) + SlotsOf(y)))
    requires ParentsReset(d, disk', SlotsOf(y), y.off)
    ensures ParentsOK(disk', WithSplit(L, j, x, y))
  {
    var L' := WithSplit(L, j, x, y);
    var both := InnerNode(x.off, SlotsOf(x) + SlotsOf(y));
    forall k | 0 <= k < |L'| ensures ParentOK(disk', L'[k]) {
      forall i | 0 <= i < |SlotsOf(L'[k])|
        ensures SlotsOf(L'[k])[i].child in disk' && disk'[SlotsOf(L'[k])[i].child].parent == L'[k].off
      {
        var o := SlotsOf(L'[k])[i].child;
        if k == j + 1 {
          assert SlotsOf(both)[|SlotsOf(x)| + i].child == o;
        } else {
          ChildrenApart(lower, L', k, i, j + 1, o);
          assert L'[j+1] == y;
          if k == j {
            assert SlotsOf(both)[i].child == o;
          } else {
            assert ParentOK(disk, L[if k < j then k else k - 1]);
          }
        }
      }
    }
  }

  // ---------- a new root over the two halves of the old one ----------

  ghost function RootBlock(S: seq<Slot>): Block { Internal(0, 0, 0, S) }

  lemma NewRootBlocks(disk: Disk, disk': Disk, lv: seq<Level>, lvl: map<Off, nat>, r: Off, S: seq<Slot>)
    requires Blocks(disk, lv, lvl) && r !in disk && r != 0 && lvl.Keys <= disk.Keys && |lv| >= 1
    requires forall o :: o in disk ==> o in disk' && disk'[o] == disk[o].(parent := disk'[o].parent)
    requires r in disk' && disk'[r] == RootBlock(S)
    ensures Blocks(disk', lv + [[InnerNode(r, S)]], lvl[r := |lv|])
  {
    var lv', lvl' := lv + [[InnerNode(r, S)]], lvl[r := |lv|];
    forall l | 0 <= l < |lv'| ensures LevelOK(disk', lvl', lv'[l], l) {
      if l < |lv| {
        LevelUntouched(disk, disk', lvl, lvl', lv[l], l);
      } else {
        assert NodeOK(disk', lvl', lv'[l], l, 0);
      }
    }
  }

  lemma NewRootParents(disk: Disk, disk': Disk, lv: seq<Level>, lvl: map<Off, nat>, r: Off, S: seq<Slot>)
    requires Blocks(disk, lv, lvl) && Parents(disk, lv) && Children(lv, |lv|, S) && |lv| >= 1
    requires ParentsReset(disk[r := RootBlock(S)], disk', S, r) && r !in disk && lvl.Keys <= disk.Keys
    ensures Parents(disk', lv + [[InnerNode(r, S)]])
  {
    var lv' := lv + [[InnerNode(r, S)]];
    assert Kids(lv[|lv|-1], Flat(lv, |lv|, |lv|, S));
    forall l | 1 <= l < |lv'| ensures ParentsOK(disk', lv'[l]) {
      if l < |lv| {
        assert Kids(lv[l-1], Flat(lv, l, |lv|, S)) && ParentsOK(disk, lv[l]);
        NewRootParentsBelow(disk, disk', lv, lvl, r, S, l);
      } else {
        var x := InnerNode(r, S);
        assert ParentOK(disk', x) by {
          forall i | 0 <= i < |S| ensures S[i].child in disk' && disk'[S[i].child].parent == r {
            assert NodeOK(disk, lvl, lv[|lv|-1], |lv|-1, i);
          }
        }
        assert lv'[l] == [x];
      }
    }
  }

  lemma NewRootParentsBelow(disk: Disk, disk': Disk, lv: seq<Level>, lvl: map<Off, nat>, r: Off, S: seq<Slot>, l: nat)
    requires Blocks(disk, lv, lvl) && 1 <= l < |lv|
    requires ParentsOK(disk, lv[l]) && Kids(lv[l-1], Slots(lv[l])) && Kids(lv[|lv|-1], S)
    requires ParentsReset(disk[r := RootBlock(S)], disk', S, r) && r !in disk && lvl.Keys <= disk.Keys
    ensures ParentsOK(disk', lv[l])
  {
    var top := |lv| - 1;
    forall j | 0 <= j < |lv[l]| ensures ParentOK(disk', lv[l][j]) {
      assert ParentOK(disk, lv[l][j]);
      forall i | 0 <= i < |SlotsOf(lv[l][j])|
        ensures SlotsOf(lv[l][j])[i].child in disk'
        ensures disk'[SlotsOf(lv[l][j])[i].child].parent == lv[l][j].off
      {
        ChildLevel(disk, lvl, lv[l-1], lv[l], l, j, i);
        forall c | 0 <= c < |S| ensures S[c].child in lvl && lvl[S[c].child] == top {
          assert NodeOK(disk, lvl, lv[top], top, c);
        }
      }
    }
  }

  lemma ChildrenPush(lv: seq<Level>, S: seq<Slot>, x: Node)
    requires Children(lv, |lv|, S) && |lv| >= 1 && SlotsOf(x) == S
    ensures Children(lv + [[x]], 0, [])
  {
    var lv' := lv + [[x]];
    SlotsOne(x);
    forall l | 1 <= l < |lv'| ensures Kids(lv'[l-1], Flat(lv', l, 0, [])) {
      assert Kids(lv[l-1], Flat(lv, l, |lv|, S));
    }
  }

  lemma KeysPush(lv: seq<Level>, S: seq<Slot>, x: Node)
    requires KeysP(lv, |lv|, S) && SlotsOf(x) == S
    ensures KeysP(lv + [[x]], 0, [])
  {
    var lv' := lv + [[x]];
    SlotsOne(x);
    forall l | 1 <= l < |lv'| ensures KeysAt(lv'[l-1], Flat(lv', l, 0, [])) {
      assert KeysAt(lv[l-1], Flat(lv, l, |lv|, S));
    }
  }

  lemma NewRootSizes(lv: seq<Level>, x: Node)
    requires Sizes(lv) && |lv| >= 2 && x.InnerNode? && |x.slots| == 2
    ensures Sizes(lv + [[x]])
  {
    var lv' := lv + [[x]];
    forall l | 0 <= l < |lv'| ensures SizesOK(lv'[l], l) {
      if l < |lv| {
        assert SizesOK(lv[l], l);
      }
    }
  }

  lemma NewRootMeta(meta: Meta, meta': Meta, disk: Disk, lv: seq<Level>, lvl: map<Off, nat>, S: seq<Slot>)
    requires FoldedStruct(meta, disk, lv, lvl, |lv|, S) && |S| == 2
    requires meta' == meta.(slot := meta.slot + INTERNAL_SIZE, internalNum := meta.internalNum + 1,
                            height := meta.height + 1, rootOffset := meta.slot)
    ensures var lv' := lv + [[InnerNode(meta.slot, S)]];
      Children(lv', 0, []) && Sizes(lv') && MetaOK(meta', lv')
  {
    var x := InnerNode(meta.slot, S);
    OpenStruct(meta, disk, lv, lvl, |lv|, S);
    ChildrenPush(lv, S, x);
    NewRootSizes(lv, x);
    InnerPush(lv, [x]);
  }

  lemma NewRootStruct(meta: Meta, meta': Meta, disk: Disk, disk': Disk, lv: seq<Level>, lvl: map<Off, nat>,
      S: seq<Slot>)
    requires FoldedStruct(meta, disk, lv, lvl, |lv|, S)
    requires meta' == meta.(slot := meta.slot + INTERNAL_SIZE, internalNum := meta.internalNum + 1,
                            height := meta.height + 1, rootOffset := meta.slot)
    requires ParentsReset(disk[meta.slot := RootBlock(S)], disk', S, meta.slot)
    ensures FoldedStruct(meta', disk', lv + [[InnerNode(meta.slot, S)]], lvl[meta.slot := |lv|], 0, [])
  {
    var r, x := meta.slot, InnerNode(meta.slot, S);
    var lv', lvl' := lv + [[x]], lvl[r := |lv|];
    NewRootOnDisk(meta, meta', disk, disk', lv, lvl, S);
    NewRootMeta(meta, meta', disk, lv, lvl, S);
    assert lv'[meta'.height] == [x];
    FoldStruct(meta', disk', lv', lvl', 0, []);
  }

  lemma NewRootOnDisk(meta: Meta, meta': Meta, disk: Disk, disk': Disk, lv: seq<Level>, lvl: map<Off, nat>,
      S: seq<Slot>)
    requires FoldedStruct(meta, disk, lv, lvl, |lv|, S) && meta'.slot == meta.slot + INTERNAL_SIZE
    requires ParentsReset(disk[meta.slot := RootBlock(S)], disk', S, meta.slot)
    ensures |S| == 2 && AllocOK(meta', disk', lvl[meta.slot := |lv|])
    ensures Blocks(disk', lv + [[InnerNode(meta.slot, S)]], lvl[meta.slot := |lv|])
    ensures Parents(disk', lv + [[InnerNode(meta.slot, S)]])
    ensures meta.slot in disk' && disk'[meta.slot].parent == 0
  {
    var r := meta.slot;
    assert r !in disk && |S| == 2 by {
      OpenStruct(meta, disk, lv, lvl, |lv|, S);
      assert Kids(lv[|lv|-1], Flat(lv, |lv|, |lv|, S));
    }
    OpenStruct(meta, disk, lv, lvl, |lv|, S);
    RootNotChild(meta, disk, lv, lvl, S);
    NewRootBlocks(disk, disk', lv, lvl, r, S);
    NewRootParents(disk, disk', lv, lvl, r, S);
    AllocMore(meta, meta', disk, disk', lvl, |lv|);
  }

  lemma RootNotChild(meta: Meta, disk: Disk, lv: seq<Level>, lvl: map<Off, nat>, S: seq<Slot>)
    requires StructP(meta, disk, lv, lvl, |lv|, S)
    ensures !IsChild(S, meta.slot)
  {
    assert Kids(lv[|lv|-1], Flat(lv, |lv|, |lv|, S));
    forall c | 0 <= c < |S| ensures S[c].child != meta.slot {
      assert LevelOK(disk, lvl, lv[|lv|-1], |lv|-1) && NodeOK(disk, lvl, lv[|lv|-1], |lv|-1, c);
    }
  }

  /** The tree grows by one level. */
  lemma NewRoot(meta: Meta, meta': Meta, disk: Disk, disk': Disk, lv: seq<Level>, lvl: map<Off, nat>, S: seq<Slot>)
    requires Folded(meta, disk, lv, lvl, |lv|, S)
    requires meta' == meta.(slot := meta.slot + INTERNAL_SIZE, internalNum := meta.internalNum + 1,
                            height := meta.height + 1, rootOffset := meta.slot)
    requires ParentsReset(disk[meta.slot := RootBlock(S)], disk', S, meta.slot)
    ensures Inv(meta', disk', lv + [[InnerNode(meta.slot, S)]], lvl[meta.slot := |lv|])
    ensures meta'.leafOffset == meta.leafOffset
  {
    var lv', lvl' := lv + [[InnerNode(meta.slot, S)]], lvl[meta.slot := |lv|];
    assert FoldedStruct(meta', disk', lv', lvl', 0, []) by {
      OpenTree(meta, disk, lv, lvl, |lv|, S);
      NewRootStruct(meta, meta', disk, disk', lv, lvl, S);
    }
    assert KeysP(lv', 0, []) by {
      OpenTree(meta, disk, lv, lvl, |lv|, S);
      KeysPush(lv, S, InnerNode(meta.slot, S));
    }
    FoldTree(meta', disk', lv', lvl', 0, []);
  }
}
