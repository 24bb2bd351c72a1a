/** Merging internal siblings: what merge_keys and node_remove write, and the deletion that is
    then pending one level up. */
module BptMerge {
  import opened BptLevels
  import opened BptTree
  import opened BptSteps
  import opened BptAdvance
  import opened BptSplitSteps
  import opened BptDeleteSteps
  import opened BptIndexDelete
  import opened BptRebalance
  import opened BptBorrow

  // node_remove and the merged block, written after the children of `moved` were handed over.
  ghost function MergeDisk(d: Disk, x: Node, next: Off): Disk
    requires x.InnerNode? && x.off in d && d[x.off].Internal? && (next != 0 ==> next in d)
  {
    (if next != 0 then d[next := d[next].(prev := x.off)] else d)
      [x.off := d[x.off].(next := next, slots := x.slots)]
  }

  // Child o has the right parent, or is about to get it.
  ghost predicate Handed(disk: Disk, moved: seq<Slot>, parent: Off, o: Off)
  {
    o in disk && (IsChild(moved, o) || disk[o].parent == parent)
  }

  // d is disk with the children of `moved` handed to x; disk' is d after the merge.
  ghost predicate MergeWrite(disk: Disk, d: Disk, disk': Disk, x: Node, gone: Off, moved: seq<Slot>)
  {
    && x.InnerNode? && x.off in disk && disk[x.off].Internal? && gone in disk
    && |moved| <= |x.slots| && moved == x.slots[|x.slots|-|moved|..]
    && (disk[gone].next != 0 ==> disk[gone].next in disk)
    && (forall a :: 0 <= a < |x.slots| ==> Handed(disk, moved, x.off, x.slots[a].child))
    && ParentsReset(disk, d, moved, x.off)
    && !IsChild(moved, x.off)
    && disk' == MergeDisk(d, x, disk[gone].next)
  }

  lemma MergeOnDisk(disk: Disk, d: Disk, disk': Disk, lv: seq<Level>, lvl: map<Off, nat>, l: nat, S: seq<Slot>,
      c: nat, x: Node, moved: seq<Slot>)
    requires Blocks(disk, lv, lvl) && Children(lv, l, S) && 1 <= l < |lv| && c + 1 < |lv[l]|
    requires x.off == lv[l][c].off && MergeWrite(disk, d, disk', x, lv[l][c+1].off, moved)
    requires Slots(WithMerge(lv[l], c, x)) == S
    ensures OnlyLevel(disk, disk', lvl, l)
    ensures LevelOK(disk', lvl, WithMerge(lv[l], c, x), l)
  {
    var L, L', lower := lv[l], WithMerge(lv[l], c, x), lv[l-1];
    assert Kids(lower, Flat(lv, l, l, S)) && LevelOK(disk, lvl, lower, l - 1) && LevelOK(disk, lvl, L, l);
    assert MergeWrite(disk, d, disk', x, L[c+1].off, moved);
    MovedBelow(disk, lvl, lower, L', l, c, x, moved);
    MergeLinks(disk, d, disk', lvl, L, l, c, x, moved);
  }

  lemma MovedBelow(disk: Disk, lvl: map<Off, nat>, lower: Level, L: Level, l: nat, c: nat, x: Node, moved: seq<Slot>)
    requires l >= 1 && LevelOK(disk, lvl, lower, l - 1) && Kids(lower, Slots(L))
    requires c < |L| && L[c] == x && x.InnerNode? && |moved| <= |x.slots| && moved == x.slots[|x.slots|-|moved|..]
    ensures forall o :: IsChild(moved, o) ==> o in lvl && lvl[o] == l - 1
  {
    forall o | IsChild(moved, o) ensures o in lvl && lvl[o] == l - 1 {
      var a :| 0 <= a < |moved| && moved[a].child == o;
      ChildLevel(disk, lvl, lower, L, l, c, |x.slots| - |moved| + a);
    }
  }

  lemma MergeLinks(disk: Disk, d: Disk, disk': Disk, lvl: map<Off, nat>, L: Level, l: nat, c: nat, x: Node,
      moved: seq<Slot>)
    requires 1 <= l && LevelOK(disk, lvl, L, l) && c + 1 < |L|
    requires x.off == L[c].off && MergeWrite(disk, d, disk', x, L[c+1].off, moved)
    requires forall o :: IsChild(moved, o) ==> o in lvl && lvl[o] == l - 1
    ensures OnlyLevel(disk, disk', lvl, l)
    ensures LevelOK(disk', lvl, WithMerge(L, c, x), l)
  {
    assert NodeOK(disk, lvl, L, l, c) && NodeOK(disk, lvl, L, l, c + 1);
    var n := disk[L[c+1].off].next;
    assert n == OffAt(L, c + 2);
    assert c + 2 < |L| ==> NodeOK(disk, lvl, L, l, c + 2);
    forall k | 0 <= k < |L| ensures L[k].off in disk && d[L[k].off] == disk[L[k].off] {
      assert NodeOK(disk, lvl, L, l, k);
      assert !IsChild(moved, L[k].off);
    }
    forall k | 0 <= k < |L| && k != c && k != c + 1
      ensures Relinked(disk, disk', L[k], if k == c + 2 then x.off else OffAt(L, k - 1))
    {
      assert NodeOK(disk, lvl, L, l, k);
    }
    LevelMerge(disk, disk', lvl, L, l, c, x);
  }

  lemma OthersNotMoved(disk: Disk, d: Disk, disk': Disk, lower: Level, L: Level, c: nat, x: Node, moved: seq<Slot>,
      m: nat)
    requires c + 1 < |L| && x.off == L[c].off && MergeWrite(disk, d, disk', x, L[c+1].off, moved)
    requires Kids(lower, Slots(WithMerge(L, c, x))) && Distinct(lower) && m < |L| - 1 && m != c
    ensures forall a :: 0 <= a < |SlotsOf(WithMerge(L, c, x)[m])| ==>
      !IsChild(moved, SlotsOf(WithMerge(L, c, x)[m])[a].child)
  {
    var L' := WithMerge(L, c, x);
    forall a | 0 <= a < |SlotsOf(L'[m])| ensures !IsChild(moved, SlotsOf(L'[m])[a].child) {
      ChildrenApart(lower, L', m, a, c, SlotsOf(L'[m])[a].child);
      SuffixChild(moved, x.slots, SlotsOf(L'[m])[a].child);
    }
  }

  lemma MergeParents(disk: Disk, d: Disk, disk': Disk, lower: Level, L: Level, c: nat, x: Node, moved: seq<Slot>)
    requires c + 1 < |L| && x.off == L[c].off && MergeWrite(disk, d, disk', x, L[c+1].off, moved)
    requires ParentsOK(disk, L) && Kids(lower, Slots(WithMerge(L, c, x))) && Distinct(lower)
    ensures ParentsOK(disk', WithMerge(L, c, x))
  {
    var L' := WithMerge(L, c, x);
    assert forall o :: o in disk ==> o in disk' && disk'[o].parent == d[o].parent;
    forall m | 0 <= m < |L'| ensures ParentOK(disk', L'[m]) {
      if m != c {
        assert L'[m] == L[if m < c then m else m + 1] && ParentOK(disk, L[if m < c then m else m + 1]);
        OthersNotMoved(disk, d, disk', lower, L, c, x, moved, m);
      }
    }
  }

  lemma SuffixChild(moved: seq<Slot>, s: seq<Slot>, o: Off)
    requires |moved| <= |s| && moved == s[|s|-|moved|..] && !IsChild(s, o)
    ensures !IsChild(moved, o)
  {
    forall a | 0 <= a < |moved| ensures moved[a].child != o {
      assert s[|s| - |moved| + a].child != o;
    }
  }

  lemma SizesMerge(L: Level, l: nat, c: nat, x: Node)
    requires 1 <= l && c + 1 < |L| && SizesOK(L, l) && MIN_FILL <= Count(x) <= BP_ORDER
    ensures SizesOK(WithMerge(L, c, x), l)
  {
    var L' := WithMerge(L, c, x);
    forall m | 0 <= m < |L'| ensures MinSize(l, |L'|) <= Count(L'[m]) <= BP_ORDER {
      if m != c {
        assert L'[m] == L[if m < c then m else m + 1];
      }
    }
  }

  lemma MergeMeta(meta: Meta, meta': Meta, disk: Disk, d: Disk, disk': Disk, lv: seq<Level>, lvl: map<Off, nat>,
      l: nat, S: seq<Slot>, c: nat, x: Node, moved: seq<Slot>)
    requires FoldedStruct(meta, disk, lv, lvl, l, S) && 1 <= l < |lv| - 1 && c + 1 < |lv[l]|
    requires x.off == lv[l][c].off && MergeWrite(disk, d, disk', x, lv[l][c+1].off, moved)
    requires meta.internalNum >= 1 && meta' == meta.(internalNum := meta.internalNum - 1)
    ensures MetaOK(meta', lv[l := WithMerge(lv[l], c, x)]) && AllocOK(meta', disk', lvl)
  {
    MergeKinds(disk, d, disk', x, lv[l][c+1].off, moved);
    OpenStruct(meta, disk, lv, lvl, l, S);
    MetaAfter(meta, meta', lv, l, WithMerge(lv[l], c, x));
    AllocKept(meta, meta', disk, disk', lvl);
  }

  lemma MergeKinds(disk: Disk, d: Disk, disk': Disk, x: Node, gone: Off, moved: seq<Slot>)
    requires MergeWrite(disk, d, disk', x, gone, moved)
    ensures disk'.Keys == disk.Keys && forall o :: o in disk ==> (disk'[o].Leaf? <==> disk[o].Leaf?)
  {
  }

  lemma MergeStruct(meta: Meta, meta': Meta, disk: Disk, d: Disk, disk': Disk, lv: seq<Level>, lvl: map<Off, nat>,
      l: nat, S: seq<Slot>, c: nat, x: Node, moved: seq<Slot>, stale2: bool)
    requires FoldedStruct(meta, disk, lv, lvl, l, S) && 1 <= l < |lv| - 1 && c + 1 < |lv[l]|
    requires x.off == lv[l][c].off && MergeWrite(disk, d, disk', x, lv[l][c+1].off, moved)
    requires Slots(WithMerge(lv[l], c, x)) == S
    requires MIN_FILL <= |x.slots| <= BP_ORDER
    requires |Slots(lv[l+1])| == |lv[l]|
    requires meta.internalNum >= 1 && meta' == meta.(internalNum := meta.internalNum - 1)
    ensures FoldedStruct(meta', disk', lv[l := WithMerge(lv[l], c, x)], lvl, l + 1, Deleted(Slots(lv[l+1]), c, stale2))
  {
    var L, L', S2 := lv[l], WithMerge(lv[l], c, x), Deleted(Slots(lv[l+1]), c, stale2);
    assert OnlyLevel(disk, disk', lvl, l) && LevelOK(disk', lvl, L', l) by {
      OpenStruct(meta, disk, lv, lvl, l, S);
      MergeOnDisk(disk, d, disk', lv, lvl, l, S, c, x, moved);
    }
    assert ParentsOK(disk', L') by {
      OpenStruct(meta, disk, lv, lvl, l, S);
      assert Kids(lv[l-1], Flat(lv, l, l, S)) && LevelOK(disk, lvl, lv[l-1], l - 1) && ParentsOK(disk, L);
      MergeParents(disk, d, disk', lv[l-1], L, c, x, moved);
    }
    assert SizesOK(L', l) by {
      OpenStruct(meta, disk, lv, lvl, l, S);
      assert SizesOK(L, l);
      SizesMerge(L, l, c, x);
    }
    assert Kids(L', S2) by {
      OpenStruct(meta, disk, lv, lvl, l, S);
      assert Kids(L, Flat(lv, l + 1, l, S));
      KidsMerge(L, Slots(lv[l+1]), c, x, stale2);
    }
    MergeMeta(meta, meta', disk, d, disk', lv, lvl, l, S, c, x, moved);
    StructAdvance(meta, meta', disk, disk', lv, lvl, lvl, l, S, L', l + 1, S2);
  }

  lemma MergeKeys(lv: seq<Level>, l: nat, S: seq<Slot>, c: nat, x: Node, stale2: bool, ok: bool, b: nat)
    requires UpperKeys(lv, l) && l + 1 < |lv| && c + 1 < |lv[l]|
    requires AllInner(lv[l]) && x.InnerNode? && |x.slots| > 0
    requires KeysState(lv, l, S, ok, b) && Slots(WithMerge(lv[l], c, x)) == S
    requires |Slots(lv[l+1])| == |lv[l]|
    requires ok && c + 2 < |lv[l]| ==> LastKey(x) == Slots(lv[l+1])[c+1].key
    ensures var lv1 := lv[l := WithMerge(lv[l], c, x)];
      && UpperKeys(lv1, l + 1)
      && KeysState(lv1, l + 1, Deleted(Slots(lv[l+1]), c, stale2),
                   ok && (stale2 ==> c + 2 == |lv[l]|), if ok then l + 1 else b)
  {
    var L, U, L' := lv[l], Slots(lv[l+1]), WithMerge(lv[l], c, x);
    var lv1, S2 := lv[l := L'], Deleted(Slots(lv[l+1]), c, stale2);
    assert KeysAt(L, U);
    if ok && (stale2 ==> c + 2 == |L|) {
      KeysMergeInner(L, U, c, x, stale2);
      KeysAdvance(lv, l, S, L', l + 1, S2);
    } else if ok {
      StaleKeyBreaks(L, U, c, x);
    } else {
      assert Flat(lv1, b, l + 1, S2) == Flat(lv, b, l, S);
    }
    forall m | l + 1 < m < |lv1| ensures KeysAt(lv1[m-1], Slots(lv1[m])) {
      assert KeysAt(lv[m-1], Slots(lv[m]));
    }
  }

  // The list of level l after the deletion in node j and the merge of nodes c and c + 1.
  lemma MergedFlat(L: Level, j: nat, i: nat, stale: bool, c: nat, x: Node)
    requires c + 1 < |L| && (j == c || j == c + 1) && L[j].InnerNode? && i + 1 < |L[j].slots|
    requires SlotsOf(x)
          == (if j == c then Deleted(L[j].slots, i, stale) + SlotsOf(L[c+1])
              else SlotsOf(L[c]) + Deleted(L[j].slots, i, stale))
    ensures Start(L, j) + i + 1 < |Slots(L)|
    ensures Slots(WithMerge(L, c, x)) == Deleted(Slots(L), Start(L, j) + i, stale)
  {
    var z := InnerNode(L[j].off, Deleted(L[j].slots, i, stale));
    SlotsOne(z);
    FlatDelete(L, j, i, stale, [z]);
    assert L[j := z] == L[..j] + [z] + L[j+1..];
    FlatMerge(L[j := z], c, x);
    assert WithMerge(L[j := z], c, x) == WithMerge(L, c, x);
  }

  // The last key of the merged node is the one its right part had.
  lemma MergedLast(lv: seq<Level>, l: nat, c: nat, x: Node, j: nat, i: nat, stale: bool, ok: bool)
    requires UpperKeys(lv, l) && l + 1 < |lv| && c + 2 < |lv[l]| && (j == c || j == c + 1)
    requires lv[l][c+1].InnerNode? && |lv[l][c+1].slots| > 0 && lv[l][j].InnerNode? && i + 1 < |lv[l][j].slots|
    requires stale ==> i + 2 == |lv[l][j].slots|
    requires ok && stale ==> j + 1 == |lv[l]|
    requires SlotsOf(x)
          == (if j == c then Deleted(lv[l][j].slots, i, stale) + SlotsOf(lv[l][c+1])
              else SlotsOf(lv[l][c]) + Deleted(lv[l][j].slots, i, stale))
    ensures |SlotsOf(x)| > 0 && |lv[l]| == |Slots(lv[l+1])|
    ensures ok ==> LastKey(x) == Slots(lv[l+1])[c+1].key
  {
    assert KeysAt(lv[l], Slots(lv[l+1]));
    assert SepOK(lv[l][c+1], lv[l][c+2], Slots(lv[l+1])[c+1].key);
  }

  lemma MergeDoneKeys(lv: seq<Level>, l: nat, S: seq<Slot>, j: nat, i: nat, stale: bool, ok: bool, b: nat,
      c: nat, x: Node, stale2: bool)
    requires UpperKeys(lv, l) && l + 1 < |lv| && c + 1 < |lv[l]| && (j == c || j == c + 1)
    requires AllInner(lv[l]) && x.InnerNode? && |x.slots| > 0 && i + 1 < |SlotsOf(lv[l][j])|
    requires forall m :: 0 <= m < |lv[l]| ==> lv[l][m].InnerNode? && |lv[l][m].slots| >= 1
    requires stale ==> i + 2 == |SlotsOf(lv[l][j])|
    requires ok && stale ==> j + 1 == |lv[l]|
    requires KeysState(lv, l, S, ok, b) && Slots(WithMerge(lv[l], c, x)) == S && |Slots(lv[l+1])| == |lv[l]|
    requires SlotsOf(x)
          == (if j == c then Deleted(SlotsOf(lv[l][j]), i, stale) + SlotsOf(lv[l][c+1])
              else SlotsOf(lv[l][c]) + Deleted(SlotsOf(lv[l][j]), i, stale))
    ensures var lv1 := lv[l := WithMerge(lv[l], c, x)];
      && UpperKeys(lv1, l + 1)
      && KeysState(lv1, l + 1, Deleted(Slots(lv[l+1]), c, stale2),
                   ok && (stale2 ==> c + 2 == |lv[l]|), if ok then l + 1 else b)
  {
    if c + 2 < |lv[l]| {
      MergedLast(lv, l, c, x, j, i, stale, ok);
    }
    MergeKeys(lv, l, S, c, x, stale2, ok, b);
  }

  /** A merge hands the deletion to the parent: slot pi + 1 of node k goes next. The right key
      keeps the tree repairable; the stale one breaks it unless the parent is rightmost. */
  lemma MergeDone(meta: Meta, meta': Meta, disk: Disk, d: Disk, disk': Disk, lv: seq<Level>, lvl: map<Off, nat>,
      l: nat, j: nat, i: nat, stale: bool, ok: bool, b: nat, c: nat, k: nat, pi: nat, x: Node, moved: seq<Slot>,
      stale2: bool)
    requires PendingDelete(meta, disk, lv, lvl, l, j, i, stale, ok, b) && l < |lv| - 1
    requires (j == c || j == c + 1) && c + 1 < |lv[l]|
    requires Under(lv, l, c, k, pi) && lv[l+1][k].InnerNode? && pi + 1 < |lv[l+1][k].slots|
    requires stale2 ==> pi + 2 == |lv[l+1][k].slots|
    requires stale2 && c + 2 == |lv[l]| ==> k + 1 == |lv[l+1]|
    requires x.off == lv[l][c].off && MergeWrite(disk, d, disk', x, lv[l][c+1].off, moved)
    requires SlotsOf(x)
          == (if j == c then Remaining(lv, l, j, i, stale) + SlotsOf(lv[l][c+1])
              else SlotsOf(lv[l][c]) + Remaining(lv, l, j, i, stale))
    requires MIN_FILL <= |x.slots| <= BP_ORDER
    requires meta.internalNum >= 1 && meta' == meta.(internalNum := meta.internalNum - 1)
    ensures PendingDelete(meta', disk', lv[l := WithMerge(lv[l], c, x)], lvl, l + 1, k, pi, stale2,
                          ok && (stale2 ==> c + 2 == |lv[l]|), if ok then l + 1 else b)
  {
    var S := Deleted(Slots(lv[l]), Start(lv[l], j) + i, stale);
    MergeDoneStruct(meta, meta', disk, d, disk', lv, lvl, l, S, j, i, stale, c, k, pi, x, moved, stale2);
    MergeDoneState(meta, disk, lv, lvl, l, j, i, stale, ok, b, c, x, stale2);
    Assemble(meta', disk', lv[l := WithMerge(lv[l], c, x)], lvl, l + 1, lv[l+1], k, pi, c, stale2,
             ok && (stale2 ==> c + 2 == |lv[l]|), if ok then l + 1 else b);
  }

  // A deletion pending in node k of level l, which is U.
  lemma Assemble(meta: Meta, disk: Disk, lv: seq<Level>, lvl: map<Off, nat>, l: nat, U: Level, k: nat, pi: nat, c: nat,
      stale: bool, ok: bool, b: nat)
    requires 1 <= l < |lv| && lv[l] == U && k < |U| && U[k].InnerNode? && pi + 1 < |U[k].slots|
    requires c == Start(U, k) + pi && c + 1 < |Slots(U)| && UpperKeys(lv, l)
    requires (stale ==> pi + 2 == |U[k].slots|) && (stale && ok ==> k + 1 == |U|)
    requires FoldedStruct(meta, disk, lv, lvl, l, Deleted(Slots(U), c, stale))
    requires KeysState(lv, l, Deleted(Slots(U), c, stale), ok, b)
    ensures PendingDelete(meta, disk, lv, lvl, l, k, pi, stale, ok, b)
  {
  }

  lemma MergeDoneState(meta: Meta, disk: Disk, lv: seq<Level>, lvl: map<Off, nat>,
      l: nat, j: nat, i: nat, stale: bool, ok: bool, b: nat, c: nat, x: Node, stale2: bool)
    requires PendingDelete(meta, disk, lv, lvl, l, j, i, stale, ok, b) && l < |lv| - 1
    requires (j == c || j == c + 1) && c + 1 < |lv[l]| && x.InnerNode? && |x.slots| > 0
    requires SlotsOf(x)
          == (if j == c then Deleted(SlotsOf(lv[l][j]), i, stale) + SlotsOf(lv[l][c+1])
              else SlotsOf(lv[l][c]) + Deleted(SlotsOf(lv[l][j]), i, stale))
    requires Slots(WithMerge(lv[l], c, x)) == Deleted(Slots(lv[l]), Start(lv[l], j) + i, stale)
    requires AllInner(lv[l]) && forall m :: 0 <= m < |lv[l]| ==> lv[l][m].InnerNode? && |lv[l][m].slots| >= 1
    requires |Slots(lv[l+1])| == |lv[l]|
    ensures var lv1 := lv[l := WithMerge(lv[l], c, x)];
      && UpperKeys(lv1, l + 1)
      && KeysState(lv1, l + 1, Deleted(Slots(lv[l+1]), c, stale2),
                   ok && (stale2 ==> c + 2 == |lv[l]|), if ok then l + 1 else b)
  {
    OpenDelete(meta, disk, lv, lvl, l, j, i, stale, ok, b);
    MergeDoneKeys(lv, l, Deleted(Slots(lv[l]), Start(lv[l], j) + i, stale), j, i, stale, ok, b, c, x, stale2);
  }

  lemma MergeDoneStruct(meta: Meta, meta': Meta, disk: Disk, d: Disk, disk': Disk, lv: seq<Level>, lvl: map<Off, nat>,
      l: nat, S: seq<Slot>, j: nat, i: nat, stale: bool, c: nat, k: nat, pi: nat, x: Node, moved: seq<Slot>,
      stale2: bool)
    requires FoldedStruct(meta, disk, lv, lvl, l, S) && 1 <= l < |lv| - 1
    requires j < |lv[l]| && lv[l][j].InnerNode? && i + 1 < |lv[l][j].slots|
    requires Start(lv[l], j) + i + 1 < |Slots(lv[l])| && S == Deleted(Slots(lv[l]), Start(lv[l], j) + i, stale)
    requires (j == c || j == c + 1) && c + 1 < |lv[l]|
    requires Under(lv, l, c, k, pi) && lv[l+1][k].InnerNode? && pi + 1 < |lv[l+1][k].slots|
    requires x.off == lv[l][c].off && MergeWrite(disk, d, disk', x, lv[l][c+1].off, moved)
    requires SlotsOf(x)
          == (if j == c then Deleted(lv[l][j].slots, i, stale) + SlotsOf(lv[l][c+1])
              else SlotsOf(lv[l][c]) + Deleted(lv[l][j].slots, i, stale))
    requires MIN_FILL <= |x.slots| <= BP_ORDER
    requires meta.internalNum >= 1 && meta' == meta.(internalNum := meta.internalNum - 1)
    ensures Slots(WithMerge(lv[l], c, x)) == S && |Slots(lv[l+1])| == |lv[l]|
    ensures AllInner(lv[l]) && forall m :: 0 <= m < |lv[l]| ==> lv[l][m].InnerNode? && |lv[l][m].slots| >= 1
    ensures Start(lv[l+1], k) + pi + 1 < |Slots(lv[l+1])|
    ensures FoldedStruct(meta', disk', lv[l := WithMerge(lv[l], c, x)], lvl, l + 1, Deleted(Slots(lv[l+1]), c, stale2))
  {
    MergedFlat(lv[l], j, i, stale, c, x);
    UpperFacts(meta, disk, lv, lvl, l, S);
    SlotsAt(lv[l+1], k, pi + 1);
    UpperCount(meta, disk, lv, lvl, l, S);
    MergeStruct(meta, meta', disk, d, disk', lv, lvl, l, S, c, x, moved, stale2);
  }

  lemma UpperCount(meta: Meta, disk: Disk, lv: seq<Level>, lvl: map<Off, nat>, l: nat, S: seq<Slot>)
    requires FoldedStruct(meta, disk, lv, lvl, l, S) && 1 <= l < |lv| - 1
    ensures |Slots(lv[l+1])| == |lv[l]|
  {
    OpenStruct(meta, disk, lv, lvl, l, S);
    assert Kids(lv[l], Flat(lv, l + 1, l, S));
  }

  // ---------- the root left with one child ----------

  lemma CollapseBelow(meta: Meta, disk: Disk, disk': Disk, lv: seq<Level>, lvl: map<Off, nat>, S: seq<Slot>)
    requires |lv| >= 3 && |S| == 1 && StructP(meta, disk, lv, lvl, |lv| - 1, S)
    requires S[0].child in disk && disk' == disk[S[0].child := disk[S[0].child].(parent := 0)]
    ensures Blocks(disk', lv[..|lv|-1], lvl) && Parents(disk', lv[..|lv|-1])
    ensures |lv[|lv|-2]| == 1 && lv[|lv|-2][0].off == S[0].child
  {
    var t := |lv| - 2;
    assert Kids(lv[t], Flat(lv, t + 1, t + 1, S));
    assert LevelOK(disk, lvl, lv[t], t) && NodeOK(disk, lvl, lv[t], t, 0);
    var lv' := lv[..t+1];
    forall l | 0 <= l < |lv'| ensures LevelOK(disk', lvl, lv'[l], l) {
      LevelUntouched(disk, disk', lvl, lvl, lv[l], l);
    }
    forall l | 1 <= l < |lv'| ensures ParentsOK(disk', lv'[l]) {
      assert Kids(lv[l-1], Flat(lv, l, t + 1, S)) && ParentsOK(disk, lv[l]) && LevelOK(disk, lvl, lv[l-1], l - 1);
      ParentsUntouched(disk, disk', lvl, lv[l-1], lv[l], l, t + 1);
    }
  }

  lemma CollapseStruct(meta: Meta, meta': Meta, disk: Disk, disk': Disk, lv: seq<Level>, lvl: map<Off, nat>,
      S: seq<Slot>)
    requires |lv| >= 3 && |S| == 1 && FoldedStruct(meta, disk, lv, lvl, |lv| - 1, S)
    requires S[0].child in disk && disk' == disk[S[0].child := disk[S[0].child].(parent := 0)]
    requires meta.internalNum >= 1 && meta.height >= 1
    requires meta' == meta.(internalNum := meta.internalNum - 1, height := meta.height - 1, rootOffset := S[0].child)
    ensures FoldedStruct(meta', disk', lv[..|lv|-1], lvl, 0, [])
  {
    var t := |lv| - 2;
    var lv' := lv[..|lv|-1];
    assert StructP(meta', disk', lv', lvl, 0, []) by {
      OpenStruct(meta, disk, lv, lvl, |lv| - 1, S);
      CollapseBelow(meta, disk, disk', lv, lvl, S);
      forall l | 0 <= l < |lv'| ensures SizesOK(lv'[l], l) {
        assert SizesOK(lv[l], l);
      }
      forall l | 1 <= l < |lv'| ensures Kids(lv'[l-1], Flat(lv', l, 0, [])) {
        assert Kids(lv[l-1], Flat(lv, l, t + 1, S));
      }
    }
    FoldStruct(meta', disk', lv', lvl, 0, []);
  }

  ghost function WithoutParent(disk: Disk, o: Off): Disk
    requires o in disk
  {
    disk[o := disk[o].(parent := 0)]
  }

  /** The root left with one child is taken off: with the new root's parent reset the tree is
      well formed; as written, the new root keeps a parent and the file holds no tree. */
  lemma CollapseDone(meta: Meta, meta': Meta, disk: Disk, disk': Disk, lv: seq<Level>, lvl: map<Off, nat>,
      l: nat, i: nat, stale: bool, b: nat)
    requires PendingDelete(meta, disk, lv, lvl, l, 0, i, stale, true, b) && l == |lv| - 1 && l >= 2
    requires |lv[l][0].slots| == 2 && !stale
    requires lv[l][0].slots[0].child in disk
    requires disk' == WithoutParent(disk, lv[l][0].slots[0].child)
    requires meta.internalNum >= 1
    requires meta' == meta.(internalNum := meta.internalNum - 1, height := meta.height - 1,
      rootOffset := lv[l][0].slots[0].child)
    ensures Inv(meta', disk', lv[..l], lvl)
  {
    var S := Deleted(Slots(lv[l]), Start(lv[l], 0) + i, stale);
    RootSlots(meta, disk, lv, lvl, l, S);
    assert S[0].child == lv[l][0].slots[0].child;
    CollapseStruct(meta, meta', disk, disk', lv, lvl, S);
    assert KeysP(lv[..l], 0, []) by {
      OpenDelete(meta, disk, lv, lvl, l, 0, i, stale, true, b);
      var lv' := lv[..l];
      forall m | 1 <= m < l ensures KeysAt(lv'[m-1], Flat(lv', m, 0, [])) {
        assert KeysAt(lv[m-1], Flat(lv, m, l, S));
      }
    }
    FoldTree(meta', disk', lv[..l], lvl, 0, []);
  }

  lemma RootSlots(meta: Meta, disk: Disk, lv: seq<Level>, lvl: map<Off, nat>, l: nat, S: seq<Slot>)
    requires FoldedStruct(meta, disk, lv, lvl, l, S) && l == |lv| - 1 && l >= 1
    ensures |lv[l]| == 1 && Slots(lv[l]) == SlotsOf(lv[l][0]) && Start(lv[l], 0) == 0
    ensures lv[l][0].off == meta.rootOffset && lv[l][0].off != 0 && lv[l][0].off in disk
    ensures disk[lv[l][0].off].parent == 0
    ensures meta.internalNum >= 1 && (meta.internalNum == 1 <==> l == 1)
  {
    OpenStruct(meta, disk, lv, lvl, l, S);
    assert lv[l] == [lv[l][0]];
    SlotsOne(lv[l][0]);
    StartEnds(lv[l]);
    assert LevelOK(disk, lvl, lv[l], l) && NodeOK(disk, lvl, lv[l], l, 0);
    assert Inner(lv) == Inner(lv[..l]) + 1;
    InnerPositive(disk, lv[..l], lvl);
  }

  lemma InnerPositive(disk: Disk, lv: seq<Level>, lvl: map<Off, nat>)
    requires |lv| >= 1
    requires forall l :: 0 <= l < |lv| ==> LevelOK(disk, lvl, lv[l], l)
    ensures Inner(lv) >= |lv| - 1
    ensures |lv| == 1 ==> Inner(lv) == 0
    decreases |lv|
  {
    if |lv| > 1 {
      assert LevelOK(disk, lvl, lv[|lv|-1], |lv|-1);
      InnerPositive(disk, lv[..|lv|-1], lvl);
    }
  }
}
