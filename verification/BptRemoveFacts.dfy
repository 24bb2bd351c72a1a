/** What remove_from_index may rely on when it starts on a level, and how its fate is read off
    the tree. */
module BptRemoveFacts {
  import opened KeyOrder
  import opened BptLevels
  import opened BptTree
  import opened BptAdvance
  import opened BptSearch
  import opened BptSplitSteps
  import opened BptDeleteSteps
  import opened BptPaths
  import opened BptIndexDelete
  import opened BptRebalance
  import opened BptBorrow
  import opened BptMerge

  // ---------- on entry ----------

  ghost predicate EntryFacts(meta: Meta, disk: Disk, lv: seq<Level>, l: nat, j: nat)
  {
    && 1 <= l < |lv| && j < |lv[l]| && lv[l][j].InnerNode?
    && lv[l][j].off != 0 && lv[l][j].off in disk && disk[lv[l][j].off].Internal?
    && disk[lv[l][j].off].slots == lv[l][j].slots && SortedSlots(lv[l][j].slots)
    && MinSize(l, |lv[l]|) <= |lv[l][j].slots| <= BP_ORDER
    && (meta.rootOffset == lv[l][j].off <==> l == |lv| - 1)
    && (l == |lv| - 1 <==> |lv[l]| == 1)
    && meta.internalNum >= 1 && (l == |lv| - 1 ==> (meta.internalNum == 1 <==> l == 1))
    && meta.order == BP_ORDER && meta.height == |lv| - 1
    && (l == |lv| - 1 ==> disk[lv[l][j].off].parent == 0)
  }

  lemma DeleteEntry(meta: Meta, disk: Disk, lv: seq<Level>, lvl: map<Off, nat>,
      l: nat, j: nat, i: nat, stale: bool, ok: bool, b: nat)
    requires PendingDelete(meta, disk, lv, lvl, l, j, i, stale, ok, b)
    ensures EntryFacts(meta, disk, lv, l, j)
    ensures lv[l][j].slots[0].child in disk && lv[l][j].slots[0].child != 0
    ensures disk[lv[l][j].slots[0].child].parent == lv[l][j].off
  {
    var S := Deleted(Slots(lv[l]), Start(lv[l], j) + i, stale);
    OpenDelete(meta, disk, lv, lvl, l, j, i, stale, ok, b);
    NodeFacts(meta, disk, lv, lvl, l, S, l, j);
    NodeSorted(lv[l], j);
    RootFacts(meta, disk, lv, lvl, l, S, j);
    ChildrenKnown(meta, disk, lv, lvl, l, S, j, i, stale);
    assert ParentOK(disk, lv[l][j]) && SlotsOf(lv[l][j])[0].child in disk;
  }

  lemma RootFacts(meta: Meta, disk: Disk, lv: seq<Level>, lvl: map<Off, nat>, l: nat, S: seq<Slot>, j: nat)
    requires StructP(meta, disk, lv, lvl, l, S) && 1 <= l < |lv| && j < |lv[l]|
    ensures meta.rootOffset == lv[l][j].off <==> l == |lv| - 1
    ensures l == |lv| - 1 <==> |lv[l]| == 1
    ensures meta.internalNum >= 1 && (l == |lv| - 1 ==> (meta.internalNum == 1 <==> l == 1))
    ensures l == |lv| - 1 ==> disk[lv[l][j].off].parent == 0
  {
    var t := |lv| - 1;
    FoldStruct(meta, disk, lv, lvl, l, S);
    assert LevelOK(disk, lvl, lv[l], l) && NodeOK(disk, lvl, lv[l], l, j);
    assert LevelOK(disk, lvl, lv[t], t) && NodeOK(disk, lvl, lv[t], t, 0);
    InnerPositive(disk, lv, lvl);
    if l < t {
      var k, i := FamilyOf(meta, disk, lv, lvl, l, S, j);
    } else {
      RootSlots(meta, disk, lv, lvl, l, S);
    }
  }

  // ---------- where the searches of remove_from_index end ----------

  // The slot of the parent that a separator of node j leads to.
  lemma SeparatorPlace(meta: Meta, disk: Disk, lv: seq<Level>, lvl: map<Off, nat>,
      l: nat, j: nat, i: nat, stale: bool, ok: bool, b: nat, a: nat, m: nat, k: nat, pi: nat)
    requires PendingDelete(meta, disk, lv, lvl, l, j, i, stale, ok, b) && l + 1 < |lv|
    requires a < |lv[l]| && Under(lv, l, a, k, pi) && lv[l][a].InnerNode? && m < |lv[l][a].slots| - 1
    ensures SortedSlots(SlotsOf(lv[l+1][k])) && UpperAt(SlotsOf(lv[l+1][k]), lv[l][a].slots[m].key, pi)
  {
    var S := Deleted(Slots(lv[l]), Start(lv[l], j) + i, stale);
    OpenDelete(meta, disk, lv, lvl, l, j, i, stale, ok, b);
    LevelFacts(meta, disk, lv, lvl, l, S, l);
    SeparatorLeadsHere(lv, l, a, m, k, pi);
  }

  // A mirrored separator is found at its own place.
  lemma MirrorPlace(lv: seq<Level>, l: nat, j: nat, k: nat, pi: nat)
    requires UpperKeys(lv, l) && Under(lv, l, j, k, pi) && pi + 1 < |SlotsOf(lv[l+1][k])| && j + 1 < |lv[l]|
    requires lv[l][j].InnerNode? && |lv[l][j].slots| >= 1
    ensures SortedSlots(SlotsOf(lv[l+1][k]))
    ensures LowerAt(SlotsOf(lv[l+1][k]), LastKey(lv[l][j]), pi)
  {
    assert KeysAt(lv[l], Slots(lv[l+1]));
    NodeSorted(lv[l+1], k);
    SlotsAt(lv[l+1], k, pi);
    assert SepOK(lv[l][j], lv[l][j+1], Slots(lv[l+1])[j].key);
  }

  // A separator inside node j is found at the place of node j by lower_bound, too.
  lemma InnerPlace(lv: seq<Level>, l: nat, j: nat, m: nat, k: nat, pi: nat)
    requires UpperKeys(lv, l) && Under(lv, l, j, k, pi)
    requires forall a :: 0 <= a < |lv[l]| ==> lv[l][a].InnerNode? && |lv[l][a].slots| >= 1
    requires m < |lv[l][j].slots| - 1
    ensures SortedSlots(SlotsOf(lv[l+1][k]))
    ensures LowerAt(SlotsOf(lv[l+1][k]), lv[l][j].slots[m].key, pi)
  {
    SeparatorLeadsHere(lv, l, j, m, k, pi);
    var ps, key := SlotsOf(lv[l+1][k]), lv[l][j].slots[m].key;
    if pi > 0 {
      SlotsAt(lv[l+1], k, pi - 1);
      assert Rank(ps[pi-1].key) < Rank(key);
      assert forall a :: 0 <= a < pi - 1 ==> Rank(ps[a].key) < Rank(ps[pi-1].key);
    }
  }

  lemma LastOfDeleted(s: seq<Slot>, i: nat, stale: bool)
    requires i + 1 < |s| && (stale ==> i + 2 == |s|)
    ensures |Deleted(s, i, stale)| == |s| - 1
    ensures Deleted(s, i, stale)[|s|-2].key == (if stale then s[|s|-2].key else s[|s|-1].key)
  {
  }

  lemma PlaceBelow(lv: seq<Level>, l: nat, j: nat, stale: bool, k: nat, pi: nat)
    requires UpperKeys(lv, l) && Under(lv, l, j, k, pi) && pi + 1 < |SlotsOf(lv[l+1][k])| && j + 1 < |lv[l]|
    requires forall a :: 0 <= a < |lv[l]| ==> lv[l][a].InnerNode? && |lv[l][a].slots| >= 1
    requires stale ==> |lv[l][j].slots| >= 2
    ensures SortedSlots(SlotsOf(lv[l+1][k]))
    ensures var s := lv[l][j].slots;
      LowerAt(SlotsOf(lv[l+1][k]), if stale then s[|s|-2].key else s[|s|-1].key, pi)
  {
    if stale {
      InnerPlace(lv, l, j, |lv[l][j].slots| - 2, k, pi);
    } else {
      MirrorPlace(lv, l, j, k, pi);
    }
  }

  // In a right borrow, lower_bound of the borrower's last key finds the borrower's own slot:
  // that key mirrors the separator, or, after a stale deletion, lies just below it.
  lemma RightPlace(meta: Meta, disk: Disk, lv: seq<Level>, lvl: map<Off, nat>,
      l: nat, j: nat, i: nat, stale: bool, ok: bool, b: nat, k: nat, pi: nat)
    requires PendingDelete(meta, disk, lv, lvl, l, j, i, stale, ok, b) && l + 1 < |lv|
    requires Under(lv, l, j, k, pi) && pi + 1 < |SlotsOf(lv[l+1][k])| && j + 1 < |lv[l]|
    ensures |Remaining(lv, l, j, i, stale)| >= 1 && SortedSlots(SlotsOf(lv[l+1][k]))
    ensures LowerAt(SlotsOf(lv[l+1][k]), Remaining(lv, l, j, i, stale)[|Remaining(lv, l, j, i, stale)|-1].key, pi)
  {
    OpenDelete(meta, disk, lv, lvl, l, j, i, stale, ok, b);
    LevelFacts(meta, disk, lv, lvl, l, Deleted(Slots(lv[l]), Start(lv[l], j) + i, stale), l);
    LastOfDeleted(lv[l][j].slots, i, stale);
    PlaceBelow(lv, l, j, stale, k, pi);
  }

  // ---------- the fate of a deletion ----------

  lemma UnderUnique(lv: seq<Level>, l: nat, j: nat, k: nat, i: nat, k2: nat, i2: nat)
    requires Under(lv, l, j, k, i) && Under(lv, l, j, k2, i2)
    ensures k == k2 && i == i2
  {
    var U := lv[l+1];
    if k < k2 {
      StartMono(U, k + 1, k2);
      SlotsAt(U, k, i);
    } else if k2 < k {
      StartMono(U, k2 + 1, k);
      SlotsAt(U, k2, i2);
    }
  }

  lemma CascadeHere(lv: seq<Level>, l: nat, j: nat, k: nat, i: nat)
    requires 1 <= l && Under(lv, l, j, k, i)
    ensures Cascade(lv, l, j) <==> Count(lv[l][j]) <= MIN_FILL && CascadeUnder(lv, l, j, k, i)
  {
    forall k2: nat, i2: nat | Under(lv, l, j, k2, i2) ensures k2 == k && i2 == i {
      UnderUnique(lv, l, j, k, i, k2, i2);
    }
  }

  lemma HasNeighbour(meta: Meta, disk: Disk, lv: seq<Level>, lvl: map<Off, nat>, l: nat, S: seq<Slot>, j: nat,
      k: nat, i: nat)
    requires FoldedStruct(meta, disk, lv, lvl, l, S) && Family(disk, lv, l, j, k, i)
    ensures OnDisk(disk, lv[l][j])
    ensures disk[lv[l][j].off].next != 0 || disk[lv[l][j].off].prev != 0
  {
    OpenStruct(meta, disk, lv, lvl, l, S);
    assert LevelOK(disk, lvl, lv[l], l);
    if i > 0 {
      assert NodeOK(disk, lvl, lv[l], l, j - 1);
    } else {
      assert NodeOK(disk, lvl, lv[l], l, j + 1);
    }
  }

  // What becomes of a deletion on level l depends on levels l and up only.
  lemma {:induction false} CascadeAbove(lv: seq<Level>, lv': seq<Level>, l: nat, j: nat)
    requires |lv'| == |lv| && forall m :: l <= m < |lv| ==> lv'[m] == lv[m]
    ensures Cascade(lv', l, j) <==> Cascade(lv, l, j)
    decreases |lv| - l
  {
    if 1 <= l < |lv| - 1 && j < |lv[l]| {
      forall k: nat, i: nat
        ensures Under(lv', l, j, k, i) <==> Under(lv, l, j, k, i)
        ensures Under(lv, l, j, k, i) ==> (CascadeUnder(lv', l, j, k, i) <==> CascadeUnder(lv, l, j, k, i))
      {
        if Under(lv, l, j, k, i) {
          CascadeAbove(lv, lv', l + 1, k);
        }
      }
    }
  }

  /** A deletion on level l that breaks the tree as the code is written: see Cascade; a stale
      deletion in a full node also writes past the end of its array. */
  ghost predicate Doomed(lv: seq<Level>, l: nat, j: nat, stale: bool)
    requires l < |lv| && j < |lv[l]|
  {
    (stale && Count(lv[l][j]) == BP_ORDER) || Cascade(lv, l, j)
  }

  // ---------- what the writes of a borrow amount to ----------

  lemma ResetOne(d: Disk, d': Disk, s: Slot, parent: Off)
    requires ParentsReset(d, d', [s], parent) && s.child in d
    ensures d' == d[s.child := d[s.child].(parent := parent)]
  {
    assert [s][0] == s;
    forall o | o in d ensures IsChild([s], o) <==> o == s.child {
    }
  }

  // Offsets on three neighbouring levels are all different.
  ghost predicate FourOffsets(p: Off, o: Off, x: Off, y: Off)
  {
    p != o && p != x && p != y && o != x && o != y && x != y
  }

  lemma ShiftInOrder(disk: Disk, p: Node, i: nat, key: Key, o: Off, np: Off, x: Node, y: Node)
    requires p.InnerNode? && i < |p.slots| && x.InnerNode? && y.InnerNode?
    requires FourOffsets(p.off, o, x.off, y.off)
    requires p.off in disk && disk[p.off].Internal? && o in disk
    requires x.off in disk && disk[x.off].Internal? && y.off in disk && disk[y.off].Internal?
    ensures ParentWritten(ShiftDisk(disk, x, y, o, np), p, i, key)
         == disk[p.off := disk[p.off].(slots := WithKey(p.slots, i, key))]
                [o := disk[o].(parent := np)]
                [x.off := disk[x.off].(slots := x.slots)]
                [y.off := disk[y.off].(slots := y.slots)]
    ensures ParentWritten(ShiftDisk(disk, x, y, o, np), p, i, key)
         == disk[p.off := disk[p.off].(slots := WithKey(p.slots, i, key))]
                [o := disk[o].(parent := np)]
                [y.off := disk[y.off].(slots := y.slots)]
                [x.off := disk[x.off].(slots := x.slots)]
  {
  }

  lemma BorrowOffsets(meta: Meta, disk: Disk, lv: seq<Level>, lvl: map<Off, nat>,
      l: nat, j: nat, i: nat, stale: bool, ok: bool, b: nat, k: nat, a: nat, m: nat)
    requires PendingDelete(meta, disk, lv, lvl, l, j, i, stale, ok, b) && l + 1 < |lv|
    requires k < |lv[l+1]| && a < |lv[l]| && a != j && lv[l][a].InnerNode? && m < |lv[l][a].slots|
    ensures lv[l][a].slots[m].child in disk
    ensures FourOffsets(lv[l+1][k].off, lv[l][a].slots[m].child, lv[l][j].off, lv[l][a].off)
  {
    var S := Deleted(Slots(lv[l]), Start(lv[l], j) + i, stale);
    OpenStruct(meta, disk, lv, lvl, l, S);
    assert LevelOK(disk, lvl, lv[l], l) && NodeOK(disk, lvl, lv[l], l, j) && NodeOK(disk, lvl, lv[l], l, a);
    assert LevelOK(disk, lvl, lv[l+1], l + 1) && NodeOK(disk, lvl, lv[l+1], l + 1, k);
    ChildBelow(meta, disk, lv, lvl, l, S, j, i, stale, a, m);
  }

  // What a borrow from the left may rely on, and what it comes to.
  lemma LeftReady(meta: Meta, disk: Disk, lv: seq<Level>, lvl: map<Off, nat>,
      l: nat, j: nat, i: nat, stale: bool, ok: bool, b: nat, k: nat, pi: nat)
    requires PendingDelete(meta, disk, lv, lvl, l, j, i, stale, ok, b) && l < |lv| - 1
    requires Family(disk, lv, l, j, k, pi) && pi > 0
    ensures SortedSlots(lv[l+1][k].slots) && UpperAt(lv[l+1][k].slots, lv[l][j-1].slots[0].key, pi - 1)
    ensures var o := lv[l][j-1].slots[|lv[l][j-1].slots|-1].child;
      o in disk && FourOffsets(lv[l+1][k].off, o, lv[l][j].off, lv[l][j-1].off)
    ensures |Remaining(lv, l, j, i, stale)| >= 1
  {
    SeparatorPlace(meta, disk, lv, lvl, l, j, i, stale, ok, b, j - 1, 0, k, pi - 1);
    BorrowOffsets(meta, disk, lv, lvl, l, j, i, stale, ok, b, k, j - 1, |lv[l][j-1].slots| - 1);
  }

  // What borrow_key writes when node j, left with the slots q, takes the last slot of its left sibling.
  ghost predicate LeftWrite(disk: Disk, disk': Disk, lv: seq<Level>, l: nat, j: nat, q: seq<Slot>, repaired: bool,
      k: nat, pi: nat, slots: seq<Slot>)
  {
    && 0 < j && l + 1 < |lv| && j < |lv[l]| && k < |lv[l+1]| && lv[l+1][k].InnerNode? && 0 < pi <= |lv[l+1][k].slots|
    && lv[l][j-1].InnerNode? && |lv[l][j-1].slots| >= 2 && |q| >= 1
    && var m := |lv[l][j-1].slots| - 1;
      var lent, key := lv[l][j-1].slots[m], lv[l][j-1].slots[m-1].key;
      var x, y := InnerNode(lv[l][j-1].off, lv[l][j-1].slots[..m]), InnerNode(lv[l][j].off, slots);
      && slots == LeftBorrowed(lent, lv[l+1][k].slots[pi-1].key, q, repaired)
      && x.off in disk && disk[x.off].Internal? && y.off in disk && disk[y.off].Internal? && lent.child in disk
      && lv[l+1][k].off in ShiftDisk(disk, x, y, lent.child, y.off)
      && ShiftDisk(disk, x, y, lent.child, y.off)[lv[l+1][k].off].Internal?
      && disk' == ParentWritten(ShiftDisk(disk, x, y, lent.child, y.off), lv[l+1][k], pi - 1, key)
  }

  // The slots that node a keeps when node j loses one.
  ghost function Kept(L: Level, j: nat, i: nat, stale: bool, a: nat): seq<Slot>
    requires j < |L| && a < |L| && i + 1 < |SlotsOf(L[j])|
  {
    if a == j then Deleted(SlotsOf(L[j]), i, stale) else SlotsOf(L[a])
  }

  // Their children still lie one level lower.
  lemma KeptBelow(disk: Disk, lvl: map<Off, nat>, lower: Level, L: Level, l: nat, S: seq<Slot>,
      j: nat, i: nat, stale: bool, a: nat, m: nat)
    requires l >= 1 && LevelOK(disk, lvl, lower, l - 1) && Kids(lower, S)
    requires j < |L| && a < |L| && L[j].InnerNode? && i + 1 < |L[j].slots|
    requires Start(L, j) + i + 1 < |Slots(L)| && S == Deleted(Slots(L), Start(L, j) + i, stale)
    requires m < |Kept(L, j, i, stale, a)|
    ensures var o := Kept(L, j, i, stale, a)[m].child; o in disk && o in lvl && lvl[o] == l - 1
  {
    var x := InnerNode(L[j].off, Deleted(L[j].slots, i, stale));
    var L' := L[j := x];
    SlotsOne(x);
    FlatDelete(L, j, i, stale, [x]);
    assert L' == L[..j] + [x] + L[j+1..];
    ChildLevel(disk, lvl, lower, L', l, a, m);
  }

  lemma ChildBelow(meta: Meta, disk: Disk, lv: seq<Level>, lvl: map<Off, nat>, l: nat, S: seq<Slot>,
      j: nat, i: nat, stale: bool, a: nat, m: nat)
    requires StructP(meta, disk, lv, lvl, l, S) && 1 <= l < |lv| && j < |lv[l]|
    requires lv[l][j].InnerNode? && i + 1 < |lv[l][j].slots|
    requires Start(lv[l], j) + i + 1 < |Slots(lv[l])| && S == Deleted(Slots(lv[l]), Start(lv[l], j) + i, stale)
    requires a < |lv[l]| && m < |Kept(lv[l], j, i, stale, a)|
    ensures var o := Kept(lv[l], j, i, stale, a)[m].child; o in disk && o in lvl && lvl[o] == l - 1
  {
    assert Kids(lv[l-1], Flat(lv, l, l, S)) && LevelOK(disk, lvl, lv[l-1], l - 1);
    KeptBelow(disk, lvl, lv[l-1], lv[l], l, S, j, i, stale, a, m);
  }

  lemma RemainingBelow(meta: Meta, disk: Disk, lv: seq<Level>, lvl: map<Off, nat>,
      l: nat, j: nat, i: nat, stale: bool, ok: bool, b: nat, m: nat)
    requires PendingDelete(meta, disk, lv, lvl, l, j, i, stale, ok, b) && m < |Remaining(lv, l, j, i, stale)|
    ensures Remaining(lv, l, j, i, stale)[m].child in disk && Remaining(lv, l, j, i, stale)[m].child in lvl
    ensures lvl[Remaining(lv, l, j, i, stale)[m].child] == l - 1
    ensures disk[Remaining(lv, l, j, i, stale)[m].child].parent == lv[l][j].off
  {
    var S := Deleted(Slots(lv[l]), Start(lv[l], j) + i, stale);
    ChildrenKnown(meta, disk, lv, lvl, l, S, j, i, stale);
    assert Remaining(lv, l, j, i, stale) == Kept(lv[l], j, i, stale, j);
    OpenStruct(meta, disk, lv, lvl, l, S);
    ChildBelow(meta, disk, lv, lvl, l, S, j, i, stale, j, m);
  }

  // ---------- what a merge may rely on ----------

  // Left and right part of the merge of nodes c and c + 1, one of which is node j.
  ghost function MergeLeft(lv: seq<Level>, l: nat, j: nat, i: nat, stale: bool, c: nat): seq<Slot>
    requires l < |lv| && j < |lv[l]| && i + 1 < |SlotsOf(lv[l][j])| && c + 1 < |lv[l]|
  {
    if j == c then Remaining(lv, l, j, i, stale) else SlotsOf(lv[l][c])
  }

  ghost function MergeRight(lv: seq<Level>, l: nat, j: nat, i: nat, stale: bool, c: nat): seq<Slot>
    requires l < |lv| && j < |lv[l]| && i + 1 < |SlotsOf(lv[l][j])| && c + 1 < |lv[l]|
  {
    if j == c then SlotsOf(lv[l][c+1]) else Remaining(lv, l, j, i, stale)
  }

  lemma MergeChild(meta: Meta, disk: Disk, lv: seq<Level>, lvl: map<Off, nat>,
      l: nat, j: nat, i: nat, stale: bool, ok: bool, b: nat, c: nat, side: bool, m: nat)
    requires PendingDelete(meta, disk, lv, lvl, l, j, i, stale, ok, b)
    requires (j == c || j == c + 1) && c + 1 < |lv[l]| && lv[l][c].InnerNode? && lv[l][c+1].InnerNode?
    requires m < |if side then MergeRight(lv, l, j, i, stale, c) else MergeLeft(lv, l, j, i, stale, c)|
    ensures var o := (if side then MergeRight(lv, l, j, i, stale, c) else MergeLeft(lv, l, j, i, stale, c))[m].child;
      o in disk && o in lvl && lvl[o] == l - 1 && disk[o].parent == lv[l][if side then c + 1 else c].off
  {
    var S := Deleted(Slots(lv[l]), Start(lv[l], j) + i, stale);
    var a := if side then c + 1 else c;
    if a == j {
      RemainingBelow(meta, disk, lv, lvl, l, j, i, stale, ok, b, m);
    } else {
      OtherChild(meta, disk, lv, lvl, l, S, j, i, stale, a, m);
    }
  }

  lemma OtherChild(meta: Meta, disk: Disk, lv: seq<Level>, lvl: map<Off, nat>, l: nat, S: seq<Slot>,
      j: nat, i: nat, stale: bool, a: nat, m: nat)
    requires FoldedStruct(meta, disk, lv, lvl, l, S) && 1 <= l < |lv| && j < |lv[l]|
    requires lv[l][j].InnerNode? && i + 1 < |lv[l][j].slots|
    requires Start(lv[l], j) + i + 1 < |Slots(lv[l])| && S == Deleted(Slots(lv[l]), Start(lv[l], j) + i, stale)
    requires a < |lv[l]| && a != j && m < |SlotsOf(lv[l][a])|
    ensures var o := SlotsOf(lv[l][a])[m].child;
      o in disk && o in lvl && lvl[o] == l - 1 && disk[o].parent == lv[l][a].off
  {
    assert Kept(lv[l], j, i, stale, a) == SlotsOf(lv[l][a]);
    OpenStruct(meta, disk, lv, lvl, l, S);
    ChildBelow(meta, disk, lv, lvl, l, S, j, i, stale, a, m);
    assert ParentsOK(disk, lv[l]) && ParentOK(disk, lv[l][a]);
  }

  // The children that change hands lie one level below the nodes and two below the parent.
  lemma MergeReady(meta: Meta, disk: Disk, lv: seq<Level>, lvl: map<Off, nat>,
      l: nat, j: nat, i: nat, stale: bool, ok: bool, b: nat, c: nat, k: nat)
    requires PendingDelete(meta, disk, lv, lvl, l, j, i, stale, ok, b) && l + 1 < |lv| && k < |lv[l+1]|
    requires (j == c || j == c + 1) && c + 1 < |lv[l]| && lv[l][c].InnerNode? && lv[l][c+1].InnerNode?
    ensures var moved := MergeRight(lv, l, j, i, stale, c);
      && (forall m :: 0 <= m < |moved| ==> moved[m].child in disk)
      && !IsChild(moved, lv[l][c].off) && !IsChild(moved, lv[l+1][k].off)
    ensures lv[l][c].off in disk && lv[l][c+1].off in disk && lv[l][c].off != 0 && lv[l][c+1].off != 0
    ensures disk[lv[l][c].off].Internal? && disk[lv[l][c+1].off].Internal?
    ensures disk[lv[l][c].off].slots == lv[l][c].slots && disk[lv[l][c+1].off].slots == lv[l][c+1].slots
    ensures disk[lv[l][c+1].off].prev == lv[l][c].off && disk[lv[l][c].off].next == lv[l][c+1].off
    ensures disk[lv[l][c+1].off].next != lv[l][c].off
    ensures var n := disk[lv[l][c+1].off].next; n != 0 ==> n in disk && n != lv[l+1][k].off
    ensures lv[l][c].off != lv[l+1][k].off && lv[l+1][k].off in disk
  {
    var moved := MergeRight(lv, l, j, i, stale, c);
    forall m | 0 <= m < |moved|
      ensures moved[m].child in disk && moved[m].child in lvl && lvl[moved[m].child] == l - 1
    {
      MergeChild(meta, disk, lv, lvl, l, j, i, stale, ok, b, c, true, m);
    }
    OpenStruct(meta, disk, lv, lvl, l, Deleted(Slots(lv[l]), Start(lv[l], j) + i, stale));
    assert LevelOK(disk, lvl, lv[l], l) && LevelOK(disk, lvl, lv[l+1], l + 1);
    assert NodeOK(disk, lvl, lv[l], l, c) && NodeOK(disk, lvl, lv[l], l, c + 1) && NodeOK(disk, lvl, lv[l+1], l + 1, k);
    assert c + 2 < |lv[l]| ==> NodeOK(disk, lvl, lv[l], l, c + 2);
  }

  // Where the two keys that a merge of a last child may pass upwards lead.
  lemma LastReady(meta: Meta, disk: Disk, lv: seq<Level>, lvl: map<Off, nat>,
      l: nat, j: nat, i: nat, stale: bool, ok: bool, b: nat, k: nat, pi: nat)
    requires PendingDelete(meta, disk, lv, lvl, l, j, i, stale, ok, b) && l + 1 < |lv|
    requires Family(disk, lv, l, j, k, pi) && pi > 0
    ensures meta.internalNum >= 1 && disk[lv[l+1][k].off].slots == lv[l+1][k].slots
    ensures UpperAt(lv[l+1][k].slots, lv[l][j-1].slots[0].key, pi - 1)
    ensures UpperAt(lv[l+1][k].slots, lv[l][j].slots[0].key, pi)
  {
    DeleteEntry(meta, disk, lv, lvl, l, j, i, stale, ok, b);
    SeparatorPlace(meta, disk, lv, lvl, l, j, i, stale, ok, b, j - 1, 0, k, pi - 1);
    SeparatorPlace(meta, disk, lv, lvl, l, j, i, stale, ok, b, j, 0, k, pi);
  }

  lemma MergeHanded(meta: Meta, disk: Disk, lv: seq<Level>, lvl: map<Off, nat>,
      l: nat, j: nat, i: nat, stale: bool, ok: bool, b: nat, c: nat, x: Node)
    requires PendingDelete(meta, disk, lv, lvl, l, j, i, stale, ok, b)
    requires (j == c || j == c + 1) && c + 1 < |lv[l]| && lv[l][c].InnerNode? && lv[l][c+1].InnerNode?
    requires x == InnerNode(lv[l][c].off, MergeLeft(lv, l, j, i, stale, c) + MergeRight(lv, l, j, i, stale, c))
    ensures forall a :: 0 <= a < |x.slots| ==>
      Handed(disk, MergeRight(lv, l, j, i, stale, c), x.off, x.slots[a].child)
  {
    var B := MergeRight(lv, l, j, i, stale, c);
    forall a | 0 <= a < |x.slots| ensures Handed(disk, B, x.off, x.slots[a].child) {
      MergeHandedOne(meta, disk, lv, lvl, l, j, i, stale, ok, b, c, x, a);
    }
  }

  lemma MergeHandedOne(meta: Meta, disk: Disk, lv: seq<Level>, lvl: map<Off, nat>,
      l: nat, j: nat, i: nat, stale: bool, ok: bool, b: nat, c: nat, x: Node, a: nat)
    requires PendingDelete(meta, disk, lv, lvl, l, j, i, stale, ok, b)
    requires (j == c || j == c + 1) && c + 1 < |lv[l]| && lv[l][c].InnerNode? && lv[l][c+1].InnerNode?
    requires x == InnerNode(lv[l][c].off, MergeLeft(lv, l, j, i, stale, c) + MergeRight(lv, l, j, i, stale, c))
    requires a < |x.slots|
    ensures Handed(disk, MergeRight(lv, l, j, i, stale, c), x.off, x.slots[a].child)
  {
    var A, B := MergeLeft(lv, l, j, i, stale, c), MergeRight(lv, l, j, i, stale, c);
    Joined(A, B, a);
    if a < |A| {
      HandedChild(meta, disk, lv, lvl, l, j, i, stale, ok, b, c, false, a);
    } else {
      HandedChild(meta, disk, lv, lvl, l, j, i, stale, ok, b, c, true, a - |A|);
    }
  }

  lemma HandedChild(meta: Meta, disk: Disk, lv: seq<Level>, lvl: map<Off, nat>,
      l: nat, j: nat, i: nat, stale: bool, ok: bool, b: nat, c: nat, side: bool, m: nat)
    requires PendingDelete(meta, disk, lv, lvl, l, j, i, stale, ok, b)
    requires (j == c || j == c + 1) && c + 1 < |lv[l]| && lv[l][c].InnerNode? && lv[l][c+1].InnerNode?
    requires m < |if side then MergeRight(lv, l, j, i, stale, c) else MergeLeft(lv, l, j, i, stale, c)|
    ensures var s := if side then MergeRight(lv, l, j, i, stale, c) else MergeLeft(lv, l, j, i, stale, c);
      Handed(disk, MergeRight(lv, l, j, i, stale, c), lv[l][c].off, s[m].child)
  {
    MergeChild(meta, disk, lv, lvl, l, j, i, stale, ok, b, c, side, m);
  }

  lemma Joined(A: seq<Slot>, B: seq<Slot>, a: nat)
    requires a < |A| + |B|
    ensures (A + B)[a] == if a < |A| then A[a] else B[a - |A|]
    ensures a >= |A| ==> IsChild(B, (A + B)[a].child)
  {
    assert a >= |A| ==> (A + B)[a] == B[a - |A|];
  }

  lemma MergeWritten(meta: Meta, disk: Disk, d: Disk, disk': Disk, lv: seq<Level>, lvl: map<Off, nat>,
      l: nat, j: nat, i: nat, stale: bool, ok: bool, b: nat, c: nat, k: nat, x: Node)
    requires PendingDelete(meta, disk, lv, lvl, l, j, i, stale, ok, b) && l + 1 < |lv| && k < |lv[l+1]|
    requires (j == c || j == c + 1) && c + 1 < |lv[l]| && lv[l][c].InnerNode? && lv[l][c+1].InnerNode?
    requires x == InnerNode(lv[l][c].off, MergeLeft(lv, l, j, i, stale, c) + MergeRight(lv, l, j, i, stale, c))
    requires ParentsReset(disk, d, MergeRight(lv, l, j, i, stale, c), x.off)
    requires x.off in d && d[x.off].Internal? && lv[l][c+1].off in disk
    requires var n := disk[lv[l][c+1].off].next; (n != 0 ==> n in d) && disk' == MergeDisk(d, x, n)
    ensures MergeWrite(disk, d, disk', x, lv[l][c+1].off, MergeRight(lv, l, j, i, stale, c))
    ensures lv[l+1][k].off in disk && lv[l+1][k].off in disk' && disk'[lv[l+1][k].off] == disk[lv[l+1][k].off]
  {
    var B := MergeRight(lv, l, j, i, stale, c);
    MergeReady(meta, disk, lv, lvl, l, j, i, stale, ok, b, c, k);
    MergeHanded(meta, disk, lv, lvl, l, j, i, stale, ok, b, c, x);
    assert B == x.slots[|x.slots|-|B|..];
  }
}
