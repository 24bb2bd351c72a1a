/** Borrowing between internal siblings: what borrow_key writes, and what the tree is then. */
module BptBorrow {
  import opened KeyOrder
  import opened BptLevels
  import opened BptTree
  import opened BptAdvance
  import opened BptInsertSteps
  import opened BptSplitSteps
  import opened BptDeleteSteps
  import opened BptPaths
  import opened BptIndexDelete
  import opened BptRebalance

  // The slots of node j once its pending deletion is done.
  ghost function Remaining(lv: seq<Level>, l: nat, j: nat, i: nat, stale: bool): seq<Slot>
    requires l < |lv| && j < |lv[l]| && i + 1 < |SlotsOf(lv[l][j])|
  {
    Deleted(SlotsOf(lv[l][j]), i, stale)
  }

  // The list of level l after the deletion in node j and a regrouping of nodes c and c + 1.
  lemma RegroupedFlat(L: Level, j: nat, i: nat, stale: bool, c: nat, x: Node, y: Node)
    requires c + 1 < |L| && (j == c || j == c + 1) && L[j].InnerNode? && i + 1 < |L[j].slots|
    requires SlotsOf(x) + SlotsOf(y)
          == (if j == c then Deleted(L[j].slots, i, stale) + SlotsOf(L[c+1])
              else SlotsOf(L[c]) + Deleted(L[j].slots, i, stale))
    ensures Start(L, j) + i + 1 < |Slots(L)|
    ensures Slots(Shifted(L, c, x, y)) == Deleted(Slots(L), Start(L, j) + i, stale)
  {
    var z := InnerNode(L[j].off, Deleted(L[j].slots, i, stale));
    DeletedNode(L, j, i, stale, z);
    FlatShift(L[j := z], c, x, y);
    ShiftedEither(L, j, z, c, x, y);
  }

  lemma DeletedNode(L: Level, j: nat, i: nat, stale: bool, z: Node)
    requires j < |L| && i + 1 < |SlotsOf(L[j])| && SlotsOf(z) == Deleted(SlotsOf(L[j]), i, stale)
    ensures Start(L, j) + i + 1 < |Slots(L)|
    ensures Slots(L[j := z]) == Deleted(Slots(L), Start(L, j) + i, stale)
  {
    SlotsOne(z);
    FlatDelete(L, j, i, stale, [z]);
    assert L[j := z] == L[..j] + [z] + L[j+1..];
  }

  lemma ShiftedEither(L: Level, j: nat, z: Node, c: nat, x: Node, y: Node)
    requires c + 1 < |L| && (j == c || j == c + 1)
    ensures Shifted(L[j := z], c, x, y) == Shifted(L, c, x, y)
  {
  }

  // x and y take the slots of their level; o is the child that changed sides, to np.
  ghost predicate Moved(disk: Disk, x: Node, y: Node, o: Off, np: Off)
  {
    && x.InnerNode? && y.InnerNode?
    && ((IsChild(x.slots, o) && np == x.off) || (IsChild(y.slots, o) && np == y.off))
    && (forall i :: 0 <= i < |x.slots| && x.slots[i].child != o ==>
          x.slots[i].child in disk && disk[x.slots[i].child].parent == x.off)
    && (forall i :: 0 <= i < |y.slots| && y.slots[i].child != o ==>
          y.slots[i].child in disk && disk[y.slots[i].child].parent == y.off)
  }

  lemma MovedLevel(disk: Disk, lvl: map<Off, nat>, lower: Level, L: Level, l: nat, c: nat, x: Node, y: Node, o: Off,
      np: Off)
    returns (side: nat, n: nat)
    requires 1 <= l && c + 1 < |L| && LevelOK(disk, lvl, lower, l - 1)
    requires Moved(disk, x, y, o, np) && Kids(lower, Slots(Shifted(L, c, x, y)))
    ensures o in disk && o in lvl && lvl[o] == l - 1
    ensures (side == c && np == x.off) || (side == c + 1 && np == y.off)
    ensures var L' := Shifted(L, c, x, y);
      n < |SlotsOf(L'[side])| && SlotsOf(L'[side])[n].child == o
  {
    var L' := Shifted(L, c, x, y);
    side := if np == x.off && IsChild(x.slots, o) then c else c + 1;
    n :| n < |SlotsOf(L'[side])| && SlotsOf(L'[side])[n].child == o;
    ChildLevel(disk, lvl, lower, L', l, side, n);
  }

  lemma ShiftedParents(meta: Meta, disk: Disk, lv: seq<Level>, lvl: map<Off, nat>, l: nat, S: seq<Slot>,
      c: nat, x: Node, y: Node, o: Off, np: Off)
    requires FoldedStruct(meta, disk, lv, lvl, l, S) && 1 <= l < |lv| && c + 1 < |lv[l]|
    requires Moved(disk, x, y, o, np) && x.off == lv[l][c].off && y.off == lv[l][c+1].off
    requires x.off in disk && disk[x.off].Internal? && y.off in disk && disk[y.off].Internal?
    requires Slots(Shifted(lv[l], c, x, y)) == S
    ensures o in disk && o in lvl && lvl[o] == l - 1
    ensures forall m :: 0 <= m < |lv[l]| ==> ParentOK(ShiftDisk(disk, x, y, o, np), Shifted(lv[l], c, x, y)[m])
  {
    OpenStruct(meta, disk, lv, lvl, l, S);
    var L, L', lower := lv[l], Shifted(lv[l], c, x, y), lv[l-1];
    assert Kids(lower, Flat(lv, l, l, S)) && LevelOK(disk, lvl, lower, l - 1) && ParentsOK(disk, L);
    var side, n := MovedLevel(disk, lvl, lower, L, l, c, x, y, o, np);
    assert x.off != o && y.off != o by {
      assert LevelOK(disk, lvl, L, l) && NodeOK(disk, lvl, L, l, c) && NodeOK(disk, lvl, L, l, c + 1);
    }
    var d := ShiftDisk(disk, x, y, o, np);
    ShiftDiskParents(disk, x, y, o, np);
    OnlyOneParent(lower, L', c, x, y, o, side, n);
    assert ParentOK(d, x) && ParentOK(d, y);
    forall m | 0 <= m < |L| ensures ParentOK(d, L'[m]) {
      ShiftParents(disk, d, lower, L, lvl, l, S, c, x, y, o, np, m);
    }
  }

  lemma ShiftDiskParents(disk: Disk, x: Node, y: Node, o: Off, np: Off)
    requires x.InnerNode? && y.InnerNode?
    requires x.off in disk && disk[x.off].Internal? && y.off in disk && disk[y.off].Internal? && o in disk
    requires o != x.off && o != y.off
    ensures var d := ShiftDisk(disk, x, y, o, np);
      forall p :: p in disk ==> p in d && d[p].parent == (if p == o then np else disk[p].parent)
  {
  }

  // The moved child is a child of one of the two neighbours only.
  lemma OnlyOneParent(lower: Level, L': Level, c: nat, x: Node, y: Node, o: Off, side: nat, n: nat)
    requires c + 1 < |L'| && L'[c] == x && L'[c+1] == y && x.InnerNode? && y.InnerNode?
    requires Kids(lower, Slots(L')) && Distinct(lower)
    requires side == c || side == c + 1
    requires n < |SlotsOf(L'[side])| && SlotsOf(L'[side])[n].child == o
    ensures side == c ==> !IsChild(y.slots, o)
    ensures side == c + 1 ==> !IsChild(x.slots, o)
    ensures side == c ==> forall i :: 0 <= i < |y.slots| ==> y.slots[i].child != o
    ensures side == c + 1 ==> forall i :: 0 <= i < |x.slots| ==> x.slots[i].child != o
  {
    ChildrenApart(lower, L', side, n, if side == c then c + 1 else c, o);
  }

  // ---------- from the right ----------

  lemma BorrowRightStruct(meta: Meta, disk: Disk, disk': Disk, lv: seq<Level>, lvl: map<Off, nat>,
      l: nat, S: seq<Slot>, j: nat, i: nat, stale: bool, k: nat, pi: nat, x: Node, y: Node)
    requires 1 <= l < |lv| - 1 && Family(disk, lv, l, j, k, pi) && pi + 1 < |lv[l+1][k].slots|
    requires i + 1 < |lv[l][j].slots| == MIN_FILL && MIN_FILL < |lv[l][j+1].slots|
    requires Start(lv[l], j) + i + 1 < |Slots(lv[l])| && S == Deleted(Slots(lv[l]), Start(lv[l], j) + i, stale)
    requires FoldedStruct(meta, disk, lv, lvl, l, S)
    requires x == InnerNode(lv[l][j].off, Remaining(lv, l, j, i, stale) + [lv[l][j+1].slots[0]])
    requires y == InnerNode(lv[l][j+1].off, lv[l][j+1].slots[1..])
    requires lv[l][j+1].slots[0].child in disk
    requires lv[l+1][k].off in ShiftDisk(disk, x, y, lv[l][j+1].slots[0].child, x.off)
    requires ShiftDisk(disk, x, y, lv[l][j+1].slots[0].child, x.off)[lv[l+1][k].off].Internal?
    requires disk' == ParentWritten(ShiftDisk(disk, x, y, lv[l][j+1].slots[0].child, x.off),
                                    lv[l+1][k], pi, lv[l][j+1].slots[0].key)
    ensures Slots(Shifted(lv[l], j, x, y)) == S
    ensures FoldedStruct(meta, disk', ShiftedLevels(lv, l, j, x, y, k, pi, lv[l][j+1].slots[0].key), lvl, 0, [])
  {
    var L, r0 := lv[l], lv[l][j+1].slots[0];
    var q := Remaining(lv, l, j, i, stale);
    assert x.slots + y.slots == q + L[j+1].slots;
    RegroupedFlat(L, j, i, stale, j, x, y);
    assert x.slots[|q|].child == r0.child;
    ChildrenKnown(meta, disk, lv, lvl, l, S, j, i, stale);
    assert Moved(disk, x, y, r0.child, x.off);
    ShiftedParents(meta, disk, lv, lvl, l, S, j, x, y, r0.child, x.off);
    ShiftStruct(meta, disk, lv, lvl, l, S, j, x, y, r0.child, x.off, r0.key);
    ParentKeyStruct(meta, ShiftDisk(disk, x, y, r0.child, x.off), disk', lv[l := Shifted(L, j, x, y)], lvl, l, j, k,
      pi, r0.key);
  }

  // The children of node j, before and after the deletion, and of its neighbours.
  lemma ChildrenKnown(meta: Meta, disk: Disk, lv: seq<Level>, lvl: map<Off, nat>, l: nat, S: seq<Slot>, j: nat,
      i: nat, stale: bool)
    requires FoldedStruct(meta, disk, lv, lvl, l, S) && 1 <= l < |lv| && j < |lv[l]|
    requires lv[l][j].InnerNode? && i + 1 < |lv[l][j].slots|
    ensures ParentsOK(disk, lv[l])
    ensures forall m :: 0 <= m < |lv[l]| ==> ParentOK(disk, lv[l][m])
    ensures ParentOK(disk, InnerNode(lv[l][j].off, Remaining(lv, l, j, i, stale)))
    ensures forall a :: 0 <= a < |Remaining(lv, l, j, i, stale)| ==>
      Remaining(lv, l, j, i, stale)[a].child in disk
      && disk[Remaining(lv, l, j, i, stale)[a].child].parent == lv[l][j].off
  {
    OpenStruct(meta, disk, lv, lvl, l, S);
    assert ParentsOK(disk, lv[l]) && ParentOK(disk, lv[l][j]);
    var z := InnerNode(lv[l][j].off, Remaining(lv, l, j, i, stale));
    DeletedParent(disk, lv[l][j], i, stale, z);
    assert forall a :: 0 <= a < |z.slots| ==> z.slots[a] == SlotsOf(z)[a];
  }

  lemma UpperFacts(meta: Meta, disk: Disk, lv: seq<Level>, lvl: map<Off, nat>, l: nat, S: seq<Slot>)
    requires FoldedStruct(meta, disk, lv, lvl, l, S) && 1 <= l < |lv| - 1
    ensures forall m :: 0 <= m < |lv[l]| ==> lv[l][m].InnerNode? && |lv[l][m].slots| >= 1
    ensures AllInner(lv[l]) && AllInner(lv[l+1])
  {
    OpenStruct(meta, disk, lv, lvl, l, S);
    LevelFacts(meta, disk, lv, lvl, l, S, l);
    LevelFacts(meta, disk, lv, lvl, l, S, l + 1);
  }

  lemma BorrowRightKeys(lv: seq<Level>, l: nat, S: seq<Slot>, j: nat, i: nat, stale: bool, ok: bool, b: nat,
      k: nat, pi: nat, x: Node, y: Node)
    requires UpperKeys(lv, l) && Under(lv, l, j, k, pi) && j + 1 < |lv[l]|
    requires forall m :: 0 <= m < |lv[l]| ==> lv[l][m].InnerNode? && |lv[l][m].slots| >= 1
    requires AllInner(lv[l]) && AllInner(lv[l+1]) && pi + 1 < |lv[l+1][k].slots|
    requires KeysState(lv, l, S, ok, b) && Slots(Shifted(lv[l], j, x, y)) == S
    requires i + 1 < |lv[l][j].slots| && |lv[l][j+1].slots| >= 2
    requires x == InnerNode(lv[l][j].off, Remaining(lv, l, j, i, stale) + [lv[l][j+1].slots[0]])
    requires y == InnerNode(lv[l][j+1].off, lv[l][j+1].slots[1..])
    ensures ok <==> KeysP(ShiftedLevels(lv, l, j, x, y, k, pi, lv[l][j+1].slots[0].key), 0, [])
  {
    var L, U, key := lv[l], Slots(lv[l+1]), lv[l][j+1].slots[0].key;
    assert KeysAt(L, U);
    MiddleBetween(L, U, j + 1, 0);
    assert j > 0 ==> Rank(U[j-1].key) < Rank(U[j].key);
    if j + 2 < |L| {
      assert SepOK(L[j+1], L[j+2], U[j+1].key);
    }
    KeysShift(L, U, j, x, y, key);
    ShiftKeys(lv, l, S, j, x, y, k, pi, key, ok, b);
  }

  /** Borrowing from the right sibling repairs an underflow for good; it neither heals nor
      breaks the keys below. */
  lemma BorrowRightDone(meta: Meta, disk: Disk, disk': Disk, lv: seq<Level>, lvl: map<Off, nat>,
      l: nat, j: nat, i: nat, stale: bool, ok: bool, b: nat, k: nat, pi: nat, x: Node, y: Node)
    requires PendingDelete(meta, disk, lv, lvl, l, j, i, stale, ok, b)
    requires l < |lv| - 1 && Family(disk, lv, l, j, k, pi) && pi + 1 < |lv[l+1][k].slots|
    requires |lv[l][j].slots| == MIN_FILL && MIN_FILL < |lv[l][j+1].slots|
    requires x == InnerNode(lv[l][j].off, Remaining(lv, l, j, i, stale) + [lv[l][j+1].slots[0]])
    requires y == InnerNode(lv[l][j+1].off, lv[l][j+1].slots[1..])
    requires lv[l][j+1].slots[0].child in disk
    requires lv[l+1][k].off in ShiftDisk(disk, x, y, lv[l][j+1].slots[0].child, x.off)
    requires ShiftDisk(disk, x, y, lv[l][j+1].slots[0].child, x.off)[lv[l+1][k].off].Internal?
    requires disk' == ParentWritten(ShiftDisk(disk, x, y, lv[l][j+1].slots[0].child, x.off),
                                    lv[l+1][k], pi, lv[l][j+1].slots[0].key)
    ensures ok ==> Inv(meta, disk', ShiftedLevels(lv, l, j, x, y, k, pi, lv[l][j+1].slots[0].key), lvl)
    ensures !ok ==> !Sound(meta, disk')
    ensures FoldedStruct(meta, disk', ShiftedLevels(lv, l, j, x, y, k, pi, lv[l][j+1].slots[0].key), lvl, 0, [])
  {
    var S, key := Deleted(Slots(lv[l]), Start(lv[l], j) + i, stale), lv[l][j+1].slots[0].key;
    BorrowRightStruct(meta, disk, disk', lv, lvl, l, S, j, i, stale, k, pi, x, y);
    var lv' := ShiftedLevels(lv, l, j, x, y, k, pi, key);
    UpperFacts(meta, disk, lv, lvl, l, S);
    assert ok <==> KeysP(lv', 0, []) by {
      OpenDelete(meta, disk, lv, lvl, l, j, i, stale, ok, b);
      BorrowRightKeys(lv, l, S, j, i, stale, ok, b, k, pi, x, y);
    }
    Verdict(meta, disk', lv', lvl, ok);
  }

  // ---------- from the left ----------

  // The borrower's slots after a left borrow of `lent` under the separator sep: repaired, the
  // lent slot takes the separator; as written, the borrower's first slot does (bpt.cc:383).
  ghost function LeftBorrowed(lent: Slot, sep: Key, q: seq<Slot>, repaired: bool): seq<Slot>
    requires |q| >= 1
  {
    if repaired then [Slot(sep, lent.child)] + q else [lent] + WithKey(q, 0, sep)
  }

  lemma LeftMoved(meta: Meta, disk: Disk, lv: seq<Level>, lvl: map<Off, nat>,
      l: nat, S: seq<Slot>, j: nat, i: nat, stale: bool, repaired: bool, sep: Key, x: Node, y: Node, m: nat)
    requires 1 <= l < |lv| && 0 < j < |lv[l]| && lv[l][j].InnerNode? && lv[l][j-1].InnerNode?
    requires i + 1 < |lv[l][j].slots| == MIN_FILL && MIN_FILL < |lv[l][j-1].slots| == m + 1
    requires FoldedStruct(meta, disk, lv, lvl, l, S)
    requires x == InnerNode(lv[l][j-1].off, lv[l][j-1].slots[..m])
    requires y == InnerNode(lv[l][j].off, LeftBorrowed(lv[l][j-1].slots[m], sep, Remaining(lv, l, j, i, stale),
      repaired))
    requires Slots(Shifted(lv[l], j - 1, x, y)) == S
    ensures Moved(disk, x, y, lv[l][j-1].slots[m].child, y.off)
  {
    var L, o := lv[l], lv[l][j-1].slots[m].child;
    var q := Remaining(lv, l, j, i, stale);
    assert y.slots[0].child == o;
    assert forall a :: 1 <= a < |y.slots| ==> y.slots[a].child == q[a-1].child;
    ChildrenKnown(meta, disk, lv, lvl, l, S, j, i, stale);
    assert ParentOK(disk, L[j-1]);
    assert forall a :: 0 <= a < |x.slots| ==> x.slots[a] == SlotsOf(L[j-1])[a];
  }

  lemma BorrowLeftStruct(meta: Meta, disk: Disk, disk': Disk, lv: seq<Level>, lvl: map<Off, nat>,
      l: nat, S: seq<Slot>, j: nat, i: nat, stale: bool, repaired: bool, k: nat, pi: nat, sep: Key, x: Node,
      y: Node, m: nat)
    requires 1 <= l < |lv| - 1 && Family(disk, lv, l, j, k, pi) && pi > 0
    requires i + 1 < |lv[l][j].slots| == MIN_FILL && MIN_FILL < |lv[l][j-1].slots| == m + 1
    requires FoldedStruct(meta, disk, lv, lvl, l, S)
    requires x == InnerNode(lv[l][j-1].off, lv[l][j-1].slots[..m])
    requires y == InnerNode(lv[l][j].off, LeftBorrowed(lv[l][j-1].slots[m], sep, Remaining(lv, l, j, i, stale),
      repaired))
    requires Slots(Shifted(lv[l], j - 1, x, y)) == S
    requires lv[l][j-1].slots[m].child in disk
    requires lv[l+1][k].off in ShiftDisk(disk, x, y, lv[l][j-1].slots[m].child, y.off)
    requires ShiftDisk(disk, x, y, lv[l][j-1].slots[m].child, y.off)[lv[l+1][k].off].Internal?
    requires disk' == ParentWritten(ShiftDisk(disk, x, y, lv[l][j-1].slots[m].child, y.off),
                                    lv[l+1][k], pi - 1, lv[l][j-1].slots[m-1].key)
    ensures FoldedStruct(meta, disk', ShiftedLevels(lv, l, j - 1, x, y, k, pi - 1, lv[l][j-1].slots[m-1].key), lvl,
      0, [])
  {
    var L, o, key := lv[l], lv[l][j-1].slots[m].child, lv[l][j-1].slots[m-1].key;
    LeftMoved(meta, disk, lv, lvl, l, S, j, i, stale, repaired, sep, x, y, m);
    ShiftedParents(meta, disk, lv, lvl, l, S, j - 1, x, y, o, y.off);
    ShiftStruct(meta, disk, lv, lvl, l, S, j - 1, x, y, o, y.off, key);
    ParentKeyStruct(meta, ShiftDisk(disk, x, y, o, y.off), disk', lv[l := Shifted(L, j - 1, x, y)], lvl, l, j - 1,
      k, pi - 1, key);
  }

  // The lent slot already carries the separator: that is the hidden-key invariant.
  lemma LentKey(lv: seq<Level>, l: nat, j: nat, k: nat, pi: nat)
    requires UpperKeys(lv, l) && l + 1 < |lv| && 1 <= j < |lv[l]|
    requires Under(lv, l, j, k, pi) && pi > 0 && lv[l][j-1].InnerNode? && |lv[l][j-1].slots| >= 1
    requires j - 1 < |Slots(lv[l+1])|
    ensures SlotsOf(lv[l+1][k])[pi-1].key == LastKey(lv[l][j-1]) == Slots(lv[l+1])[j-1].key
  {
    SlotsAt(lv[l+1], k, pi - 1);
    assert KeysAt(lv[l], Slots(lv[l+1]));
    assert SepOK(lv[l][j-1], lv[l][j], Slots(lv[l+1])[j-1].key);
  }

  lemma LentKeyPending(meta: Meta, disk: Disk, lv: seq<Level>, lvl: map<Off, nat>,
      l: nat, j: nat, i: nat, stale: bool, ok: bool, b: nat, k: nat, pi: nat)
    requires PendingDelete(meta, disk, lv, lvl, l, j, i, stale, ok, b)
    requires l + 1 < |lv| && 1 <= j < |lv[l]| && Under(lv, l, j, k, pi) && pi > 0
    requires lv[l][j-1].InnerNode? && |lv[l][j-1].slots| >= 1 && j - 1 < |Slots(lv[l+1])|
    ensures SlotsOf(lv[l+1][k])[pi-1].key == LastKey(lv[l][j-1]) == Slots(lv[l+1])[j-1].key
  {
    OpenDelete(meta, disk, lv, lvl, l, j, i, stale, ok, b);
    LentKey(lv, l, j, k, pi);
  }

  // The list of the level after the borrow: unchanged when repaired, else one key too many is
  // the old separator.
  lemma LeftFlat(lv: seq<Level>, l: nat, j: nat, i: nat, stale: bool, repaired: bool, sep: Key, x: Node, y: Node,
      m: nat)
    requires l < |lv| && 1 <= j < |lv[l]| && lv[l][j].InnerNode? && lv[l][j-1].InnerNode?
    requires i + 1 < |lv[l][j].slots| && |lv[l][j].slots| >= 4 && |lv[l][j-1].slots| == m + 1
    requires sep == lv[l][j-1].slots[m].key
    requires x == InnerNode(lv[l][j-1].off, lv[l][j-1].slots[..m])
    requires y == InnerNode(lv[l][j].off, LeftBorrowed(lv[l][j-1].slots[m], sep, Remaining(lv, l, j, i, stale),
      repaired))
    ensures Start(lv[l], j) + i + 1 < |Slots(lv[l])|
    ensures var S := Deleted(Slots(lv[l]), Start(lv[l], j) + i, stale);
      var T := Slots(Shifted(lv[l], j - 1, x, y));
      && (repaired ==> T == S)
      && SameKids(S, T)
      && (!repaired ==> !SortedSlots(T))
  {
    var L, q, P := lv[l], Remaining(lv, l, j, i, stale), lv[l][j-1].slots;
    var y0 := InnerNode(y.off, [P[m]] + q);
    LastMoved(P, m, q, sep);
    RegroupedFlat(L, j, i, stale, j - 1, x, y0);
    if repaired {
      assert y == y0;
    } else {
      OneKeyTooMany(L, j, x, y0, sep);
    }
  }

  lemma OneKeyTooMany(L: Level, j: nat, x: Node, y: Node, sep: Key)
    requires 1 <= j < |L| && y.InnerNode? && |y.slots| > 2 && y.slots[0].key == sep
    ensures var T := Slots(Shifted(L, j - 1, x, InnerNode(y.off, WithKey(y.slots, 1, sep))));
      SameKids(Slots(Shifted(L, j - 1, x, y)), T) && !SortedSlots(T)
  {
    var L0 := Shifted(L, j - 1, x, y);
    TwoSeparators(L0, j, sep);
    FlatWithKey(L0, j, 1, sep);
    assert L0[j := InnerNode(y.off, WithKey(y.slots, 1, sep))]
        == Shifted(L, j - 1, x, InnerNode(y.off, WithKey(y.slots, 1, sep)));
  }

  lemma LastMoved(P: seq<Slot>, m: nat, q: seq<Slot>, sep: Key)
    requires |P| == m + 1 && sep == P[m].key && |q| >= 1
    ensures P[..m] + ([P[m]] + q) == P + q
    ensures LeftBorrowed(P[m], sep, q, true) == [P[m]] + q
    ensures LeftBorrowed(P[m], sep, q, false) == WithKey([P[m]] + q, 1, sep)
  {
  }

  // A node whose first two keys became equal.
  lemma TwoSeparators(L: Level, j: nat, sep: Key)
    requires j < |L| && L[j].InnerNode? && |L[j].slots| > 2 && L[j].slots[0].key == sep
    ensures Start(L, j) + 1 < |Slots(L)| && !SortedSlots(WithKey(Slots(L), Start(L, j) + 1, sep))
  {
    SlotsAt(L, j, 0);
    SlotsAt(L, j, |L[j].slots|);
    var a, T := Start(L, j), WithKey(Slots(L), Start(L, j) + 1, sep);
    assert T[a].key == sep && T[a+1].key == sep && a + 1 < |T| - 1;
  }

  lemma BorrowLeftKeys(lv: seq<Level>, l: nat, S: seq<Slot>, j: nat, i: nat, k: nat, pi: nat, x: Node, y: Node, m: nat)
    requires UpperKeys(lv, l) && Under(lv, l, j, k, pi) && pi > 0 && j > 0 && Under(lv, l, j - 1, k, pi - 1)
    requires forall a :: 0 <= a < |lv[l]| ==> lv[l][a].InnerNode? && |lv[l][a].slots| >= 1
    requires AllInner(lv[l]) && AllInner(lv[l+1])
    requires KeysState(lv, l, S, true, 0) && Slots(Shifted(lv[l], j - 1, x, y)) == S
    requires i + 1 < |lv[l][j].slots| && |lv[l][j-1].slots| == m + 1 >= 2
    requires x == InnerNode(lv[l][j-1].off, lv[l][j-1].slots[..m])
    requires y.InnerNode? && |y.slots| >= 1 && LastKey(y) == LastKey(lv[l][j])
    ensures KeysP(ShiftedLevels(lv, l, j - 1, x, y, k, pi - 1, lv[l][j-1].slots[m-1].key), 0, [])
  {
    var L, U, key := lv[l], Slots(lv[l+1]), lv[l][j-1].slots[m-1].key;
    assert KeysAt(L, U);
    MiddleBetween(L, U, j - 1, m - 1);
    assert j + 1 < |L| ==> Rank(U[j-1].key) < Rank(U[j].key);
    if j + 1 < |L| {
      assert SepOK(L[j], L[j+1], U[j].key);
    }
    KeysShift(L, U, j - 1, x, y, key);
    ShiftKeys(lv, l, S, j - 1, x, y, k, pi - 1, key, true, 0);
  }

  lemma BorrowLeftTree(meta: Meta, disk: Disk, disk': Disk, lv: seq<Level>, lvl: map<Off, nat>,
      l: nat, j: nat, i: nat, stale: bool, ok: bool, b: nat, repaired: bool, k: nat, pi: nat, sep: Key, x: Node,
      y: Node, m: nat)
    requires PendingDelete(meta, disk, lv, lvl, l, j, i, stale, ok, b)
    requires l < |lv| - 1 && Family(disk, lv, l, j, k, pi) && pi > 0
    requires repaired ==> ok && !stale
    requires |lv[l][j].slots| == MIN_FILL && MIN_FILL < |lv[l][j-1].slots| == m + 1
    requires sep == lv[l+1][k].slots[pi-1].key
    requires x == InnerNode(lv[l][j-1].off, lv[l][j-1].slots[..m])
    requires y == InnerNode(lv[l][j].off, LeftBorrowed(lv[l][j-1].slots[m], sep, Remaining(lv, l, j, i, stale),
      repaired))
    requires lv[l][j-1].slots[m].child in disk
    requires lv[l+1][k].off in ShiftDisk(disk, x, y, lv[l][j-1].slots[m].child, y.off)
    requires ShiftDisk(disk, x, y, lv[l][j-1].slots[m].child, y.off)[lv[l+1][k].off].Internal?
    requires disk' == ParentWritten(ShiftDisk(disk, x, y, lv[l][j-1].slots[m].child, y.off),
                                    lv[l+1][k], pi - 1, lv[l][j-1].slots[m-1].key)
    ensures FoldedStruct(meta, disk', ShiftedLevels(lv, l, j - 1, x, y, k, pi - 1, lv[l][j-1].slots[m-1].key), lvl,
      0, [])
    ensures repaired ==> Slots(Shifted(lv[l], j - 1, x, y)) == Deleted(Slots(lv[l]), Start(lv[l], j) + i, stale)
    ensures !repaired ==> !SortedSlots(Slots(Shifted(lv[l], j - 1, x, y)))
  {
    var S := Deleted(Slots(lv[l]), Start(lv[l], j) + i, stale);
    var T := Slots(Shifted(lv[l], j - 1, x, y));
    LentKeyPending(meta, disk, lv, lvl, l, j, i, stale, ok, b, k, pi);
    LeftFlat(lv, l, j, i, stale, repaired, sep, x, y, m);
    StructPending(meta, disk, lv, lvl, l, S, T);
    BorrowLeftStruct(meta, disk, disk', lv, lvl, l, T, j, i, stale, repaired, k, pi, sep, x, y, m);
  }

  lemma BorrowLeftRepaired(meta: Meta, disk: Disk, lv: seq<Level>, lvl: map<Off, nat>,
      l: nat, j: nat, i: nat, stale: bool, b: nat, k: nat, pi: nat, x: Node, y: Node, m: nat)
    requires PendingDelete(meta, disk, lv, lvl, l, j, i, stale, true, b) && l < |lv| - 1
    requires Under(lv, l, j, k, pi) && pi > 0 && j > 0 && Under(lv, l, j - 1, k, pi - 1)
    requires Slots(Shifted(lv[l], j - 1, x, y)) == Deleted(Slots(lv[l]), Start(lv[l], j) + i, stale)
    requires lv[l][j-1].InnerNode? && |lv[l][j-1].slots| == m + 1 >= 2
    requires x == InnerNode(lv[l][j-1].off, lv[l][j-1].slots[..m])
    requires y.InnerNode? && |y.slots| >= 1 && LastKey(y) == LastKey(lv[l][j])
    ensures KeysP(ShiftedLevels(lv, l, j - 1, x, y, k, pi - 1, lv[l][j-1].slots[m-1].key), 0, [])
  {
    var S := Deleted(Slots(lv[l]), Start(lv[l], j) + i, stale);
    UpperFacts(meta, disk, lv, lvl, l, S);
    OpenDelete(meta, disk, lv, lvl, l, j, i, stale, true, b);
    BorrowLeftKeys(lv, l, S, j, i, k, pi, x, y, m);
  }

  /** Borrowing from the left sibling: repaired, it restores the tree; as written, it always
      leaves two equal separators side by side, and the file holds no tree any more. */
  lemma BorrowLeftDone(meta: Meta, disk: Disk, disk': Disk, lv: seq<Level>, lvl: map<Off, nat>,
      l: nat, j: nat, i: nat, stale: bool, ok: bool, b: nat, repaired: bool, k: nat, pi: nat, sep: Key, x: Node,
      y: Node, m: nat)
    requires PendingDelete(meta, disk, lv, lvl, l, j, i, stale, ok, b)
    requires l < |lv| - 1 && Family(disk, lv, l, j, k, pi) && pi > 0
    requires repaired ==> ok && !stale
    requires |lv[l][j].slots| == MIN_FILL && MIN_FILL < |lv[l][j-1].slots| == m + 1
    requires sep == lv[l+1][k].slots[pi-1].key
    requires x == InnerNode(lv[l][j-1].off, lv[l][j-1].slots[..m])
    requires y == InnerNode(lv[l][j].off, LeftBorrowed(lv[l][j-1].slots[m], sep, Remaining(lv, l, j, i, stale),
      repaired))
    requires lv[l][j-1].slots[m].child in disk
    requires lv[l+1][k].off in ShiftDisk(disk, x, y, lv[l][j-1].slots[m].child, y.off)
    requires ShiftDisk(disk, x, y, lv[l][j-1].slots[m].child, y.off)[lv[l+1][k].off].Internal?
    requires disk' == ParentWritten(ShiftDisk(disk, x, y, lv[l][j-1].slots[m].child, y.off),
                                    lv[l+1][k], pi - 1, lv[l][j-1].slots[m-1].key)
    ensures repaired ==> Inv(meta, disk', ShiftedLevels(lv, l, j - 1, x, y, k, pi - 1, lv[l][j-1].slots[m-1].key), lvl)
    ensures !repaired ==> !Sound(meta, disk')
    ensures FoldedStruct(meta, disk', ShiftedLevels(lv, l, j - 1, x, y, k, pi - 1, lv[l][j-1].slots[m-1].key), lvl,
      0, [])
  {
    BorrowLeftTree(meta, disk, disk', lv, lvl, l, j, i, stale, ok, b, repaired, k, pi, sep, x, y, m);
    BorrowLeftKeyState(meta, disk, lv, lvl, l, j, i, stale, ok, b, repaired, k, pi, sep, x, y, m);
    Verdict(meta, disk', ShiftedLevels(lv, l, j - 1, x, y, k, pi - 1, lv[l][j-1].slots[m-1].key), lvl, repaired);
  }

  // A repaired borrow leaves the last key of the borrower alone.
  lemma BorrowedLast(S: seq<Slot>, i: nat, lent: Slot, sep: Key)
    requires i + 1 < |S|
    ensures var r := LeftBorrowed(lent, sep, Deleted(S, i, false), true);
      |r| == |S| && r[|S|-1].key == S[|S|-1].key
  {
    DeletedAt(S, i, false, |S| - 2);
  }

  lemma BorrowLeftKeyState(meta: Meta, disk: Disk, lv: seq<Level>, lvl: map<Off, nat>,
      l: nat, j: nat, i: nat, stale: bool, ok: bool, b: nat, repaired: bool, k: nat, pi: nat, sep: Key, x: Node,
      y: Node, m: nat)
    requires PendingDelete(meta, disk, lv, lvl, l, j, i, stale, ok, b)
    requires l < |lv| - 1 && Family(disk, lv, l, j, k, pi) && pi > 0
    requires repaired ==> ok && !stale
    requires |lv[l][j].slots| == MIN_FILL && MIN_FILL < |lv[l][j-1].slots| == m + 1
    requires x == InnerNode(lv[l][j-1].off, lv[l][j-1].slots[..m])
    requires y == InnerNode(lv[l][j].off, LeftBorrowed(lv[l][j-1].slots[m], sep, Remaining(lv, l, j, i, stale),
      repaired))
    requires repaired ==> Slots(Shifted(lv[l], j - 1, x, y)) == Deleted(Slots(lv[l]), Start(lv[l], j) + i, stale)
    requires !repaired ==> !SortedSlots(Slots(Shifted(lv[l], j - 1, x, y)))
    ensures repaired <==> KeysP(ShiftedLevels(lv, l, j - 1, x, y, k, pi - 1, lv[l][j-1].slots[m-1].key), 0, [])
  {
    if repaired {
      BorrowedLast(lv[l][j].slots, i, lv[l][j-1].slots[m], sep);
      BorrowLeftRepaired(meta, disk, lv, lvl, l, j, i, stale, b, k, pi, x, y, m);
    } else {
      var lv' := ShiftedLevels(lv, l, j - 1, x, y, k, pi - 1, lv[l][j-1].slots[m-1].key);
      assert lv'[l] == Shifted(lv[l], j - 1, x, y);
      TwoEqualKeys(lv', l);
    }
  }

  lemma TwoEqualKeys(lv: seq<Level>, l: nat)
    requires 1 <= l < |lv| && !SortedSlots(Slots(lv[l]))
    ensures !KeysP(lv, 0, [])
  {
    assert !KeysAt(lv[l-1], Flat(lv, l, 0, []));
  }
}
