/** change_parent_child: a new separator between two leaves is written into the lowest common
    ancestor of the two and mirrored into the last keys below it. */
module BptKeyChange {
  import opened KeyOrder
  import opened BptLevels
  import opened BptTree
  import opened BptSteps
  import opened BptAdvance
  import opened BptSearch
  import opened BptInsertSteps
  import opened BptPaths
  import opened BptDeleteSteps
  import opened BptIndexDelete
  import opened BptRebalance
  import opened BptLeafSteps
  import opened BptLeafInsert
  import opened BptLeafRemove

  // Slot c of level l still has to take the key; o is a key in the range of child c by the
  // keys the level has now.
  ghost predicate PendingKey(meta: Meta, disk: Disk, lv: seq<Level>, lvl: map<Off, nat>, l: nat, c: nat, key: Key,
      o: Key)
  {
    && 1 <= l < |lv| && c + 1 < |Slots(lv[l])|
    && Folded(meta, disk, lv, lvl, l, WithKey(Slots(lv[l]), c, key))
    && forall u {:trigger BptTree.Unfold(u)} :: u == meta ==> SortedSlots(Slots(lv[l])) && Between(Slots(lv[l]), c, o)
  }

  lemma OpenKey(meta: Meta, disk: Disk, lv: seq<Level>, lvl: map<Off, nat>, l: nat, c: nat, key: Key, o: Key)
    requires PendingKey(meta, disk, lv, lvl, l, c, key, o)
    ensures SortedSlots(Slots(lv[l])) && Between(Slots(lv[l]), c, o)
    ensures StructP(meta, disk, lv, lvl, l, WithKey(Slots(lv[l]), c, key))
      && KeysP(lv, l, WithKey(Slots(lv[l]), c, key))
  {
    assert BptTree.Unfold(meta);
    OpenTree(meta, disk, lv, lvl, l, WithKey(Slots(lv[l]), c, key));
  }

  // The node that has the slot, and where upper_bound finds it.
  lemma KeyNode(meta: Meta, disk: Disk, lv: seq<Level>, lvl: map<Off, nat>, l: nat, c: nat, key: Key, o: Key)
    returns (j: nat, i: nat)
    requires PendingKey(meta, disk, lv, lvl, l, c, key, o)
    ensures j < |lv[l]| && lv[l][j].InnerNode? && i < |lv[l][j].slots| && c == Start(lv[l], j) + i
    ensures lv[l][j].off in disk && disk[lv[l][j].off].Internal? && disk[lv[l][j].off].slots == lv[l][j].slots
    ensures lv[l][j].off in lvl && lvl[lv[l][j].off] == l
    ensures SortedSlots(lv[l][j].slots) && UpperAt(lv[l][j].slots, o, i)
    ensures Slots(lv[l])[c].child in disk && disk[Slots(lv[l])[c].child].parent == lv[l][j].off
    ensures Slots(lv[l])[c] == lv[l][j].slots[i]
  {
    OpenKey(meta, disk, lv, lvl, l, c, key, o);
    var S := WithKey(Slots(lv[l]), c, key);
    j, i := Locate(lv[l], c);
    NodeFacts(meta, disk, lv, lvl, l, S, l, j);
    NodeSorted(lv[l], j);
    BetweenNode(lv[l], j, i, o);
    assert ParentsOK(disk, lv[l]) && ParentOK(disk, lv[l][j]);
  }

  lemma KeyStepStruct(meta: Meta, disk: Disk, disk': Disk, lv: seq<Level>, lvl: map<Off, nat>, l: nat, c: nat, key: Key,
      j: nat, i: nat, x: Node, q: nat, S2: seq<Slot>)
    requires 1 <= l < |lv| && c < |Slots(lv[l])| && FoldedStruct(meta, disk, lv, lvl, l, WithKey(Slots(lv[l]), c, key))
    requires j < |lv[l]| && lv[l][j].InnerNode? && i < |lv[l][j].slots| && c == Start(lv[l], j) + i
    requires x == InnerNode(lv[l][j].off, WithKey(lv[l][j].slots, i, key))
    requires x.off in disk && disk[x.off].Internal? && disk' == disk[x.off := disk[x.off].(slots := x.slots)]
    requires q == 0 || (q == l + 1 < |lv| && Kids(lv[l], S2))
    ensures FoldedStruct(meta, disk', lv[l := lv[l][j := x]], lvl, q, S2)
  {
    var L, S := lv[l], WithKey(Slots(lv[l]), c, key);
    FlatWithKey(L, j, i, key);
    OpenStruct(meta, disk, lv, lvl, l, S);
    OneNode(disk, disk', lv, lvl, l, j, x, disk'[x.off]);
    assert ParentsOK(disk', L[j := x]) by {
      assert ParentsOK(disk, L);
      SameChildren(disk, disk', L, j, i, key, x);
    }
    assert SizesOK(L[j := x], l) by { assert SizesOK(L, l); }
    if q == l + 1 {
      assert LevelOK(disk, lvl, L, l) && NodeOK(disk, lvl, L, l, j);
      KidsSameOffs(L, L[j := x], S2);
    }
    StructRewrite(meta, disk, disk', lv, lvl, l, S, L[j := x], q, S2);
  }

  // The slot is not the last of its node: the separator is found here only.
  lemma KeyStepHere(lv: seq<Level>, l: nat, c: nat, key: Key, j: nat, i: nat, x: Node)
    requires 1 <= l < |lv| && c < |Slots(lv[l])| && KeysP(lv, l, WithKey(Slots(lv[l]), c, key))
    requires AllInner(lv[l]) && j < |lv[l]| && i + 1 < |lv[l][j].slots| && c == Start(lv[l], j) + i
    requires x == InnerNode(lv[l][j].off, WithKey(lv[l][j].slots, i, key))
    ensures KeysP(lv[l := lv[l][j := x]], 0, [])
  {
    var L, S := lv[l], WithKey(Slots(lv[l]), c, key);
    FlatWithKey(L, j, i, key);
    if l + 1 < |lv| {
      assert KeysAt(L, Flat(lv, l + 1, l, S));
      SameLastKeys(L, L[j := x], Slots(lv[l+1]));
    }
    KeysAdvance(lv, l, S, L[j := x], 0, []);
  }

  // The slot is the last of its node: its key mirrors a separator one level up.
  lemma KeyStepUp(lv: seq<Level>, l: nat, c: nat, key: Key, o: Key, j: nat, i: nat, x: Node)
    requires 1 <= l < |lv| - 1 && c + 1 < |Slots(lv[l])| && KeysP(lv, l, WithKey(Slots(lv[l]), c, key))
    requires forall m :: 0 <= m < |lv[l]| ==> lv[l][m].InnerNode? && |lv[l][m].slots| >= 1
    requires j + 1 < |lv[l]| && i + 1 == |lv[l][j].slots| && c == Start(lv[l], j) + i
    requires SortedSlots(Slots(lv[l])) && Between(Slots(lv[l]), c, o)
    requires |Slots(lv[l+1])| == |lv[l]|
    requires x == InnerNode(lv[l][j].off, WithKey(lv[l][j].slots, i, key))
    ensures KeysP(lv[l := lv[l][j := x]], l + 1, WithKey(Slots(lv[l+1]), j, key))
    ensures SortedSlots(Slots(lv[l+1])) && Between(Slots(lv[l+1]), j, o)
  {
    var L, S, U, T := lv[l], WithKey(Slots(lv[l]), c, key), Slots(lv[l+1]), Slots(lv[l]);
    FlatWithKey(L, j, i, key);
    assert KeysAt(L, Flat(lv, l + 1, l, S)) && KeysAt(lv[l-1], Flat(lv, l, l, S));
    assert SepOK(L[j], L[j+1], U[j].key);
    assert S[c].key == key;
    if j > 0 {
      KeyBefore(U, L, j);
      SlotsAt(L, j, 0);
      assert S[Start(L, j) - 1].key == U[j-1].key;
      assert Rank(U[j-1].key) < Rank(key);
      assert i > 0 ==> Rank(T[Start(L, j) - 1].key) < Rank(T[c-1].key);
    }
    if j + 1 < |U| - 1 {
      SlotsAt(L, j + 1, |L[j+1].slots| - 1);
      SlotsAt(L, j + 2, 0);
      SlotsAt(L, j, i);
      assert SepOK(L[j+1], L[j+2], U[j+1].key);
      assert Rank(S[c].key) < Rank(S[Start(L, j + 1) + |L[j+1].slots| - 1].key);
    }
    KeysOneNode(L, U, j, x, key);
    KeysAdvance(lv, l, S, L[j := x], l + 1, WithKey(U, j, key));
  }

  lemma KeysOneNode(L: Level, U: seq<Slot>, j: nat, x: Node, key: Key)
    requires KeysAt(L, U) && j + 1 < |L| && AllInner(L) && x.InnerNode? && |x.slots| > 0 && LastKey(x) == key
    requires j > 0 ==> Rank(U[j-1].key) < Rank(key)
    requires j + 1 < |U| - 1 ==> Rank(key) < Rank(U[j+1].key)
    ensures KeysAt(L[j := x], WithKey(U, j, key))
  {
    var L', U' := L[j := x], WithKey(U, j, key);
    WithKeySorted(U, j, key);
    forall a | 0 <= a < |U'| - 1 ensures SepOK(L'[a], L'[a+1], U'[a].key) {
      assert SepOK(L[a], L[a+1], U[a].key);
    }
  }

  /** One step of change_parent_child: either the separator was found, and the tree is whole
      again, or the key just written mirrors a separator one level up. */
  lemma KeyStep(meta: Meta, disk: Disk, disk': Disk, lv: seq<Level>, lvl: map<Off, nat>, l: nat, c: nat, key: Key,
      o: Key,
      j: nat, i: nat, x: Node)
    requires PendingKey(meta, disk, lv, lvl, l, c, key, o)
    requires j < |lv[l]| && lv[l][j].InnerNode? && i < |lv[l][j].slots| && c == Start(lv[l], j) + i
    requires x == InnerNode(lv[l][j].off, WithKey(lv[l][j].slots, i, key))
    requires x.off in disk && disk[x.off].Internal? && disk' == disk[x.off := disk[x.off].(slots := x.slots)]
    ensures i + 1 < |lv[l][j].slots| ==> Inv(meta, disk', lv[l := lv[l][j := x]], lvl)
    ensures i + 1 == |lv[l][j].slots| ==>
      && PendingKey(meta, disk', lv[l := lv[l][j := x]], lvl, l + 1, j, key, o)
      && Slots(lv[l+1])[j].child == x.off
  {
    var L, lv' := lv[l], lv[l := lv[l][j := x]];
    if i + 1 < |L[j].slots| {
      KeyStepStruct(meta, disk, disk', lv, lvl, l, c, key, j, i, x, 0, []);
      assert KeysP(lv', 0, []) by {
        OpenKey(meta, disk, lv, lvl, l, c, key, o);
        LevelFacts(meta, disk, lv, lvl, l, WithKey(Slots(L), c, key), l);
        KeyStepHere(lv, l, c, key, j, i, x);
      }
      FoldTree(meta, disk', lv', lvl, 0, []);
    } else {
      KeyUpFacts(meta, disk, lv, lvl, l, c, key, o, j, i);
      var S2 := WithKey(Slots(lv[l+1]), j, key);
      KeyStepStruct(meta, disk, disk', lv, lvl, l, c, key, j, i, x, l + 1, S2);
      assert KeysP(lv', l + 1, S2) && SortedSlots(Slots(lv[l+1])) && Between(Slots(lv[l+1]), j, o) by {
        OpenKey(meta, disk, lv, lvl, l, c, key, o);
        LevelFacts(meta, disk, lv, lvl, l, WithKey(Slots(L), c, key), l);
        KeyStepUp(lv, l, c, key, o, j, i, x);
      }
      FoldTree(meta, disk', lv', lvl, l + 1, S2);
    }
  }

  // A slot that is not the last of its level but the last of its node has a level above.
  lemma KeyUpFacts(meta: Meta, disk: Disk, lv: seq<Level>, lvl: map<Off, nat>, l: nat, c: nat, key: Key, o: Key,
      j: nat, i: nat)
    requires PendingKey(meta, disk, lv, lvl, l, c, key, o)
    requires j < |lv[l]| && lv[l][j].InnerNode? && i + 1 == |lv[l][j].slots| && c == Start(lv[l], j) + i
    ensures l + 1 < |lv| && j + 1 < |lv[l]| && |Slots(lv[l+1])| == |lv[l]|
    ensures Slots(lv[l+1])[j].child == lv[l][j].off
    ensures Kids(lv[l], WithKey(Slots(lv[l+1]), j, key))
  {
    var S := WithKey(Slots(lv[l]), c, key);
    OpenKey(meta, disk, lv, lvl, l, c, key, o);
    SlotsAt(lv[l], j, i);
    StartEnds(lv[l]);
    assert j + 1 < |lv[l]|;
    assert Kids(lv[l], Flat(lv, l + 1, l, S));
  }

  // ---------- the blocks written ----------

  // The block took the key n in the slot of the given child; last says whether that is its last.
  ghost predicate TookKey(b: Block, b': Block, child: Off, n: Key, last: bool)
  {
    b.Internal? && (exists i ::
      && 0 <= i < |b.slots| && b.slots[i].child == child && (i + 1 == |b.slots| <==> last)
      && b' == b.(slots := WithKey(b.slots, i, n)))
  }

  // From the parent of a child upwards, the blocks of the path took the key: the last one, at
  // which the path ends, in a slot with another one to its right, those below in their last slot.
  ghost predicate PathWritten(d: Disk, d': Disk, lvl: map<Off, nat>, l: nat, child: Off, parent: Off, n: Key,
      path: seq<Off>)
    decreases |path|
  {
    && |path| >= 1 && path[0] == parent && parent in d && parent in d' && parent in lvl && lvl[parent] == l
    && TookKey(d[parent], d'[parent], child, n, |path| > 1)
    && (|path| > 1 ==> PathWritten(d, d', lvl, l + 1, parent, d[parent].parent, n, path[1..]))
  }

  ghost predicate OnPath(x: Off, path: seq<Off>)
  {
    |path| >= 1 && (x == path[0] || OnPath(x, path[1..]))
  }

  ghost predicate OnlyPath(d: Disk, d': Disk, path: seq<Off>)
  {
    forall x :: x in d && !OnPath(x, path) ==> x in d' && d'[x] == d[x]
  }

  // A path runs upwards.
  lemma {:induction false} PathAbove(d: Disk, d': Disk, lvl: map<Off, nat>, l: nat, child: Off, parent: Off, n: Key,
      path: seq<Off>, x: Off)
    requires PathWritten(d, d', lvl, l, child, parent, n, path) && OnPath(x, path)
    ensures x in lvl && lvl[x] >= l
    decreases |path|
  {
    if x != path[0] {
      PathAbove(d, d', lvl, l + 1, parent, d[parent].parent, n, path[1..], x);
    }
  }

  lemma {:induction false} PathFrame(d0: Disk, d: Disk, d': Disk, lvl: map<Off, nat>, l: nat, child: Off,
      parent: Off, n: Key,
      path: seq<Off>)
    requires PathWritten(d, d', lvl, l, child, parent, n, path)
    requires forall x :: x in d && x in lvl && lvl[x] >= l ==> x in d0 && d0[x] == d[x]
    ensures PathWritten(d0, d', lvl, l, child, parent, n, path)
    decreases |path|
  {
    if |path| > 1 {
      PathFrame(d0, d, d', lvl, l + 1, parent, d[parent].parent, n, path[1..]);
    }
  }

  // One more block below a path that is written.
  lemma PathGrows(d0: Disk, d: Disk, d': Disk, lvl: map<Off, nat>, l: nat, child: Off, parent: Off, n: Key, i: nat,
      path: seq<Off>)
    requires parent in d0 && parent in lvl && lvl[parent] == l && d0[parent].Internal? && i < |d0[parent].slots|
    requires d0[parent].slots[i].child == child && i + 1 == |d0[parent].slots|
    requires d == d0[parent := d0[parent].(slots := WithKey(d0[parent].slots, i, n))]
    requires PathWritten(d, d', lvl, l + 1, parent, d0[parent].parent, n, path)
    requires OnlyPath(d, d', path)
    ensures PathWritten(d0, d', lvl, l, child, parent, n, [parent] + path)
    ensures OnlyPath(d0, d', [parent] + path)
  {
    PathFrame(d0, d, d', lvl, l + 1, parent, d0[parent].parent, n, path);
    assert ([parent] + path)[1..] == path;
    if OnPath(parent, path) {
      PathAbove(d, d', lvl, l + 1, parent, d0[parent].parent, n, path, parent);
    }
    assert d'[parent] == d[parent];
    assert TookKey(d0[parent], d'[parent], child, n, true);
  }

  // The block is, or was, an internal node of the tree.
  ghost predicate Inner(lvl: map<Off, nat>, x: Off)
  {
    x in lvl && lvl[x] >= 1
  }

  // Two files agree on internal nodes.
  ghost predicate SameInner(lvl: map<Off, nat>, d: Disk, D: Disk)
  {
    d.Keys == D.Keys && forall x :: x in D && Inner(lvl, x) ==> d[x] == D[x]
  }

  ghost predicate SameOthers(lvl: map<Off, nat>, d: Disk, d': Disk)
  {
    forall x :: x in d && !Inner(lvl, x) ==> x in d' && d'[x] == d[x]
  }

  // The leaves may be written before or after the internal nodes.
  lemma LeavesStored(lvl: map<Off, nat>, d0: Disk, d1: Disk, D: Disk, D': Disk, x: Off, a: Block, y: Off, b: Block)
    requires x in lvl && lvl[x] == 0 && y in lvl && lvl[y] == 0 && x in d0 && y in d0 && x != y
    requires D == d0[x := a][y := b] && D'.Keys == D.Keys
    requires SameInner(lvl, d1, D') && SameOthers(lvl, D, D') && SameOthers(lvl, d0, d1)
    ensures d1[x := a][y := b] == D' == d1[y := b][x := a]
  {
    var d := d1[x := a][y := b];
    assert d.Keys == D'.Keys;
    forall o | o in d ensures d[o] == D'[o] {
      assert Inner(lvl, o) ==> d1[o] == D'[o];
    }
  }

  // ---------- between two leaves ----------

  lemma LeafShiftWrites(disk: Disk, disk': Disk, lvl: map<Off, nat>, L: Level, c: nat, x: Node, y: Node)
    requires LevelOK(disk, lvl, L, 0) && c + 1 < |L|
    requires x.LeafNode? && y.LeafNode? && x.off == L[c].off && y.off == L[c+1].off
    requires x.off in disk && disk[x.off].Leaf? && y.off in disk && disk[y.off].Leaf?
    requires disk' == disk[x.off := disk[x.off].(recs := x.recs)][y.off := disk[y.off].(recs := y.recs)]
    ensures OnlyLevel(disk, disk', lvl, 0)
    ensures Rewritten(disk, disk', L, Shifted(L, c, x, y))
  {
    var L' := Shifted(L, c, x, y);
    assert NodeOK(disk, lvl, L, 0, c) && NodeOK(disk, lvl, L, 0, c + 1);
    forall k | 0 <= k < |L|
      ensures L[k].off in disk && SameLinks(disk[L[k].off], disk'[L[k].off]) && Matches(disk'[L[k].off], L'[k])
      ensures L'[k].off == L[k].off && (L'[k].LeafNode? <==> L[k].LeafNode?)
    {
      assert NodeOK(disk, lvl, L, 0, k);
    }
  }

  lemma LeafShiftStruct(meta: Meta, disk: Disk, disk': Disk, lv: seq<Level>, lvl: map<Off, nat>, c: nat, x: Node,
      y: Node, key: Key)
    requires FoldedStruct(meta, disk, lv, lvl, 0, []) && c + 1 < |lv[0]|
    requires x.LeafNode? && y.LeafNode? && x.off == lv[0][c].off && y.off == lv[0][c+1].off
    requires MIN_FILL <= |x.recs| <= BP_ORDER && MIN_FILL <= |y.recs| <= BP_ORDER
    requires x.off in disk && disk[x.off].Leaf? && y.off in disk && disk[y.off].Leaf?
    requires disk' == disk[x.off := disk[x.off].(recs := x.recs)][y.off := disk[y.off].(recs := y.recs)]
    requires Kids(lv[0], Slots(lv[1]))
    ensures FoldedStruct(meta, disk', lv[0 := Shifted(lv[0], c, x, y)], lvl, 1, WithKey(Slots(lv[1]), c, key))
  {
    var L, L' := lv[0], Shifted(lv[0], c, x, y);
    OpenStruct(meta, disk, lv, lvl, 0, []);
    assert LevelOK(disk, lvl, L, 0);
    LeafShiftWrites(disk, disk', lvl, L, c, x, y);
    assert SizesOK(L', 0) by { assert SizesOK(L, 0); }
    StructRewrite(meta, disk, disk', lv, lvl, 0, [], L', 1, WithKey(Slots(lv[1]), c, key));
  }

  lemma LeafShiftKeys(lv: seq<Level>, c: nat, x: Node, y: Node)
    requires |lv| >= 2 && KeysP(lv, 0, []) && c + 1 < |lv[0]|
    requires forall m :: 0 <= m < |lv[0]| ==> lv[0][m].LeafNode?
    requires x.LeafNode? && y.LeafNode? && |x.recs| >= 1 && |y.recs| >= 1
    requires SortedRecs(x.recs + y.recs) && InPair(Slots(lv[1]), c, x.recs + y.recs)
    requires |Slots(lv[1])| == |lv[0]|
    ensures KeysP(lv[0 := Shifted(lv[0], c, x, y)], 1, WithKey(Slots(lv[1]), c, y.recs[0].key))
  {
    var L' := Shifted(lv[0], c, x, y);
    assert KeysAt(lv[0], Flat(lv, 1, 0, []));
    KeysLeafShift(lv[0], Slots(lv[1]), c, x, y);
    assert LeavesSorted(L') by {
      assert forall j :: 0 <= j < |L'| && j != c && j != c + 1 ==> L'[j] == lv[0][j];
    }
    KeysAdvance(lv, 0, [], L', 1, WithKey(Slots(lv[1]), c, y.recs[0].key));
  }

  /** Two neighbouring leaves after one lost record q and the other gave one up: the separator
      between them is what is left to change. */
  lemma LeafShiftDone(meta: Meta, disk: Disk, disk': Disk, lv: seq<Level>, lvl: map<Off, nat>,
      j: nat, q: nat, c: nat, x: Node, y: Node, o: Key)
    requires Inv(meta, disk, lv, lvl) && c + 1 < |lv[0]| && (j == c || j == c + 1) && q < |RecsOf(lv[0][j])|
    requires x.LeafNode? && y.LeafNode? && x.off == lv[0][c].off && y.off == lv[0][c+1].off
    requires x.recs + y.recs == Pair(lv[0], j, q, c)
    requires MIN_FILL <= |x.recs| <= BP_ORDER && MIN_FILL <= |y.recs| <= BP_ORDER
    requires x.off in disk && disk[x.off].Leaf? && y.off in disk && disk[y.off].Leaf?
    requires disk' == disk[x.off := disk[x.off].(recs := x.recs)][y.off := disk[y.off].(recs := y.recs)]
    requires Between(Slots(lv[1]), c, o)
    ensures PendingKey(meta, disk', lv[0 := Shifted(lv[0], c, x, y)], lvl, 1, c, y.recs[0].key, o)
  {
    var lv' := lv[0 := Shifted(lv[0], c, x, y)];
    var S2 := WithKey(Slots(lv[1]), c, y.recs[0].key);
    PairFacts(meta, disk, lv, lvl, j, q, c);
    LeafShiftStruct(meta, disk, disk', lv, lvl, c, x, y, y.recs[0].key);
    assert KeysP(lv', 1, S2) by {
      OpenTree(meta, disk, lv, lvl, 0, []);
      LeafShiftKeys(lv, c, x, y);
    }
    FoldTree(meta, disk', lv', lvl, 1, S2);
  }

  lemma LeafShiftEntries(meta: Meta, disk: Disk, lv: seq<Level>, lvl: map<Off, nat>, lv': seq<Level>,
      j: nat, q: nat, c: nat, x: Node, y: Node)
    requires Inv(meta, disk, lv, lvl) && |lv'| >= 1 && c + 1 < |lv[0]| && (j == c || j == c + 1)
    requires lv[0][j].LeafNode? && q < |lv[0][j].recs|
    requires x.LeafNode? && y.LeafNode? && x.recs + y.recs == Pair(lv[0], j, q, c)
    requires lv'[0] == Shifted(lv[0], c, x, y)
    ensures Entries(lv') == Entries(lv) - {lv[0][j].recs[q].key}
  {
    LeafRoom(meta, disk, lv, lvl, c);
    RecsTwo(x, y);
    assert Shifted(lv[0], c, x, y) == lv[0][..c] + [x, y] + lv[0][c+2..];
    RegroupedEntries(lv, lv', j, q, c, [x, y]);
  }
}
