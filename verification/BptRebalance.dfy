/** A node of an internal level that lost too many slots: it borrows one from a sibling under
    the same parent, is merged with a sibling, or, being the root, is taken off the tree. */
module BptRebalance {
  import opened KeyOrder
  import opened BptLevels
  import opened BptTree
  import opened BptSteps
  import opened BptAdvance
  import opened BptInsertSteps
  import opened BptSplitSteps
  import opened BptDeleteSteps
  import opened BptPaths
  import opened BptIndexDelete

  // ---------- one slot moves between neighbours ----------

  ghost function Shifted(L: Level, c: nat, x: Node, y: Node): Level
    requires c + 1 < |L|
  {
    L[c := x][c + 1 := y]
  }

  // Regrouping the slots of two neighbours leaves the list of the level as it was.
  lemma FlatRegroup(L: Level, c: nat, X: Level)
    requires c + 1 < |L| && Slots(X) == SlotsOf(L[c]) + SlotsOf(L[c+1])
    ensures Slots(L[..c] + X + L[c+2..]) == Slots(L)
  {
    SlotsReplace(L, c, c + 2, X);
    SlotsTwo(L[c], L[c+1]);
    assert L[c..c+2] == [L[c], L[c+1]];
    assert Slots(L)[Start(L, c)..Start(L, c + 2)] == Slots(X);
  }

  lemma FlatShift(L: Level, c: nat, x: Node, y: Node)
    requires c + 1 < |L| && SlotsOf(x) + SlotsOf(y) == SlotsOf(L[c]) + SlotsOf(L[c+1])
    ensures Slots(Shifted(L, c, x, y)) == Slots(L)
  {
    SlotsTwo(x, y);
    FlatRegroup(L, c, [x, y]);
    assert Shifted(L, c, x, y) == L[..c] + [x, y] + L[c+2..];
  }

  lemma FlatMerge(L: Level, c: nat, x: Node)
    requires c + 1 < |L| && SlotsOf(x) == SlotsOf(L[c]) + SlotsOf(L[c+1])
    ensures Slots(WithMerge(L, c, x)) == Slots(L)
  {
    SlotsOne(x);
    FlatRegroup(L, c, [x]);
  }

  // The child o of a moved slot gets the parent np, and both neighbours are rewritten.
  ghost function ShiftDisk(disk: Disk, x: Node, y: Node, o: Off, np: Off): Disk
    requires x.InnerNode? && y.InnerNode?
    requires x.off in disk && disk[x.off].Internal? && y.off in disk && disk[y.off].Internal? && o in disk
  {
    disk[o := disk[o].(parent := np)][x.off := disk[x.off].(slots := x.slots)][y.off := disk[y.off].(slots := y.slots)]
  }

  lemma ShiftWrites(disk: Disk, lv: seq<Level>, lvl: map<Off, nat>, l: nat, c: nat, x: Node, y: Node, o: Off, np: Off)
    requires Blocks(disk, lv, lvl) && 1 <= l < |lv| && c + 1 < |lv[l]|
    requires x.InnerNode? && y.InnerNode? && x.off == lv[l][c].off && y.off == lv[l][c+1].off
    requires x.off in disk && disk[x.off].Internal? && y.off in disk && disk[y.off].Internal?
    requires o in disk && o in lvl && lvl[o] == l - 1
    ensures OnlyLevel(disk, ShiftDisk(disk, x, y, o, np), lvl, l)
    ensures Rewritten(disk, ShiftDisk(disk, x, y, o, np), lv[l], Shifted(lv[l], c, x, y))
  {
    var L, L', d := lv[l], Shifted(lv[l], c, x, y), ShiftDisk(disk, x, y, o, np);
    assert LevelOK(disk, lvl, L, l);
    assert NodeOK(disk, lvl, L, l, c) && NodeOK(disk, lvl, L, l, c + 1);
    forall k | 0 <= k < |L|
      ensures L[k].off in disk && SameLinks(disk[L[k].off], d[L[k].off]) && Matches(d[L[k].off], L'[k])
      ensures L'[k].off == L[k].off && (L'[k].LeafNode? <==> L[k].LeafNode?)
    {
      assert NodeOK(disk, lvl, L, l, k);
    }
  }

  lemma ShiftParents(disk: Disk, d: Disk, lower: Level, L: Level, lvl: map<Off, nat>, l: nat, S: seq<Slot>,
      c: nat, x: Node, y: Node, o: Off, np: Off, m: nat)
    requires 1 <= l && c + 1 < |L| && LevelOK(disk, lvl, lower, l - 1)
    requires x.InnerNode? && y.InnerNode? && x.off == L[c].off && y.off == L[c+1].off
    requires Slots(Shifted(L, c, x, y)) == S && Kids(lower, S)
    requires ParentsOK(disk, L)
    requires forall p :: p in disk ==> p in d && d[p].parent == (if p == o then np else disk[p].parent)
    requires ParentOK(d, x) && ParentOK(d, y)
    requires IsChild(x.slots, o) || IsChild(y.slots, o)
    requires m < |L|
    ensures ParentOK(d, Shifted(L, c, x, y)[m])
  {
    var L' := Shifted(L, c, x, y);
    if m != c && m != c + 1 {
      assert ParentOK(disk, L[m]) && L'[m] == L[m];
      forall i | 0 <= i < |SlotsOf(L[m])| ensures SlotsOf(L[m])[i].child != o {
        ChildrenApart(lower, L', m, i, c, SlotsOf(L[m])[i].child);
        ChildrenApart(lower, L', m, i, c + 1, SlotsOf(L[m])[i].child);
        assert L'[c] == x && L'[c+1] == y;
      }
    }
  }

  // The parent's separator between the two neighbours is rewritten.
  lemma ParentKeyStruct(meta: Meta, disk: Disk, disk': Disk, lv: seq<Level>, lvl: map<Off, nat>,
      l: nat, c: nat, k: nat, i: nat, key: Key)
    requires 1 <= l && Under(lv, l, c, k, i)
    requires lv[l+1][k].InnerNode? && c < |Slots(lv[l+1])|
    requires FoldedStruct(meta, disk, lv, lvl, l + 1, WithKey(Slots(lv[l+1]), c, key))
    requires lv[l+1][k].off in disk && disk[lv[l+1][k].off].Internal?
    requires disk' == disk[lv[l+1][k].off := disk[lv[l+1][k].off].(slots := WithKey(lv[l+1][k].slots, i, key))]
    ensures FoldedStruct(meta, disk',
      lv[l+1 := lv[l+1][k := InnerNode(lv[l+1][k].off, WithKey(lv[l+1][k].slots, i, key))]], lvl, 0, [])
  {
    var U, p := lv[l+1], l + 1;
    var x := InnerNode(U[k].off, WithKey(U[k].slots, i, key));
    var S := WithKey(Slots(U), c, key);
    FlatWithKey(U, k, i, key);
    OpenStruct(meta, disk, lv, lvl, p, S);
    OneNode(disk, disk', lv, lvl, p, k, x, disk'[x.off]);
    assert ParentsOK(disk', U[k := x]) by {
      assert ParentsOK(disk, U);
      SameChildren(disk, disk', U, k, i, key, x);
    }
    assert SizesOK(U[k := x], p) by { assert SizesOK(U, p); }
    StructRewrite(meta, disk, disk', lv, lvl, p, S, U[k := x], 0, []);
  }

  lemma SameChildren(disk: Disk, disk': Disk, U: Level, k: nat, i: nat, key: Key, x: Node)
    requires k < |U| && U[k].InnerNode? && i < |U[k].slots| && ParentsOK(disk, U)
    requires x == InnerNode(U[k].off, WithKey(U[k].slots, i, key))
    requires forall o :: o in disk ==> o in disk' && disk'[o].parent == disk[o].parent
    ensures ParentsOK(disk', U[k := x])
  {
    var U' := U[k := x];
    forall m | 0 <= m < |U'| ensures ParentOK(disk', U'[m]) {
      assert ParentOK(disk, U[m]);
      if m == k {
        forall a | 0 <= a < |x.slots| ensures x.slots[a].child in disk' && disk'[x.slots[a].child].parent == x.off {
          assert x.slots[a].child == SlotsOf(U[k])[a].child;
        }
      }
    }
  }

  lemma ShiftStruct(meta: Meta, disk: Disk, lv: seq<Level>, lvl: map<Off, nat>, l: nat, S: seq<Slot>,
      c: nat, x: Node, y: Node, o: Off, np: Off, key: Key)
    requires 1 <= l < |lv| - 1 && c + 1 < |lv[l]| && c < |Slots(lv[l+1])|
    requires FoldedStruct(meta, disk, lv, lvl, l, S)
    requires x.InnerNode? && y.InnerNode? && x.off == lv[l][c].off && y.off == lv[l][c+1].off
    requires x.off in disk && disk[x.off].Internal? && y.off in disk && disk[y.off].Internal?
    requires o in disk && o in lvl && lvl[o] == l - 1
    requires Slots(Shifted(lv[l], c, x, y)) == S
    requires MIN_FILL <= |x.slots| <= BP_ORDER && MIN_FILL <= |y.slots| <= BP_ORDER
    requires forall m :: 0 <= m < |lv[l]| ==> ParentOK(ShiftDisk(disk, x, y, o, np), Shifted(lv[l], c, x, y)[m])
    ensures FoldedStruct(meta, ShiftDisk(disk, x, y, o, np), lv[l := Shifted(lv[l], c, x, y)], lvl,
                         l + 1, WithKey(Slots(lv[l+1]), c, key))
  {
    var d, L' := ShiftDisk(disk, x, y, o, np), Shifted(lv[l], c, x, y);
    OpenStruct(meta, disk, lv, lvl, l, S);
    ShiftWrites(disk, lv, lvl, l, c, x, y, o, np);
    assert Kids(L', WithKey(Slots(lv[l+1]), c, key)) by {
      assert Kids(lv[l], Flat(lv, l + 1, l, S));
    }
    assert SizesOK(L', l) by { assert SizesOK(lv[l], l); }
    assert ParentsOK(d, L');
    StructRewrite(meta, disk, d, lv, lvl, l, S, L', l + 1, WithKey(Slots(lv[l+1]), c, key));
  }

  // ---------- a node, its parent and its siblings ----------

  ghost predicate AllInner(L: Level)
  {
    forall m :: 0 <= m < |L| ==> L[m].InnerNode?
  }

  ghost predicate OnDisk(disk: Disk, x: Node)
  {
    x.off in disk && Matches(disk[x.off], x)
  }

  // Node j of level l, child i of node k of the level above, as the headers on disk tell it.
  ghost predicate Family(disk: Disk, lv: seq<Level>, l: nat, j: nat, k: nat, i: nat)
  {
    && 1 <= l && Under(lv, l, j, k, i)
    && (forall m :: 0 <= m < |lv[l]| ==> lv[l][m].InnerNode? && MIN_FILL <= |lv[l][m].slots| <= BP_ORDER)
    && (forall m :: 0 <= m < |lv[l]| ==> OnDisk(disk, lv[l][m]))
    && lv[l+1][k].InnerNode? && lv[l+1][k].off in disk && disk[lv[l+1][k].off].Internal?
    && disk[lv[l+1][k].off].slots == lv[l+1][k].slots && 2 <= |lv[l+1][k].slots| <= BP_ORDER
    && disk[lv[l][j].off].parent == lv[l+1][k].off
    && disk[lv[l][j].off].next == OffAt(lv[l], j + 1) && disk[lv[l][j].off].prev == OffAt(lv[l], j - 1)
    && (lv[l+1][k].slots[0].child == lv[l][j].off <==> i == 0)
    && (lv[l+1][k].slots[|lv[l+1][k].slots|-1].child == lv[l][j].off <==> i == |lv[l+1][k].slots| - 1)
    && |Slots(lv[l+1])| == |lv[l]|
    && (i > 0 ==> j > 0 && disk[lv[l][j-1].off].parent == lv[l+1][k].off && Under(lv, l, j - 1, k, i - 1))
    && (i + 1 < |lv[l+1][k].slots| ==> j + 1 < |lv[l]|)
    && (k + 1 < |lv[l+1]| ==> j + 1 < |lv[l]|)
    && (i + 1 == |lv[l+1][k].slots| && j + 1 < |lv[l]| ==> k + 1 < |lv[l+1]|)
  }

  lemma FamilyOf(meta: Meta, disk: Disk, lv: seq<Level>, lvl: map<Off, nat>, l: nat, S: seq<Slot>, j: nat)
    returns (k: nat, i: nat)
    requires FoldedStruct(meta, disk, lv, lvl, l, S) && 1 <= l < |lv| - 1 && j < |lv[l]|
    ensures Family(disk, lv, l, j, k, i)
  {
    OpenStruct(meta, disk, lv, lvl, l, S);
    k, i := ParentOf(meta, disk, lv, lvl, l, S, l, j);
    var U, L := lv[l+1], lv[l];
    NodeFacts(meta, disk, lv, lvl, l, S, l + 1, k);
    assert Kids(L, Flat(lv, l + 1, l, S));
    var n := |U[k].slots|;
    SlotsAt(U, k, n);
    assert |L| >= 2;
    LevelOnDisk(meta, disk, lv, lvl, l, S);
    NodeFacts(meta, disk, lv, lvl, l, S, l, j);
    FamilyEnds(L, U, disk, lvl, l, k, i, j);
    if i > 0 {
      LeftSibling(meta, disk, lv, lvl, l, S, j, k, i);
    }
    LastOfFamily(meta, disk, lv, lvl, l, S, j, k, i);
  }

  lemma LeftSibling(meta: Meta, disk: Disk, lv: seq<Level>, lvl: map<Off, nat>, l: nat, S: seq<Slot>, j: nat,
      k: nat, i: nat)
    requires StructP(meta, disk, lv, lvl, l, S) && 1 <= l && Under(lv, l, j, k, i) && i > 0
    ensures j > 0 && lv[l][j-1].off in disk && disk[lv[l][j-1].off].parent == lv[l+1][k].off
    ensures Under(lv, l, j - 1, k, i - 1)
  {
    var U, L := lv[l+1], lv[l];
    assert Kids(L, Flat(lv, l + 1, l, S));
    assert ParentsOK(disk, U) && ParentOK(disk, U[k]);
    SlotsAt(U, k, i - 1);
    assert SlotsOf(U[k])[i-1].child == L[j-1].off;
  }

  // A node with another one to its right, or below one that has, is not the last of its level.
  lemma LastOfFamily(meta: Meta, disk: Disk, lv: seq<Level>, lvl: map<Off, nat>, l: nat, S: seq<Slot>, j: nat,
      k: nat, i: nat)
    requires StructP(meta, disk, lv, lvl, l, S) && 1 <= l && Under(lv, l, j, k, i)
    ensures i + 1 < |SlotsOf(lv[l+1][k])| || k + 1 < |lv[l+1]| <==> j + 1 < |lv[l]|
  {
    var U, L := lv[l+1], lv[l];
    assert Kids(L, Flat(lv, l + 1, l, S));
    SlotsAt(U, k, i);
    if k + 1 < |U| {
      NodeFacts(meta, disk, lv, lvl, l, S, l + 1, k + 1);
      SlotsAt(U, k + 1, 0);
    } else {
      StartEnds(U);
    }
  }

  lemma LevelOnDisk(meta: Meta, disk: Disk, lv: seq<Level>, lvl: map<Off, nat>, l: nat, S: seq<Slot>)
    requires StructP(meta, disk, lv, lvl, l, S) && 1 <= l < |lv| && |lv[l]| >= 2
    ensures forall m :: 0 <= m < |lv[l]| ==>
      lv[l][m].InnerNode? && MIN_FILL <= |lv[l][m].slots| <= BP_ORDER && OnDisk(disk, lv[l][m])
  {
    var L := lv[l];
    forall m | 0 <= m < |L| ensures L[m].InnerNode? && MIN_FILL <= |L[m].slots| <= BP_ORDER && OnDisk(disk, L[m]) {
      NodeFacts(meta, disk, lv, lvl, l, S, l, m);
    }
  }

  // The first and the last child of a node, told by their offsets.
  lemma FamilyEnds(L: Level, U: Level, disk: Disk, lvl: map<Off, nat>, l: nat, k: nat, i: nat, j: nat)
    requires LevelOK(disk, lvl, L, l) && Kids(L, Slots(U)) && k < |U| && i < |SlotsOf(U[k])|
      && j == Start(U, k) + i < |L|
    ensures SlotsOf(U[k])[0].child == L[j].off <==> i == 0
    ensures SlotsOf(U[k])[|SlotsOf(U[k])|-1].child == L[j].off <==> i == |SlotsOf(U[k])| - 1
  {
    var n := |SlotsOf(U[k])|;
    SlotsAt(U, k, 0);
    SlotsAt(U, k, n - 1);
    assert SlotsOf(U[k])[0].child == L[Start(U, k)].off && SlotsOf(U[k])[n-1].child == L[Start(U, k) + n - 1].off;
  }

  // ---------- borrowing from the right sibling ----------

  ghost function ParentWritten(disk: Disk, p: Node, i: nat, key: Key): Disk
    requires p.InnerNode? && i < |p.slots| && p.off in disk && disk[p.off].Internal?
  {
    disk[p.off := disk[p.off].(slots := WithKey(p.slots, i, key))]
  }

  // The levels after neighbours c and c + 1 of level l became x and y, and the separator
  // between them, slot i of node k above, became key.
  ghost function ShiftedLevels(lv: seq<Level>, l: nat, c: nat, x: Node, y: Node, k: nat, i: nat, key: Key): seq<Level>
    requires l + 1 < |lv| && c + 1 < |lv[l]| && k < |lv[l+1]| && lv[l+1][k].InnerNode? && i < |lv[l+1][k].slots|
  {
    lv[l := Shifted(lv[l], c, x, y)][l + 1 := lv[l+1][k := InnerNode(lv[l+1][k].off,
      WithKey(lv[l+1][k].slots, i, key))]]
  }

  lemma ShiftKeys(lv: seq<Level>, l: nat, S: seq<Slot>, c: nat, x: Node, y: Node, k: nat, i: nat, key: Key,
      ok: bool, b: nat)
    requires UpperKeys(lv, l) && Under(lv, l, c, k, i) && c + 1 < |lv[l]|
    requires forall m :: 0 <= m < |lv[l]| ==> lv[l][m].InnerNode? && |lv[l][m].slots| >= 1
    requires AllInner(lv[l+1])
    requires i + 1 < |lv[l+1][k].slots|
    requires KeysState(lv, l, S, ok, b) && Slots(Shifted(lv[l], c, x, y)) == S
    requires ok ==> KeysAt(Shifted(lv[l], c, x, y), WithKey(Slots(lv[l+1]), c, key))
    ensures ok <==> KeysP(ShiftedLevels(lv, l, c, x, y, k, i, key), 0, [])
  {
    var U, L' := lv[l+1], Shifted(lv[l], c, x, y);
    var z := InnerNode(U[k].off, WithKey(U[k].slots, i, key));
    var lv1 := lv[l := L'];
    var lv' := ShiftedLevels(lv, l, c, x, y, k, i, key);
    if ok {
      FlatWithKey(U, k, i, key);
      KeysAdvance(lv, l, S, L', l + 1, WithKey(Slots(U), c, key));
      if l + 2 < |lv| {
        assert KeysAt(U, Slots(lv[l+2]));
        SameLastKeys(U, U[k := z], Slots(lv[l+2]));
      }
      KeysAdvance(lv1, l + 1, WithKey(Slots(U), c, key), U[k := z], 0, []);
    } else {
      BrokenStays(lv, lv', l, S, b);
    }
  }
}
