/** remove_from_index on one level: when a deletion is pending, how it is absorbed, and which
    trees make the code as written go wrong. */
module BptIndexDelete {
  import opened KeyOrder
  import opened BptLevels
  import opened BptTree
  import opened BptAdvance
  import opened BptSearch
  import opened BptInsertSteps
  import opened BptDeleteSteps
  import opened BptPaths

  // ---------- where the parent of a node is ----------

  // Node j of level l is child number i of node k of level l + 1.
  ghost predicate Under(lv: seq<Level>, l: nat, j: nat, k: nat, i: nat)
  {
    && l + 1 < |lv| && j < |lv[l]| && k < |lv[l+1]|
    && i < |SlotsOf(lv[l+1][k])| && j == Start(lv[l+1], k) + i
  }

  // Levels from l upwards still satisfy their key invariants.
  ghost predicate UpperKeys(lv: seq<Level>, l: nat)
  {
    && 1 <= l < |lv|
    && SortedSlots(Slots(lv[l]))
    && forall m :: l < m < |lv| ==> KeysAt(lv[m-1], Slots(lv[m]))
  }

  // Either all key invariants hold once S stands on level l, or some level b breaks them.
  ghost predicate KeysState(lv: seq<Level>, l: nat, S: seq<Slot>, ok: bool, b: nat)
  {
    && l < |lv|
    && (ok ==> KeysP(lv, l, S))
    && (!ok ==> 1 <= b <= l && !KeysAt(lv[b-1], Flat(lv, b, l, S)))
  }

  // Slot i + 1 of node j on level l is about to go (if stale: dropped as it stands, being the
  // last of its node).
  ghost predicate PendingDelete(meta: Meta, disk: Disk, lv: seq<Level>, lvl: map<Off, nat>,
      l: nat, j: nat, i: nat, stale: bool, ok: bool, b: nat)
  {
    && 1 <= l < |lv| && j < |lv[l]| && lv[l][j].InnerNode? && i + 1 < |lv[l][j].slots|
    && (stale ==> i + 2 == |lv[l][j].slots|)
    && (stale && ok ==> j + 1 == |lv[l]|)
    && Start(lv[l], j) + i + 1 < |Slots(lv[l])|
    && FoldedStruct(meta, disk, lv, lvl, l, Deleted(Slots(lv[l]), Start(lv[l], j) + i, stale))
    && (forall u {:trigger BptTree.Unfold(u)} :: u == meta ==>
          && UpperKeys(lv, l)
          && KeysState(lv, l, Deleted(Slots(lv[l]), Start(lv[l], j) + i, stale), ok, b))
  }

  lemma OpenDelete(meta: Meta, disk: Disk, lv: seq<Level>, lvl: map<Off, nat>,
      l: nat, j: nat, i: nat, stale: bool, ok: bool, b: nat)
    requires PendingDelete(meta, disk, lv, lvl, l, j, i, stale, ok, b)
    ensures UpperKeys(lv, l)
    ensures KeysState(lv, l, Deleted(Slots(lv[l]), Start(lv[l], j) + i, stale), ok, b)
    ensures StructP(meta, disk, lv, lvl, l, Deleted(Slots(lv[l]), Start(lv[l], j) + i, stale))
  {
    assert BptTree.Unfold(meta);
    OpenStruct(meta, disk, lv, lvl, l, Deleted(Slots(lv[l]), Start(lv[l], j) + i, stale));
  }

  /** The runs of remove_from_index that break the tree as the code is written, read off the
      tree before the call: node j of level l is about to lose a slot, and
      - it is a root left with one child (the new root keeps a parent), or
      - it borrows from its left sibling, or
      - it is merged as the last child of its parent while the parent is full, or is not the
        rightmost node of its level, or
      - its parent meets one of these in turn. */
  ghost predicate Cascade(lv: seq<Level>, l: nat, j: nat)
    decreases |lv| - l
  {
    && 1 <= l < |lv| && j < |lv[l]|
    && if l == |lv| - 1 then Count(lv[l][j]) == 2 && l > 1
       else
         && Count(lv[l][j]) <= MIN_FILL
         && exists k, i :: Under(lv, l, j, k, i) && CascadeUnder(lv, l, j, k, i)
  }

  ghost predicate CascadeUnder(lv: seq<Level>, l: nat, j: nat, k: nat, i: nat)
    requires Under(lv, l, j, k, i) && 1 <= l
    decreases |lv| - l, 0
  {
    var n := Count(lv[l+1][k]);
    if i > 0 && Count(lv[l][j-1]) > MIN_FILL then true
    else if i + 1 < n && j + 1 < |lv[l]| && Count(lv[l][j+1]) > MIN_FILL then false
    else if i + 1 < n then Cascade(lv, l + 1, k)
    else n == BP_ORDER || k + 1 < |lv[l+1]| || Cascade(lv, l + 1, k)
  }

  // ---------- finding a child in its parent ----------

  lemma BetweenNode(L: Level, k: nat, i: nat, key: Key)
    requires k < |L| && i < |SlotsOf(L[k])| && SortedSlots(Slots(L))
    requires Between(Slots(L), Start(L, k) + i, key)
    ensures UpperAt(SlotsOf(L[k]), key, i)
  {
    var S, s, a := Slots(L), SlotsOf(L[k]), Start(L, k);
    forall m | 0 <= m < |s| - 1
      ensures m < i ==> Rank(s[m].key) <= Rank(key)
      ensures m >= i ==> Rank(key) < Rank(s[m].key)
    {
      SlotsAt(L, k, m);
      SlotsAt(L, k, |s|);
      assert m < i - 1 ==> Rank(S[a + m].key) < Rank(S[a + i - 1].key);
      assert m > i ==> Rank(S[a + i].key) < Rank(S[a + m].key);
    }
    if i == |s| - 1 && i > 0 {
      SlotsAt(L, k, i - 1);
    }
  }

  // Any separator inside node j leads, in the parent, to the slot of node j.
  lemma SeparatorLeadsHere(lv: seq<Level>, l: nat, j: nat, m: nat, k: nat, i: nat)
    requires UpperKeys(lv, l) && Under(lv, l, j, k, i)
    requires forall a :: 0 <= a < |lv[l]| ==> lv[l][a].InnerNode? && |lv[l][a].slots| >= 1
    requires m < |lv[l][j].slots| - 1
    ensures SortedSlots(SlotsOf(lv[l+1][k]))
    ensures UpperAt(SlotsOf(lv[l+1][k]), lv[l][j].slots[m].key, i)
    ensures j > 0 ==> Rank(Slots(lv[l+1])[j-1].key) < Rank(lv[l][j].slots[m].key)
    ensures j + 1 < |lv[l]| ==> Rank(lv[l][j].slots[m].key) < Rank(Slots(lv[l+1])[j].key)
  {
    assert KeysAt(lv[l], Slots(lv[l+1]));
    MiddleBetween(lv[l], Slots(lv[l+1]), j, m);
    assert SortedSlots(Slots(lv[l+1]));
    NodeSorted(lv[l+1], k);
    BetweenNode(lv[l+1], k, i, lv[l][j].slots[m].key);
  }

  // ---------- the node keeps enough slots ----------

  lemma AbsorbStruct(meta: Meta, disk: Disk, disk': Disk, lv: seq<Level>, lvl: map<Off, nat>,
      l: nat, j: nat, i: nat, stale: bool, x: Node)
    requires 1 <= l < |lv| && j < |lv[l]| && lv[l][j].InnerNode? && i + 1 < |lv[l][j].slots|
    requires Start(lv[l], j) + i + 1 < |Slots(lv[l])|
    requires FoldedStruct(meta, disk, lv, lvl, l, Deleted(Slots(lv[l]), Start(lv[l], j) + i, stale))
    requires x == InnerNode(lv[l][j].off, Deleted(lv[l][j].slots, i, stale))
    requires MinSize(l, |lv[l]|) <= |x.slots|
    requires x.off in disk && disk[x.off].Internal? && disk' == disk[x.off := disk[x.off].(slots := x.slots)]
    ensures Slots(lv[l][j := x]) == Deleted(Slots(lv[l]), Start(lv[l], j) + i, stale)
    ensures FoldedStruct(meta, disk', lv[l := lv[l][j := x]], lvl, 0, [])
  {
    var L, L', S := lv[l], lv[l][j := x], Deleted(Slots(lv[l]), Start(lv[l], j) + i, stale);
    SlotsOne(x);
    FlatDelete(L, j, i, stale, [x]);
    assert L' == L[..j] + [x] + L[j+1..];
    OpenStruct(meta, disk, lv, lvl, l, S);
    OneNode(disk, disk', lv, lvl, l, j, x, disk'[x.off]);
    assert ParentsOK(disk', L') by {
      assert ParentsOK(disk, L);
      FewerChildren(disk, disk', L, j, i, stale, x);
    }
    assert SizesOK(L', l) by { assert SizesOK(L, l); }
    StructRewrite(meta, disk, disk', lv, lvl, l, S, L', 0, []);
  }

  lemma FewerChildren(disk: Disk, disk': Disk, L: Level, j: nat, i: nat, stale: bool, x: Node)
    requires j < |L| && L[j].InnerNode? && i + 1 < |L[j].slots| && ParentsOK(disk, L)
    requires x == InnerNode(L[j].off, Deleted(L[j].slots, i, stale))
    requires forall o :: o in disk ==> o in disk' && disk'[o].parent == disk[o].parent
    ensures ParentsOK(disk', L[j := x])
  {
    var L' := L[j := x];
    forall m | 0 <= m < |L'| ensures ParentOK(disk', L'[m]) {
      assert ParentOK(disk, L[m]);
      if m == j {
        DeletedParent(disk, L[j], i, stale, x);
      }
    }
  }

  // The children that remain are children the node had.
  lemma DeletedParent(disk: Disk, y: Node, i: nat, stale: bool, x: Node)
    requires y.InnerNode? && i + 1 < |y.slots| && ParentOK(disk, y)
    requires x == InnerNode(y.off, Deleted(y.slots, i, stale))
    ensures ParentOK(disk, x)
  {
    forall a | 0 <= a < |x.slots| ensures x.slots[a].child in disk && disk[x.slots[a].child].parent == x.off {
      assert x.slots[a].child == SlotsOf(y)[if a <= i then a else a + 1].child;
    }
  }

  lemma AbsorbKeys(lv: seq<Level>, l: nat, j: nat, i: nat, stale: bool, ok: bool, b: nat, x: Node)
    requires 1 <= l < |lv| && j < |lv[l]| && lv[l][j].InnerNode? && i + 1 < |lv[l][j].slots|
    requires Start(lv[l], j) + i + 1 < |Slots(lv[l])|
    requires stale ==> i + 2 == |lv[l][j].slots|
    requires stale && ok ==> j + 1 == |lv[l]|
    requires forall a :: 0 <= a < |lv[l]| ==> lv[l][a].InnerNode? && |lv[l][a].slots| >= 1
    requires KeysState(lv, l, Deleted(Slots(lv[l]), Start(lv[l], j) + i, stale), ok, b)
    requires x == InnerNode(lv[l][j].off, Deleted(lv[l][j].slots, i, stale))
    requires Slots(lv[l][j := x]) == Deleted(Slots(lv[l]), Start(lv[l], j) + i, stale)
    ensures ok <==> KeysP(lv[l := lv[l][j := x]], 0, [])
  {
    var S, L', lv' := Deleted(Slots(lv[l]), Start(lv[l], j) + i, stale), lv[l][j := x], lv[l := lv[l][j := x]];
    if ok {
      if l + 1 < |lv| {
        assert KeysAt(lv[l], Flat(lv, l + 1, l, S));
        SameLastKeys(lv[l], L', Slots(lv[l+1]));
      }
      KeysAdvance(lv, l, S, L', 0, []);
    } else {
      BrokenStays(lv, lv', l, S, b);
    }
  }

  // A level that breaks its key invariants below a change is still there after it.
  lemma BrokenStays(lv: seq<Level>, lv': seq<Level>, l: nat, S: seq<Slot>, b: nat)
    requires 1 <= b <= l < |lv| && |lv'| > l && Slots(lv'[l]) == S
    requires forall m :: 0 <= m < l ==> lv'[m] == lv[m]
    requires !KeysAt(lv[b-1], Flat(lv, b, l, S))
    ensures !KeysP(lv', 0, [])
  {
    assert Flat(lv', b, 0, []) == Flat(lv, b, l, S);
  }

  /** A deletion that leaves its node large enough ends here: the tree is as well formed as the
      pending state promised. */
  lemma AbsorbDelete(meta: Meta, disk: Disk, disk': Disk, lv: seq<Level>, lvl: map<Off, nat>,
      l: nat, j: nat, i: nat, stale: bool, ok: bool, b: nat, x: Node)
    requires PendingDelete(meta, disk, lv, lvl, l, j, i, stale, ok, b)
    requires x == InnerNode(lv[l][j].off, Deleted(lv[l][j].slots, i, stale))
    requires MinSize(l, |lv[l]|) <= |x.slots|
    requires x.off in disk && disk[x.off].Internal? && disk' == disk[x.off := disk[x.off].(slots := x.slots)]
    ensures ok ==> Inv(meta, disk', lv[l := lv[l][j := x]], lvl)
    ensures !ok ==> !Sound(meta, disk')
    ensures FoldedStruct(meta, disk', lv[l := lv[l][j := x]], lvl, 0, [])
  {
    var lv' := lv[l := lv[l][j := x]];
    AbsorbStruct(meta, disk, disk', lv, lvl, l, j, i, stale, x);
    assert ok <==> KeysP(lv', 0, []) by {
      OpenDelete(meta, disk, lv, lvl, l, j, i, stale, ok, b);
      LevelFacts(meta, disk, lv, lvl, l, Deleted(Slots(lv[l]), Start(lv[l], j) + i, stale), l);
      AbsorbKeys(lv, l, j, i, stale, ok, b, x);
    }
    Verdict(meta, disk', lv', lvl, ok);
  }

  lemma Verdict(meta: Meta, disk: Disk, lv: seq<Level>, lvl: map<Off, nat>, ok: bool)
    requires FoldedStruct(meta, disk, lv, lvl, 0, [])
    requires ok <==> KeysP(lv, 0, [])
    ensures ok ==> Inv(meta, disk, lv, lvl)
    ensures !ok ==> !Sound(meta, disk)
  {
    if ok {
      FoldTree(meta, disk, lv, lvl, 0, []);
    } else {
      OpenStruct(meta, disk, lv, lvl, 0, []);
      WrongKeys(meta, disk, lv, lvl);
    }
  }
}
