/** The order of the keys inside the nodes: what a deletion keeps of it even where it breaks the tree. No
    slot ever comes before one with a smaller key, so that every search of a node still ends where
    upper_bound should end. */
module BptOrder {
  import opened KeyOrder
  import opened BptLevels
  import opened BptTree
  import opened BptSearch
  import opened BptInsertSteps
  import opened BptDeleteSteps
  import opened BptIndexDelete
  import opened BptRebalance
  import opened BptBorrow
  import opened BptMerge
  import opened BptSteps
  import opened BptLeafSteps

  // The records are sorted, and no slot, but perhaps the last, comes before one with a smaller key, on
  // any level.
  ghost predicate Ordered(lv: seq<Level>)
  {
    && |lv| >= 1 && SortedRecs(Recs(lv[0]))
    && forall m :: 1 <= m < |lv| ==> WeakSlots(Slots(lv[m]))
  }

  // The levels below l are in strict order. Kept folded.
  ghost predicate SortedBelow(lv: seq<Level>, l: nat)
  {
    |lv| >= 1 && forall u {:trigger Unfold(u)} :: u == l ==>
      SortedRecs(Recs(lv[0])) && forall m :: 1 <= m < u && m < |lv| ==> SortedSlots(Slots(lv[m]))
  }

  ghost predicate Unfold(l: nat) { true }

  lemma NodeOrder(L: Level, j: nat)
    requires j < |L| && WeakSlots(Slots(L))
    ensures WeakSlots(SlotsOf(L[j]))
  {
    var s := SlotsOf(L[j]);
    forall a, b | 0 <= a < b < |s| - 1 ensures Rank(s[a].key) <= Rank(s[b].key) {
      SlotsAt(L, j, a);
      SlotsAt(L, j, b);
      SlotsAt(L, j, |s| - 1);
    }
  }

  lemma OrderedFrom(lv: seq<Level>, l: nat, lv': seq<Level>)
    requires SortedBelow(lv, l) && 1 <= l <= |lv| && l <= |lv'| && forall m :: 0 <= m < l ==> lv'[m] == lv[m]
    requires forall m :: l <= m < |lv'| ==> WeakSlots(Slots(lv'[m]))
    ensures Ordered(lv')
  {
    assert Unfold(l);
    forall m | 1 <= m < |lv'| ensures WeakSlots(Slots(lv'[m])) {
      if m < l {
        assert SortedSlots(Slots(lv[m]));
      }
    }
  }

  lemma SortedNext(lv: seq<Level>, l: nat, lv': seq<Level>)
    requires SortedBelow(lv, l) && 1 <= l < |lv| == |lv'| && forall m :: 0 <= m < l ==> lv'[m] == lv[m]
    requires SortedSlots(Slots(lv'[l]))
    ensures SortedBelow(lv', l + 1)
  {
    assert Unfold(l);
    forall m | 1 <= m < l + 1 && m < |lv'| ensures SortedSlots(Slots(lv'[m])) {
      if m < l {
        assert SortedSlots(Slots(lv[m]));
      }
    }
  }

  // A tree whose keys are right is in order.
  lemma KeysOrdered(lv: seq<Level>)
    requires KeysP(lv, 0, []) && |lv| >= 2 && forall f :: 0 <= f < |lv[0]| ==> lv[0][f].LeafNode?
    ensures Ordered(lv)
  {
    assert KeysAt(lv[0], Flat(lv, 1, 0, []));
    RecsSorted(lv[0], Slots(lv[1]));
    forall m | 1 <= m < |lv| ensures SortedSlots(Slots(lv[m])) {
      assert KeysAt(lv[m-1], Flat(lv, m, 0, []));
    }
  }

  lemma SortedStarts(lv: seq<Level>, l: nat, S: seq<Slot>)
    requires KeysP(lv, l, S) && 1 <= l < |lv| && forall f :: 0 <= f < |lv[0]| ==> lv[0][f].LeafNode?
    ensures SortedBelow(lv, l)
  {
    assert KeysAt(lv[0], Flat(lv, 1, l, S));
    RecsSorted(lv[0], Flat(lv, 1, l, S));
    forall m | 1 <= m < l && m < |lv| ensures SortedSlots(Slots(lv[m])) {
      assert KeysAt(lv[m-1], Flat(lv, m, l, S));
    }
  }

  lemma UpperSorted(lv: seq<Level>, l: nat, m: nat)
    requires UpperKeys(lv, l) && l <= m < |lv|
    ensures SortedSlots(Slots(lv[m]))
  {
    if m > l {
      assert KeysAt(lv[m-1], Slots(lv[m]));
    }
  }

  /** The node keeps enough slots. */
  lemma AbsorbOrdered(lv: seq<Level>, l: nat, j: nat, i: nat, stale: bool, x: Node)
    requires SortedBelow(lv, l) && UpperKeys(lv, l) && j < |lv[l]| && i + 1 < |SlotsOf(lv[l][j])|
    requires x == InnerNode(lv[l][j].off, Deleted(SlotsOf(lv[l][j]), i, stale))
    ensures Ordered(lv[l := lv[l][j := x]])
  {
    DeletedNode(lv[l], j, i, stale, x);
    DeletedSorted(Slots(lv[l]), Start(lv[l], j) + i, stale);
    var lv' := lv[l := lv[l][j := x]];
    forall m | l <= m < |lv'| ensures WeakSlots(Slots(lv'[m])) {
      UpperSorted(lv, l, m);
    }
    OrderedFrom(lv, l, lv');
  }

  /** The root goes. */
  lemma CollapseOrdered(lv: seq<Level>, l: nat)
    requires SortedBelow(lv, l) && 1 <= l == |lv| - 1
    ensures Ordered(lv[..l])
  {
    OrderedFrom(lv, l, lv[..l]);
  }

  // The separator between two neighbours becomes another key between them.
  lemma ParentSorted(lv: seq<Level>, l: nat, c: nat, x: Node, y: Node, k: nat, pi: nat, key: Key)
    requires UpperKeys(lv, l) && Under(lv, l, c, k, pi) && c + 1 < |lv[l]| && lv[l+1][k].InnerNode?
    requires pi + 1 < |lv[l+1][k].slots| && |Slots(lv[l+1])| == |lv[l]|
    requires c > 0 ==> Rank(Slots(lv[l+1])[c-1].key) < Rank(key)
    requires c + 2 < |lv[l]| ==> Rank(key) < Rank(Slots(lv[l+1])[c+1].key)
    ensures forall m :: l < m < |lv| ==> SortedSlots(Slots(ShiftedLevels(lv, l, c, x, y, k, pi, key)[m]))
  {
    var lv' := ShiftedLevels(lv, l, c, x, y, k, pi, key);
    forall m | l < m < |lv| ensures SortedSlots(Slots(lv'[m])) {
      UpperSorted(lv, l, m);
      if m == l + 1 {
        FlatWithKey(lv[l+1], k, pi, key);
        WithKeySorted(Slots(lv[l+1]), c, key);
      }
    }
  }

  /** A slot from the right sibling. */
  lemma BorrowRightOrdered(lv: seq<Level>, l: nat, j: nat, i: nat, stale: bool, k: nat, pi: nat, x: Node, y: Node)
    requires SortedBelow(lv, l) && UpperKeys(lv, l) && Under(lv, l, j, k, pi) && j + 1 < |lv[l]|
    requires forall m :: 0 <= m < |lv[l]| ==> lv[l][m].InnerNode? && |lv[l][m].slots| >= 1
    requires lv[l+1][k].InnerNode? && pi + 1 < |lv[l+1][k].slots|
    requires i + 1 < |lv[l][j].slots| && |lv[l][j+1].slots| >= 2
    requires x == InnerNode(lv[l][j].off, Remaining(lv, l, j, i, stale) + [lv[l][j+1].slots[0]])
    requires y == InnerNode(lv[l][j+1].off, lv[l][j+1].slots[1..])
    ensures Ordered(ShiftedLevels(lv, l, j, x, y, k, pi, lv[l][j+1].slots[0].key))
  {
    var key := lv[l][j+1].slots[0].key;
    var lv' := ShiftedLevels(lv, l, j, x, y, k, pi, key);
    RightSorted(lv[l], j, i, stale, x, y);
    RightBetween(lv[l], Slots(lv[l+1]), j);
    ParentSorted(lv, l, j, x, y, k, pi, key);
    OrderedFrom(lv, l, lv');
  }

  lemma RightSorted(L: Level, j: nat, i: nat, stale: bool, x: Node, y: Node)
    requires SortedSlots(Slots(L)) && j + 1 < |L| && L[j].InnerNode? && i + 1 < |L[j].slots| && |SlotsOf(L[j+1])| >= 1
    requires SlotsOf(x) == Deleted(L[j].slots, i, stale) + [SlotsOf(L[j+1])[0]]
    requires SlotsOf(y) == SlotsOf(L[j+1])[1..]
    ensures SortedSlots(Slots(Shifted(L, j, x, y)))
  {
    assert SlotsOf(x) + SlotsOf(y) == Deleted(L[j].slots, i, stale) + SlotsOf(L[j+1]);
    RegroupedFlat(L, j, i, stale, j, x, y);
    DeletedSorted(Slots(L), Start(L, j) + i, stale);
  }

  lemma RightBetween(L: Level, U: seq<Slot>, j: nat)
    requires KeysAt(L, U) && SortedSlots(Slots(L)) && j + 1 < |L|
    requires forall m :: 0 <= m < |L| ==> L[m].InnerNode? && |L[m].slots| >= 1
    requires |L[j+1].slots| >= 2
    ensures j > 0 ==> Rank(U[j-1].key) < Rank(L[j+1].slots[0].key)
    ensures j + 2 < |L| ==> Rank(L[j+1].slots[0].key) < Rank(U[j+1].key)
  {
    MiddleBetween(L, U, j + 1, 0);
    assert j > 0 ==> Rank(U[j-1].key) < Rank(U[j].key);
  }

  /** A slot from the left sibling, as written: the separator twice. */
  lemma BorrowLeftOrdered(lv: seq<Level>, l: nat, j: nat, i: nat, stale: bool, k: nat, pi: nat, x: Node, y: Node,
      m: nat)
    requires SortedBelow(lv, l) && UpperKeys(lv, l) && Under(lv, l, j, k, pi) && pi > 0 && j > 0
    requires forall a :: 0 <= a < |lv[l]| ==> lv[l][a].InnerNode? && |lv[l][a].slots| >= 1
    requires lv[l+1][k].InnerNode?
    requires i + 1 < |lv[l][j].slots| && |lv[l][j].slots| >= 4 && |lv[l][j-1].slots| == m + 1 >= 2
    requires x == InnerNode(lv[l][j-1].off, lv[l][j-1].slots[..m])
    requires y == InnerNode(lv[l][j].off,
      LeftBorrowed(lv[l][j-1].slots[m], lv[l][j-1].slots[m].key, Remaining(lv, l, j, i, stale), false))
    ensures Ordered(ShiftedLevels(lv, l, j - 1, x, y, k, pi - 1, lv[l][j-1].slots[m-1].key))
  {
    var key := lv[l][j-1].slots[m-1].key;
    var lv' := ShiftedLevels(lv, l, j - 1, x, y, k, pi - 1, key);
    LeftWeak(lv[l], j, i, stale, x, y, m);
    LeftBetween(lv[l], Slots(lv[l+1]), j, m);
    ParentSorted(lv, l, j - 1, x, y, k, pi - 1, key);
    OrderedFrom(lv, l, lv');
  }

  lemma LeftBetween(L: Level, U: seq<Slot>, j: nat, m: nat)
    requires KeysAt(L, U) && SortedSlots(Slots(L)) && 0 < j < |L|
    requires forall a :: 0 <= a < |L| ==> L[a].InnerNode? && |L[a].slots| >= 1
    requires |L[j-1].slots| == m + 1 >= 2
    ensures j > 1 ==> Rank(U[j-2].key) < Rank(L[j-1].slots[m-1].key)
    ensures j + 1 < |L| ==> Rank(L[j-1].slots[m-1].key) < Rank(U[j].key)
  {
    MiddleBetween(L, U, j - 1, m - 1);
    assert j + 1 < |L| ==> Rank(U[j-1].key) < Rank(U[j].key);
  }

  lemma LeftWeak(L: Level, j: nat, i: nat, stale: bool, x: Node, y: Node, m: nat)
    requires SortedSlots(Slots(L)) && 0 < j < |L| && L[j].InnerNode? && L[j-1].InnerNode?
    requires i + 1 < |L[j].slots| && |L[j].slots| >= 4 && |L[j-1].slots| == m + 1
    requires SlotsOf(x) == L[j-1].slots[..m]
    requires y == InnerNode(L[j].off,
      LeftBorrowed(L[j-1].slots[m], L[j-1].slots[m].key, Deleted(L[j].slots, i, stale), false))
    ensures WeakSlots(Slots(Shifted(L, j - 1, x, y)))
  {
    var q, lent := Deleted(L[j].slots, i, stale), L[j-1].slots[m];
    var y0 := InnerNode(y.off, [lent] + q);
    LastMoved(L[j-1].slots, m, q, lent.key);
    RegroupedFlat(L, j, i, stale, j - 1, x, y0);
    DeletedSorted(Slots(L), Start(L, j) + i, stale);
    RepeatedSlot(Shifted(L, j - 1, x, y0), j);
    assert Shifted(L, j - 1, x, y0)[j := y] == Shifted(L, j - 1, x, y);
  }

  // The second key of a node made equal to the first.
  lemma RepeatedSlot(L: Level, j: nat)
    requires SortedSlots(Slots(L)) && j < |L| && L[j].InnerNode? && |L[j].slots| >= 2
    ensures WeakSlots(Slots(L[j := InnerNode(L[j].off, WithKey(L[j].slots, 1, L[j].slots[0].key))]))
  {
    FlatWithKey(L, j, 1, L[j].slots[0].key);
    SlotsAt(L, j, 0);
    RepeatedWeak(Slots(L), Start(L, j));
  }

  lemma RepeatedWeak(S: seq<Slot>, a: nat)
    requires SortedSlots(S) && a + 1 < |S|
    ensures WeakSlots(WithKey(S, a + 1, S[a].key))
  {
  }

  /** Two siblings in one. */
  lemma MergeSorted(lv: seq<Level>, l: nat, j: nat, i: nat, stale: bool, c: nat, x: Node)
    requires SortedBelow(lv, l) && UpperKeys(lv, l) && c + 1 < |lv[l]| && (j == c || j == c + 1)
    requires lv[l][j].InnerNode? && i + 1 < |lv[l][j].slots|
    requires SlotsOf(x)
          == (if j == c then Deleted(lv[l][j].slots, i, stale) + SlotsOf(lv[l][c+1])
              else SlotsOf(lv[l][c]) + Deleted(lv[l][j].slots, i, stale))
    ensures SortedBelow(lv[l := WithMerge(lv[l], c, x)], l + 1)
  {
    MergedFlat(lv[l], j, i, stale, c, x);
    DeletedSorted(Slots(lv[l]), Start(lv[l], j) + i, stale);
    SortedNext(lv, l, lv[l := WithMerge(lv[l], c, x)]);
  }
}
