/** Insertion: where a new separator goes, how a full internal node is split around it, and
    how the tree grows a new root. */
module BptInsertSteps {
  import opened KeyOrder
  import opened BptLevels
  import opened BptTree
  import opened BptSteps
  import opened BptAdvance
  import opened BptSearch

  // Slot c gives way to two slots: the old child below the new key, the new child below the
  // key the old child had.
  ghost function InsertSlot(S: seq<Slot>, c: nat, key: Key, after: Off): seq<Slot>
    requires c < |S|
  {
    S[..c] + [Slot(key, S[c].child), Slot(S[c].key, after)] + S[c+1..]
  }

  lemma UpperUnique(slots: seq<Slot>, key: Key, i: nat, i2: nat)
    requires UpperAt(slots, key, i) && UpperAt(slots, key, i2)
    ensures i == i2
  {
    assert i2 < |slots| - 1 ==> Rank(key) < Rank(slots[i2].key);
    assert i < |slots| - 1 ==> Rank(key) < Rank(slots[i].key);
  }

  lemma LowerUnique(slots: seq<Slot>, key: Key, i: nat, i2: nat)
    requires LowerAt(slots, key, i) && LowerAt(slots, key, i2)
    ensures i == i2
  {
    assert i2 < |slots| - 1 ==> Rank(key) <= Rank(slots[i2].key);
    assert i < |slots| - 1 ==> Rank(key) <= Rank(slots[i].key);
  }

  // The list of slots of a level after the slots of node j were replaced by those of X.
  lemma FlatChange(L: Level, j: nat, X: Level)
    requires j < |L|
    ensures Start(L, j) + |SlotsOf(L[j])| <= |Slots(L)|
    ensures Slots(L[..j] + X + L[j+1..])
         == Slots(L)[..Start(L, j)] + Slots(X) + Slots(L)[Start(L, j) + |SlotsOf(L[j])|..]
  {
    SlotsReplace(L, j, j + 1, X);
    SlotsAt(L, j, 0);
  }

  lemma FlatInsert(L: Level, j: nat, i: nat, key: Key, after: Off, X: Level)
    requires j < |L| && i < |SlotsOf(L[j])|
    requires Slots(X) == InsertSlot(SlotsOf(L[j]), i, key, after)
    ensures Start(L, j) + i < |Slots(L)|
    ensures Slots(L[..j] + X + L[j+1..]) == InsertSlot(Slots(L), Start(L, j) + i, key, after)
  {
    FlatChange(L, j, X);
    SlotsWithin(L, j);
    InsertWithin(Slots(L), Start(L, j), SlotsOf(L[j]), i, key, after);
  }

  lemma SlotsWithin(L: Level, j: nat)
    requires j < |L|
    ensures Start(L, j) + |SlotsOf(L[j])| <= |Slots(L)|
    ensures SlotsOf(L[j]) == Slots(L)[Start(L, j)..Start(L, j) + |SlotsOf(L[j])|]
  {
    SlotsReplace(L, j, j + 1, []);
    assert L[j..j+1] == [L[j]];
    SlotsOne(L[j]);
    SlotsAt(L, j, 0);
  }

  lemma InsertWithin(S: seq<Slot>, a: nat, s: seq<Slot>, i: nat, key: Key, after: Off)
    requires i < |s| && a + |s| <= |S| && s == S[a..a+|s|]
    ensures S[..a] + InsertSlot(s, i, key, after) + S[a+|s|..] == InsertSlot(S, a + i, key, after)
  {
    var I, T := InsertSlot(s, i, key, after), InsertSlot(S, a + i, key, after);
    assert |T| == |S[..a] + I + S[a+|s|..]|;
    forall m | 0 <= m < |T| ensures T[m] == (S[..a] + I + S[a+|s|..])[m] {
      InsertedAt(S, a + i, key, after, m);
      if a <= m < a + |I| {
        InsertedAt(s, i, key, after, m - a);
      }
    }
  }

  lemma InsertedAt(S: seq<Slot>, i: nat, key: Key, after: Off, m: nat)
    requires i < |S| && m <= |S|
    ensures |InsertSlot(S, i, key, after)| == |S| + 1
    ensures InsertSlot(S, i, key, after)[m] ==
      if m < i then S[m] else if m == i then Slot(key, S[i].child) else
      if m == i + 1 then Slot(S[i].key, after) else S[m-1]
  {
  }

  /** In the node that holds the old child, upper_bound finds the place that the order of the
      whole level demands. */
  lemma InsertPoint(L: Level, j: nat, i: nat, key: Key, after: Off)
    requires j < |L| && i < |SlotsOf(L[j])| && Start(L, j) + i < |Slots(L)|
    requires SortedSlots(InsertSlot(Slots(L), Start(L, j) + i, key, after))
    ensures SortedSlots(Slots(L)) && SortedSlots(SlotsOf(L[j]))
    ensures UpperAt(SlotsOf(L[j]), key, i)
    ensures forall k :: i <= k < |SlotsOf(L[j])| - 1 ==> Rank(SlotsOf(L[j])[k].key) != Rank(key)
    ensures forall k :: 0 <= k < i ==> Rank(SlotsOf(L[j])[k].key) != Rank(key)
  {
    var S, c := Slots(L), Start(L, j) + i;
    var S' := InsertSlot(S, c, key, after);
    forall a, b | 0 <= a < b < |S| - 1 ensures Rank(S[a].key) < Rank(S[b].key) {
      assert S'[if a < c then a else a + 1].key == S[a].key;
      assert S'[if b < c then b else b + 1].key == S[b].key;
    }
    NodeSorted(L, j);
    SlotsAt(L, j, |SlotsOf(L[j])|);
    forall k | 0 <= k < |SlotsOf(L[j])| - 1
      ensures k < i ==> Rank(SlotsOf(L[j])[k].key) < Rank(key)
      ensures k >= i ==> Rank(key) < Rank(SlotsOf(L[j])[k].key)
    {
      SlotsAt(L, j, k);
      var d := Start(L, j) + k;
      assert S'[c].key == key;
      if k < i {
        assert S'[d] == S[d];
      } else {
        assert S'[d + 1].key == S[d].key;
      }
    }
  }

  // ---------- splitting a full node ----------

  // The split of insert_key_to_index: left and right share out the slots with the new pair
  // in place, and the middle key is the last key of the left part.
  ghost predicate EvenSplit(slots: seq<Slot>, i: nat, key: Key, after: Off,
                            left: seq<Slot>, right: seq<Slot>, middle: Key)
    requires i < |slots|
  {
    && left + right == InsertSlot(slots, i, key, after)
    && MIN_FILL <= |left| <= BP_ORDER
    && MIN_FILL <= |right| <= BP_ORDER
    && left[|left|-1].key == middle
  }

  lemma SplitLeft(slots: seq<Slot>, i: nat, key: Key, after: Off, point: nat)
    requires |slots| == BP_ORDER && i <= point < BP_ORDER - 1
    ensures InsertSlot(slots[..point+1], i, key, after) + slots[point+1..] == InsertSlot(slots, i, key, after)
    ensures InsertSlot(slots[..point+1], i, key, after)[point+1].key == slots[point].key
    ensures UpperAt(slots, key, i) ==> UpperAt(slots[..point+1], key, i)
  {
  }

  lemma SplitRight(slots: seq<Slot>, i: nat, key: Key, after: Off, point: nat)
    requires |slots| == BP_ORDER && point < i < BP_ORDER
    ensures slots[..point+1] + InsertSlot(slots[point+1..], i - point - 1, key, after)
      == InsertSlot(slots, i, key, after)
    ensures UpperAt(slots, key, i) ==> UpperAt(slots[point+1..], key, i - point - 1)
  {
    var r := slots[point+1..];
    assert forall k :: 0 <= k < |r| ==> r[k] == slots[point + 1 + k];
  }

  // Slots of the left half, when the new pair goes to place i: the middle key must not be the new one.
  ghost function LeftSize(i: nat): nat { if i == MIN_FILL then MIN_FILL else MIN_FILL + 1 }

  // ... and the right half keeps its last key.
  ghost predicate Halved(slots: seq<Slot>, i: nat, key: Key, after: Off,
                         left: seq<Slot>, right: seq<Slot>, middle: Key)
    requires i < |slots| == BP_ORDER
  {
    && EvenSplit(slots, i, key, after, left, right, middle)
    && |left| == LeftSize(i)
    && right[|right|-1].key == slots[BP_ORDER-1].key
  }

  // The pair goes into the right half, ...
  lemma RightHalf(slots: seq<Slot>, i: nat, key: Key, after: Off, point: nat, i': nat)
    requires |slots| == BP_ORDER && MIN_FILL <= i < BP_ORDER
    requires point == if i > MIN_FILL then MIN_FILL else MIN_FILL - 1
    requires UpperAt(slots, key, i) && UpperAt(slots[point+1..], key, i')
    ensures var right := InsertSlot(slots[point+1..], i', key, after);
      Halved(slots, i, key, after, slots[..point+1], right, slots[point].key)
  {
    SplitRight(slots, i, key, after, point);
    UpperUnique(slots[point+1..], key, i - point - 1, i');
  }

  // ... or into the left one.
  lemma LeftHalf(slots: seq<Slot>, i: nat, key: Key, after: Off, point: nat, i': nat)
    requires |slots| == BP_ORDER && point == MIN_FILL - 1 && i <= point
    requires UpperAt(slots, key, i) && UpperAt(slots[..point+1], key, i')
    ensures Halved(slots, i, key, after, InsertSlot(slots[..point+1], i', key, after), slots[point+1..],
      slots[point].key)
  {
    SplitLeft(slots, i, key, after, point);
    UpperUnique(slots[..point+1], key, i, i');
  }

  /** The keys over a level one of whose nodes was split: the middle key separates the halves. */
  lemma KeysSplit(L: Level, S: seq<Slot>, j: nat, x: Node, y: Node, middle: Key)
    requires j < |L| && KeysAt(L, S)
    requires x.InnerNode? && y.InnerNode? && |x.slots| >= 1 && |y.slots| >= 1
    requires x.slots[|x.slots|-1].key == middle
    requires L[j].InnerNode? && |L[j].slots| >= 1
    requires y.slots[|y.slots|-1].key == L[j].slots[|L[j].slots|-1].key
    requires j > 0 ==> Rank(S[j-1].key) < Rank(middle)
    requires j < |L| - 1 ==> Rank(middle) < Rank(S[j].key)
    requires forall m :: 0 <= m < |L| ==> L[m].InnerNode?
    ensures KeysAt(WithSplit(L, j, x, y), InsertSlot(S, j, middle, y.off))
  {
    var L', S' := WithSplit(L, j, x, y), InsertSlot(S, j, middle, y.off);
    forall c | 0 <= c < |S'| - 1 ensures SepOK(L'[c], L'[c+1], S'[c].key) {
      if c < j {
        assert SepOK(L[c], L[c+1], S[c].key);
      } else if c > j {
        assert SepOK(L[c-1], L[c], S[c-1].key);
        assert c > j + 1 ==> L'[c] == L[c-1];
      }
    }
    forall a, b | 0 <= a < b < |S'| - 1 ensures Rank(S'[a].key) < Rank(S'[b].key) {
      SplitSorted(S, j, middle, y.off, a, b);
    }
  }

  lemma SplitSorted(S: seq<Slot>, j: nat, middle: Key, after: Off, a: nat, b: nat)
    requires j < |S| && SortedSlots(S)
    requires j > 0 ==> Rank(S[j-1].key) < Rank(middle)
    requires j < |S| - 1 ==> Rank(middle) < Rank(S[j].key)
    requires a < b < |S|
    ensures Rank(InsertSlot(S, j, middle, after)[a].key) < Rank(InsertSlot(S, j, middle, after)[b].key)
  {
    var S' := InsertSlot(S, j, middle, after);
    assert forall k :: 0 <= k < j ==> S'[k] == S[k];
    assert S'[j].key == middle;
    assert forall k :: j < k < |S'| ==> S'[k].key == S[k-1].key;
  }

  lemma KidsSplit(L: Level, S: seq<Slot>, j: nat, x: Node, y: Node, middle: Key)
    requires j < |L| && Kids(L, S) && x.off == L[j].off
    ensures Kids(WithSplit(L, j, x, y), InsertSlot(S, j, middle, y.off))
  {
    var L', S' := WithSplit(L, j, x, y), InsertSlot(S, j, middle, y.off);
    forall c | 0 <= c < |S'| ensures S'[c].child == L'[c].off {
      if c < j {
        assert S[c].child == L[c].off;
      } else if c > j + 1 {
        assert S[c-1].child == L[c-1].off;
      } else {
        assert S[j].child == L[j].off;
      }
    }
  }

  // A middle key that is a separator inside node j lies strictly between the bounds of node j.
  lemma MiddleBetween(L: Level, S: seq<Slot>, j: nat, k: nat)
    requires KeysAt(L, S) && SortedSlots(Slots(L))
    requires forall m :: 0 <= m < |L| ==> L[m].InnerNode? && |L[m].slots| >= 1
    requires j < |L| && k < |L[j].slots| - 1
    ensures j > 0 ==> Rank(S[j-1].key) < Rank(L[j].slots[k].key)
    ensures j < |L| - 1 ==> Rank(L[j].slots[k].key) < Rank(S[j].key)
  {
    SlotsAt(L, j, k);
    SlotsAt(L, j, |L[j].slots| - 1);
    if j > 0 {
      KeyBefore(S, L, j);
    }
    if j < |L| - 1 {
      assert SepOK(L[j], L[j+1], S[j].key);
      SlotsAt(L, j + 1, 0);
    }
  }

  // ---------- the new pair goes into a node that has room ----------

  // Rewriting the children of one node touches its level only.
  lemma OneNode(disk: Disk, disk': Disk, lv: seq<Level>, lvl: map<Off, nat>, p: nat, j: nat, x: Node, b: Block)
    requires Blocks(disk, lv, lvl) && p < |lv| && j < |lv[p]|
    requires x.off == lv[p][j].off && x.off in disk && disk' == disk[x.off := b]
    requires SameLinks(disk[x.off], b) && b.parent == disk[x.off].parent && Matches(b, x)
    ensures OnlyLevel(disk, disk', lvl, p)
    ensures Rewritten(disk, disk', lv[p], lv[p][j := x])
  {
    var L := lv[p];
    assert LevelOK(disk, lvl, L, p) && NodeOK(disk, lvl, L, p, j);
    forall k | 0 <= k < |L|
      ensures L[k].off in disk && SameLinks(disk[L[k].off], disk'[L[k].off])
      ensures Matches(disk'[L[k].off], L[j := x][k])
    {
      assert NodeOK(disk, lvl, L, p, k);
    }
  }

  lemma ParentsInsert(disk: Disk, disk': Disk, L: Level, j: nat, x: Node, i: nat, key: Key, after: Off)
    requires j < |L| && L[j].InnerNode? && i < |L[j].slots|
    requires x == InnerNode(L[j].off, InsertSlot(L[j].slots, i, key, after))
    requires ParentsOK(disk, L)
    requires forall o :: o in disk ==> o in disk' && disk'[o].parent == disk[o].parent
    requires after in disk' && disk'[after].parent == x.off
    ensures ParentsOK(disk', L[j := x])
  {
    var L' := L[j := x];
    forall k | 0 <= k < |L'| ensures ParentOK(disk', L'[k]) {
      assert ParentOK(disk, L[k]);
      if k == j {
        InsertParent(disk, disk', L[j], x, i, key, after);
      }
    }
  }

  lemma InsertParent(disk: Disk, disk': Disk, y: Node, x: Node, i: nat, key: Key, after: Off)
    requires y.InnerNode? && i < |y.slots|
    requires x == InnerNode(y.off, InsertSlot(y.slots, i, key, after))
    requires ParentOK(disk, y)
    requires forall o :: o in disk ==> o in disk' && disk'[o].parent == disk[o].parent
    requires after in disk' && disk'[after].parent == x.off
    ensures ParentOK(disk', x)
  {
    forall k | 0 <= k < |x.slots| ensures x.slots[k].child in disk' && disk'[x.slots[k].child].parent == x.off {
      if k <= i {
        assert x.slots[k].child == SlotsOf(y)[k].child;
      } else if k > i + 1 {
        assert x.slots[k].child == SlotsOf(y)[k-1].child;
      }
    }
  }

  lemma InsertInPlaceKeys(lv: seq<Level>, p: nat, S: seq<Slot>, j: nat, i: nat, key: Key, after: Off, x: Node)
    requires KeysP(lv, p, S) && 1 <= p < |lv|
    requires forall k :: 0 <= k < |lv[p]| ==> lv[p][k].InnerNode?
    requires j < |lv[p]| && i < |lv[p][j].slots|
    requires x == InnerNode(lv[p][j].off, InsertSlot(lv[p][j].slots, i, key, after))
    requires Slots(lv[p][j := x]) == S
    ensures KeysP(lv[p := lv[p][j := x]], 0, [])
  {
    var L' := lv[p][j := x];
    if p + 1 < |lv| {
      assert KeysAt(lv[p], Flat(lv, p + 1, p, S));
      SameLastKeys(lv[p], L', Slots(lv[p+1]));
    }
    KeysAdvance(lv, p, S, L', 0, []);
  }

  lemma InsertInPlaceStruct(meta: Meta, disk: Disk, disk': Disk, lv: seq<Level>, lvl: map<Off, nat>,
      p: nat, S: seq<Slot>, j: nat, i: nat, key: Key, after: Off, x: Node)
    requires FoldedStruct(meta, disk, lv, lvl, p, S) && 1 <= p < |lv|
    requires j < |lv[p]| && lv[p][j].InnerNode? && i < |lv[p][j].slots| < BP_ORDER
    requires Start(lv[p], j) + i < |Slots(lv[p])|
    requires S == InsertSlot(Slots(lv[p]), Start(lv[p], j) + i, key, after)
    requires x == InnerNode(lv[p][j].off, InsertSlot(lv[p][j].slots, i, key, after))
    requires x.off in disk && disk[x.off].Internal? && disk' == disk[x.off := disk[x.off].(slots := x.slots)]
    requires after in disk && disk[after].parent == x.off
    ensures FoldedStruct(meta, disk', lv[p := lv[p][j := x]], lvl, 0, [])
  {
    OpenStruct(meta, disk, lv, lvl, p, S);
    var L := lv[p];
    var L' := L[j := x];
    SlotsOne(x);
    FlatInsert(L, j, i, key, after, [x]);
    assert L' == L[..j] + [x] + L[j+1..];
    OneNode(disk, disk', lv, lvl, p, j, x, disk'[x.off]);
    ParentsInsert(disk, disk', L, j, x, i, key, after);
    assert SizesOK(L', p) by { assert SizesOK(L, p); }
    StructRewrite(meta, disk, disk', lv, lvl, p, S, L', 0, []);
  }

  /** A node with room takes the new pair, and nothing is pending any more. */
  lemma InsertInPlace(meta: Meta, disk: Disk, disk': Disk, lv: seq<Level>, lvl: map<Off, nat>,
      p: nat, S: seq<Slot>, j: nat, i: nat, key: Key, after: Off, x: Node)
    requires Folded(meta, disk, lv, lvl, p, S) && 1 <= p < |lv|
    requires j < |lv[p]| && lv[p][j].InnerNode? && i < |lv[p][j].slots| < BP_ORDER
    requires Start(lv[p], j) + i < |Slots(lv[p])|
    requires S == InsertSlot(Slots(lv[p]), Start(lv[p], j) + i, key, after)
    requires x == InnerNode(lv[p][j].off, InsertSlot(lv[p][j].slots, i, key, after))
    requires x.off in disk && disk[x.off].Internal? && disk' == disk[x.off := disk[x.off].(slots := x.slots)]
    requires after in disk && disk[after].parent == x.off
    ensures Inv(meta, disk', lv[p := lv[p][j := x]], lvl)
  {
    var lv' := lv[p := lv[p][j := x]];
    InsertInPlaceStruct(meta, disk, disk', lv, lvl, p, S, j, i, key, after, x);
    KeysInPlace(meta, disk, lv, lvl, p, S, j, i, key, after, x);
    FoldTree(meta, disk', lv', lvl, 0, []);
  }

  lemma KeysInPlace(meta: Meta, disk: Disk, lv: seq<Level>, lvl: map<Off, nat>,
      p: nat, S: seq<Slot>, j: nat, i: nat, key: Key, after: Off, x: Node)
    requires Folded(meta, disk, lv, lvl, p, S) && 1 <= p < |lv|
    requires j < |lv[p]| && lv[p][j].InnerNode? && i < |lv[p][j].slots|
    requires Start(lv[p], j) + i < |Slots(lv[p])|
    requires S == InsertSlot(Slots(lv[p]), Start(lv[p], j) + i, key, after)
    requires x == InnerNode(lv[p][j].off, InsertSlot(lv[p][j].slots, i, key, after))
    ensures KeysP(lv[p := lv[p][j := x]], 0, [])
  {
    OpenTree(meta, disk, lv, lvl, p, S);
    assert LevelOK(disk, lvl, lv[p], p);
    LevelKinds(disk, lvl, lv[p], p);
    SlotsOne(x);
    FlatInsert(lv[p], j, i, key, after, [x]);
    assert lv[p][j := x] == lv[p][..j] + [x] + lv[p][j+1..];
    InsertInPlaceKeys(lv, p, S, j, i, key, after, x);
  }

  lemma LevelKinds(disk: Disk, lvl: map<Off, nat>, L: Level, l: nat)
    requires LevelOK(disk, lvl, L, l)
    ensures forall j :: 0 <= j < |L| ==> (L[j].LeafNode? <==> l == 0)
  {
    forall j | 0 <= j < |L| ensures L[j].LeafNode? <==> l == 0 {
      assert NodeOK(disk, lvl, L, l, j);
    }
  }

  // Nodes that keep their last keys keep their separators.
  lemma SameLastKeys(L: Level, L': Level, S: seq<Slot>)
    requires KeysAt(L, S) && |L'| == |L|
    requires forall j :: 0 <= j < |L| ==> L[j].InnerNode? && L'[j].InnerNode?
    requires forall j :: 0 <= j < |L| - 1 && |L[j].slots| > 0 ==>
      |L'[j].slots| > 0 && L'[j].slots[|L'[j].slots|-1].key == L[j].slots[|L[j].slots|-1].key
    ensures KeysAt(L', S)
  {
    forall c | 0 <= c < |S| - 1 ensures SepOK(L'[c], L'[c+1], S[c].key) {
      assert SepOK(L[c], L[c+1], S[c].key);
    }
  }
}
