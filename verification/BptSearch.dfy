/** Binary search inside a node, and the path from the root to the leaf of a key. */
module BptSearch {
  import opened KeyOrder
  import opened BptLevels
  import opened BptTree

  // ---------- inside one node: the standard library's searches ----------

  // i is the partition point of the separators of a node (its slots but the last).
  ghost predicate UpperAt(slots: seq<Slot>, key: Key, i: nat)
  {
    && i < |slots|
    && (forall k :: 0 <= k < i ==> Rank(slots[k].key) <= Rank(key))
    && (forall k :: i <= k < |slots| - 1 ==> Rank(key) < Rank(slots[k].key))
  }

  ghost predicate LowerAt(slots: seq<Slot>, key: Key, i: nat)
  {
    && i < |slots|
    && (forall k :: 0 <= k < i ==> Rank(slots[k].key) < Rank(key))
    && (forall k :: i <= k < |slots| - 1 ==> Rank(key) <= Rank(slots[k].key))
  }

  // No separator comes before a smaller one: what the binary search needs.
  ghost predicate WeakSlots(slots: seq<Slot>)
  {
    forall a, b :: 0 <= a < b < |slots| - 1 ==> Rank(slots[a].key) <= Rank(slots[b].key)
  }

  // upper_bound(begin(node), end(node) - 1, key)
  method FindSlot(slots: seq<Slot>, key: Key) returns (i: nat)
    requires |slots| >= 1 && WeakSlots(slots)
    ensures UpperAt(slots, key, i)
  {
    i := 0;
    var len := |slots| - 1;
    while len > 0
      invariant 0 <= len && i + len <= |slots| - 1
      invariant forall k :: 0 <= k < i ==> Rank(slots[k].key) <= Rank(key)
      invariant forall k :: i + len <= k < |slots| - 1 ==> Rank(key) < Rank(slots[k].key)
    {
      var half := len / 2;
      if KeyCmp(key, slots[i + half].key) < 0 {
        len := half;
      } else {
        i := i + half + 1;
        len := len - half - 1;
      }
    }
  }

  // lower_bound(begin(node), end(node) - 1, key)
  method FindLowerSlot(slots: seq<Slot>, key: Key) returns (i: nat)
    requires |slots| >= 1 && SortedSlots(slots)
    ensures LowerAt(slots, key, i)
  {
    i := 0;
    var len := |slots| - 1;
    while len > 0
      invariant 0 <= len && i + len <= |slots| - 1
      invariant forall k :: 0 <= k < i ==> Rank(slots[k].key) < Rank(key)
      invariant forall k :: i + len <= k < |slots| - 1 ==> Rank(key) <= Rank(slots[k].key)
    {
      var half := len / 2;
      if KeyCmp(slots[i + half].key, key) < 0 {
        i := i + half + 1;
        len := len - half - 1;
      } else {
        len := half;
      }
    }
  }

  ghost predicate LowerRecAt(recs: seq<Record>, key: Key, i: nat)
  {
    && i <= |recs|
    && (forall k :: 0 <= k < i ==> Rank(recs[k].key) < Rank(key))
    && (forall k :: i <= k < |recs| ==> Rank(key) <= Rank(recs[k].key))
  }

  ghost predicate UpperRecAt(recs: seq<Record>, key: Key, i: nat)
  {
    && i <= |recs|
    && (forall k :: 0 <= k < i ==> Rank(recs[k].key) <= Rank(key))
    && (forall k :: i <= k < |recs| ==> Rank(key) < Rank(recs[k].key))
  }

  // lower_bound(begin(leaf), end(leaf), key)
  method FindRec(recs: seq<Record>, key: Key) returns (i: nat)
    requires SortedRecs(recs)
    ensures LowerRecAt(recs, key, i)
  {
    i := 0;
    var len := |recs|;
    while len > 0
      invariant 0 <= len && i + len <= |recs|
      invariant forall k :: 0 <= k < i ==> Rank(recs[k].key) < Rank(key)
      invariant forall k :: i + len <= k < |recs| ==> Rank(key) <= Rank(recs[k].key)
    {
      var half := len / 2;
      if KeyCmp(recs[i + half].key, key) < 0 {
        i := i + half + 1;
        len := len - half - 1;
      } else {
        len := half;
      }
    }
  }

  // upper_bound(begin(leaf), end(leaf), key)
  method FindUpperRec(recs: seq<Record>, key: Key) returns (i: nat)
    requires SortedRecs(recs)
    ensures UpperRecAt(recs, key, i)
  {
    i := 0;
    var len := |recs|;
    while len > 0
      invariant 0 <= len && i + len <= |recs|
      invariant forall k :: 0 <= k < i ==> Rank(recs[k].key) <= Rank(key)
      invariant forall k :: i + len <= k < |recs| ==> Rank(key) < Rank(recs[k].key)
    {
      var half := len / 2;
      if KeyCmp(key, recs[i + half].key) < 0 {
        len := half;
      } else {
        i := i + half + 1;
        len := len - half - 1;
      }
    }
  }

  // binary_search(begin(leaf), end(leaf), key)
  method HasKey(recs: seq<Record>, key: Key) returns (found: bool)
    requires SortedRecs(recs)
    ensures found <==> exists i :: 0 <= i < |recs| && recs[i].key == key
  {
    var i := FindRec(recs, key);
    found := i < |recs| && KeyCmp(key, recs[i].key) >= 0;
    if found {
      assert recs[i].key == key by { CompareRanks(recs[i].key, key); }
    }
  }

  // ---------- from the root to a leaf ----------

  // Among the nodes that the slots S list, key belongs to number c.
  ghost predicate Between(S: seq<Slot>, c: nat, key: Key)
  {
    && c < |S|
    && (c > 0 ==> Rank(S[c-1].key) <= Rank(key))
    && (c < |S| - 1 ==> Rank(key) < Rank(S[c].key))
  }

  ghost predicate Reach(lv: seq<Level>, l: nat, c: nat, key: Key)
    requires l < |lv|
  {
    if l == |lv| - 1 then c == 0 else Between(Slots(lv[l+1]), c, key)
  }

  // The keys of one node are sorted, being a stretch of the slots of its level.
  lemma NodeSorted(L: Level, j: nat)
    requires j < |L| && SortedSlots(Slots(L))
    ensures SortedSlots(SlotsOf(L[j]))
    ensures j + 1 < |L| && (forall m :: 0 <= m < |L| ==> |SlotsOf(L[m])| >= 1) ==>
      forall a, b :: 0 <= a < b < |SlotsOf(L[j])| ==> Rank(SlotsOf(L[j])[a].key) < Rank(SlotsOf(L[j])[b].key)
  {
    var s := SlotsOf(L[j]);
    SlotsAt(L, j, 0);
    if j + 1 < |L| {
      SlotsAt(L, j + 1, 0);
    }
    forall a, b | 0 <= a < b < |s|
      ensures b < |s| - 1 ==> Rank(s[a].key) < Rank(s[b].key)
      ensures j + 1 < |L| && |SlotsOf(L[j+1])| >= 1 ==> Rank(s[a].key) < Rank(s[b].key)
    {
      SlotsAt(L, j, a);
      SlotsAt(L, j, b);
    }
  }

  // The key before the slots of node j is the last key of node j - 1, which (hidden-key
  // invariant) is the separator above.
  lemma KeyBefore(upper: seq<Slot>, L: Level, j: nat)
    requires 0 < j < |L| && |L| == |upper|
    requires KeysAt(L, upper)
    requires forall m :: 0 <= m < |L| ==> L[m].InnerNode? && |L[m].slots| >= 1
    ensures 0 < Start(L, j) < |Slots(L)|
    ensures Slots(L)[Start(L, j) - 1].key == upper[j-1].key
  {
    var n := |L[j-1].slots|;
    SlotsAt(L, j - 1, n - 1);
    SlotsAt(L, j, 0);
    assert SepOK(L[j-1], L[j], upper[j-1].key);
  }

  /** One step down: the slot that upper_bound finds in the right node is the right slot of
      the whole level. */
  lemma StepDown(upper: seq<Slot>, L: Level, j: nat, i: nat, key: Key)
    requires |upper| == |L| && KeysAt(L, upper) && SortedSlots(Slots(L))
    requires forall m :: 0 <= m < |L| ==> L[m].InnerNode? && |L[m].slots| >= 1
    requires Between(upper, j, key)
    requires UpperAt(L[j].slots, key, i)
    ensures Between(Slots(L), Start(L, j) + i, key)
  {
    var c := Start(L, j) + i;
    var n := |L[j].slots|;
    SlotsAt(L, j, i);
    if i > 0 {
      SlotsAt(L, j, i - 1);
    } else if j > 0 {
      KeyBefore(upper, L, j);
    } else {
      StartEnds(L);
    }
    if c < |Slots(L)| - 1 && i == n - 1 {
      if j == |L| - 1 {
        StartEnds(L);
        assert false;
      }
      assert SepOK(L[j], L[j+1], upper[j].key);
    }
  }

  lemma RootStep(L: Level, i: nat, key: Key)
    requires |L| == 1 && L[0].InnerNode?
    requires UpperAt(L[0].slots, key, i)
    ensures Between(Slots(L), i, key) && Slots(L)[i] == L[0].slots[i]
  {
    assert L == [L[0]];
    SlotsOne(L[0]);
  }

  /** The leaf c where the search for a key ends is the only one that can hold it: leaves to
      its left hold smaller keys, leaves to its right larger ones. */
  lemma LeafSides(leaves: Level, S: seq<Slot>, c: nat, key: Key, d: nat, i: nat)
    requires KeysAt(leaves, S)
    requires Between(S, c, key)
    requires d < |leaves| && i < |RecsOf(leaves[d])|
    requires forall m :: 0 <= m < |leaves| ==> leaves[m].LeafNode?
    ensures d < c ==> Rank(RecsOf(leaves[d])[i].key) < Rank(key)
    ensures d > c ==> Rank(RecsOf(leaves[d])[i].key) > Rank(key)
  {
    if d < c {
      assert SepOK(leaves[d], leaves[d+1], S[d].key);
      assert d < c - 1 ==> Rank(S[d].key) < Rank(S[c-1].key);
    } else if d > c {
      assert SepOK(leaves[d-1], leaves[d], S[d-1].key);
      assert c < d - 1 ==> Rank(S[c].key) < Rank(S[d-1].key);
    }
  }
}
