/** Deletion of one slot on a level, and what the level above sees of it. */
module BptDeleteSteps {
  import opened KeyOrder
  import opened BptLevels
  import opened BptTree
  import opened BptSteps
  import opened BptSearch
  import opened BptInsertSteps

  // Children c and c + 1 became one child, kept at the place of c under the key of c + 1.
  ghost function DeleteSlot(S: seq<Slot>, c: nat): seq<Slot>
    requires c + 1 < |S|
  {
    S[..c] + [Slot(S[c+1].key, S[c].child)] + S[c+2..]
  }

  // The same children, but the slot of c + 1 was dropped as it stands: c keeps its own key.
  ghost function DropSlot(S: seq<Slot>, c: nat): seq<Slot>
    requires c + 1 < |S|
  {
    S[..c+1] + S[c+2..]
  }

  ghost function Deleted(S: seq<Slot>, c: nat, stale: bool): seq<Slot>
    requires c + 1 < |S|
  {
    if stale then DropSlot(S, c) else DeleteSlot(S, c)
  }

  lemma FlatDelete(L: Level, j: nat, i: nat, stale: bool, X: Level)
    requires j < |L| && i + 1 < |SlotsOf(L[j])|
    requires Slots(X) == Deleted(SlotsOf(L[j]), i, stale)
    ensures Start(L, j) + i + 1 < |Slots(L)|
    ensures Slots(L[..j] + X + L[j+1..]) == Deleted(Slots(L), Start(L, j) + i, stale)
  {
    FlatChange(L, j, X);
    DeletedFlat(L, j, i, stale);
  }

  lemma DeletedFlat(L: Level, j: nat, i: nat, stale: bool)
    requires j < |L| && i + 1 < |SlotsOf(L[j])|
    ensures Start(L, j) + |SlotsOf(L[j])| <= |Slots(L)|
    ensures Slots(L)[..Start(L, j)] + Deleted(SlotsOf(L[j]), i, stale) + Slots(L)[Start(L, j) + |SlotsOf(L[j])|..]
         == Deleted(Slots(L), Start(L, j) + i, stale)
  {
    SlotsWithin(L, j);
    DeletedWithin(Slots(L), Start(L, j), SlotsOf(L[j]), i, stale);
  }

  lemma DeletedWithin(S: seq<Slot>, a: nat, s: seq<Slot>, i: nat, stale: bool)
    requires i + 1 < |s| && a + |s| <= |S| && s == S[a..a+|s|]
    ensures S[..a] + Deleted(s, i, stale) + S[a+|s|..] == Deleted(S, a + i, stale)
  {
    var D, T := Deleted(s, i, stale), Deleted(S, a + i, stale);
    assert |T| == |S[..a] + D + S[a+|s|..]|;
    forall m | 0 <= m < |T| ensures T[m] == (S[..a] + D + S[a+|s|..])[m] {
      DeletedAt(S, a + i, stale, m);
      if a <= m < a + |D| {
        DeletedAt(s, i, stale, m - a);
      }
    }
  }

  lemma DeletedAt(S: seq<Slot>, c: nat, stale: bool, m: nat)
    requires c + 1 < |S| && m < |S| - 1
    ensures |Deleted(S, c, stale)| == |S| - 1
    ensures Deleted(S, c, stale)[m] == if m < c then S[m] else if m > c then S[m+1] else
      if stale then S[m] else Slot(S[m+1].key, S[m].child)
  {
  }

  lemma DeletedSorted(S: seq<Slot>, c: nat, stale: bool)
    requires c + 1 < |S| && SortedSlots(S)
    ensures SortedSlots(Deleted(S, c, stale))
  {
    var D := Deleted(S, c, stale);
    forall a, b | 0 <= a < b < |D| - 1 ensures Rank(D[a].key) < Rank(D[b].key) {
      DeletedKey(S, c, stale, a);
      DeletedKey(S, c, stale, b);
    }
  }

  // The key at place a of the shorter list stands at place a or a + 1 of the longer one.
  lemma DeletedKey(S: seq<Slot>, c: nat, stale: bool, a: nat)
    requires c + 1 < |S| && a < |S| - 1
    ensures var d := if a < c || (a == c && stale) then a else a + 1;
      Deleted(S, c, stale)[a].key == S[d].key
  {
  }

  lemma KidsMerge(L: Level, S: seq<Slot>, c: nat, x: Node, stale: bool)
    requires c + 1 < |L| && Kids(L, S) && x.off == L[c].off
    ensures Kids(WithMerge(L, c, x), Deleted(S, c, stale))
  {
    var L', D := WithMerge(L, c, x), Deleted(S, c, stale);
    forall a | 0 <= a < |D| ensures D[a].child == L'[a].off {
      if a > c {
        assert D[a] == S[a+1] && L'[a] == L[a+1];
      }
    }
  }

  // ---------- keys above a merge of two neighbours ----------

  lemma KeysMergeLeaves(L: Level, S: seq<Slot>, c: nat, x: Node)
    requires KeysAt(L, S) && c + 1 < |L| && x.LeafNode?
    requires forall m :: 0 <= m < |L| ==> L[m].LeafNode?
    requires forall i :: 0 <= i < |x.recs| ==> Between(S, c, x.recs[i].key) || Between(S, c + 1, x.recs[i].key)
    ensures KeysAt(WithMerge(L, c, x), DeleteSlot(S, c))
  {
    var L', D := WithMerge(L, c, x), DeleteSlot(S, c);
    DeletedSorted(S, c, false);
    forall a | 0 <= a < |D| - 1 ensures SepOK(L'[a], L'[a+1], D[a].key) {
      if a + 1 < c {
        assert SepOK(L[a], L[a+1], S[a].key);
      } else if a + 1 == c {
        assert SepOK(L[a], L[a+1], S[a].key);
        assert Rank(S[a].key) < Rank(S[c].key);
        forall i | 0 <= i < |x.recs| ensures Rank(S[a].key) <= Rank(x.recs[i].key) {
          assert Between(S, c, x.recs[i].key) || Between(S, c + 1, x.recs[i].key);
        }
      } else if a == c {
        assert SepOK(L[a+1], L[a+2], S[a+1].key);
        assert Rank(S[c].key) < Rank(S[c+1].key);
        forall i | 0 <= i < |x.recs| ensures Rank(x.recs[i].key) < Rank(S[c+1].key) {
          assert Between(S, c, x.recs[i].key) || Between(S, c + 1, x.recs[i].key);
        }
      } else {
        assert SepOK(L[a+1], L[a+2], S[a+1].key);
      }
    }
  }

  ghost function LastKey(x: Node): Key
    requires |SlotsOf(x)| > 0
  {
    SlotsOf(x)[|SlotsOf(x)|-1].key
  }

  // The merged node x must mirror the separator the deletion leaves above it, unless x ends up
  // rightmost.
  lemma KeysMergeInner(L: Level, S: seq<Slot>, c: nat, x: Node, stale: bool)
    requires KeysAt(L, S) && c + 1 < |L| && x.InnerNode? && |x.slots| > 0
    requires forall m :: 0 <= m < |L| ==> L[m].InnerNode?
    requires c + 2 < |L| ==> !stale && LastKey(x) == S[c+1].key
    ensures KeysAt(WithMerge(L, c, x), Deleted(S, c, stale))
  {
    var L', D := WithMerge(L, c, x), Deleted(S, c, stale);
    DeletedSorted(S, c, stale);
    forall a | 0 <= a < |D| - 1 ensures SepOK(L'[a], L'[a+1], D[a].key) {
      if a < c {
        assert SepOK(L[a], L[a+1], S[a].key);
      } else if a > c {
        assert SepOK(L[a+1], L[a+2], S[a+1].key);
      }
    }
  }

  // Dropping the wrong slot anywhere but at the right end breaks the hidden-key invariant.
  lemma StaleKeyBreaks(L: Level, S: seq<Slot>, c: nat, x: Node)
    requires KeysAt(L, S) && c + 2 < |L| && x.InnerNode? && |x.slots| > 0
    requires LastKey(x) == S[c+1].key
    ensures !KeysAt(WithMerge(L, c, x), DropSlot(S, c))
  {
    var L', D := WithMerge(L, c, x), DropSlot(S, c);
    assert Rank(S[c].key) < Rank(S[c+1].key);
    assert D[c] == S[c] && !SepOK(L'[c], L'[c+1], D[c].key);
  }

  // ---------- keys above two neighbours that share out their slots anew ----------

  // Separator c of S becomes `key`.
  ghost function WithKey(S: seq<Slot>, c: nat, key: Key): seq<Slot>
    requires c < |S|
  {
    S[c := Slot(key, S[c].child)]
  }

  lemma KeysShift(L: Level, S: seq<Slot>, c: nat, x: Node, y: Node, key: Key)
    requires KeysAt(L, S) && c + 1 < |L|
    requires forall m :: 0 <= m < |L| ==> L[m].InnerNode?
    requires x.InnerNode? && y.InnerNode? && |x.slots| > 0 && |y.slots| > 0
    requires LastKey(x) == key
    requires c + 2 < |L| ==> LastKey(y) == S[c+1].key
    requires c > 0 ==> Rank(S[c-1].key) < Rank(key)
    requires c + 2 < |L| ==> Rank(key) < Rank(S[c+1].key)
    ensures KeysAt(L[c := x][c + 1 := y], WithKey(S, c, key))
  {
    var L', S' := L[c := x][c + 1 := y], WithKey(S, c, key);
    forall a | 0 <= a < |S'| - 1 ensures SepOK(L'[a], L'[a+1], S'[a].key) {
      assert SepOK(L[a], L[a+1], S[a].key);
    }
    WithKeySorted(S, c, key);
  }

  lemma WithKeySorted(S: seq<Slot>, c: nat, key: Key)
    requires SortedSlots(S) && c < |S| - 1
    requires c > 0 ==> Rank(S[c-1].key) < Rank(key)
    requires c + 1 < |S| - 1 ==> Rank(key) < Rank(S[c+1].key)
    ensures SortedSlots(WithKey(S, c, key))
  {
    var S' := WithKey(S, c, key);
    forall a, b | 0 <= a < b < |S'| - 1 ensures Rank(S'[a].key) < Rank(S'[b].key) {
      assert b == c && a < c - 1 ==> Rank(S[a].key) < Rank(S[c-1].key);
      assert a == c && b > c + 1 ==> Rank(S[c+1].key) < Rank(S[b].key);
    }
  }

  lemma FlatWithKey(L: Level, j: nat, i: nat, key: Key)
    requires j < |L| && L[j].InnerNode? && i < |L[j].slots|
    ensures Start(L, j) + i < |Slots(L)|
    ensures Slots(L)[Start(L, j) + i] == L[j].slots[i]
    ensures Slots(L[j := InnerNode(L[j].off, WithKey(L[j].slots, i, key))]) == WithKey(Slots(L), Start(L, j) + i, key)
  {
    var s, S, a := L[j].slots, Slots(L), Start(L, j);
    var x := InnerNode(L[j].off, WithKey(s, i, key));
    FlatChange(L, j, [x]);
    SlotsOne(x);
    SlotsAt(L, j, i);
    SlotsReplace(L, j, j + 1, []);
    assert L[j..j+1] == [L[j]];
    SlotsOne(L[j]);
    assert s == S[a..a+|s|];
    assert L[j := x] == L[..j] + [x] + L[j+1..];
    assert S[..a] + WithKey(s, i, key) + S[a+|s|..] == WithKey(S, a + i, key);
  }
}
