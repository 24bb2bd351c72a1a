/** Leaves that lose a record: absorbed, refilled from a neighbour (which may hang under another
    parent), or merged with a neighbour under the same parent. */
module BptLeafRemove {
  import opened KeyOrder
  import opened BptLevels
  import opened BptTree
  import opened BptSearch
  import opened BptLeafSteps
  import opened BptLeafInsert
  import opened BptPaths
  import opened BptDeleteSteps
  import opened BptRebalance

  // ---------- the list of records ----------

  lemma RecsRegroup(L: Level, c: nat, X: Level)
    requires c + 1 < |L| && Recs(X) == RecsOf(L[c]) + RecsOf(L[c+1])
    ensures Recs(L[..c] + X + L[c+2..]) == Recs(L)
  {
    RecsReplace(L, c, c + 2, X);
    RecsTwo(L[c], L[c+1]);
    assert L[c..c+2] == [L[c], L[c+1]];
    assert Recs(L)[RecStart(L, c)..RecStart(L, c + 2)] == Recs(X);
  }

  lemma RecsRemoveOne(L: Level, c: nat, q: nat)
    requires c < |L| && L[c].LeafNode? && q < |L[c].recs|
    ensures RecStart(L, c) + q < |Recs(L)| && Recs(L)[RecStart(L, c) + q] == L[c].recs[q]
    ensures Recs(L[c := LeafNode(L[c].off, RemoveRec(L[c].recs, q))]) == RemoveRec(Recs(L), RecStart(L, c) + q)
  {
    var R, a, s := Recs(L), RecStart(L, c), L[c].recs;
    var x := LeafNode(L[c].off, RemoveRec(s, q));
    RecsRewrite(L, c, x);
    RecsAt(L, c, q);
    RecsReplace(L, c, c + 1, []);
    assert L[c..c+1] == [L[c]];
    RecsOne(L[c]);
    assert s == R[a..a+|s|];
    assert R[..a] + RemoveRec(s, q) + R[a+|s|..] == RemoveRec(R, a + q);
  }

  // What is left of the records of leaf j once record q is gone, next to its neighbour.
  ghost function Pair(L: Level, j: nat, q: nat, c: nat): seq<Record>
    requires c + 1 < |L| && (j == c || j == c + 1) && q < |RecsOf(L[j])|
  {
    if j == c then RemoveRec(RecsOf(L[c]), q) + RecsOf(L[c+1]) else RecsOf(L[c]) + RemoveRec(RecsOf(L[c+1]), q)
  }

  // Leaf c, one record short, with the last record of its left neighbour ...
  lemma LentLeft(L: Level, c: nat, q: nat, left: seq<Record>, right: seq<Record>)
    requires 0 < c < |L| && q < |RecsOf(L[c])| && |RecsOf(L[c-1])| > 0
    requires var lender := RecsOf(L[c-1]);
      left == lender[..|lender|-1] && right == [lender[|lender|-1]] + RemoveRec(RecsOf(L[c]), q)
    ensures left + right == Pair(L, c, q, c - 1)
  {
  }

  // ... or with the first record of its right neighbour.
  lemma LentRight(L: Level, c: nat, q: nat, left: seq<Record>, right: seq<Record>)
    requires c + 1 < |L| && q < |RecsOf(L[c])| && |RecsOf(L[c+1])| > 0
    requires var lender := RecsOf(L[c+1]);
      left == RemoveRec(RecsOf(L[c]), q) + [lender[0]] && right == lender[1..]
    ensures left + right == Pair(L, c, q, c)
  {
  }

  // However the remaining records of two neighbours are regrouped, the tree loses exactly one
  // binding.
  lemma RegroupedRecs(L: Level, j: nat, q: nat, c: nat, X: Level)
    requires c + 1 < |L| && (j == c || j == c + 1) && L[j].LeafNode? && q < |L[j].recs|
    requires Recs(X) == Pair(L, j, q, c)
    ensures RecStart(L, j) + q < |Recs(L)| && Recs(L)[RecStart(L, j) + q] == L[j].recs[q]
    ensures Recs(L[..c] + X + L[c+2..]) == RemoveRec(Recs(L), RecStart(L, j) + q)
  {
    var z := LeafNode(L[j].off, RemoveRec(L[j].recs, q));
    var L1 := L[j := z];
    RecsRemoveOne(L, j, q);
    assert RecsOf(L1[c]) + RecsOf(L1[c+1]) == Pair(L, j, q, c);
    RecsRegroup(L1, c, X);
    assert L1[..c] == L[..c] && L1[c+2..] == L[c+2..];
  }

  lemma RegroupedEntries(lv: seq<Level>, lv': seq<Level>, j: nat, q: nat, c: nat, X: Level)
    requires |lv| >= 1 && |lv'| >= 1 && c + 1 < |lv[0]| && (j == c || j == c + 1)
    requires lv[0][j].LeafNode? && q < |lv[0][j].recs|
    requires Recs(X) == Pair(lv[0], j, q, c)
    requires lv'[0] == lv[0][..c] + X + lv[0][c+2..]
    requires SortedRecs(Recs(lv[0]))
    ensures SortedRecs(Recs(lv'[0]))
    ensures Entries(lv') == Entries(lv) - {lv[0][j].recs[q].key}
  {
    RegroupedRecs(lv[0], j, q, c, X);
    DictRemove(Recs(lv[0]), RecStart(lv[0], j) + q);
  }

  lemma RemovedEntries(lv: seq<Level>, lv': seq<Level>, j: nat, q: nat)
    requires |lv| >= 1 && |lv'| >= 1 && j < |lv[0]| && lv[0][j].LeafNode? && q < |lv[0][j].recs|
    requires lv'[0] == lv[0][j := LeafNode(lv[0][j].off, RemoveRec(lv[0][j].recs, q))]
    requires SortedRecs(Recs(lv[0]))
    ensures Entries(lv') == Entries(lv) - {lv[0][j].recs[q].key}
  {
    RecsRemoveOne(lv[0], j, q);
    var R, p := Recs(lv[0]), RecStart(lv[0], j) + q;
    DictRemove(R, p);
    assert Recs(lv'[0]) == RemoveRec(R, p) && R[p].key == lv[0][j].recs[q].key;
  }

  // ---------- a record lost, the leaf large enough ----------

  lemma RemoveSorted(recs: seq<Record>, q: nat)
    requires SortedRecs(recs) && q < |recs|
    ensures SortedRecs(RemoveRec(recs, q))
  {
    RemoveThenInsert(recs, q, recs[q]);
  }

  lemma AbsorbRemove(meta: Meta, disk: Disk, lv: seq<Level>, lvl: map<Off, nat>, c: nat, q: nat)
    requires Inv(meta, disk, lv, lvl) && c < |lv[0]| && lv[0][c].LeafNode? && q < |lv[0][c].recs|
    requires MinSize(0, |lv[0]|) < |lv[0][c].recs|
    requires lv[0][c].off in disk && disk[lv[0][c].off].Leaf?
    ensures var recs := RemoveRec(lv[0][c].recs, q);
      var lv' := lv[0 := lv[0][c := LeafNode(lv[0][c].off, recs)]];
      && Inv(meta, disk[lv[0][c].off := disk[lv[0][c].off].(recs := recs)], lv', lvl)
      && Entries(lv') == Entries(lv) - {lv[0][c].recs[q].key}
  {
    var recs := RemoveRec(lv[0][c].recs, q);
    LeafRoom(meta, disk, lv, lvl, c);
    LeafAt(meta, disk, lv, lvl, c);
    RemoveSorted(lv[0][c].recs, q);
    assert Fits(Slots(lv[1]), c, recs) by {
      forall k | 0 <= k < |recs| ensures Between(Slots(lv[1]), c, recs[k].key) {
        assert recs[k] == lv[0][c].recs[if k < q then k else k + 1];
      }
    }
    RewriteLeaf(meta, disk, lv, lvl, c, recs);
    RemovedEntries(lv, lv[0 := lv[0][c := LeafNode(lv[0][c].off, recs)]], c, q);
  }

  // ---------- two neighbours share out their records anew ----------

  // Every record lies in the range of leaf c or of leaf c + 1.
  ghost predicate InPair(S: seq<Slot>, c: nat, recs: seq<Record>)
  {
    forall i :: 0 <= i < |recs| ==> Between(S, c, recs[i].key) || Between(S, c + 1, recs[i].key)
  }

  lemma PairFacts(meta: Meta, disk: Disk, lv: seq<Level>, lvl: map<Off, nat>, j: nat, q: nat, c: nat)
    requires Inv(meta, disk, lv, lvl) && c + 1 < |lv[0]| && (j == c || j == c + 1)
    requires q < |RecsOf(lv[0][j])|
    ensures SortedRecs(Pair(lv[0], j, q, c)) && InPair(Slots(lv[1]), c, Pair(lv[0], j, q, c))
    ensures KeysAt(lv[0], Slots(lv[1])) && Kids(lv[0], Slots(lv[1]))
    ensures forall m :: 0 <= m < |lv[0]| ==> lv[0][m].LeafNode?
  {
    LeafRoom(meta, disk, lv, lvl, c);
    LeafRoom(meta, disk, lv, lvl, c + 1);
    OpenTree(meta, disk, lv, lvl, 0, []);
    assert KeysAt(lv[0], Flat(lv, 1, 0, [])) && Kids(lv[0], Flat(lv, 1, 0, []));
    assert SortedRecs(RecsOf(lv[0][c])) && SortedRecs(RecsOf(lv[0][c+1]));
    PairSorted(lv[0], Slots(lv[1]), j, q, c);
  }

  lemma PairSorted(L: Level, S: seq<Slot>, j: nat, q: nat, c: nat)
    requires KeysAt(L, S) && c + 1 < |L| && (j == c || j == c + 1) && q < |RecsOf(L[j])|
    requires forall m :: 0 <= m < |L| ==> L[m].LeafNode?
    requires SortedRecs(L[c].recs) && SortedRecs(L[c+1].recs)
    requires Fits(S, c, L[c].recs) && Fits(S, c + 1, L[c+1].recs)
    ensures SortedRecs(Pair(L, j, q, c)) && InPair(S, c, Pair(L, j, q, c))
  {
    RemoveSorted(L[j].recs, q);
    var A := if j == c then RemoveRec(L[c].recs, q) else L[c].recs;
    var B := if j == c then L[c+1].recs else RemoveRec(L[c+1].recs, q);
    assert Pair(L, j, q, c) == A + B;
    RemovedFits(S, j, L[j].recs, q);
    JoinSorted(S, c, A, B);
  }

  lemma RemovedFits(S: seq<Slot>, c: nat, recs: seq<Record>, q: nat)
    requires Fits(S, c, recs) && q < |recs|
    ensures Fits(S, c, RemoveRec(recs, q))
  {
    forall i | 0 <= i < |recs| - 1 ensures Between(S, c, RemoveRec(recs, q)[i].key) {
      assert RemoveRec(recs, q)[i] == recs[if i < q then i else i + 1];
    }
  }

  lemma JoinSorted(S: seq<Slot>, c: nat, A: seq<Record>, B: seq<Record>)
    requires SortedRecs(A) && SortedRecs(B) && Fits(S, c, A) && Fits(S, c + 1, B)
    ensures SortedRecs(A + B) && InPair(S, c, A + B)
  {
    var R := A + B;
    forall i | 0 <= i < |R| ensures Between(S, c, R[i].key) || Between(S, c + 1, R[i].key) {
      assert i < |A| ==> R[i] == A[i];
      assert i >= |A| ==> R[i] == B[i - |A|];
    }
    forall a, b | 0 <= a < b < |R| ensures Rank(R[a].key) < Rank(R[b].key) {
      if b < |A| {
        assert R[a] == A[a] && R[b] == A[b];
      } else if a >= |A| {
        assert R[a] == B[a - |A|] && R[b] == B[b - |A|];
      } else {
        assert Between(S, c, A[a].key) && Between(S, c + 1, B[b - |A|].key);
      }
    }
  }

  lemma KeysLeafShift(L: Level, S: seq<Slot>, c: nat, x: Node, y: Node)
    requires KeysAt(L, S) && c + 1 < |L| && x.LeafNode? && y.LeafNode? && |x.recs| >= 1 && |y.recs| >= 1
    requires forall m :: 0 <= m < |L| ==> L[m].LeafNode?
    requires SortedRecs(x.recs + y.recs) && InPair(S, c, x.recs + y.recs)
    ensures SortedRecs(x.recs) && SortedRecs(y.recs)
    ensures KeysAt(Shifted(L, c, x, y), WithKey(S, c, y.recs[0].key))
  {
    var R, key, L', S' := x.recs + y.recs, y.recs[0].key, Shifted(L, c, x, y), WithKey(S, c, y.recs[0].key);
    var n := |x.recs|;
    assert forall i :: 0 <= i < n ==> R[i] == x.recs[i];
    assert forall i :: 0 <= i < |y.recs| ==> R[n + i] == y.recs[i];
    assert Between(S, c, R[0].key) || Between(S, c + 1, R[0].key);
    assert Between(S, c, R[n].key) || Between(S, c + 1, R[n].key);
    assert c > 0 ==> Rank(S[c-1].key) < Rank(S[c].key);
    assert c + 1 < |S| - 1 ==> Rank(S[c].key) < Rank(S[c+1].key);
    WithKeySorted(S, c, key);
    forall d | 0 <= d < |S'| - 1 ensures SepOK(L'[d], L'[d+1], S'[d].key) {
      assert SepOK(L[d], L[d+1], S[d].key);
      if d == c {
        forall i | 0 <= i < |y.recs| ensures Rank(key) <= Rank(y.recs[i].key) {
          assert R[n + i] == y.recs[i];
        }
      } else if d + 1 == c {
        forall i | 0 <= i < |x.recs| ensures Rank(S[d].key) <= Rank(x.recs[i].key) {
          assert Between(S, c, R[i].key) || Between(S, c + 1, R[i].key);
        }
      } else if d == c + 1 {
        forall i | 0 <= i < |y.recs| ensures Rank(y.recs[i].key) < Rank(S[d].key) {
          assert Between(S, c, R[n + i].key) || Between(S, c + 1, R[n + i].key);
        }
      }
    }
  }
}
