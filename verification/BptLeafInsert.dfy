/** Leaves that gain a record, with and without a split, and leaves rewritten in place. */
module BptLeafInsert {
  import opened KeyOrder
  import opened BptLevels
  import opened BptTree
  import opened BptSteps
  import opened BptAdvance
  import opened BptSearch
  import opened BptInsertSteps
  import opened BptLeafSteps
  import opened BptPaths

  // The records fit between the separators around leaf c.
  ghost predicate Fits(S: seq<Slot>, c: nat, recs: seq<Record>)
  {
    && c < |S|
    && forall i :: 0 <= i < |recs| ==> Between(S, c, recs[i].key)
  }

  lemma LeafFits(leaves: Level, S: seq<Slot>, c: nat)
    requires KeysAt(leaves, S) && c < |leaves|
    requires forall m :: 0 <= m < |leaves| ==> leaves[m].LeafNode?
    ensures Fits(S, c, leaves[c].recs)
  {
    forall i | 0 <= i < |leaves[c].recs| ensures Between(S, c, leaves[c].recs[i].key) {
      if c > 0 {
        assert SepOK(leaves[c-1], leaves[c], S[c-1].key);
        assert Rank(S[c-1].key) <= Rank(RecsOf(leaves[c])[i].key);
      }
      if c < |S| - 1 {
        assert SepOK(leaves[c], leaves[c+1], S[c].key);
      }
    }
  }

  lemma KeysLeaf(leaves: Level, S: seq<Slot>, c: nat, x: Node)
    requires KeysAt(leaves, S) && c < |leaves| && x.LeafNode? && Fits(S, c, x.recs)
    requires forall m :: 0 <= m < |leaves| ==> leaves[m].LeafNode?
    ensures KeysAt(leaves[c := x], S)
  {
    var leaves' := leaves[c := x];
    forall d | 0 <= d < |S| - 1 ensures SepOK(leaves'[d], leaves'[d+1], S[d].key) {
      assert SepOK(leaves[d], leaves[d+1], S[d].key);
      if d + 1 == c {
        forall i | 0 <= i < |x.recs| ensures Rank(S[d].key) <= Rank(x.recs[i].key) {
          assert Between(S, c, x.recs[i].key);
        }
      }
      if d == c {
        forall i | 0 <= i < |x.recs| ensures Rank(x.recs[i].key) < Rank(S[d].key) {
          assert Between(S, c, x.recs[i].key);
        }
      }
    }
  }

  lemma RewriteLeafStruct(meta: Meta, disk: Disk, disk': Disk, lv: seq<Level>, lvl: map<Off, nat>, c: nat, x: Node)
    requires FoldedStruct(meta, disk, lv, lvl, 0, []) && c < |lv[0]|
    requires x.LeafNode? && x.off == lv[0][c].off && x.off in disk && disk[x.off].Leaf?
    requires MinSize(0, |lv[0]|) <= |x.recs| <= BP_ORDER
    requires disk' == disk[x.off := disk[x.off].(recs := x.recs)]
    ensures FoldedStruct(meta, disk', lv[0 := lv[0][c := x]], lvl, 0, [])
  {
    OpenStruct(meta, disk, lv, lvl, 0, []);
    var L := lv[0];
    assert LevelOK(disk, lvl, L, 0) && NodeOK(disk, lvl, L, 0, c);
    OneNode(disk, disk', lv, lvl, 0, c, x, disk'[x.off]);
    assert SizesOK(L[c := x], 0) by { assert SizesOK(L, 0); }
    StructRewrite(meta, disk, disk', lv, lvl, 0, [], L[c := x], 0, []);
  }

  lemma RewriteLeafKeys(lv: seq<Level>, c: nat, x: Node)
    requires KeysP(lv, 0, []) && |lv| >= 2 && c < |lv[0]|
    requires forall m :: 0 <= m < |lv[0]| ==> lv[0][m].LeafNode?
    requires x.LeafNode? && SortedRecs(x.recs) && Fits(Slots(lv[1]), c, x.recs)
    ensures KeysP(lv[0 := lv[0][c := x]], 0, [])
  {
    assert KeysAt(lv[0], Flat(lv, 1, 0, []));
    KeysLeaf(lv[0], Slots(lv[1]), c, x);
    KeysAdvance(lv, 0, [], lv[0][c := x], 0, []);
  }

  // One leaf is rewritten: its new records are sorted, fit, and are as many as allowed.
  lemma RewriteLeaf(meta: Meta, disk: Disk, lv: seq<Level>, lvl: map<Off, nat>, c: nat, recs: seq<Record>)
    requires Inv(meta, disk, lv, lvl) && c < |lv[0]|
    requires SortedRecs(recs) && Fits(Slots(lv[1]), c, recs)
    requires MinSize(0, |lv[0]|) <= |recs| <= BP_ORDER
    ensures lv[0][c].off in disk && disk[lv[0][c].off].Leaf?
    ensures Inv(meta, disk[lv[0][c].off := disk[lv[0][c].off].(recs := recs)],
                lv[0 := lv[0][c := LeafNode(lv[0][c].off, recs)]], lvl)
  {
    var x := LeafNode(lv[0][c].off, recs);
    LeafAt(meta, disk, lv, lvl, c);
    var disk' := disk[x.off := disk[x.off].(recs := recs)];
    assert FoldedStruct(meta, disk', lv[0 := lv[0][c := x]], lvl, 0, []) by {
      OpenTree(meta, disk, lv, lvl, 0, []);
      RewriteLeafStruct(meta, disk, disk', lv, lvl, c, x);
    }
    assert KeysP(lv[0 := lv[0][c := x]], 0, []) by {
      OpenTree(meta, disk, lv, lvl, 0, []);
      LeafFacts(meta, disk, lv, lvl, 0, [], c);
      RewriteLeafKeys(lv, c, x);
    }
    FoldTree(meta, disk', lv[0 := lv[0][c := x]], lvl, 0, []);
  }

  lemma RecsRewrite(L: Level, c: nat, x: Node)
    requires c < |L|
    ensures RecStart(L, c) + |RecsOf(L[c])| <= |Recs(L)|
    ensures Recs(L[c := x]) == Recs(L)[..RecStart(L, c)] + RecsOf(x) + Recs(L)[RecStart(L, c) + |RecsOf(L[c])|..]
  {
    RecsReplace(L, c, c + 1, [x]);
    RecsAt(L, c, 0);
    RecsOne(x);
    assert L[c := x] == L[..c] + [x] + L[c+1..];
  }

  // ---------- inserting one record ----------

  lemma InsertSorted(recs: seq<Record>, q: nat, r: Record)
    requires SortedRecs(recs) && UpperRecAt(recs, r.key, q) && !HasRec(recs, r.key)
    ensures SortedRecs(InsertRec(recs, q, r))
  {
    var R := InsertRec(recs, q, r);
    forall i | 0 <= i < |recs| ensures i < q ==> Rank(recs[i].key) < Rank(r.key) {
      CompareRanks(recs[i].key, r.key);
    }
    forall a, b | 0 <= a < b < |R| ensures Rank(R[a].key) < Rank(R[b].key) {
      assert a < q ==> R[a] == recs[a];
      assert a > q ==> R[a] == recs[a-1];
      assert b < q ==> R[b] == recs[b];
      assert b > q ==> R[b] == recs[b-1];
    }
  }

  lemma InsertFits(S: seq<Slot>, c: nat, recs: seq<Record>, q: nat, r: Record)
    requires Fits(S, c, recs) && Between(S, c, r.key) && q <= |recs|
    ensures Fits(S, c, InsertRec(recs, q, r))
  {
    var R := InsertRec(recs, q, r);
    forall i | 0 <= i < |R| ensures Between(S, c, R[i].key) {
      assert i < q ==> R[i] == recs[i];
      assert i > q ==> R[i] == recs[i-1];
    }
  }

  // The flat list of records when leaf c becomes the leaves X holding one more record.
  lemma RecsInsert(L: Level, c: nat, q: nat, r: Record, X: Level)
    requires c < |L| && q <= |RecsOf(L[c])| && Recs(X) == InsertRec(RecsOf(L[c]), q, r)
    ensures RecStart(L, c) + q <= |Recs(L)|
    ensures Recs(L[..c] + X + L[c+1..]) == InsertRec(Recs(L), RecStart(L, c) + q, r)
  {
    var R, a, s := Recs(L), RecStart(L, c), RecsOf(L[c]);
    RecsReplace(L, c, c + 1, X);
    RecsAt(L, c, 0);
    assert L[c..c+1] == [L[c]];
    RecsOne(L[c]);
    InsertWithin(R, a, s, q, r);
  }

  lemma InsertWithin(R: seq<Record>, a: nat, s: seq<Record>, q: nat, r: Record)
    requires q <= |s| && a + |s| <= |R| && s == R[a..a+|s|]
    ensures R[..a] + InsertRec(s, q, r) + R[a+|s|..] == InsertRec(R, a + q, r)
  {
    var I, J := InsertRec(s, q, r), InsertRec(R, a + q, r);
    assert |R[..a] + I + R[a+|s|..]| == |J|;
    forall m | 0 <= m < |J| ensures (R[..a] + I + R[a+|s|..])[m] == J[m] {
      InsertRecAt(R, a + q, r, m);
      if a <= m < a + |I| {
        InsertRecAt(s, q, r, m - a);
      }
    }
  }

  lemma InsertRecAt(R: seq<Record>, p: nat, r: Record, m: nat)
    requires p <= |R| && m <= |R|
    ensures |InsertRec(R, p, r)| == |R| + 1
    ensures InsertRec(R, p, r)[m] == if m < p then R[m] else if m == p then r else R[m-1]
  {
  }

  // ---------- splitting a full leaf ----------

  lemma KeysLeafSplit(leaves: Level, S: seq<Slot>, c: nat, x: Node, y: Node)
    requires KeysAt(leaves, S) && c < |leaves|
    requires forall m :: 0 <= m < |leaves| ==> leaves[m].LeafNode?
    requires x.LeafNode? && y.LeafNode? && |x.recs| >= 1 && |y.recs| >= 1
    requires SortedRecs(x.recs + y.recs) && Fits(S, c, x.recs + y.recs)
    ensures KeysAt(WithSplit(leaves, c, x, y), InsertSlot(S, c, y.recs[0].key, y.off))
  {
    var L', sep := WithSplit(leaves, c, x, y), y.recs[0].key;
    var S' := InsertSlot(S, c, sep, y.off);
    var R := x.recs + y.recs;
    assert R[0] == x.recs[0] && R[|x.recs|] == y.recs[0];
    assert Between(S, c, R[0].key) && Between(S, c, R[|x.recs|].key);
    forall a, b | 0 <= a < b < |S'| - 1 ensures Rank(S'[a].key) < Rank(S'[b].key) {
      SplitSorted(S, c, sep, y.off, a, b);
    }
    assert Fits(S, c, x.recs) by {
      forall i | 0 <= i < |x.recs| ensures Between(S, c, x.recs[i].key) { assert R[i] == x.recs[i]; }
    }
    assert Fits(S, c, y.recs) by {
      forall i | 0 <= i < |y.recs| ensures Between(S, c, y.recs[i].key) { assert R[|x.recs| + i] == y.recs[i]; }
    }
    forall d | 0 <= d < |S'| - 1 ensures SepOK(L'[d], L'[d+1], S'[d].key) {
      LeafSplitSep(leaves, S, c, x, y, d);
    }
  }

  lemma LeafSplitSep(leaves: Level, S: seq<Slot>, c: nat, x: Node, y: Node, d: nat)
    requires KeysAt(leaves, S) && c < |leaves| && d < |S|
    requires forall m :: 0 <= m < |leaves| ==> leaves[m].LeafNode?
    requires x.LeafNode? && y.LeafNode? && |x.recs| >= 1 && |y.recs| >= 1
    requires SortedRecs(x.recs + y.recs) && Fits(S, c, x.recs) && Fits(S, c, y.recs)
    ensures SepOK(WithSplit(leaves, c, x, y)[d], WithSplit(leaves, c, x, y)[d+1],
                  InsertSlot(S, c, y.recs[0].key, y.off)[d].key)
  {
    var L', S' := WithSplit(leaves, c, x, y), InsertSlot(S, c, y.recs[0].key, y.off);
    var R := x.recs + y.recs;
    if d < c {
      assert SepOK(leaves[d], leaves[d+1], S[d].key);
      if d + 1 == c {
        forall i | 0 <= i < |x.recs| ensures Rank(S[d].key) <= Rank(x.recs[i].key) {
          assert Between(S, c, x.recs[i].key);
        }
      }
    } else if d == c {
      forall i | 0 <= i < |x.recs| ensures Rank(x.recs[i].key) < Rank(y.recs[0].key) {
        assert R[i] == x.recs[i] && R[|x.recs|] == y.recs[0];
      }
      forall i | 0 <= i < |y.recs| ensures Rank(y.recs[0].key) <= Rank(y.recs[i].key) {
        assert R[|x.recs| + i] == y.recs[i] && R[|x.recs|] == y.recs[0];
      }
    } else {
      assert SepOK(leaves[d-1], leaves[d], S[d-1].key);
      if d == c + 1 {
        forall i | 0 <= i < |y.recs| ensures Rank(y.recs[i].key) < Rank(S[c].key) {
          assert Between(S, c, y.recs[i].key);
        }
      }
    }
  }

  lemma UpdateStep(meta: Meta, disk: Disk, lv: seq<Level>, lvl: map<Off, nat>, c: nat, i: nat, value: int)
    requires Inv(meta, disk, lv, lvl) && c < |lv[0]| && lv[0][c].LeafNode? && i < |lv[0][c].recs|
    requires lv[0][c].off in disk && disk[lv[0][c].off].Leaf?
    ensures var key := lv[0][c].recs[i].key;
      var recs := lv[0][c].recs[i := Record(key, value)];
      var lv' := lv[0 := lv[0][c := LeafNode(lv[0][c].off, recs)]];
      && Inv(meta, disk[lv[0][c].off := disk[lv[0][c].off].(recs := recs)], lv', lvl)
      && key in Entries(lv) && Entries(lv') == Entries(lv)[key := value]
  {
    var L := lv[0];
    var recs' := L[c].recs[i := Record(L[c].recs[i].key, value)];
    LeafRoom(meta, disk, lv, lvl, c);
    LeafAt(meta, disk, lv, lvl, c);
    assert Fits(Slots(lv[1]), c, recs') by {
      forall k | 0 <= k < |recs'| ensures Between(Slots(lv[1]), c, recs'[k].key) {
        assert recs'[k].key == L[c].recs[k].key;
      }
    }
    RewriteLeaf(meta, disk, lv, lvl, c, recs');
    RecsUpdate(L, c, i, value);
    DictUpdate(Recs(L), RecStart(L, c) + i, value);
  }

  lemma LeafRoom(meta: Meta, disk: Disk, lv: seq<Level>, lvl: map<Off, nat>, c: nat)
    requires Inv(meta, disk, lv, lvl) && c < |lv[0]|
    ensures lv[0][c].LeafNode? && Fits(Slots(lv[1]), c, lv[0][c].recs)
    ensures SortedRecs(Recs(lv[0]))
    ensures forall m :: 0 <= m < |lv[0]| ==> lv[0][m].LeafNode?
  {
    OpenTree(meta, disk, lv, lvl, 0, []);
    LeafFacts(meta, disk, lv, lvl, 0, [], c);
    assert KeysAt(lv[0], Flat(lv, 1, 0, []));
    LeafFits(lv[0], Slots(lv[1]), c);
    RecsSorted(lv[0], Slots(lv[1]));
  }

  lemma RecsUpdate(L: Level, c: nat, i: nat, value: int)
    requires c < |L| && L[c].LeafNode? && i < |L[c].recs|
    ensures var r := Record(L[c].recs[i].key, value);
      && RecStart(L, c) + i < |Recs(L)| && Recs(L)[RecStart(L, c) + i] == L[c].recs[i]
      && Recs(L[c := LeafNode(L[c].off, L[c].recs[i := r])]) == Recs(L)[RecStart(L, c) + i := r]
  {
    var r := Record(L[c].recs[i].key, value);
    var x := LeafNode(L[c].off, L[c].recs[i := r]);
    var R, a, s := Recs(L), RecStart(L, c), L[c].recs;
    RecsRewrite(L, c, x);
    RecsAt(L, c, i);
    RecsReplace(L, c, c + 1, []);
    assert L[c..c+1] == [L[c]];
    RecsOne(L[c]);
    assert s == R[a..a+|s|];
    assert R[..a] + s[i := r] + R[a+|s|..] == R[a + i := r];
  }

  lemma SplitRecsLeft(recs: seq<Record>, key: Key, point: nat, q: nat, r: Record)
    requires point < |recs| && UpperRecAt(recs[..point], key, q) && SortedRecs(recs)
    requires r.key == key && Rank(key) <= Rank(recs[point].key) && !HasRec(recs, key)
    ensures UpperRecAt(recs, key, q)
    ensures InsertRec(recs[..point], q, r) + recs[point..] == InsertRec(recs, q, r)
  {
    CompareRanks(key, recs[point].key);
    forall k | 0 <= k < |recs| ensures k < q ==> Rank(recs[k].key) <= Rank(key)
      ensures k >= q ==> Rank(key) < Rank(recs[k].key)
    {
      assert k < point ==> recs[..point][k] == recs[k];
      assert k > point ==> Rank(recs[point].key) < Rank(recs[k].key);
    }
  }

  lemma SplitRecsRight(recs: seq<Record>, key: Key, point: nat, q: nat, r: Record)
    requires 1 <= point <= q <= |recs| && UpperRecAt(recs[point..], key, q - point) && SortedRecs(recs)
    requires r.key == key && Rank(recs[point-1].key) < Rank(key)
    ensures UpperRecAt(recs, key, q)
    ensures recs[..point] + InsertRec(recs[point..], q - point, r) == InsertRec(recs, q, r)
  {
    forall k | 0 <= k < |recs| ensures k < q ==> Rank(recs[k].key) <= Rank(key)
      ensures k >= q ==> Rank(key) < Rank(recs[k].key)
    {
      assert k >= point ==> recs[point..][k - point] == recs[k];
      assert k < point - 1 ==> Rank(recs[k].key) < Rank(recs[point-1].key);
    }
  }
}
