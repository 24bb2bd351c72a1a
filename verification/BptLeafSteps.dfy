/** The records of all leaves as one sorted list, and as a finite map. */
module BptLeafSteps {
  import opened KeyOrder
  import opened BptLevels
  import opened BptTree

  lemma {:induction false} RecsConcat(A: Level, B: Level)
    ensures Recs(A + B) == Recs(A) + Recs(B)
  {
    if |B| == 0 {
      assert A + B == A && B == [];
      RecsEmpty();
    } else {
      assert (A + B)[..|A + B|-1] == A + B[..|B|-1];
      RecsConcat(A, B[..|B|-1]);
      RecsSnoc(A + B);
      RecsSnoc(B);
    }
  }

  lemma RecsOne(x: Node)
    ensures Recs([x]) == RecsOf(x)
  {
    RecsSnoc([x]);
    assert [x][..0] == [];
    RecsEmpty();
  }

  lemma RecsTwo(x: Node, y: Node)
    ensures Recs([x, y]) == RecsOf(x) + RecsOf(y)
  {
    assert [x, y] == [x] + [y];
    RecsConcat([x], [y]);
    RecsOne(x);
    RecsOne(y);
  }

  lemma RecsReplace(L: Level, j: nat, k: nat, X: Level)
    requires j <= k <= |L|
    ensures RecStart(L, j) <= RecStart(L, k) <= |Recs(L)|
    ensures Recs(L[j..k]) == Recs(L)[RecStart(L, j)..RecStart(L, k)]
    ensures Recs(L[..j] + X + L[k..]) == Recs(L)[..RecStart(L, j)] + Recs(X) + Recs(L)[RecStart(L, k)..]
  {
    var s := Recs(L);
    assert L == L[..k] + L[k..] && L[..k] == L[..j] + L[j..k];
    RecsConcat(L[..k], L[k..]);
    RecsConcat(L[..j], L[j..k]);
    RecsConcat(L[..j], X);
    RecsConcat(L[..j] + X, L[k..]);
    assert s == Recs(L[..j]) + Recs(L[j..k]) + Recs(L[k..]);
    assert s[..RecStart(L, j)] == Recs(L[..j]);
    assert s[RecStart(L, k)..] == Recs(L[k..]);
  }

  lemma {:induction false} RecsAt(L: Level, j: nat, i: nat)
    requires j < |L| && i <= |RecsOf(L[j])|
    ensures RecStart(L, j + 1) == RecStart(L, j) + |RecsOf(L[j])| <= |Recs(L)|
    ensures i < |RecsOf(L[j])| ==> Recs(L)[RecStart(L, j) + i] == RecsOf(L[j])[i]
  {
    var M := L[..|L|-1];
    RecsSnoc(L);
    if j < |L| - 1 {
      RecsAt(M, j, i);
      assert M[..j] == L[..j] && M[..j+1] == L[..j+1];
    } else {
      assert L[..j+1] == L;
    }
  }

  lemma {:induction false} LocateRec(L: Level, c: nat) returns (j: nat, i: nat)
    requires c < |Recs(L)|
    ensures j < |L| && i < |RecsOf(L[j])|
    ensures c == RecStart(L, j) + i
    ensures Recs(L)[c] == RecsOf(L[j])[i]
  {
    if |L| == 0 {
      RecsEmpty();
      assert false;
    }
    var M := L[..|L|-1];
    RecsSnoc(L);
    if c < |Recs(M)| {
      j, i := LocateRec(M, c);
      assert M[..j] == L[..j];
    } else {
      j, i := |L| - 1, c - |Recs(M)|;
    }
  }

  lemma {:induction false} RecStartMono(L: Level, j: nat, k: nat)
    requires j <= k <= |L|
    ensures RecStart(L, j) <= RecStart(L, k) <= |Recs(L)|
    decreases k - j
  {
    RecsReplace(L, j, k, []);
  }

  // Leaf d lies left of leaf e, so do its keys.
  lemma LeavesApart(leaves: Level, S: seq<Slot>, d: nat, a: nat, e: nat, b: nat)
    requires KeysAt(leaves, S) && d < e < |leaves|
    requires forall m :: 0 <= m < |leaves| ==> leaves[m].LeafNode?
    requires a < |leaves[d].recs| && b < |leaves[e].recs|
    ensures Rank(leaves[d].recs[a].key) < Rank(S[d].key) <= Rank(S[e-1].key) <= Rank(leaves[e].recs[b].key)
  {
    assert SepOK(leaves[d], leaves[d+1], S[d].key);
    assert SepOK(leaves[e-1], leaves[e], S[e-1].key);
    assert Rank(S[e-1].key) <= Rank(RecsOf(leaves[e])[b].key);
    assert d < e - 1 ==> Rank(S[d].key) < Rank(S[e-1].key);
  }

  lemma RecsSorted(leaves: Level, S: seq<Slot>)
    requires KeysAt(leaves, S) && LeavesSorted(leaves)
    requires forall m :: 0 <= m < |leaves| ==> leaves[m].LeafNode?
    ensures SortedRecs(Recs(leaves))
  {
    var R := Recs(leaves);
    forall a, b | 0 <= a < b < |R| ensures Rank(R[a].key) < Rank(R[b].key) {
      var d, i := LocateRec(leaves, a);
      var e, k := LocateRec(leaves, b);
      if d < e {
        LeavesApart(leaves, S, d, i, e, k);
      } else if d > e {
        RecStartMono(leaves, e + 1, d);
        RecsAt(leaves, e, 0);
        assert false;
      } else {
        assert SortedRecs(RecsOf(leaves[d]));
      }
    }
  }

  // ---------- the sorted list as a map ----------

  // m binds exactly the keys of R, to their values.
  ghost predicate Holds(R: seq<Record>, m: map<Key, int>)
  {
    && (forall i :: 0 <= i < |R| ==> R[i].key in m && m[R[i].key] == R[i].value)
    && (forall k :: k in m ==> HasRec(R, k))
  }

  ghost predicate HasRec(R: seq<Record>, k: Key)
  {
    exists i :: 0 <= i < |R| && R[i].key == k
  }

  ghost function DictFold(R: seq<Record>): (m: map<Key, int>)
  {
    if |R| == 0 then map[] else DictFold(R[..|R|-1])[R[|R|-1].key := R[|R|-1].value]
  }

  lemma {:induction false} DictFoldHolds(R: seq<Record>)
    requires SortedRecs(R)
    ensures Holds(R, DictFold(R))
  {
    if |R| > 0 {
      var Q := R[..|R|-1];
      DictFoldHolds(Q);
      forall k | k in DictFold(R) ensures HasRec(R, k) {
        if k in DictFold(Q) {
          assert HasRec(Q, k);
          var i :| 0 <= i < |Q| && Q[i].key == k;
          assert R[i].key == k;
        } else {
          assert R[|R|-1].key == k;
        }
      }
      forall i | 0 <= i < |R| ensures R[i].key in DictFold(R) && DictFold(R)[R[i].key] == R[i].value {
        if i < |R| - 1 {
          assert R[i] == Q[i];
        }
      }
    }
  }

  ghost function Dict(R: seq<Record>): (m: map<Key, int>)
    requires SortedRecs(R)
    ensures Holds(R, m)
  {
    DictFoldHolds(R);
    var m :| Holds(R, m);
    m
  }

  lemma DictIs(R: seq<Record>, m: map<Key, int>)
    requires SortedRecs(R) && Holds(R, m)
    ensures m == Dict(R)
  {
    forall k | k in m ensures k in Dict(R) && Dict(R)[k] == m[k] {
      assert HasRec(R, k);
    }
    forall k | k in Dict(R) ensures k in m {
      assert HasRec(R, k);
    }
  }

  ghost function InsertRec(R: seq<Record>, p: nat, r: Record): seq<Record>
    requires p <= |R|
  {
    R[..p] + [r] + R[p..]
  }

  ghost function RemoveRec(R: seq<Record>, p: nat): seq<Record>
    requires p < |R|
  {
    R[..p] + R[p+1..]
  }

  lemma InsertedKeys(R: seq<Record>, p: nat, r: Record)
    requires p <= |R| && SortedRecs(InsertRec(R, p, r))
    ensures forall i :: 0 <= i < |R| ==> R[i].key != r.key && HasRec(InsertRec(R, p, r), R[i].key)
    ensures HasRec(InsertRec(R, p, r), r.key)
  {
    var R' := InsertRec(R, p, r);
    assert R'[p] == r;
    forall i | 0 <= i < |R| ensures R[i].key != r.key && HasRec(R', R[i].key) {
      assert R'[if i < p then i else i + 1] == R[i];
    }
  }

  lemma DictInsert(R: seq<Record>, p: nat, r: Record)
    requires SortedRecs(R) && p <= |R| && SortedRecs(InsertRec(R, p, r))
    ensures r.key !in Dict(R)
    ensures Dict(InsertRec(R, p, r)) == Dict(R)[r.key := r.value]
  {
    var R' := InsertRec(R, p, r);
    var m := Dict(R)[r.key := r.value];
    InsertedKeys(R, p, r);
    forall k | k in Dict(R) ensures k != r.key && HasRec(R', k) {
      assert HasRec(R, k);
    }
    forall i | 0 <= i < |R'| ensures R'[i].key in m && m[R'[i].key] == R'[i].value {
      if i != p {
        assert R'[i] == R[if i < p then i else i - 1];
      }
    }
    DictIs(R', m);
  }

  lemma RemoveThenInsert(R: seq<Record>, p: nat, r: Record)
    requires SortedRecs(R) && p < |R| && r.key == R[p].key
    ensures SortedRecs(RemoveRec(R, p))
    ensures InsertRec(RemoveRec(R, p), p, r) == R[p := r]
    ensures SortedRecs(R[p := r])
  {
    var R' := RemoveRec(R, p);
    forall a, b | 0 <= a < b < |R'| ensures Rank(R'[a].key) < Rank(R'[b].key) {
      assert R'[a] == R[if a < p then a else a + 1] && R'[b] == R[if b < p then b else b + 1];
    }
  }

  lemma UpdateThenDrop(m: map<Key, int>, k: Key, v: int)
    requires k !in m
    ensures m[k := v] - {k} == m
  {
  }

  lemma DictRemove(R: seq<Record>, p: nat)
    requires SortedRecs(R) && p < |R|
    ensures SortedRecs(RemoveRec(R, p))
    ensures R[p].key in Dict(R)
    ensures Dict(RemoveRec(R, p)) == Dict(R) - {R[p].key}
  {
    var R' := RemoveRec(R, p);
    RemoveThenInsert(R, p, R[p]);
    assert R[p := R[p]] == R;
    DictInsert(R', p, R[p]);
    UpdateThenDrop(Dict(R'), R[p].key, R[p].value);
  }

  lemma DictUpdate(R: seq<Record>, p: nat, value: int)
    requires SortedRecs(R) && p < |R|
    ensures SortedRecs(R[p := Record(R[p].key, value)])
    ensures R[p].key in Dict(R)
    ensures Dict(R[p := Record(R[p].key, value)]) == Dict(R)[R[p].key := value]
  {
    var R' := R[p := Record(R[p].key, value)];
    var m := Dict(R)[R[p].key := value];
    forall i | 0 <= i < |R'| ensures R'[i].key in m && m[R'[i].key] == R'[i].value {
      assert R'[i].key == R[i].key;
      assert i != p ==> R[i].key != R[p].key;
    }
    forall k | k in m ensures HasRec(R', k) {
      assert HasRec(R, k);
      var i :| 0 <= i < |R| && R[i].key == k;
      assert R'[i].key == k;
    }
    DictIs(R', m);
  }
}
