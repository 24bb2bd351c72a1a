/** Ranges of keys: where they begin and end among the records of all leaves. */
module BptRange {
  import opened KeyOrder
  import opened BptLevels
  import opened BptTree
  import opened BptSearch
  import opened BptLeafSteps
  import opened BptPaths

  // Record number n of the leaf level is the first one of its leaf (or lies past the last).
  ghost predicate FirstOfLeaf(L: Level, n: nat)
  {
    exists d :: 0 <= d < |L| && RecStart(L, d) == n
  }

  lemma LeafKeys(meta: Meta, disk: Disk, lv: seq<Level>, lvl: map<Off, nat>, c: nat, key: Key)
    requires Inv(meta, disk, lv, lvl) && c < |lv[0]| && Reach(lv, 0, c, key)
    ensures forall d, b :: 0 <= d < c && 0 <= b < |RecsOf(lv[0][d])| ==> Rank(RecsOf(lv[0][d])[b].key) < Rank(key)
    ensures forall d, b :: c < d < |lv[0]| && 0 <= b < |RecsOf(lv[0][d])| ==> Rank(key) < Rank(RecsOf(lv[0][d])[b].key)
  {
    OpenTree(meta, disk, lv, lvl, 0, []);
    LeafFacts(meta, disk, lv, lvl, 0, [], c);
    assert KeysAt(lv[0], Flat(lv, 1, 0, []));
    forall d, b | 0 <= d < |lv[0]| && 0 <= b < |RecsOf(lv[0][d])|
      ensures d < c ==> Rank(RecsOf(lv[0][d])[b].key) < Rank(key)
      ensures d > c ==> Rank(key) < Rank(RecsOf(lv[0][d])[b].key)
    {
      LeafSides(lv[0], Slots(lv[1]), c, key, d, b);
    }
  }

  lemma RecPlace(L: Level, c: nat, n: nat) returns (d: nat, b: nat)
    requires c < |L| && n < |Recs(L)|
    ensures d < |L| && b < |RecsOf(L[d])| && Recs(L)[n] == RecsOf(L[d])[b] && n == RecStart(L, d) + b
    ensures d < c ==> n < RecStart(L, c)
    ensures d > c ==> n >= RecStart(L, c) + |RecsOf(L[c])|
  {
    d, b := LocateRec(L, n);
    if d < c {
      RecsAt(L, d, b);
      RecStartMono(L, d + 1, c);
    } else if d > c {
      RecsAt(L, c, 0);
      RecStartMono(L, c + 1, d);
    }
  }

  /** The bound of a key in its leaf is its bound among all records. */
  lemma LowerInTree(meta: Meta, disk: Disk, lv: seq<Level>, lvl: map<Off, nat>, c: nat, key: Key, p: nat)
    requires Inv(meta, disk, lv, lvl) && c < |lv[0]| && Reach(lv, 0, c, key)
    requires LowerRecAt(RecsOf(lv[0][c]), key, p)
    ensures LowerRecAt(Recs(lv[0]), key, RecStart(lv[0], c) + p)
  {
    var R, n0 := Recs(lv[0]), RecStart(lv[0], c) + p;
    LeafKeys(meta, disk, lv, lvl, c, key);
    RecsAt(lv[0], c, 0);
    forall n | 0 <= n < |R|
      ensures n < n0 ==> Rank(R[n].key) < Rank(key)
      ensures n >= n0 ==> Rank(key) <= Rank(R[n].key)
    {
      var d, b := RecPlace(lv[0], c, n);
    }
  }

  lemma UpperInTree(meta: Meta, disk: Disk, lv: seq<Level>, lvl: map<Off, nat>, c: nat, key: Key, p: nat)
    requires Inv(meta, disk, lv, lvl) && c < |lv[0]| && Reach(lv, 0, c, key)
    requires UpperRecAt(RecsOf(lv[0][c]), key, p)
    ensures UpperRecAt(Recs(lv[0]), key, RecStart(lv[0], c) + p)
  {
    var R, n0 := Recs(lv[0]), RecStart(lv[0], c) + p;
    LeafKeys(meta, disk, lv, lvl, c, key);
    RecsAt(lv[0], c, 0);
    forall n | 0 <= n < |R|
      ensures n < n0 ==> Rank(R[n].key) <= Rank(key)
      ensures n >= n0 ==> Rank(key) < Rank(R[n].key)
    {
      var d, b := RecPlace(lv[0], c, n);
    }
  }

  // The leaf of a larger key is not further left.
  lemma LeavesInOrder(meta: Meta, disk: Disk, lv: seq<Level>, lvl: map<Off, nat>, c: nat, left: Key, d: nat, right: Key)
    requires Inv(meta, disk, lv, lvl) && c < |lv[0]| && d < |lv[0]|
    requires Reach(lv, 0, c, left) && Reach(lv, 0, d, right) && Rank(left) <= Rank(right)
    ensures c <= d
  {
    OpenTree(meta, disk, lv, lvl, 0, []);
    assert KeysAt(lv[0], Flat(lv, 1, 0, []));
    var S := Slots(lv[1]);
    if d < c {
      SeparatorsInOrder(S, d, c);
    }
  }

  lemma SeparatorsInOrder(S: seq<Slot>, d: nat, c: nat)
    requires SortedSlots(S) && d < c < |S|
    ensures Rank(S[d].key) <= Rank(S[c-1].key)
  {
  }

  lemma {:induction false} UpperExists(recs: seq<Record>, key: Key) returns (q: nat)
    requires SortedRecs(recs)
    ensures UpperRecAt(recs, key, q)
  {
    if |recs| == 0 || Rank(recs[|recs|-1].key) <= Rank(key) {
      q := |recs|;
    } else {
      q := UpperExists(recs[..|recs|-1], key);
    }
  }

  // Where a range ends: in the leaf of its right bound, and among all records.
  lemma RangeEnd(meta: Meta, disk: Disk, lv: seq<Level>, lvl: map<Off, nat>, c: nat, key: Key) returns (q: nat, z: nat)
    requires Inv(meta, disk, lv, lvl) && c < |lv[0]| && Reach(lv, 0, c, key)
    ensures UpperRecAt(RecsOf(lv[0][c]), key, q) && z == RecStart(lv[0], c) + q && UpperRecAt(Recs(lv[0]), key, z)
  {
    LeafAt(meta, disk, lv, lvl, c);
    q := UpperExists(RecsOf(lv[0][c]), key);
    UpperInTree(meta, disk, lv, lvl, c, key, q);
    z := RecStart(lv[0], c) + q;
  }

  // A record strictly inside a leaf is not the first of any leaf.
  lemma InsideLeaf(L: Level, c: nat, n: nat)
    requires c < |L| && RecStart(L, c) < n < RecStart(L, c) + |RecsOf(L[c])|
    ensures !FirstOfLeaf(L, n)
  {
    forall d: nat | d < |L| ensures RecStart(L, d) != n {
      if d <= c {
        RecStartMono(L, d, c);
      } else {
        RecsAt(L, c, 0);
        RecStartMono(L, c + 1, d);
      }
    }
  }

  lemma RecsStretch(L: Level, d: nat)
    requires d < |L|
    ensures RecStart(L, d + 1) == RecStart(L, d) + |RecsOf(L[d])| <= |Recs(L)|
    ensures forall b :: 0 <= b < |RecsOf(L[d])| ==> Recs(L)[RecStart(L, d) + b] == RecsOf(L[d])[b]
  {
    RecsAt(L, d, 0);
    forall b | 0 <= b < |RecsOf(L[d])| ensures Recs(L)[RecStart(L, d) + b] == RecsOf(L[d])[b] {
      RecsAt(L, d, b);
    }
  }

  // A page that ends within leaf d - 1, at its record b, or at its end.
  lemma PageEnd(L: Level, d: nat, cr: nat, n: nat, b: nat)
    requires 0 < d <= cr < |L| && n == RecStart(L, d - 1) + b && 0 < b <= |RecsOf(L[d-1])|
    ensures n <= RecStart(L, cr) <= |Recs(L)|
    ensures b < |RecsOf(L[d-1])| ==> n < RecStart(L, cr) && Recs(L)[n] == RecsOf(L[d-1])[b]
    ensures FirstOfLeaf(L, n) <==> b == |RecsOf(L[d-1])|
  {
    RecsStretch(L, d - 1);
    RecStartMono(L, d, cr);
    if b < |RecsOf(L[d-1])| {
      InsideLeaf(L, d - 1, n);
    } else {
      assert RecStart(L, d) == n;
    }
  }

  // The last leaf of a range: where the two searches in it end.
  lemma LastLeaf(meta: Meta, disk: Disk, lv: seq<Level>, lvl: map<Off, nat>, c: nat, left: Key, d: nat, right: Key,
      b: nat, e: nat)
    requires Inv(meta, disk, lv, lvl) && c <= d < |lv[0]| && Rank(left) <= Rank(right)
    requires Reach(lv, 0, c, left) && Reach(lv, 0, d, right)
    requires LowerRecAt(RecsOf(lv[0][d]), left, b) && UpperRecAt(RecsOf(lv[0][d]), right, e)
    ensures b <= e && (c < d ==> b == 0)
    ensures c == d ==> LowerRecAt(Recs(lv[0]), left, RecStart(lv[0], d) + b)
    ensures RecStart(lv[0], d + 1) == RecStart(lv[0], d) + |RecsOf(lv[0][d])| <= |Recs(lv[0])|
    ensures forall b :: 0 <= b < |RecsOf(lv[0][d])| ==> Recs(lv[0])[RecStart(lv[0], d) + b] == RecsOf(lv[0][d])[b]
  {
    RecsStretch(lv[0], d);
    assert e < |RecsOf(lv[0][d])| ==> Rank(right) < Rank(RecsOf(lv[0][d])[e].key);
    if c == d {
      LowerInTree(meta, disk, lv, lvl, d, left, b);
    } else {
      LeafKeys(meta, disk, lv, lvl, c, left);
      assert |RecsOf(lv[0][d])| > 0 ==> Rank(left) < Rank(RecsOf(lv[0][d])[0].key);
    }
  }

  // The copy loop of search_range.
  method CopyValues(recs: seq<Record>, b: nat, e: nat, values: array<int>, i: nat, max: nat) returns (b': nat, i': nat)
    requires b <= e <= |recs| && i <= max <= values.Length
    modifies values
    ensures b <= b' <= e && i' - i == b' - b && i' <= max && (b' == e || i' == max)
    ensures forall t :: 0 <= t < values.Length ==>
      values[t] == if i <= t < i' then recs[b + t - i].value else old(values[t])
  {
    b', i' := b, i;
    while b' != e && i' < max
      invariant b <= b' <= e && i' - i == b' - b && i' <= max
      invariant forall t :: 0 <= t < values.Length ==>
        values[t] == if i <= t < i' then recs[b + t - i].value else old(values[t])
    {
      values[i'] := recs[b'].value;
      b', i' := b' + 1, i' + 1;
    }
  }
}
