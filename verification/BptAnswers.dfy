/** Searches in a file that stands beside a well-formed one: they come to the same leaves. */
module BptAnswers {
  import opened KeyOrder
  import opened BptLevels
  import opened BptTree
  import opened BptSearch
  import opened BptPaths
  import opened BptIndexDelete
  import opened BptInsertSteps
  import opened BptMerge
  import opened BptRange
  import opened BptOrder
  import opened BptLookup
  import opened BptLeafSteps
  import opened BptLoss
  import opened BptTwin

  lemma Beside(meta: Meta, disk: Disk, lv: seq<Level>, lvl: map<Off, nat>) returns (D: Disk, B: seq<Level>)
    requires Inv(meta, disk, lv, lvl) || Searchable(meta, disk, lv, lvl)
    ensures IsTwin(meta, disk, lv, lvl, D, B) && (Inv(meta, disk, lv, lvl) ==> D == disk && B == lv)
    ensures meta.height >= 1 && |lv| == |B| == meta.height + 1
  {
    if Inv(meta, disk, lv, lvl) {
      D, B := disk, lv;
      WellFormedSearchable(meta, disk, lv, lvl);
    } else {
      D, B := OpenSearchable(meta, disk, lv, lvl);
    }
    OpenTree(meta, D, B, lvl, 0, []);
  }

  lemma CanRead(meta: Meta, disk: Disk, lv: seq<Level>, lvl: map<Off, nat>)
    requires Inv(meta, disk, lv, lvl) || Readable(meta, disk, lv, lvl)
    ensures Readable(meta, disk, lv, lvl)
  {
    if Inv(meta, disk, lv, lvl) {
      WellFormedReadable(meta, disk, lv, lvl);
    }
  }

  // The node that a search has come to.
  lemma SearchNode(meta: Meta, disk: Disk, lv: seq<Level>, lvl: map<Off, nat>, l: nat, j: nat)
    requires Readable(meta, disk, lv, lvl) && 1 <= l < |lv| && j < |lv[l]|
    ensures lv[l][j].off in disk && disk[lv[l][j].off].Internal? && disk[lv[l][j].off].slots == SlotsOf(lv[l][j])
    ensures |SlotsOf(lv[l][j])| >= 1 && WeakSlots(SlotsOf(lv[l][j]))
  {
    OpenReadable(meta, disk, lv, lvl);
    NodeFacts(meta, WithoutParent(disk, meta.rootOffset), lv, lvl, 0, [], l, j);
    NodeOrder(lv[l], j);
  }

  lemma {:induction false} LeadsBeside(A: seq<Level>, B: seq<Level>, l: nat, j: nat, key: Key)
    requires Twin(A, B, |A|) && Leads(A, l, j, key)
    ensures Leads(B, l, j, key)
    decreases |A| - l
  {
    assert TwinLevel(A[l], B[l]);
    if l < |A| - 1 {
      var k: nat, i: nat :| Under(A, l, j, k, i) && UpperAt(SlotsOf(A[l+1][k]), key, i) && Leads(A, l + 1, k, key);
      TwinUnder(A, B, l, j, k, i);
      LeadsBeside(A, B, l + 1, k, key);
      assert TwinNode(A[l+1][k], B[l+1][k]);
      TwinUpper(SlotsOf(A[l+1][k]), SlotsOf(B[l+1][k]), key, i);
    }
  }

  /** The search for a key comes to the node whose range holds the key. */
  lemma {:induction false} LeadsReach(meta: Meta, disk: Disk, lv: seq<Level>, lvl: map<Off, nat>, l: nat, j: nat,
      key: Key)
    requires Inv(meta, disk, lv, lvl) && Leads(lv, l, j, key)
    ensures Reach(lv, l, j, key)
    decreases |lv| - l
  {
    if l == |lv| - 1 {
      OpenTree(meta, disk, lv, lvl, 0, []);
      RootAt(meta, disk, lv, lvl, key);
    } else {
      var k: nat, i: nat :| Under(lv, l, j, k, i) && UpperAt(SlotsOf(lv[l+1][k]), key, i) && Leads(lv, l + 1, k, key);
      LeadsReach(meta, disk, lv, lvl, l + 1, k, key);
      ReachDown(meta, disk, lv, lvl, l, j, k, i, key);
    }
  }

  lemma ReachDown(meta: Meta, disk: Disk, lv: seq<Level>, lvl: map<Off, nat>, l: nat, j: nat, k: nat, i: nat, key: Key)
    requires Inv(meta, disk, lv, lvl) && Under(lv, l, j, k, i)
    requires Reach(lv, l + 1, k, key) && UpperAt(SlotsOf(lv[l+1][k]), key, i)
    ensures Reach(lv, l, j, key)
  {
    PathNode(meta, disk, lv, lvl, l + 1, k);
    PathStep(meta, disk, lv, lvl, l + 1, k, key, i);
  }

  // The search for a key comes to node j of level l; folded, for the callers of the searches.
  ghost predicate Comes(lv: seq<Level>, l: nat, j: nat, key: Key)
  {
    forall u {:trigger Unfold(u)} :: u == key ==> Leads(lv, l, j, u)
  }

  ghost predicate Unfold(key: Key) { true }

  lemma ComesLeads(lv: seq<Level>, l: nat, j: nat, key: Key)
    ensures Comes(lv, l, j, key) <==> Leads(lv, l, j, key)
  {
    assert Unfold(key);
  }

  lemma ComesReach(meta: Meta, disk: Disk, lv: seq<Level>, lvl: map<Off, nat>, D: Disk, B: seq<Level>, l: nat, j: nat,
      key: Key)
    requires IsTwin(meta, disk, lv, lvl, D, B) && Comes(lv, l, j, key)
    ensures l < |lv| && j < |lv[l]| && Reach(B, l, j, key)
  {
    ComesLeads(lv, l, j, key);
    LeadsBeside(lv, B, l, j, key);
    LeadsReach(meta, D, B, lvl, l, j, key);
  }

  lemma ComesDown(lv: seq<Level>, l: nat, j: nat, i: nat, key: Key)
    requires 1 <= l < |lv| && j < |lv[l]| && Comes(lv, l, j, key) && UpperAt(SlotsOf(lv[l][j]), key, i)
    requires Under(lv, l - 1, Start(lv[l], j) + i, j, i)
    ensures Comes(lv, l - 1, Start(lv[l], j) + i, key)
  {
    ComesLeads(lv, l, j, key);
    LeadsDown(lv, l - 1, Start(lv[l], j) + i, j, i, key);
    ComesLeads(lv, l - 1, Start(lv[l], j) + i, key);
  }

  // One step of a search: to the child in the slot found.
  lemma SearchStep(meta: Meta, disk: Disk, lv: seq<Level>, lvl: map<Off, nat>, l: nat, j: nat, key: Key, i: nat)
    requires Readable(meta, disk, lv, lvl) && 1 <= l < |lv| && j < |lv[l]| && Comes(lv, l, j, key)
    requires UpperAt(SlotsOf(lv[l][j]), key, i)
    ensures Start(lv[l], j) + i < |lv[l-1]| && Comes(lv, l - 1, Start(lv[l], j) + i, key)
    ensures lv[l-1][Start(lv[l], j) + i].off == SlotsOf(lv[l][j])[i].child
    ensures SlotsOf(lv[l][j])[i].child in disk
  {
    OpenReadable(meta, disk, lv, lvl);
    var R, c := WithoutParent(disk, meta.rootOffset), Start(lv[l], j) + i;
    SlotsAt(lv[l], j, i);
    assert Kids(lv[l-1], Flat(lv, l, 0, []));
    assert LevelOK(R, lvl, lv[l-1], l - 1) && NodeOK(R, lvl, lv[l-1], l - 1, c);
    ComesDown(lv, l, j, i, key);
  }

  lemma SearchRoot(meta: Meta, disk: Disk, lv: seq<Level>, lvl: map<Off, nat>, key: Key)
    requires Readable(meta, disk, lv, lvl)
    ensures |lv[meta.height]| == 1 && lv[meta.height][0].off == meta.rootOffset
    ensures Comes(lv, meta.height, 0, key)
  {
    OpenReadable(meta, disk, lv, lvl);
    ComesLeads(lv, meta.height, 0, key);
  }

  // The leaf that a search has come to.
  lemma SearchLeaf(meta: Meta, disk: Disk, lv: seq<Level>, lvl: map<Off, nat>, c: nat)
    requires Readable(meta, disk, lv, lvl) && c < |lv[0]|
    ensures lv[0][c].LeafNode? && lv[0][c].off in disk && disk[lv[0][c].off].Leaf?
    ensures disk[lv[0][c].off].recs == lv[0][c].recs && SortedRecs(lv[0][c].recs)
    ensures SortedRecs(Recs(lv[0]))
    ensures forall i :: 0 <= i < |lv[0][c].recs| ==>
      lv[0][c].recs[i].key in Entries(lv) && Entries(lv)[lv[0][c].recs[i].key] == lv[0][c].recs[i].value
  {
    OpenReadable(meta, disk, lv, lvl);
    LeafFacts(meta, WithoutParent(disk, meta.rootOffset), lv, lvl, 0, [], c);
    var s := lv[0][c].recs;
    forall a, b | 0 <= a < b < |s| ensures Rank(s[a].key) < Rank(s[b].key) {
      RecsAt(lv[0], c, a);
      RecsAt(lv[0], c, b);
    }
    forall i | 0 <= i < |s| ensures s[i].key in Entries(lv) && Entries(lv)[s[i].key] == s[i].value {
      RecsAt(lv[0], c, i);
    }
  }

  // ---------- the keys that searches find ----------

  // The search for the key comes to a leaf that holds it.
  ghost predicate Found(lv: seq<Level>, key: Key)
  {
    |lv| >= 1 && exists c: nat :: c < |lv[0]| && Comes(lv, 0, c, key) && HasRec(RecsOf(lv[0][c]), key)
  }

  // Some key of the records is not found.
  ghost predicate MissesKey(lv: seq<Level>)
  {
    exists k :: k in Entries(lv) && !Found(lv, k)
  }

  // Where a search was before.
  lemma LeadsFrom(lv: seq<Level>, l: nat, j: nat, key: Key) returns (k: nat, i: nat)
    requires l + 1 < |lv| && Leads(lv, l, j, key)
    ensures Under(lv, l, j, k, i) && UpperAt(SlotsOf(lv[l+1][k]), key, i) && Leads(lv, l + 1, k, key)
  {
    k, i :| Under(lv, l, j, k, i) && UpperAt(SlotsOf(lv[l+1][k]), key, i) && Leads(lv, l + 1, k, key);
  }

  /** A search comes to one node only. */
  lemma {:induction false} LeadsUnique(lv: seq<Level>, l: nat, j: nat, j': nat, key: Key)
    requires Leads(lv, l, j, key) && Leads(lv, l, j', key)
    ensures j == j'
    decreases |lv| - l
  {
    if l < |lv| - 1 {
      var k, i := LeadsFrom(lv, l, j, key);
      var k', i' := LeadsFrom(lv, l, j', key);
      LeadsUnique(lv, l + 1, k, k', key);
      UpperUnique(SlotsOf(lv[l+1][k]), key, i, i');
    }
  }

  lemma FoundAt(lv: seq<Level>, c: nat, key: Key, z: nat)
    requires |lv| >= 1 && c < |lv[0]| && z == 0 && Comes(lv, z, c, key)
    ensures Found(lv, key) <==> HasRec(RecsOf(lv[0][c]), key)
  {
    ComesLeads(lv, z, c, key);
    if Found(lv, key) {
      var d: nat :| d < |lv[0]| && Comes(lv, 0, d, key) && HasRec(RecsOf(lv[0][d]), key);
      ComesLeads(lv, z, d, key);
      LeadsUnique(lv, z, c, d, key);
    }
  }

  // A key stands in one leaf only.
  lemma LeafOfKey(lv: seq<Level>, c: nat, i: nat, d: nat, e: nat)
    requires |lv| >= 1 && SortedRecs(Recs(lv[0])) && c < |lv[0]| && i < |RecsOf(lv[0][c])|
    requires d < |lv[0]| && e < |RecsOf(lv[0][d])| && RecsOf(lv[0][c])[i].key == RecsOf(lv[0][d])[e].key
    ensures c == d
  {
    RecsAt(lv[0], c, i);
    RecsAt(lv[0], d, e);
    OneLeaf(lv[0], c, i, d, e);
  }

  lemma OneLeaf(L: Level, c: nat, i: nat, d: nat, e: nat)
    requires c < |L| && i < |RecsOf(L[c])| && d < |L| && e < |RecsOf(L[d])|
    requires RecStart(L, c) + i == RecStart(L, d) + e
    ensures c == d
  {
    RecsStretch(L, c);
    RecsStretch(L, d);
    if c < d {
      RecStartMono(L, c + 1, d);
    } else if d < c {
      RecStartMono(L, d + 1, c);
    }
  }

  /** A record is hidden exactly if some bound key is not found. */
  lemma HiddenKeys(lv: seq<Level>, z: nat)
    requires |lv| >= 1 && SortedRecs(Recs(lv[0])) && z == 0
    ensures Hides(lv) <==> MissesKey(lv)
  {
    if Hides(lv) {
      var f: nat, e: nat :| f < |lv[0]| && e < |RecsOf(lv[0][f])| && Missed(lv, 0, f, e);
      HiddenKey(lv, f, e, z);
    }
    if MissesKey(lv) {
      var k :| k in Entries(lv) && !Found(lv, k);
      var n: nat :| n < |Recs(lv[0])| && Recs(lv[0])[n].key == k;
      var f, e := LocateRec(lv[0], n);
      ComesLeads(lv, z, f, k);
      assert HasRec(RecsOf(lv[0][f]), k);
      assert Missed(lv, 0, f, e);
    }
  }

  lemma HiddenKey(lv: seq<Level>, f: nat, e: nat, z: nat)
    requires |lv| >= 1 && SortedRecs(Recs(lv[0])) && z == 0
    requires f < |lv[0]| && e < |RecsOf(lv[0][f])| && Missed(lv, z, f, e)
    ensures RecsOf(lv[0][f])[e].key in Entries(lv) && !Found(lv, RecsOf(lv[0][f])[e].key)
  {
    var k := RecsOf(lv[0][f])[e].key;
    RecsAt(lv[0], f, e);
    if Found(lv, k) {
      var d: nat :| d < |lv[0]| && Comes(lv, 0, d, k) && HasRec(RecsOf(lv[0][d]), k);
      var i: nat :| i < |RecsOf(lv[0][d])| && RecsOf(lv[0][d])[i].key == k;
      LeafOfKey(lv, d, i, f, e);
      ComesLeads(lv, z, f, k);
    }
  }

  // The leaf of a search, and what it is in the well-formed file beside.
  lemma LeafBeside(meta: Meta, disk: Disk, lv: seq<Level>, lvl: map<Off, nat>, D: Disk, B: seq<Level>, c: nat, key: Key)
    requires IsTwin(meta, disk, lv, lvl, D, B) && Comes(lv, 0, c, key)
    ensures c < |lv[0]| && Reach(B, 0, c, key) && Entries(B) == Entries(lv)
  {
    ComesReach(meta, disk, lv, lvl, D, B, 0, c, key);
  }

  // A search in a well-formed file.
  lemma WellFormedComes(meta: Meta, disk: Disk, lv: seq<Level>, lvl: map<Off, nat>, l: nat, j: nat, key: Key)
    requires Inv(meta, disk, lv, lvl) && Comes(lv, l, j, key)
    ensures l < |lv| && j < |lv[l]| && Reach(lv, l, j, key)
  {
    ComesLeads(lv, l, j, key);
    LeadsReach(meta, disk, lv, lvl, l, j, key);
  }

  // Which removals lose a record, for a record given by its place.
  lemma RecordLoses(meta: Meta, disk: Disk, lv: seq<Level>, lvl: map<Off, nat>, c: nat, key: Key, k: nat, pi: nat)
    requires Inv(meta, disk, lv, lvl) && Under(lv, 0, c, k, pi) && HasRec(RecsOf(lv[0][c]), key)
    ensures RemoveLoses(lv, key) <==> LosesAt(lv, c, k)
    ensures RemoveOverruns(lv, key) <==> OverrunsAt(lv, c, k)
  {
    var e: nat :| e < |RecsOf(lv[0][c])| && RecsOf(lv[0][c])[e].key == key;
    RecordFound(meta, disk, lv, lvl, 0, c, e);
    LeadsReach(meta, disk, lv, lvl, 0, c, key);
    RemoveLosesAt(meta, disk, lv, lvl, c, key, k, pi);
  }

  // k is the smallest key of the map larger than key.
  ghost predicate IsNextLarger(m: map<Key, int>, key: Key, k: Key)
  {
    k in m && Rank(key) < Rank(k) && forall n :: n in m && Rank(key) < Rank(n) ==> Rank(k) <= Rank(n)
  }

  /** What a search finds where it comes to the right leaf. */
  lemma SearchAnswers(meta: Meta, disk: Disk, lv: seq<Level>, lvl: map<Off, nat>, c: nat, key: Key, i: nat)
    requires Inv(meta, disk, lv, lvl) || Searchable(meta, disk, lv, lvl)
    requires |lv| >= 1 && c < |lv[0]| && Comes(lv, 0, c, key) && LowerRecAt(RecsOf(lv[0][c]), key, i)
    ensures Inv(meta, disk, lv, lvl) ==> Reach(lv, 0, c, key)
    ensures key in Entries(lv) <==> HasRec(RecsOf(lv[0][c]), key)
    ensures i < |RecsOf(lv[0][c])| && RecsOf(lv[0][c])[i].key != key ==>
      IsNextLarger(Entries(lv), key, RecsOf(lv[0][c])[i].key)
  {
    var D, B := Beside(meta, disk, lv, lvl);
    LeafBeside(meta, disk, lv, lvl, D, B, c, key);
    LeafDecides(meta, D, B, lvl, c, key);
    if i < |RecsOf(lv[0][c])| {
      CompareRanks(RecsOf(lv[0][c])[i].key, key);
      forall n | n in Entries(lv) && Rank(key) < Rank(n) ensures Rank(RecsOf(lv[0][c])[i].key) <= Rank(n) {
        LowerBoundKey(meta, D, B, lvl, c, key, i, n);
      }
    }
  }

  lemma LostKeys(meta: Meta, disk: Disk, lv: seq<Level>, lvl: map<Off, nat>)
    requires Inv(meta, disk, lv, lvl) || Readable(meta, disk, lv, lvl)
    ensures Readable(meta, disk, lv, lvl) && |lv| >= 1
    ensures MissesKey(lv) <==> Hides(lv)
  {
    CanRead(meta, disk, lv, lvl);
    OpenReadable(meta, disk, lv, lvl);
    HiddenKeys(lv, 0);
  }

  // No larger key stands in the leaf where a key ends: the first record that is not smaller is the first
  // of its leaf, or there is none.
  ghost predicate LeafEndsBelow(L: Level, key: Key)
  {
    forall p: nat {:trigger LowerRecAt(Recs(L), key, p)} :: LowerRecAt(Recs(L), key, p) ==>
      p == |Recs(L)| || FirstOfLeaf(L, p)
  }

  lemma NothingLarger(meta: Meta, disk: Disk, lv: seq<Level>, lvl: map<Off, nat>, c: nat, key: Key)
    requires Inv(meta, disk, lv, lvl) || Searchable(meta, disk, lv, lvl)
    requires |lv| >= 1 && c < |lv[0]| && Comes(lv, 0, c, key)
    requires LowerRecAt(RecsOf(lv[0][c]), key, |RecsOf(lv[0][c])|)
    ensures LeafEndsBelow(lv[0], key)
  {
    var D, B := Beside(meta, disk, lv, lvl);
    LeafBeside(meta, disk, lv, lvl, D, B, c, key);
    LowerInTree(meta, D, B, lvl, c, key, |RecsOf(lv[0][c])|);
    LeafEnd(lv[0], c, key);
  }

  lemma LowerRecPlace(recs: seq<Record>, key: Key, i: nat, k: nat)
    requires LowerRecAt(recs, key, i) && LowerRecAt(recs, key, k)
    ensures i == k
  {
    assert k < |recs| ==> Rank(key) <= Rank(recs[k].key);
    assert i < |recs| ==> Rank(key) <= Rank(recs[i].key);
  }

  lemma LeafEnd(L: Level, c: nat, key: Key)
    requires c < |L| && LowerRecAt(Recs(L), key, RecStart(L, c) + |RecsOf(L[c])|)
    ensures LeafEndsBelow(L, key)
  {
    RecsStretch(L, c);
    var n := RecStart(L, c + 1);
    assert L[..|L|] == L;
    forall p: nat | LowerRecAt(Recs(L), key, p) ensures p == |Recs(L)| || FirstOfLeaf(L, p) {
      LowerRecPlace(Recs(L), key, n, p);
      if c + 1 < |L| {
        assert FirstOfLeaf(L, n);
      }
    }
  }
}
