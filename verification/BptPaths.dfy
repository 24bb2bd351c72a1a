/** Facts about a well-formed tree that the search and every update start from. */
module BptPaths {
  import opened KeyOrder
  import opened BptLevels
  import opened BptTree
  import opened BptSearch
  import opened BptInsertSteps
  import opened BptLeafSteps

  // The bindings of a tree: those of its leaves.
  ghost function Entries(lv: seq<Level>): map<Key, int>
  {
    if |lv| >= 1 && SortedRecs(Recs(lv[0])) then Dict(Recs(lv[0])) else map[]
  }

  // The bindings of a file that holds a well-formed tree: the file alone determines them.
  ghost predicate IsContents(meta: Meta, disk: Disk, m: map<Key, int>)
  {
    exists lv: seq<Level>, lvl: map<Off, nat> :: Inv(meta, disk, lv, lvl) && m == Entries(lv)
  }

  ghost function Contents(meta: Meta, disk: Disk): (m: map<Key, int>)
    requires Sound(meta, disk)
    ensures IsContents(meta, disk, m)
  {
    var lv: seq<Level>, lvl: map<Off, nat> :| Inv(meta, disk, lv, lvl);
    Entries(lv)
  }

  lemma ContentsUnique(meta: Meta, disk: Disk, lv: seq<Level>, lvl: map<Off, nat>)
    requires Inv(meta, disk, lv, lvl)
    ensures Sound(meta, disk) && Contents(meta, disk) == Entries(lv)
  {
    assert IsContents(meta, disk, Contents(meta, disk));
    var lv2: seq<Level>, lvl2: map<Off, nat> :| Inv(meta, disk, lv2, lvl2) && Contents(meta, disk) == Entries(lv2);
    OpenTree(meta, disk, lv, lvl, 0, []);
    OpenTree(meta, disk, lv2, lvl2, 0, []);
    Unique(meta, disk, lv, lvl, lv2, lvl2);
  }

  // Nodes of level l of a structured tree have children; those of levels above 0 are internal.
  lemma NodeFacts(meta: Meta, disk: Disk, lv: seq<Level>, lvl: map<Off, nat>, p: nat, S: seq<Slot>, l: nat, j: nat)
    requires StructP(meta, disk, lv, lvl, p, S) && 1 <= l < |lv| && j < |lv[l]|
    ensures NodeOK(disk, lvl, lv[l], l, j)
    ensures lv[l][j].InnerNode? && disk[lv[l][j].off].Internal? && disk[lv[l][j].off].slots == lv[l][j].slots
    ensures 1 <= MinSize(l, |lv[l]|) <= |lv[l][j].slots| <= BP_ORDER
  {
    assert LevelOK(disk, lvl, lv[l], l) && SizesOK(lv[l], l);
    assert NodeOK(disk, lvl, lv[l], l, j);
  }

  lemma LevelFacts(meta: Meta, disk: Disk, lv: seq<Level>, lvl: map<Off, nat>, p: nat, S: seq<Slot>, l: nat)
    requires StructP(meta, disk, lv, lvl, p, S) && 1 <= l < |lv|
    ensures forall j :: 0 <= j < |lv[l]| ==> lv[l][j].InnerNode? && |lv[l][j].slots| >= 1
  {
    forall j | 0 <= j < |lv[l]| ensures lv[l][j].InnerNode? && |lv[l][j].slots| >= 1 {
      NodeFacts(meta, disk, lv, lvl, p, S, l, j);
    }
  }

  lemma LeafFacts(meta: Meta, disk: Disk, lv: seq<Level>, lvl: map<Off, nat>, p: nat, S: seq<Slot>, c: nat)
    requires StructP(meta, disk, lv, lvl, p, S) && c < |lv[0]|
    ensures NodeOK(disk, lvl, lv[0], 0, c)
    ensures lv[0][c].LeafNode? && disk[lv[0][c].off].Leaf? && disk[lv[0][c].off].recs == lv[0][c].recs
    ensures MinSize(0, |lv[0]|) <= |lv[0][c].recs| <= BP_ORDER
    ensures forall m :: 0 <= m < |lv[0]| ==> lv[0][m].LeafNode?
  {
    assert LevelOK(disk, lvl, lv[0], 0) && SizesOK(lv[0], 0);
    assert NodeOK(disk, lvl, lv[0], 0, c);
    LevelKinds(disk, lvl, lv[0], 0);
  }

  // Node j of level l hangs below slot i of its parent, node k of level l + 1.
  lemma ParentOf(meta: Meta, disk: Disk, lv: seq<Level>, lvl: map<Off, nat>, p: nat, S: seq<Slot>, l: nat, j: nat)
    returns (k: nat, i: nat)
    requires StructP(meta, disk, lv, lvl, p, S) && l + 1 < |lv| && l + 1 != p && j < |lv[l]|
    ensures k < |lv[l+1]| && i < |SlotsOf(lv[l+1][k])| && Start(lv[l+1], k) + i == j < |Slots(lv[l+1])|
    ensures SlotsOf(lv[l+1][k])[i] == Slots(lv[l+1])[j]
    ensures lv[l][j].off in disk && disk[lv[l][j].off].parent == lv[l+1][k].off
    ensures SlotsOf(lv[l+1][k])[i].child == lv[l][j].off
  {
    assert Kids(lv[l], Flat(lv, l + 1, p, S));
    k, i := Locate(lv[l+1], j);
    assert Slots(lv[l+1])[j].child == lv[l][j].off;
    assert ParentsOK(disk, lv[l+1]) && ParentOK(disk, lv[l+1][k]);
  }

  // What a search reads on its way down.
  lemma PathNode(meta: Meta, disk: Disk, lv: seq<Level>, lvl: map<Off, nat>, l: nat, j: nat)
    requires Inv(meta, disk, lv, lvl) && 1 <= l < |lv| && j < |lv[l]|
    ensures lv[l][j].InnerNode? && lv[l][j].off in disk && disk[lv[l][j].off].Internal?
    ensures disk[lv[l][j].off].slots == lv[l][j].slots
    ensures |lv[l][j].slots| >= 1 && SortedSlots(lv[l][j].slots)
  {
    OpenTree(meta, disk, lv, lvl, 0, []);
    NodeFacts(meta, disk, lv, lvl, 0, [], l, j);
    assert KeysAt(lv[l-1], Flat(lv, l, 0, []));
    NodeSorted(lv[l], j);
  }

  lemma PathStep(meta: Meta, disk: Disk, lv: seq<Level>, lvl: map<Off, nat>, l: nat, j: nat, key: Key, i: nat)
    requires Inv(meta, disk, lv, lvl) && 1 <= l < |lv| && j < |lv[l]| && lv[l][j].InnerNode?
    requires Reach(lv, l, j, key) && UpperAt(lv[l][j].slots, key, i)
    ensures Start(lv[l], j) + i < |lv[l-1]|
    ensures lv[l-1][Start(lv[l], j) + i].off == lv[l][j].slots[i].child
    ensures lv[l][j].slots[i].child in disk && disk[lv[l][j].slots[i].child].parent == lv[l][j].off
    ensures Reach(lv, l - 1, Start(lv[l], j) + i, key)
  {
    OpenTree(meta, disk, lv, lvl, 0, []);
    assert Kids(lv[l-1], Flat(lv, l, 0, [])) && KeysAt(lv[l-1], Flat(lv, l, 0, []));
    SlotsAt(lv[l], j, i);
    LevelFacts(meta, disk, lv, lvl, 0, [], l);
    assert ParentsOK(disk, lv[l]) && ParentOK(disk, lv[l][j]);
    if l == |lv| - 1 {
      RootStep(lv[l], i, key);
      StartEnds(lv[l]);
    } else {
      assert KeysAt(lv[l], Flat(lv, l + 1, 0, []));
      StepDown(Slots(lv[l+1]), lv[l], j, i, key);
    }
  }

  /** The records of the tree are sorted, and a key is bound exactly if its leaf holds it. */
  lemma LeafDecides(meta: Meta, disk: Disk, lv: seq<Level>, lvl: map<Off, nat>, c: nat, key: Key)
    requires Inv(meta, disk, lv, lvl) && c < |lv[0]| && Reach(lv, 0, c, key)
    ensures SortedRecs(Recs(lv[0])) && SortedRecs(RecsOf(lv[0][c]))
    ensures key in Entries(lv) <==> HasRec(RecsOf(lv[0][c]), key)
    ensures forall i :: 0 <= i < |RecsOf(lv[0][c])| ==>
      RecsOf(lv[0][c])[i].key in Entries(lv) && Entries(lv)[RecsOf(lv[0][c])[i].key] == RecsOf(lv[0][c])[i].value
  {
    OpenTree(meta, disk, lv, lvl, 0, []);
    LeafFacts(meta, disk, lv, lvl, 0, [], c);
    assert KeysAt(lv[0], Flat(lv, 1, 0, []));
    RecsSorted(lv[0], Slots(lv[1]));
    assert SortedRecs(RecsOf(lv[0][c]));
    LeafHolds(lv[0], Slots(lv[1]), c, key);
  }

  lemma LeafHolds(leaves: Level, S: seq<Slot>, c: nat, key: Key)
    requires KeysAt(leaves, S) && Between(S, c, key) && SortedRecs(Recs(leaves))
    requires forall m :: 0 <= m < |leaves| ==> leaves[m].LeafNode?
    ensures c < |leaves|
    ensures key in Dict(Recs(leaves)) <==> HasRec(RecsOf(leaves[c]), key)
    ensures forall i :: 0 <= i < |RecsOf(leaves[c])| ==>
      && RecsOf(leaves[c])[i].key in Dict(Recs(leaves))
      && Dict(Recs(leaves))[RecsOf(leaves[c])[i].key] == RecsOf(leaves[c])[i].value
  {
    var R, recs := Recs(leaves), RecsOf(leaves[c]);
    forall i | 0 <= i < |recs| ensures recs[i].key in Dict(R) && Dict(R)[recs[i].key] == recs[i].value {
      RecsAt(leaves, c, i);
      assert R[RecStart(leaves, c) + i] == recs[i];
    }
    if key in Dict(R) {
      FoundInLeaf(leaves, S, c, key);
    }
  }

  lemma FoundInLeaf(leaves: Level, S: seq<Slot>, c: nat, key: Key)
    requires KeysAt(leaves, S) && Between(S, c, key) && HasRec(Recs(leaves), key)
    requires forall m :: 0 <= m < |leaves| ==> leaves[m].LeafNode?
    ensures c < |leaves| && HasRec(RecsOf(leaves[c]), key)
  {
    var n: nat :| n < |Recs(leaves)| && Recs(leaves)[n].key == key;
    var d, i := LocateRec(leaves, n);
    LeafSides(leaves, S, c, key, d, i);
    assert RecsOf(leaves[d])[i].key == key;
  }

  lemma LowerRecUnique(recs: seq<Record>, key: Key, i: nat, k: nat)
    requires SortedRecs(recs) && LowerRecAt(recs, key, i) && k < |recs| && recs[k].key == key
    ensures i == k
  {
    if k < i {
      assert false;
    }
    assert Rank(recs[i].key) == Rank(key);
  }

  lemma LowerBoundNone(recs: seq<Record>, key: Key, i: nat)
    requires SortedRecs(recs) && LowerRecAt(recs, key, i)
    ensures HasRec(recs, key) <==> i < |recs| && recs[i].key == key
    ensures i < |recs| ==> KeyCmp(recs[i].key, key) >= 0
  {
    forall k: nat | k < |recs| && recs[k].key == key ensures i == k {
      LowerRecUnique(recs, key, i, k);
    }
  }

  /** The record that lower_bound finds in the leaf of a key holds the smallest bound key
      that is not less than it, over the whole tree. */
  lemma LowerBoundKey(meta: Meta, disk: Disk, lv: seq<Level>, lvl: map<Off, nat>, c: nat, key: Key, i: nat, m: Key)
    requires Inv(meta, disk, lv, lvl) && c < |lv[0]| && Reach(lv, 0, c, key)
    requires i < |RecsOf(lv[0][c])| && LowerRecAt(RecsOf(lv[0][c]), key, i)
    requires m in Entries(lv) && Rank(key) <= Rank(m)
    ensures Rank(RecsOf(lv[0][c])[i].key) <= Rank(m)
  {
    OpenTree(meta, disk, lv, lvl, 0, []);
    LeafFacts(meta, disk, lv, lvl, 0, [], c);
    assert KeysAt(lv[0], Flat(lv, 1, 0, []));
    var n := BoundAt(lv, m);
    var d, b := LocateRec(lv[0], n);
    LowerBoundAt(lv[0], Slots(lv[1]), c, key, i, d, b);
  }

  lemma BoundAt(lv: seq<Level>, m: Key) returns (n: nat)
    requires m in Entries(lv)
    ensures n < |Recs(lv[0])| && Recs(lv[0])[n].key == m
  {
    assert HasRec(Recs(lv[0]), m);
    n :| n < |Recs(lv[0])| && Recs(lv[0])[n].key == m;
  }

  lemma LowerBoundAt(leaves: Level, S: seq<Slot>, c: nat, key: Key, i: nat, d: nat, b: nat)
    requires KeysAt(leaves, S) && Between(S, c, key) && LeavesSorted(leaves)
    requires forall m :: 0 <= m < |leaves| ==> leaves[m].LeafNode?
    requires i < |RecsOf(leaves[c])| && LowerRecAt(RecsOf(leaves[c]), key, i)
    requires d < |leaves| && b < |RecsOf(leaves[d])| && Rank(key) <= Rank(RecsOf(leaves[d])[b].key)
    ensures Rank(RecsOf(leaves[c])[i].key) <= Rank(RecsOf(leaves[d])[b].key)
  {
    LeafSides(leaves, S, c, key, d, b);
    if d > c {
      LeavesApart(leaves, S, c, i, d, b);
    } else {
      assert SortedRecs(RecsOf(leaves[c]));
      assert d == c && b >= i;
    }
  }

  lemma RootAt(meta: Meta, disk: Disk, lv: seq<Level>, lvl: map<Off, nat>, key: Key)
    requires Inv(meta, disk, lv, lvl)
    ensures |lv[meta.height]| == 1 && lv[meta.height][0].off == meta.rootOffset
    ensures Reach(lv, meta.height, 0, key)
  {
    OpenTree(meta, disk, lv, lvl, 0, []);
  }

  lemma LeafAt(meta: Meta, disk: Disk, lv: seq<Level>, lvl: map<Off, nat>, c: nat)
    requires Inv(meta, disk, lv, lvl) && c < |lv[0]|
    ensures lv[0][c].LeafNode? && lv[0][c].off in disk && lv[0][c].off != 0
    ensures disk[lv[0][c].off].Leaf? && disk[lv[0][c].off].recs == lv[0][c].recs
    ensures disk[lv[0][c].off].next == OffAt(lv[0], c + 1) && disk[lv[0][c].off].prev == OffAt(lv[0], c - 1)
    ensures MinSize(0, |lv[0]|) <= |lv[0][c].recs| <= BP_ORDER
    ensures SortedRecs(lv[0][c].recs)
  {
    OpenTree(meta, disk, lv, lvl, 0, []);
    LeafFacts(meta, disk, lv, lvl, 0, [], c);
    assert SortedRecs(RecsOf(lv[0][c]));
  }

  lemma LeafNext(meta: Meta, disk: Disk, lv: seq<Level>, lvl: map<Off, nat>, c: nat)
    requires Inv(meta, disk, lv, lvl) && c < |lv[0]|
    ensures lv[0][c].off in disk && (disk[lv[0][c].off].next != 0 ==> disk[lv[0][c].off].next in disk)
    ensures disk[lv[0][c].off].prev != 0 ==> disk[lv[0][c].off].prev in disk
    ensures meta.slot !in disk
    ensures lv[0][c].off in lvl && lvl[lv[0][c].off] == 0
    ensures forall d :: 0 <= d < |lv[0]| && d != c ==> lv[0][d].off != lv[0][c].off
    ensures disk[lv[0][c].off].next == OffAt(lv[0], c + 1) && disk[lv[0][c].off].prev == OffAt(lv[0], c - 1)
    ensures forall d :: 0 <= d < |lv[0]| ==> lv[0][d].off != 0
  {
    OpenTree(meta, disk, lv, lvl, 0, []);
    assert LevelOK(disk, lvl, lv[0], 0) && NodeOK(disk, lvl, lv[0], 0, c);
    assert c + 1 < |lv[0]| ==> NodeOK(disk, lvl, lv[0], 0, c + 1);
    assert c >= 1 ==> NodeOK(disk, lvl, lv[0], 0, c - 1);
    forall d | 0 <= d < |lv[0]| ensures lv[0][d].off != 0 {
      assert NodeOK(disk, lvl, lv[0], 0, d);
    }
  }
}
