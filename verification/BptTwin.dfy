/** A file in which only keys that no search reads are wrong, and the well-formed file beside it. */
module BptTwin {
  import opened KeyOrder
  import opened BptLevels
  import opened BptTree
  import opened BptAdvance
  import opened BptSearch
  import opened BptPaths
  import opened BptIndexDelete
  import opened BptMerge
  import opened BptBorrow
  import opened BptRebalance
  import opened BptDeleteSteps
  import opened BptRemoveFacts
  import opened BptOrder
  import opened BptLookup
  import opened BptLoss
  import opened BptLeafMerge
  import opened BptLeafSteps
  import opened BptSteps

  // The links of the file are those of the levels; only its root may name a parent.
  ghost predicate Built(meta: Meta, disk: Disk, lv: seq<Level>, lvl: map<Off, nat>)
  {
    meta.rootOffset in disk && FoldedStruct(meta, WithoutParent(disk, meta.rootOffset), lv, lvl, 0, [])
  }

  lemma BuiltFrom(meta: Meta, disk: Disk, lv: seq<Level>, lvl: map<Off, nat>)
    requires FoldedStruct(meta, disk, lv, lvl, 0, [])
    ensures Built(meta, disk, lv, lvl)
  {
    OpenStruct(meta, disk, lv, lvl, 0, []);
    assert TopOK(disk, lv[meta.height]);
    assert WithoutParent(disk, meta.rootOffset) == disk;
  }

  // What every removal leaves: a file whose blocks are linked and whose keys are in order, although they
  // may separate the wrong nodes. Kept folded.
  ghost predicate Readable(meta: Meta, disk: Disk, lv: seq<Level>, lvl: map<Off, nat>)
  {
    |lv| == meta.height + 1 >= 2
    && forall u {:trigger Unfold(u)} :: u == meta ==> Built(u, disk, lv, lvl) && Ordered(lv)
  }

  ghost predicate Unfold(meta: Meta) { true }

  lemma OpenReadable(meta: Meta, disk: Disk, lv: seq<Level>, lvl: map<Off, nat>)
    requires Readable(meta, disk, lv, lvl)
    ensures Built(meta, disk, lv, lvl) && Ordered(lv)
    ensures StructP(meta, WithoutParent(disk, meta.rootOffset), lv, lvl, 0, [])
  {
    assert Unfold(meta);
    OpenStruct(meta, WithoutParent(disk, meta.rootOffset), lv, lvl, 0, []);
  }

  lemma OrderedTree(meta: Meta, disk: Disk, lv: seq<Level>, lvl: map<Off, nat>)
    requires Inv(meta, disk, lv, lvl)
    ensures Ordered(lv)
  {
    OpenTree(meta, disk, lv, lvl, 0, []);
    forall f | 0 <= f < |lv[0]| ensures lv[0][f].LeafNode? {
      LeafFacts(meta, disk, lv, lvl, 0, [], f);
    }
    KeysOrdered(lv);
  }

  lemma WellFormedReadable(meta: Meta, disk: Disk, lv: seq<Level>, lvl: map<Off, nat>)
    requires Inv(meta, disk, lv, lvl)
    ensures Readable(meta, disk, lv, lvl)
  {
    BuiltFrom(meta, disk, lv, lvl);
    OrderedTree(meta, disk, lv, lvl);
  }

  // What a search reads of a block is the same in both.
  ghost predicate SameRead(a: Block, b: Block)
  {
    match a
    case Leaf(_, next, prev, recs) => b.Leaf? && b.next == next && b.prev == prev && b.recs == recs
    case Internal(_, next, prev, slots) =>
      b.Internal? && b.next == next && b.prev == prev && SameButLast(slots, b.slots)
  }

  ghost predicate SameReads(disk: Disk, D: Disk)
  {
    disk.Keys == D.Keys && forall o :: o in disk ==> SameRead(disk[o], D[o])
  }

  lemma SameReadsRefl(disk: Disk)
    ensures SameReads(disk, disk)
  {
  }

  // The block at o with the keys that the levels B give it.
  ghost function Rekeyed(disk: Disk, o: Off, B: seq<Level>, lvl: map<Off, nat>): Block
    requires o in disk
  {
    if disk[o].Internal? && o in lvl && lvl[o] < |B| && (exists j :: 0 <= j < |B[lvl[o]]| && B[lvl[o]][j].off == o) then
      var j :| 0 <= j < |B[lvl[o]]| && B[lvl[o]][j].off == o;
      disk[o].(slots := SlotsOf(B[lvl[o]][j]))
    else disk[o]
  }

  ghost function TwinDisk(disk: Disk, B: seq<Level>, lvl: map<Off, nat>): Disk
  {
    map o | o in disk :: Rekeyed(disk, o, B, lvl)
  }

  lemma RekeyedNode(disk: Disk, lvl: map<Off, nat>, A: seq<Level>, B: seq<Level>, l: nat, j: nat)
    requires |A| == |B| && l < |A| && LevelOK(disk, lvl, A[l], l) && TwinLevel(A[l], B[l]) && j < |A[l]|
    ensures NodeOK(disk, lvl, A[l], l, j)
    ensures var o := A[l][j].off; Matches(Rekeyed(disk, o, B, lvl), B[l][j])
  {
    var o := A[l][j].off;
    assert NodeOK(disk, lvl, A[l], l, j) && TwinNode(A[l][j], B[l][j]);
    assert B[l][j].off == o;
    forall k | 0 <= k < |B[l]| && B[l][k].off == o ensures k == j {
      assert TwinNode(A[l][k], B[l][k]);
    }
  }

  lemma RekeyedRest(disk: Disk, o: Off, B: seq<Level>, lvl: map<Off, nat>)
    requires o in disk
    ensures var b := Rekeyed(disk, o, B, lvl);
      b.parent == disk[o].parent && b.next == disk[o].next && b.prev == disk[o].prev
      && (b.Leaf? <==> disk[o].Leaf?) && (b.Leaf? ==> b == disk[o])
  {
  }

  lemma TwinLevelOK(disk: Disk, lvl: map<Off, nat>, A: seq<Level>, B: seq<Level>, l: nat)
    requires |A| == |B| && l < |A| && LevelOK(disk, lvl, A[l], l) && TwinLevel(A[l], B[l])
    ensures LevelOK(TwinDisk(disk, B, lvl), lvl, B[l], l)
  {
    forall j | 0 <= j < |B[l]| ensures NodeOK(TwinDisk(disk, B, lvl), lvl, B[l], l, j) {
      RekeyedNode(disk, lvl, A, B, l, j);
      RekeyedRest(disk, A[l][j].off, B, lvl);
      assert TwinNode(A[l][j], B[l][j]);
      assert j > 0 ==> TwinNode(A[l][j-1], B[l][j-1]);
      assert j + 1 < |A[l]| ==> TwinNode(A[l][j+1], B[l][j+1]);
    }
    forall i, j | 0 <= i < j < |B[l]| ensures B[l][i].off != B[l][j].off {
      assert TwinNode(A[l][i], B[l][i]) && TwinNode(A[l][j], B[l][j]);
    }
  }

  lemma TwinParents(disk: Disk, D: Disk, A: Level, B: Level)
    requires ParentsOK(disk, A) && TwinLevel(A, B)
    requires forall o :: o in disk ==> o in D && D[o].parent == disk[o].parent
    ensures ParentsOK(D, B)
  {
    forall j | 0 <= j < |B| ensures ParentOK(D, B[j]) {
      assert TwinNode(A[j], B[j]) && ParentOK(disk, A[j]);
      forall i | 0 <= i < |SlotsOf(B[j])|
        ensures SlotsOf(B[j])[i].child in D && D[SlotsOf(B[j])[i].child].parent == B[j].off
      {
        assert SlotsOf(B[j])[i].child == SlotsOf(A[j])[i].child;
      }
    }
  }

  lemma {:induction false} TwinChildren(A: Level, B: Level)
    requires TwinLevel(A, B)
    ensures |Slots(A)| == |Slots(B)|
    ensures forall c :: 0 <= c < |Slots(A)| ==> Slots(A)[c].child == Slots(B)[c].child
  {
    TwinSlots(A, B, |A|);
    StartEnds(A);
    StartEnds(B);
    forall c | 0 <= c < |Slots(A)| ensures Slots(A)[c].child == Slots(B)[c].child {
      var j, i := Locate(A, c);
      TwinSlots(A, B, j);
      assert TwinNode(A[j], B[j]);
      SlotsAt(B, j, i);
    }
  }

  lemma TwinKids(lower: Level, lower': Level, A: Level, B: Level)
    requires Kids(lower, Slots(A)) && TwinLevel(lower, lower') && TwinLevel(A, B)
    ensures Kids(lower', Slots(B))
  {
    TwinChildren(A, B);
    forall c | 0 <= c < |Slots(B)| ensures Slots(B)[c].child == lower'[c].off {
      assert TwinNode(lower[c], lower'[c]);
    }
  }

  lemma {:induction false} TwinInner(A: seq<Level>, B: seq<Level>)
    requires |A| == |B| && forall l :: 0 <= l < |A| ==> |A[l]| == |B[l]|
    ensures Inner(A) == Inner(B)
  {
    if |A| > 1 {
      TwinInner(A[..|A|-1], B[..|B|-1]);
    }
  }

  lemma TwinSizes(A: Level, B: Level, l: nat)
    requires SizesOK(A, l) && TwinLevel(A, B)
    ensures SizesOK(B, l)
  {
    forall j | 0 <= j < |B| ensures MinSize(l, |B|) <= Count(B[j]) <= BP_ORDER {
      assert TwinNode(A[j], B[j]);
    }
  }

  /** The well-formed file beside one whose searches come to their leaves. */
  lemma TwinStruct(meta: Meta, disk: Disk, A: seq<Level>, B: seq<Level>, lvl: map<Off, nat>)
    requires FoldedStruct(meta, disk, A, lvl, 0, []) && Twin(A, B, |A|)
    ensures FoldedStruct(meta, TwinDisk(disk, B, lvl), B, lvl, 0, [])
  {
    var D := TwinDisk(disk, B, lvl);
    OpenStruct(meta, disk, A, lvl, 0, []);
    forall o | o in disk
      ensures o in D && D[o].parent == disk[o].parent && (D[o].Leaf? <==> disk[o].Leaf?)
    {
      RekeyedRest(disk, o, B, lvl);
    }
    forall l | 0 <= l < |B| ensures LevelOK(D, lvl, B[l], l) && SizesOK(B[l], l) && (l >= 1 ==> ParentsOK(D, B[l])) {
      assert LevelOK(disk, lvl, A[l], l) && SizesOK(A[l], l) && (l >= 1 ==> ParentsOK(disk, A[l]));
      TwinLevelOK(disk, lvl, A, B, l);
      TwinSizes(A[l], B[l], l);
      if l >= 1 {
        TwinParents(disk, D, A[l], B[l]);
      }
    }
    forall l | 1 <= l < |B| ensures Kids(B[l-1], Flat(B, l, 0, [])) {
      assert Kids(A[l-1], Flat(A, l, 0, []));
      TwinKids(A[l-1], B[l-1], A[l], B[l]);
    }
    TwinMeta(meta, disk, A, B);
    AllocKept(meta, meta, disk, D, lvl);
    FoldStruct(meta, D, B, lvl, 0, []);
  }

  lemma TwinMeta(meta: Meta, disk: Disk, A: seq<Level>, B: seq<Level>)
    requires MetaOK(meta, A) && Twin(A, B, |A|) && TopOK(disk, A[meta.height])
    ensures MetaOK(meta, B) && |B[meta.height]| == |A[meta.height]|
    ensures forall j :: 0 <= j < |B[meta.height]| ==> B[meta.height][j].off == A[meta.height][j].off
  {
    assert forall l :: 0 <= l < |A| ==> TwinLevel(A[l], B[l]);
    TwinInner(A, B);
    assert TwinNode(A[0][0], B[0][0]);
    forall j | 0 <= j < |B[meta.height]| ensures B[meta.height][j].off == A[meta.height][j].off {
      assert TwinNode(A[meta.height][j], B[meta.height][j]);
    }
  }

  lemma TwinReads(meta: Meta, disk: Disk, A: seq<Level>, B: seq<Level>, lvl: map<Off, nat>, o: Off)
    requires StructP(meta, disk, A, lvl, 0, []) && Twin(A, B, |A|) && o in disk
    ensures SameRead(disk[o], Rekeyed(disk, o, B, lvl))
  {
    RekeyedRest(disk, o, B, lvl);
    var b := Rekeyed(disk, o, B, lvl);
    if b != disk[o] {
      var l := lvl[o];
      var j :| 0 <= j < |B[l]| && B[l][j].off == o;
      assert LevelOK(disk, lvl, A[l], l) && TwinLevel(A[l], B[l]);
      assert TwinNode(A[l][j], B[l][j]);
      RekeyedNode(disk, lvl, A, B, l, j);
    }
  }

  // ---------- searches ----------

  // A file and its levels, as searches read them, beside a well-formed one with the same leaves. Kept folded.
  ghost predicate Searchable(meta: Meta, disk: Disk, lv: seq<Level>, lvl: map<Off, nat>)
  {
    Readable(meta, disk, lv, lvl) && forall u {:trigger Unfold(u)} :: u == meta ==>
      exists D: Disk, B: seq<Level> :: IsTwin(u, disk, lv, lvl, D, B)
  }

  lemma OpenSearchable(meta: Meta, disk: Disk, lv: seq<Level>, lvl: map<Off, nat>) returns (D: Disk, B: seq<Level>)
    requires Searchable(meta, disk, lv, lvl)
    ensures IsTwin(meta, disk, lv, lvl, D, B)
  {
    assert Unfold(meta);
    D, B :| IsTwin(meta, disk, lv, lvl, D, B);
  }

  ghost predicate IsTwin(meta: Meta, disk: Disk, lv: seq<Level>, lvl: map<Off, nat>, D: Disk, B: seq<Level>)
  {
    && Inv(meta, D, B, lvl) && SameReads(disk, D) && |lv| >= 1
    && Twin(lv, B, |lv|) && B[0] == lv[0]
  }

  lemma WellFormedSearchable(meta: Meta, disk: Disk, lv: seq<Level>, lvl: map<Off, nat>)
    requires Inv(meta, disk, lv, lvl)
    ensures IsTwin(meta, disk, lv, lvl, disk, lv) && Searchable(meta, disk, lv, lvl)
  {
    OpenTree(meta, disk, lv, lvl, 0, []);
    TwinRefl(lv, |lv|);
    SameReadsRefl(disk);
    WellFormedReadable(meta, disk, lv, lvl);
    assert IsTwin(meta, disk, lv, lvl, disk, lv);
  }

  /** If every search comes to its leaf, the file can be searched like a well-formed one. */
  lemma FindableSearchable(meta: Meta, disk: Disk, lv: seq<Level>, lvl: map<Off, nat>)
    requires Built(meta, disk, lv, lvl) && Ordered(lv) && Findable(lv)
    ensures Searchable(meta, disk, lv, lvl)
  {
    var R := WithoutParent(disk, meta.rootOffset);
    var B: seq<Level> :| Twin(lv, B, |lv|) && KeysP(B, 0, []);
    TwinStruct(meta, R, lv, B, lvl);
    FoldTree(meta, TwinDisk(R, B, lvl), B, lvl, 0, []);
    ReadsBeside(meta, disk, R, lv, B, lvl);
    assert IsTwin(meta, disk, lv, lvl, TwinDisk(R, B, lvl), B);
  }

  lemma ReadsBeside(meta: Meta, disk: Disk, R: Disk, lv: seq<Level>, B: seq<Level>, lvl: map<Off, nat>)
    requires FoldedStruct(meta, R, lv, lvl, 0, []) && Twin(lv, B, |lv|)
    requires meta.rootOffset in disk && R == WithoutParent(disk, meta.rootOffset)
    ensures SameReads(disk, TwinDisk(R, B, lvl)) && B[0] == lv[0]
  {
    OpenStruct(meta, R, lv, lvl, 0, []);
    forall o | o in disk ensures SameRead(disk[o], TwinDisk(R, B, lvl)[o]) {
      TwinReads(meta, R, lv, B, lvl, o);
    }
    LeavesSame(meta, R, lv, B, lvl);
  }

  lemma LeavesSame(meta: Meta, disk: Disk, A: seq<Level>, B: seq<Level>, lvl: map<Off, nat>)
    requires StructP(meta, disk, A, lvl, 0, []) && Twin(A, B, |A|)
    ensures B[0] == A[0]
  {
    forall f | 0 <= f < |A[0]| ensures A[0][f].LeafNode? {
      LeafFacts(meta, disk, A, lvl, 0, [], f);
    }
    TwinLeaves(A[0], B[0]);
  }

  lemma {:induction false} TwinLeads(A: seq<Level>, B: seq<Level>, l: nat, j: nat, key: Key)
    requires Twin(A, B, |A|) && Leads(B, l, j, key)
    ensures Leads(A, l, j, key)
    decreases |A| - l
  {
    if l < |A| - 1 {
      var k: nat, i: nat :| Under(B, l, j, k, i) && UpperAt(SlotsOf(B[l+1][k]), key, i) && Leads(B, l + 1, k, key);
      TwinUnder(A, B, l, j, k, i);
      TwinLeads(A, B, l + 1, k, key);
      assert TwinNode(A[l+1][k], B[l+1][k]);
      TwinUpper(SlotsOf(A[l+1][k]), SlotsOf(B[l+1][k]), key, i);
    }
  }

  lemma TwinUpper(s: seq<Slot>, t: seq<Slot>, key: Key, i: nat)
    requires SameButLast(s, t)
    ensures UpperAt(s, key, i) <==> UpperAt(t, key, i)
    ensures SortedSlots(s) <==> SortedSlots(t)
  {
  }

  // The path of a key in a well-formed tree, from level l down.
  lemma {:induction false} PathOf(meta: Meta, disk: Disk, lv: seq<Level>, lvl: map<Off, nat>, l: nat, j: nat, key: Key,
      z: nat)
    returns (c: nat)
    requires Inv(meta, disk, lv, lvl) && l < |lv| && j < |lv[l]| && Reach(lv, l, j, key) && Leads(lv, l, j, key)
    requires z == 0
    ensures c < |lv[z]| && Reach(lv, z, c, key) && Leads(lv, z, c, key)
    decreases l
  {
    if l == z {
      c := j;
    } else {
      var p := PathDown(meta, disk, lv, lvl, l, j, key);
      c := PathOf(meta, disk, lv, lvl, l - 1, p, key, z);
    }
  }

  lemma PathDown(meta: Meta, disk: Disk, lv: seq<Level>, lvl: map<Off, nat>, l: nat, j: nat, key: Key)
    returns (p: nat)
    requires Inv(meta, disk, lv, lvl) && 1 <= l < |lv| && j < |lv[l]| && Reach(lv, l, j, key) && Leads(lv, l, j, key)
    ensures p < |lv[l-1]| && Reach(lv, l - 1, p, key) && Leads(lv, l - 1, p, key)
  {
    PathNode(meta, disk, lv, lvl, l, j);
    var i := UpperSlotExists(lv[l][j].slots, key);
    PathStep(meta, disk, lv, lvl, l, j, key, i);
    p := Start(lv[l], j) + i;
    assert Under(lv, l - 1, p, j, i);
    LeadsDown(lv, l - 1, p, j, i, key);
  }

  lemma LeadsDown(lv: seq<Level>, n: nat, p: nat, j: nat, i: nat, key: Key)
    requires Under(lv, n, p, j, i) && UpperAt(SlotsOf(lv[n+1][j]), key, i) && Leads(lv, n + 1, j, key)
    ensures Leads(lv, n, p, key)
  {
  }

  lemma {:induction false} UpperSlotExists(s: seq<Slot>, key: Key) returns (i: nat)
    requires |s| >= 1 && SortedSlots(s)
    ensures UpperAt(s, key, i)
  {
    if |s| == 1 || Rank(key) < Rank(s[0].key) {
      i := 0;
    } else {
      var a := UpperSlotExists(s[1..], key);
      i := a + 1;
      assert forall k :: 1 <= k < |s| ==> s[k] == s[1..][k-1];
      assert i < |s| - 1 ==> Rank(key) < Rank(s[i].key);
    }
  }

  /** Nothing is hidden then: no record is missed by the search for its key. */
  lemma SearchableFinds(meta: Meta, disk: Disk, lv: seq<Level>, lvl: map<Off, nat>)
    requires Searchable(meta, disk, lv, lvl)
    ensures !Hides(lv)
  {
    var D, B := OpenSearchable(meta, disk, lv, lvl);
    forall f: nat, e: nat | f < |lv[0]| && e < |RecsOf(lv[0][f])| ensures !Missed(lv, 0, f, e) {
      RecordFound(meta, D, B, lvl, 0, f, e);
      TwinLeads(lv, B, 0, f, RecsOf(lv[0][f])[e].key);
    }
  }

  lemma RecordFound(meta: Meta, disk: Disk, lv: seq<Level>, lvl: map<Off, nat>, z: nat, f: nat, e: nat)
    requires Inv(meta, disk, lv, lvl) && z == 0 && f < |lv[z]| && e < |RecsOf(lv[z][f])|
    ensures Leads(lv, z, f, RecsOf(lv[z][f])[e].key)
  {
    var key := RecsOf(lv[z][f])[e].key;
    RootAt(meta, disk, lv, lvl, key);
    var c := PathOf(meta, disk, lv, lvl, meta.height, 0, key, z);
    SameLeaf(meta, disk, lv, lvl, c, key, f, e);
  }

  // ---------- what a removal leaves, as the code is written ----------

  ghost predicate Outcome(meta: Meta, disk: Disk, lv: seq<Level>, lvl: map<Off, nat>, lost: bool)
  {
    forall u {:trigger BptLoss.Unfold(u)} :: u == lost ==> Built(meta, disk, lv, lvl) && Ends(lv, u) && Ordered(lv)
  }

  // A deletion on its way up, with all levels below it in order.
  ghost predicate Climbing(lv: seq<Level>, B: seq<Level>, l: nat, j: nat, i: nat, stale: bool, lost: bool)
  {
    Tracked(lv, B, l, j, i, stale, lost) && SortedBelow(lv, l)
  }

  lemma ClimbStarts(meta: Meta, disk: Disk, lv: seq<Level>, lvl: map<Off, nat>, l: nat, j: nat, i: nat, b: nat)
    requires PendingDelete(meta, disk, lv, lvl, l, j, i, false, true, b)
    ensures Climbing(lv, lv, l, j, i, false, false)
  {
    TrackingStarts(meta, disk, lv, lvl, l, j, i, b);
    TrackedMeans(lv, lv, l, j, i, false, false);
    OpenDelete(meta, disk, lv, lvl, l, j, i, false, true, b);
    forall f | 0 <= f < |lv[0]| ensures lv[0][f].LeafNode? {
      LeafFacts(meta, disk, lv, lvl, l, Deleted(Slots(lv[l]), Start(lv[l], j) + i, false), f);
    }
    SortedStarts(lv, l, Deleted(Slots(lv[l]), Start(lv[l], j) + i, false));
  }

  /** The file can still be searched, or a record is missed by the search for its key. */
  lemma OutcomeMeans(meta: Meta, disk: Disk, lv: seq<Level>, lvl: map<Off, nat>, lost: bool)
    requires Outcome(meta, disk, lv, lvl, lost)
    ensures Readable(meta, disk, lv, lvl)
    ensures Searchable(meta, disk, lv, lvl) <==> !lost
    ensures Hides(lv) <==> lost
  {
    assert BptLoss.Unfold(lost);
    if lost {
      LostHides(lv, |lv|);
      if Searchable(meta, disk, lv, lvl) {
        SearchableFinds(meta, disk, lv, lvl);
      }
    } else {
      FindableSearchable(meta, disk, lv, lvl);
      SearchableFinds(meta, disk, lv, lvl);
    }
  }

  lemma WellFormedOutcome(meta: Meta, disk: Disk, lv: seq<Level>, lvl: map<Off, nat>)
    requires Inv(meta, disk, lv, lvl)
    ensures Outcome(meta, disk, lv, lvl, false)
  {
    BuiltFrom(meta, disk, lv, lvl);
    OpenTree(meta, disk, lv, lvl, 0, []);
    TwinRefl(lv, |lv|);
    OrderedTree(meta, disk, lv, lvl);
    assert Ends(lv, false);
  }

  lemma AbsorbOutcome(meta: Meta, disk: Disk, disk': Disk, lv: seq<Level>, lvl: map<Off, nat>,
      l: nat, j: nat, i: nat, stale: bool, ok: bool, b: nat, x: Node, B: seq<Level>, lost: bool)
    requires PendingDelete(meta, disk, lv, lvl, l, j, i, stale, ok, b) && Climbing(lv, B, l, j, i, stale, lost)
    requires x == InnerNode(lv[l][j].off, Deleted(lv[l][j].slots, i, stale))
    requires FoldedStruct(meta, disk', lv[l := lv[l][j := x]], lvl, 0, [])
    ensures Outcome(meta, disk', lv[l := lv[l][j := x]], lvl, lost)
  {
    BuiltFrom(meta, disk', lv[l := lv[l][j := x]], lvl);
    OpenDelete(meta, disk, lv, lvl, l, j, i, stale, ok, b);
    LevelFacts(meta, disk, lv, lvl, l, Deleted(Slots(lv[l]), Start(lv[l], j) + i, stale), l);
    AbsorbTracked(lv, B, l, j, i, stale, lost, x);
    AbsorbOrdered(lv, l, j, i, stale, x);
  }

  lemma CollapseOutcome(meta: Meta, meta': Meta, disk: Disk, lv: seq<Level>, lvl: map<Off, nat>,
      l: nat, i: nat, stale: bool, ok: bool, b: nat, B: seq<Level>, lost: bool)
    requires PendingDelete(meta, disk, lv, lvl, l, 0, i, stale, ok, b) && l == |lv| - 1 && l >= 2
    requires Climbing(lv, B, l, 0, i, stale, lost) && |lv[l][0].slots| == 2 && lv[l][0].slots[0].child in disk
    requires meta.internalNum >= 1
    requires meta' == meta.(internalNum := meta.internalNum - 1, height := meta.height - 1,
      rootOffset := lv[l][0].slots[0].child)
    ensures Outcome(meta', disk, lv[..l], lvl, lost)
  {
    var S := Deleted(Slots(lv[l]), Start(lv[l], 0) + i, stale);
    RootSlots(meta, disk, lv, lvl, l, S);
    DeletedAt(lv[l][0].slots, i, stale, 0);
    assert S[0].child == lv[l][0].slots[0].child;
    CollapseStruct(meta, meta', disk, WithoutParent(disk, S[0].child), lv, lvl, S);
    CollapseTracked(lv, B, l, i, stale, lost);
    CollapseOrdered(lv, l);
    assert Built(meta', disk, lv[..l], lvl);
  }

  lemma RightTracked(meta: Meta, disk: Disk, disk': Disk, lv: seq<Level>, lvl: map<Off, nat>,
      l: nat, j: nat, i: nat, stale: bool, ok: bool, b: nat, k: nat, pi: nat, x: Node, y: Node,
      B: seq<Level>, lost: bool)
    requires PendingDelete(meta, disk, lv, lvl, l, j, i, stale, ok, b) && l < |lv| - 1
    requires Climbing(lv, B, l, j, i, stale, lost) && Under(lv, l, j, k, pi) && j + 1 < |lv[l]|
    requires pi + 1 < |SlotsOf(lv[l+1][k])| && |SlotsOf(lv[l][j+1])| >= 2 && lv[l+1][k].InnerNode?
    requires x == InnerNode(lv[l][j].off, Remaining(lv, l, j, i, stale) + [SlotsOf(lv[l][j+1])[0]])
    requires y == InnerNode(lv[l][j+1].off, SlotsOf(lv[l][j+1])[1..])
    requires FoldedStruct(meta, disk', ShiftedLevels(lv, l, j, x, y, k, pi, SlotsOf(lv[l][j+1])[0].key), lvl, 0, [])
    ensures Outcome(meta, disk', ShiftedLevels(lv, l, j, x, y, k, pi, SlotsOf(lv[l][j+1])[0].key), lvl, lost || stale)
  {
    BuiltFrom(meta, disk', ShiftedLevels(lv, l, j, x, y, k, pi, SlotsOf(lv[l][j+1])[0].key), lvl);
    PendingAround(meta, disk, lv, lvl, l, j, i, stale, ok, b);
    BorrowRightTracked(lv, B, l, j, i, stale, lost, k, pi, x, y);
    BorrowRightOrdered(lv, l, j, i, stale, k, pi, x, y);
  }

  // The levels after a slot came from the left sibling.
  ghost function LeftLevels(lv: seq<Level>, l: nat, j: nat, k: nat, pi: nat, slots: seq<Slot>): seq<Level>
    requires 0 < j && l + 1 < |lv| && j < |lv[l]| && k < |lv[l+1]| && lv[l+1][k].InnerNode?
    requires 0 < pi <= |lv[l+1][k].slots| && lv[l][j-1].InnerNode? && |lv[l][j-1].slots| >= 2
  {
    var m := |lv[l][j-1].slots| - 1;
    var x, y := InnerNode(lv[l][j-1].off, lv[l][j-1].slots[..m]), InnerNode(lv[l][j].off, slots);
    ShiftedLevels(lv, l, j - 1, x, y, k, pi - 1, lv[l][j-1].slots[m-1].key)
  }

  lemma LeftLevelsAt(lv: seq<Level>, l: nat, j: nat, k: nat, pi: nat, slots: seq<Slot>)
    requires 0 < j && l + 1 < |lv| && j < |lv[l]| && k < |lv[l+1]| && lv[l+1][k].InnerNode?
    requires 0 < pi <= |lv[l+1][k].slots| && lv[l][j-1].InnerNode? && |lv[l][j-1].slots| >= 2
    ensures var lv' := LeftLevels(lv, l, j, k, pi, slots);
      && |lv'| == |lv| && (l > 0 ==> lv'[0] == lv[0])
      && j < |lv'[l]| && lv'[l][j] == InnerNode(lv[l][j].off, slots)
  {
  }

  lemma LeftParts(disk: Disk, disk': Disk, lv: seq<Level>, l: nat, j: nat, q: seq<Slot>, repaired: bool,
      k: nat, pi: nat, slots: seq<Slot>) returns (sep: Key, x: Node, y: Node, m: nat)
    requires LeftWrite(disk, disk', lv, l, j, q, repaired, k, pi, slots)
    ensures lv[l][j-1].InnerNode? && lv[l+1][k].InnerNode? && |lv[l][j-1].slots| == m + 1 && m >= 1
    ensures sep == lv[l+1][k].slots[pi-1].key && x == InnerNode(lv[l][j-1].off, lv[l][j-1].slots[..m])
    ensures y == InnerNode(lv[l][j].off, LeftBorrowed(lv[l][j-1].slots[m], sep, q, repaired))
    ensures lv[l][j-1].slots[m].child in disk
    ensures x.off in disk && disk[x.off].Internal? && y.off in disk && disk[y.off].Internal?
    ensures var d := ShiftDisk(disk, x, y, lv[l][j-1].slots[m].child, y.off);
      && lv[l+1][k].off in d && d[lv[l+1][k].off].Internal?
      && disk' == ParentWritten(d, lv[l+1][k], pi - 1, lv[l][j-1].slots[m-1].key)
    ensures LeftLevels(lv, l, j, k, pi, slots)
         == ShiftedLevels(lv, l, j - 1, x, y, k, pi - 1, lv[l][j-1].slots[m-1].key)
  {
    m := |lv[l][j-1].slots| - 1;
    sep := lv[l+1][k].slots[pi-1].key;
    x, y := InnerNode(lv[l][j-1].off, lv[l][j-1].slots[..m]), InnerNode(lv[l][j].off, slots);
  }

  lemma LeftDone(meta: Meta, disk: Disk, disk': Disk, lv: seq<Level>, lvl: map<Off, nat>,
      l: nat, j: nat, i: nat, stale: bool, ok: bool, b: nat, repaired: bool, k: nat, pi: nat, slots: seq<Slot>)
    requires PendingDelete(meta, disk, lv, lvl, l, j, i, stale, ok, b) && l < |lv| - 1
    requires Family(disk, lv, l, j, k, pi) && pi > 0 && (repaired ==> ok && !stale)
    requires |lv[l][j].slots| == MIN_FILL < |lv[l][j-1].slots|
    requires LeftWrite(disk, disk', lv, l, j, Remaining(lv, l, j, i, stale), repaired, k, pi, slots)
    ensures var lv' := LeftLevels(lv, l, j, k, pi, slots);
      FoldedStruct(meta, disk', lv', lvl, 0, []) && (repaired ==> Inv(meta, disk', lv', lvl))
    ensures !repaired ==> !Sound(meta, disk')
  {
    var sep, x, y, m := LeftParts(disk, disk', lv, l, j, Remaining(lv, l, j, i, stale), repaired, k, pi, slots);
    BorrowLeftDone(meta, disk, disk', lv, lvl, l, j, i, stale, ok, b, repaired, k, pi, sep, x, y, m);
  }

  lemma LeftTracked(meta: Meta, disk: Disk, disk': Disk, lv: seq<Level>, lvl: map<Off, nat>,
      l: nat, j: nat, i: nat, stale: bool, ok: bool, b: nat, k: nat, pi: nat, sep: Key, lv': seq<Level>, y: Node)
    requires PendingDelete(meta, disk, lv, lvl, l, j, i, stale, ok, b) && l < |lv| - 1
    requires 0 < j && Under(lv, l, j, k, pi) && pi > 0 && lv[l+1][k].InnerNode?
    requires |SlotsOf(lv[l][j-1])| >= 1 && sep == lv[l+1][k].slots[pi-1].key && |SlotsOf(lv[l][j])| >= 4
    requires SlotsOf(y) == LeftBorrowed(SlotsOf(lv[l][j-1])[|SlotsOf(lv[l][j-1])|-1], sep,
                                        Remaining(lv, l, j, i, stale), false)
    requires FoldedStruct(meta, disk', lv', lvl, 0, []) && |lv'| == |lv| && j < |lv'[l]| && lv'[l][j] == y
    requires Ordered(lv')
    ensures Outcome(meta, disk', lv', lvl, true)
  {
    BuiltFrom(meta, disk', lv', lvl);
    PendingAround(meta, disk, lv, lvl, l, j, i, stale, ok, b);
    LentKeyPending(meta, disk, lv, lvl, l, j, i, stale, ok, b, k, pi);
    BorrowedTwice(SlotsOf(lv[l][j]), i, stale, SlotsOf(lv[l][j-1])[|SlotsOf(lv[l][j-1])|-1], sep);
    LostFrom(meta, disk', lv', lvl, l, j, y);
  }

  lemma LeftOrdered(meta: Meta, disk: Disk, disk': Disk, lv: seq<Level>, lvl: map<Off, nat>,
      l: nat, j: nat, i: nat, stale: bool, ok: bool, b: nat, k: nat, pi: nat, slots: seq<Slot>)
    requires PendingDelete(meta, disk, lv, lvl, l, j, i, stale, ok, b) && l < |lv| - 1 && SortedBelow(lv, l)
    requires Under(lv, l, j, k, pi) && pi > 0 && |lv[l][j].slots| >= 4
    requires LeftWrite(disk, disk', lv, l, j, Remaining(lv, l, j, i, stale), false, k, pi, slots)
    ensures Ordered(LeftLevels(lv, l, j, k, pi, slots))
  {
    UpperFacts(meta, disk, lv, lvl, l, Deleted(Slots(lv[l]), Start(lv[l], j) + i, stale));
    UpperCount(meta, disk, lv, lvl, l, Deleted(Slots(lv[l]), Start(lv[l], j) + i, stale));
    LentKeyPending(meta, disk, lv, lvl, l, j, i, stale, ok, b, k, pi);
    OpenDelete(meta, disk, lv, lvl, l, j, i, stale, ok, b);
    LeftInOrder(disk, disk', lv, l, j, i, stale, k, pi, slots);
  }

  lemma LeftInOrder(disk: Disk, disk': Disk, lv: seq<Level>, l: nat, j: nat, i: nat, stale: bool, k: nat, pi: nat,
      slots: seq<Slot>)
    requires SortedBelow(lv, l) && UpperKeys(lv, l) && Under(lv, l, j, k, pi) && pi > 0 && j > 0
    requires forall a :: 0 <= a < |lv[l]| ==> lv[l][a].InnerNode? && |lv[l][a].slots| >= 1
    requires i + 1 < |lv[l][j].slots| && |lv[l][j].slots| >= 4
    requires LastKey(lv[l][j-1]) == SlotsOf(lv[l+1][k])[pi-1].key
    requires LeftWrite(disk, disk', lv, l, j, Remaining(lv, l, j, i, stale), false, k, pi, slots)
    ensures Ordered(LeftLevels(lv, l, j, k, pi, slots))
  {
    var sep, x, y, m := LeftParts(disk, disk', lv, l, j, Remaining(lv, l, j, i, stale), false, k, pi, slots);
    BorrowLeftOrdered(lv, l, j, i, stale, k, pi, x, y, m);
  }

  // As written, a record is lost.
  lemma LeftLost(meta: Meta, disk: Disk, disk': Disk, lv: seq<Level>, lvl: map<Off, nat>,
      l: nat, j: nat, i: nat, stale: bool, ok: bool, b: nat, k: nat, pi: nat, slots: seq<Slot>)
    requires PendingDelete(meta, disk, lv, lvl, l, j, i, stale, ok, b) && l < |lv| - 1 && SortedBelow(lv, l)
    requires Under(lv, l, j, k, pi) && pi > 0 && |lv[l][j].slots| >= 4
    requires LeftWrite(disk, disk', lv, l, j, Remaining(lv, l, j, i, stale), false, k, pi, slots)
    requires FoldedStruct(meta, disk', LeftLevels(lv, l, j, k, pi, slots), lvl, 0, [])
    ensures Outcome(meta, disk', LeftLevels(lv, l, j, k, pi, slots), lvl, true)
  {
    LeftOrdered(meta, disk, disk', lv, lvl, l, j, i, stale, ok, b, k, pi, slots);
    var sep, x, y, m := LeftParts(disk, disk', lv, l, j, Remaining(lv, l, j, i, stale), false, k, pi, slots);
    LeftLevelsAt(lv, l, j, k, pi, slots);
    LeftTracked(meta, disk, disk', lv, lvl, l, j, i, stale, ok, b, k, pi, sep, LeftLevels(lv, l, j, k, pi, slots), y);
  }

  // A slot from the left sibling, in both versions.
  lemma LeftOutcome(meta: Meta, disk: Disk, disk': Disk, lv: seq<Level>, lvl: map<Off, nat>,
      l: nat, j: nat, i: nat, stale: bool, ok: bool, b: nat, repaired: bool, k: nat, pi: nat, slots: seq<Slot>)
    returns (lv': seq<Level>)
    requires PendingDelete(meta, disk, lv, lvl, l, j, i, stale, ok, b) && l < |lv| - 1
    requires Family(disk, lv, l, j, k, pi) && pi > 0 && (repaired ==> ok && !stale)
    requires |lv[l][j].slots| == MIN_FILL < |lv[l][j-1].slots|
    requires LeftWrite(disk, disk', lv, l, j, Remaining(lv, l, j, i, stale), repaired, k, pi, slots)
    requires !repaired ==> SortedBelow(lv, l)
    ensures |lv'| == |lv| && lv'[0] == lv[0]
    ensures repaired ==> Inv(meta, disk', lv', lvl)
    ensures !repaired ==> !Sound(meta, disk') && Outcome(meta, disk', lv', lvl, true)
  {
    LeftDone(meta, disk, disk', lv, lvl, l, j, i, stale, ok, b, repaired, k, pi, slots);
    LeftLevelsAt(lv, l, j, k, pi, slots);
    lv' := LeftLevels(lv, l, j, k, pi, slots);
    if !repaired {
      LeftLost(meta, disk, disk', lv, lvl, l, j, i, stale, ok, b, k, pi, slots);
    }
  }

  lemma LostFrom(meta: Meta, disk: Disk, lv: seq<Level>, lvl: map<Off, nat>, l: nat, j: nat, y: Node)
    requires FoldedStruct(meta, disk, lv, lvl, 0, []) && 1 <= l < |lv| && j < |lv[l]| && lv[l][j] == y
    requires |SlotsOf(y)| > 2 && SlotsOf(y)[0].key == SlotsOf(y)[1].key
    ensures Ends(lv, true)
  {
    BorrowLeftLoses(meta, disk, lv, lvl, l, j);
  }

  // As written, a left borrow puts the separator into the first two slots.
  lemma BorrowedTwice(s: seq<Slot>, i: nat, stale: bool, lent: Slot, sep: Key)
    requires i + 1 < |s| && |s| >= 4 && lent.key == sep
    ensures var r := LeftBorrowed(lent, sep, Deleted(s, i, stale), false);
      |r| > 2 && r[0].key == r[1].key
  {
    DeletedAt(s, i, stale, 0);
  }

  // A merge: the right keys once the deletion is pending one level up.
  lemma MergeTracked(meta: Meta, disk: Disk, lv: seq<Level>, lvl: map<Off, nat>,
      l: nat, j: nat, i: nat, stale: bool, ok: bool, b: nat, c: nat, k: nat, pi: nat, x: Node,
      B: seq<Level>, lost: bool) returns (B': seq<Level>)
    requires PendingDelete(meta, disk, lv, lvl, l, j, i, stale, ok, b) && l < |lv| - 1
    requires Climbing(lv, B, l, j, i, stale, lost)
    requires (j == c || j == c + 1) && c + 1 < |lv[l]|
    requires Under(lv, l, c, k, pi) && pi + 1 < |SlotsOf(lv[l+1][k])|
    requires x == InnerNode(lv[l][c].off, MergeLeft(lv, l, j, i, stale, c) + MergeRight(lv, l, j, i, stale, c))
    ensures Climbing(lv[l := WithMerge(lv[l], c, x)], B', l + 1, k, pi, j == c + 1, lost || (j == c && stale))
  {
    PendingAround(meta, disk, lv, lvl, l, j, i, stale, ok, b);
    B' := MergeEither(lv, B, l, j, i, stale, lost, c, k, pi, x);
    MergeSorted(lv, l, j, i, stale, c, x);
  }

  lemma MergeEither(lv: seq<Level>, B: seq<Level>, l: nat, j: nat, i: nat, stale: bool, lost: bool,
      c: nat, k: nat, pi: nat, x: Node) returns (B': seq<Level>)
    requires Tracked(lv, B, l, j, i, stale, lost) && Around(lv, l) && (stale ==> i + 2 == |SlotsOf(lv[l][j])|)
    requires (j == c || j == c + 1) && c + 1 < |lv[l]|
    requires Under(lv, l, c, k, pi) && pi + 1 < |SlotsOf(lv[l+1][k])|
    requires x == InnerNode(lv[l][c].off, MergeLeft(lv, l, j, i, stale, c) + MergeRight(lv, l, j, i, stale, c))
    ensures Tracked(lv[l := WithMerge(lv[l], c, x)], B', l + 1, k, pi, j == c + 1, lost || (j == c && stale))
  {
    if j == c {
      B' := B[l := WithMerge(lv[l], j, x)];
      MergeNextTracked(lv, B, l, j, i, stale, lost, k, pi, x);
    } else {
      var y := InnerNode(lv[l][c].off, SlotsOf(lv[l][c]) + Remaining(lv, l, j, i, false));
      B' := B[l := WithMerge(lv[l], c, y)];
      MergePrevTracked(lv, B, l, j, i, stale, lost, k, pi, x, y);
    }
  }

  // ---------- removals from a leaf ----------

  ghost predicate LosesAt(lv: seq<Level>, c: nat, k: nat)
  {
    LeafMerges(lv, c) && Loses(lv, 1, k, false)
  }

  /** The removals after which, as the code is written, some other record is not found any more. */
  ghost predicate RemoveLoses(lv: seq<Level>, key: Key)
  {
    |lv| >= 1 && exists c: nat, k: nat, pi: nat ::
      Under(lv, 0, c, k, pi) && HasRec(RecsOf(lv[0][c]), key) && LosesAt(lv, c, k)
  }

  ghost predicate OverrunsAt(lv: seq<Level>, c: nat, k: nat)
  {
    LeafMerges(lv, c) && Overruns(lv, 1, k, false)
  }

  /** The removals that write past the end of a node. */
  ghost predicate RemoveOverruns(lv: seq<Level>, key: Key)
  {
    |lv| >= 1 && exists c: nat, k: nat, pi: nat ::
      Under(lv, 0, c, k, pi) && HasRec(RecsOf(lv[0][c]), key) && OverrunsAt(lv, c, k)
  }

  lemma RemoveLosesAt(meta: Meta, disk: Disk, lv: seq<Level>, lvl: map<Off, nat>, c: nat, key: Key, k: nat, pi: nat)
    requires Inv(meta, disk, lv, lvl) && c < |lv[0]| && Reach(lv, 0, c, key)
    requires HasRec(RecsOf(lv[0][c]), key) && Under(lv, 0, c, k, pi)
    ensures RemoveLoses(lv, key) <==> LosesAt(lv, c, k)
    ensures RemoveOverruns(lv, key) <==> OverrunsAt(lv, c, k)
  {
    forall c2: nat, k2: nat, p2: nat | Under(lv, 0, c2, k2, p2) && HasRec(RecsOf(lv[0][c2]), key)
      ensures c2 == c && k2 == k
    {
      var i: nat :| i < |RecsOf(lv[0][c2])| && RecsOf(lv[0][c2])[i].key == key;
      SameLeaf(meta, disk, lv, lvl, c, key, c2, i);
      UnderUnique(lv, 0, c, k, pi, k2, p2);
    }
  }

  lemma NotLost(meta: Meta, disk: Disk, lv: seq<Level>, lvl: map<Off, nat>, key: Key)
    requires Inv(meta, disk, lv, lvl) && |lv| >= 1 && SortedRecs(Recs(lv[0])) && key !in Entries(lv)
    ensures !RemoveLoses(lv, key) && !RemoveOverruns(lv, key) && Searchable(meta, disk, lv, lvl) && !Hides(lv)
  {
    NoRecord(lv, key);
    WellFormedSearchable(meta, disk, lv, lvl);
    SearchableFinds(meta, disk, lv, lvl);
  }
}
