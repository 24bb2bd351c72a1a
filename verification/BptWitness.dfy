/** Well-formed trees from which one removal, as the code is written, breaks the file: a root
    over m internal nodes, the first with f leaves, the others with ten, and ten records in
    every leaf. */
module BptWitness {
  import opened KeyOrder
  import opened BptLevels
  import opened BptTree
  import opened BptLeafSteps
  import opened BptIndexDelete
  import opened BptLeafMerge
  import opened BptLoss
  import opened BptTwin
  import opened BptAnswers

  // Keys in increasing order.
  ghost function Num(n: nat): Key
  {
    if n < 50000 then [1 + n / 200, 1 + n % 200] else []
  }

  lemma NumOrder(a: nat, b: nat)
    requires a < b < 50000
    ensures Rank(Num(a)) < Rank(Num(b))
  {
    RankTwo(Num(a));
    RankTwo(Num(b));
  }

  lemma RankTwo(k: Key)
    requires |k| == 2
    ensures Rank(k) == 256 * (k[0] as int) + (k[1] as int)
  {
    RankIs(k);
    assert RankUpTo(k, 2) == 256 * RankUpTo(k, 1) + k[1];
    assert RankUpTo(k, 1) == 256 * RankUpTo(k, 0) + k[0];
  }

  ghost predicate Shape(f: nat, m: nat) { 10 <= f <= 20 && 2 <= m <= 20 }

  // Number of leaves under the first a internal nodes.
  ghost function Before(f: nat, a: nat): nat { if a == 0 then 0 else f + 10 * (a - 1) }

  ghost function Owner(f: nat, c: nat): nat { if c < f then 0 else 1 + (c - f) / 10 }

  ghost function Place(i: nat): Off { META_SIZE + INTERNAL_SIZE * i }

  ghost function LeafRecs(c: nat): (r: seq<Record>)
    ensures |r| == 10 && forall i :: 0 <= i < 10 ==> r[i] == Record(Num(10 * c + i), i)
  {
    seq(10, i requires 0 <= i < 10 => Record(Num(10 * c + i), i))
  }

  ghost function LeafSlot(c: nat): Slot { Slot(Num(10 * c + 10), Place(c)) }

  ghost function LeafSlots(from: nat, n: nat): (s: seq<Slot>)
    ensures |s| == n && forall i :: 0 <= i < n ==> s[i] == LeafSlot(from + i)
  {
    seq(n, i requires 0 <= i < n => LeafSlot(from + i))
  }

  ghost function Leaves(f: nat, m: nat): (L: Level)
    ensures |L| == Before(f, m) && forall c :: 0 <= c < |L| ==> L[c] == LeafNode(Place(c), LeafRecs(c))
  {
    seq(Before(f, m), c requires 0 <= c < Before(f, m) => LeafNode(Place(c), LeafRecs(c)))
  }

  ghost function InnerAt(f: nat, m: nat, a: nat): Node
  {
    InnerNode(Place(Before(f, m) + a), LeafSlots(Before(f, a), if a == 0 then f else 10))
  }

  ghost function Inners(f: nat, m: nat): (L: Level)
    ensures |L| == m && forall a :: 0 <= a < m ==> L[a] == InnerAt(f, m, a)
  {
    seq(m, a requires 0 <= a < m => InnerAt(f, m, a))
  }

  ghost function RootAt(f: nat, m: nat): Node
  {
    InnerNode(Place(Before(f, m) + m),
              seq(m, a requires 0 <= a < m => Slot(Num(10 * Before(f, a + 1)), Place(Before(f, m) + a))))
  }

  ghost function Sample(f: nat, m: nat): seq<Level> { [Leaves(f, m), Inners(f, m), [RootAt(f, m)]] }

  ghost function Total(f: nat, m: nat): nat { Before(f, m) + m + 1 }

  ghost function SampleMeta(f: nat, m: nat): Meta
  {
    Meta(BP_ORDER, m + 1, Before(f, m), 2, Place(Total(f, m)), Place(Before(f, m) + m), Place(0))
  }

  ghost function BlockAt(f: nat, m: nat, i: nat): Block
    requires Shape(f, m) && i < Total(f, m)
  {
    var n := Before(f, m);
    if i < n then
      Leaf(Place(n + Owner(f, i)), if i + 1 < n then Place(i + 1) else 0, if i > 0 then Place(i - 1) else 0,
        LeafRecs(i))
    else if i < n + m then
      Internal(Place(n + m), if i + 1 < n + m then Place(i + 1) else 0, if i > n then Place(i - 1) else 0,
               InnerAt(f, m, i - n).slots)
    else Internal(0, 0, 0, RootAt(f, m).slots)
  }

  ghost function LevelAt(f: nat, m: nat, i: nat): nat
  {
    if i < Before(f, m) then 0 else if i < Before(f, m) + m then 1 else 2
  }

  // The first n blocks.
  ghost function BlocksTo(f: nat, m: nat, n: nat): Disk
    requires Shape(f, m) && n <= Total(f, m)
  {
    if n == 0 then map[] else BlocksTo(f, m, n - 1)[Place(n - 1) := BlockAt(f, m, n - 1)]
  }

  ghost function LevelsTo(f: nat, m: nat, n: nat): map<Off, nat>
  {
    if n == 0 then map[] else LevelsTo(f, m, n - 1)[Place(n - 1) := LevelAt(f, m, n - 1)]
  }

  ghost function SampleDisk(f: nat, m: nat): Disk
    requires Shape(f, m)
  {
    BlocksTo(f, m, Total(f, m))
  }

  ghost function SampleLevelOf(f: nat, m: nat): map<Off, nat>
    requires Shape(f, m)
  {
    LevelsTo(f, m, Total(f, m))
  }

  // ---------- the sample is a tree ----------

  lemma {:induction false} InnerSlots(f: nat, m: nat, a: nat)
    requires Shape(f, m) && a <= m
    ensures Slots(Inners(f, m)[..a]) == LeafSlots(0, Before(f, a))
  {
    var L := Inners(f, m)[..a];
    if a == 0 {
      SlotsEmpty();
    } else {
      SlotsSnoc(L);
      assert L[..|L|-1] == Inners(f, m)[..a-1];
      InnerSlots(f, m, a - 1);
    }
  }

  lemma SampleSlots(f: nat, m: nat)
    requires Shape(f, m)
    ensures Slots(Inners(f, m)) == LeafSlots(0, Before(f, m))
    ensures forall a :: 0 <= a <= m ==> Start(Inners(f, m), a) == Before(f, a)
    ensures Slots([RootAt(f, m)]) == RootAt(f, m).slots && Start([RootAt(f, m)], 0) == 0
  {
    InnerSlots(f, m, m);
    assert Inners(f, m)[..m] == Inners(f, m);
    forall a | 0 <= a <= m ensures Start(Inners(f, m), a) == Before(f, a) {
      InnerSlots(f, m, a);
    }
    SlotsOne(RootAt(f, m));
    StartEnds([RootAt(f, m)]);
  }

  lemma {:induction false} BlocksUpTo(f: nat, m: nat, n: nat)
    requires Shape(f, m) && n <= Total(f, m)
    ensures BlocksTo(f, m, n).Keys == LevelsTo(f, m, n).Keys && Spaced(BlocksTo(f, m, n), n)
    ensures forall i: nat :: i < n ==> Built(f, m, BlocksTo(f, m, n), LevelsTo(f, m, n), i)
  {
    if n > 0 {
      var k := n - 1;
      BlocksUpTo(f, m, k);
      forall i: nat | i < n ensures Built(f, m, BlocksTo(f, m, n), LevelsTo(f, m, n), i) {
        if i < k {
          assert Built(f, m, BlocksTo(f, m, k), LevelsTo(f, m, k), i);
        }
      }
    }
  }

  // Block i of the file, and where it stands, as far as the lemmas below need it.
  ghost predicate Built(f: nat, m: nat, disk: Disk, lvl: map<Off, nat>, i: nat)
    requires Shape(f, m)
  {
    && i < Total(f, m) && Place(i) in disk && disk[Place(i)] == BlockAt(f, m, i)
    && Place(i) in lvl && lvl[Place(i)] == LevelAt(f, m, i)
  }

  ghost predicate AllBuilt(f: nat, m: nat, disk: Disk, lvl: map<Off, nat>)
    requires Shape(f, m)
  {
    forall i :: 0 <= i < Total(f, m) ==> Built(f, m, disk, lvl, i)
  }

  lemma LeafBlocks(f: nat, m: nat, disk: Disk, lvl: map<Off, nat>)
    requires Shape(f, m) && AllBuilt(f, m, disk, lvl)
    ensures LevelOK(disk, lvl, Leaves(f, m), 0)
  {
    forall j | 0 <= j < Before(f, m) ensures NodeOK(disk, lvl, Leaves(f, m), 0, j) {
      assert Built(f, m, disk, lvl, j);
    }
  }

  lemma InnerBlocks(f: nat, m: nat, disk: Disk, lvl: map<Off, nat>)
    requires Shape(f, m) && AllBuilt(f, m, disk, lvl)
    ensures LevelOK(disk, lvl, Inners(f, m), 1) && LevelOK(disk, lvl, [RootAt(f, m)], 2)
  {
    forall j | 0 <= j < m ensures NodeOK(disk, lvl, Inners(f, m), 1, j) {
      assert Built(f, m, disk, lvl, Before(f, m) + j);
    }
    assert Built(f, m, disk, lvl, Before(f, m) + m);
  }

  lemma SampleParents(f: nat, m: nat, disk: Disk, lvl: map<Off, nat>)
    requires Shape(f, m) && AllBuilt(f, m, disk, lvl)
    ensures ParentsOK(disk, Inners(f, m)) && ParentOK(disk, RootAt(f, m))
    ensures Place(Before(f, m) + m) in disk && disk[Place(Before(f, m) + m)].parent == 0
  {
    forall a | 0 <= a < m ensures ParentOK(disk, Inners(f, m)[a]) {
      InnerParent(f, m, disk, lvl, a);
    }
    var x := RootAt(f, m);
    forall a | 0 <= a < m ensures x.slots[a].child in disk && disk[x.slots[a].child].parent == x.off {
      assert Built(f, m, disk, lvl, Before(f, m) + a);
    }
    assert Built(f, m, disk, lvl, Before(f, m) + m);
  }

  lemma InnerParent(f: nat, m: nat, disk: Disk, lvl: map<Off, nat>, a: nat)
    requires Shape(f, m) && AllBuilt(f, m, disk, lvl) && a < m
    ensures ParentOK(disk, InnerAt(f, m, a))
  {
    var x := InnerAt(f, m, a);
    forall i | 0 <= i < |x.slots| ensures x.slots[i].child in disk && disk[x.slots[i].child].parent == x.off {
      assert Built(f, m, disk, lvl, Before(f, a) + i);
      OwnerIs(f, a, i);
    }
  }

  lemma OwnerIs(f: nat, a: nat, i: nat)
    requires i < if a == 0 then f else 10
    ensures Owner(f, Before(f, a) + i) == a
  {
  }

  lemma SampleBuilt(f: nat, m: nat)
    requires Shape(f, m)
    ensures AllBuilt(f, m, SampleDisk(f, m), SampleLevelOf(f, m))
    ensures AllocOK(SampleMeta(f, m), SampleDisk(f, m), SampleLevelOf(f, m))
  {
    BlocksUpTo(f, m, Total(f, m));
    SpacedAlloc(SampleMeta(f, m), SampleDisk(f, m), SampleLevelOf(f, m), Total(f, m));
  }

  lemma SampleStruct(f: nat, m: nat)
    requires Shape(f, m)
    ensures StructP(SampleMeta(f, m), SampleDisk(f, m), Sample(f, m), SampleLevelOf(f, m), 0, [])
  {
    var meta, disk, lv, lvl := SampleMeta(f, m), SampleDisk(f, m), Sample(f, m), SampleLevelOf(f, m);
    SampleBuilt(f, m);
    SampleSizes(f, m);
    SampleChildren(f, m);
    LeafBlocks(f, m, disk, lvl);
    InnerBlocks(f, m, disk, lvl);
    SampleParents(f, m, disk, lvl);
    ThreeLevels(meta, disk, lv, lvl);
  }

  lemma SampleChildren(f: nat, m: nat)
    requires Shape(f, m)
    ensures Kids(Leaves(f, m), Slots(Inners(f, m))) && Kids(Inners(f, m), Slots([RootAt(f, m)]))
  {
    SampleSlots(f, m);
  }

  lemma SampleSizes(f: nat, m: nat)
    requires Shape(f, m)
    ensures SizesOK(Leaves(f, m), 0) && SizesOK(Inners(f, m), 1) && SizesOK([RootAt(f, m)], 2)
  {
  }

  lemma ThreeLevels(meta: Meta, disk: Disk, lv: seq<Level>, lvl: map<Off, nat>)
    requires |lv| == 3 && meta.height == 2 && meta.order == BP_ORDER && |lv[2]| == 1
    requires meta.leafNum == |lv[0]| && meta.internalNum == |lv[1]| + 1
    requires LevelOK(disk, lvl, lv[0], 0) && LevelOK(disk, lvl, lv[1], 1) && LevelOK(disk, lvl, lv[2], 2)
    requires meta.rootOffset == lv[2][0].off && meta.leafOffset == lv[0][0].off
    requires AllocOK(meta, disk, lvl)
    requires ParentsOK(disk, lv[1]) && ParentOK(disk, lv[2][0])
    requires SizesOK(lv[0], 0) && SizesOK(lv[1], 1) && SizesOK(lv[2], 2)
    requires Kids(lv[0], Slots(lv[1])) && Kids(lv[1], Slots(lv[2]))
    requires lv[2][0].off in disk && disk[lv[2][0].off].parent == 0
    ensures StructP(meta, disk, lv, lvl, 0, [])
  {
    InnerThree(lv);
  }

  ghost predicate Spaced(disk: Disk, total: nat)
  {
    forall o :: o in disk ==> exists i: nat :: i < total && o == Place(i)
  }

  lemma SpacedAlloc(meta: Meta, disk: Disk, lvl: map<Off, nat>, total: nat)
    requires Spaced(disk, total) && lvl.Keys <= disk.Keys && meta.slot == Place(total)
    ensures AllocOK(meta, disk, lvl)
  {
    forall o | o in disk ensures META_SIZE <= o && o + SizeOf(disk[o]) <= meta.slot {
      var i: nat :| i < total && o == Place(i);
    }
    forall o, p | o in disk && p in disk && o < p ensures o + SizeOf(disk[o]) <= p {
      var i: nat :| i < total && o == Place(i);
      var j: nat :| j < total && p == Place(j);
    }
  }

  lemma InnerThree(lv: seq<Level>)
    requires |lv| == 3
    ensures Inner(lv) == |lv[1]| + |lv[2]|
  {
    assert lv[..2][..1] == [lv[0]];
    assert Inner(lv[..2]) == Inner(lv[..2][..1]) + |lv[1]|;
  }

  lemma SampleKeys(f: nat, m: nat)
    requires Shape(f, m)
    ensures KeysP(Sample(f, m), 0, [])
  {
    var lv := Sample(f, m);
    SampleSlots(f, m);
    LeafKeysOK(f, m);
    InnerKeysOK(f, m);
    assert LeavesSorted(lv[0]) by {
      forall c | 0 <= c < |lv[0]| ensures SortedRecs(RecsOf(lv[0][c])) {
        LeafSorted(c);
      }
    }
    forall l | 1 <= l < 3 ensures KeysAt(lv[l-1], Flat(lv, l, 0, [])) {
    }
  }

  lemma LeafSorted(c: nat)
    requires c < 300
    ensures SortedRecs(LeafRecs(c))
  {
    forall a, b | 0 <= a < b < 10 ensures Rank(LeafRecs(c)[a].key) < Rank(LeafRecs(c)[b].key) {
      NumOrder(10 * c + a, 10 * c + b);
    }
  }

  lemma LeafKeysOK(f: nat, m: nat)
    requires Shape(f, m)
    ensures KeysAt(Leaves(f, m), LeafSlots(0, Before(f, m)))
  {
    var L, S := Leaves(f, m), LeafSlots(0, Before(f, m));
    forall a, b | 0 <= a < b < |S| - 1 ensures Rank(S[a].key) < Rank(S[b].key) {
      NumOrder(10 * a + 10, 10 * b + 10);
    }
    forall c | 0 <= c < |S| - 1 ensures SepOK(L[c], L[c+1], S[c].key) {
      LeafSep(c);
      assert L[c+1] == LeafNode(Place(c + 1), LeafRecs(c + 1));
    }
  }

  lemma LeafSep(c: nat)
    requires c < 300
    ensures SepOK(LeafNode(Place(c), LeafRecs(c)), LeafNode(Place(c + 1), LeafRecs(c + 1)), LeafSlot(c).key)
  {
    var k, y := LeafSlot(c).key, LeafNode(Place(c + 1), LeafRecs(c + 1));
    assert RecsOf(y) == LeafRecs(c + 1);
    forall i | 0 <= i < 10 ensures Rank(LeafRecs(c)[i].key) < Rank(k) {
      NumOrder(10 * c + i, 10 * c + 10);
    }
    forall i | 0 <= i < 10 ensures Rank(k) <= Rank(RecsOf(y)[i].key) {
      assert 10 * (c + 1) + i == 10 * c + 10 + i;
      if i > 0 {
        NumOrder(10 * c + 10, 10 * c + 10 + i);
      }
    }
  }

  lemma InnerKeysOK(f: nat, m: nat)
    requires Shape(f, m)
    ensures KeysAt(Inners(f, m), RootAt(f, m).slots)
  {
    var L, S := Inners(f, m), RootAt(f, m).slots;
    forall a, b | 0 <= a < b < |S| - 1 ensures Rank(S[a].key) < Rank(S[b].key) {
      NumOrder(10 * Before(f, a + 1), 10 * Before(f, b + 1));
    }
    forall c | 0 <= c < |S| - 1 ensures SepOK(L[c], L[c+1], S[c].key) {
      InnerSep(f, m, c);
    }
  }

  lemma InnerSep(f: nat, m: nat, c: nat)
    requires Shape(f, m) && c + 1 < m
    ensures SepOK(InnerAt(f, m, c), InnerAt(f, m, c + 1), Num(10 * Before(f, c + 1)))
  {
    assert Before(f, c + 1) == Before(f, c) + (if c == 0 then f else 10);
  }

  lemma SampleTree(f: nat, m: nat)
    requires Shape(f, m)
    ensures Inv(SampleMeta(f, m), SampleDisk(f, m), Sample(f, m), SampleLevelOf(f, m))
  {
    SampleStruct(f, m);
    SampleKeys(f, m);
    FoldStruct(SampleMeta(f, m), SampleDisk(f, m), Sample(f, m), SampleLevelOf(f, m), 0, []);
    FoldTree(SampleMeta(f, m), SampleDisk(f, m), Sample(f, m), SampleLevelOf(f, m), 0, []);
  }

  // ---------- three removals that break it ----------

  lemma SampleUnder(f: nat, m: nat, a: nat, i: nat)
    requires Shape(f, m) && a < m && i < (if a == 0 then f else 10)
    ensures Under(Sample(f, m), 0, Before(f, a) + i, a, i)
  {
    SampleSlots(f, m);
  }

  // No leaf has a neighbour to borrow from.
  lemma SampleLeaves(f: nat, m: nat, c: nat)
    requires Shape(f, m) && c < Before(f, m)
    ensures AllTen(Leaves(f, m)) && HasRec(RecsOf(Leaves(f, m)[c]), Num(10 * c))
  {
    assert LeafRecs(c)[0].key == Num(10 * c);
  }

  ghost predicate AllTen(L: Level)
  {
    |L| > 1 && forall d :: 0 <= d < |L| ==> Count(L[d]) == MIN_FILL
  }

  lemma DoomedLeaf(lv: seq<Level>, f: nat, m: nat, a: nat, i: nat, c: nat)
    requires Shape(f, m) && c < Before(f, m)
    requires |lv| >= 2 && lv[0] == Leaves(f, m) && Under(lv, 0, c, a, i) && Cascade(lv, 1, a)
    ensures RemoveDoomed(lv, Num(10 * c))
  {
    SampleLeaves(f, m, c);
    DoomedAmongTens(lv, Num(10 * c), c, a, i);
  }

  lemma DoomedAmongTens(lv: seq<Level>, key: Key, c: nat, k: nat, pi: nat)
    requires |lv| >= 2 && AllTen(lv[0]) && Cascade(lv, 1, k)
    requires Under(lv, 0, c, k, pi) && HasRec(RecsOf(lv[0][c]), key)
    ensures RemoveDoomed(lv, key)
  {
    assert LeafDoomedUnder(lv, c, k);
    assert LeafDoomed(lv, c);
  }

  /** Two internal nodes of ten: the merge leaves the root with one child, and the new root keeps
      a parent (src/common/bpt.cc:290-298). */
  lemma CollapseFails(f: nat, m: nat)
    requires f == 10 && m == 2
    ensures Inv(SampleMeta(f, m), SampleDisk(f, m), Sample(f, m), SampleLevelOf(f, m))
    ensures RemoveDoomed(Sample(f, m), Num(0))
  {
    var lv := Sample(f, m);
    SampleTree(f, m);
    SampleSlots(f, m);
    assert Cascade(lv, 2, 0);
    assert Under(lv, 1, 0, 0, 0) && CascadeUnder(lv, 1, 0, 0, 0);
    SampleUnder(f, m, 0, 0);
    DoomedLeaf(lv, f, m, 0, 0, 0);
  }

  /** A node of more than ten leaves left of one of ten: the borrow loses a separator
      (src/common/bpt.cc:377-390). */
  lemma LeftBorrowFails(f: nat, m: nat)
    requires Shape(f, m) && f > 10
    ensures Inv(SampleMeta(f, m), SampleDisk(f, m), Sample(f, m), SampleLevelOf(f, m))
    ensures RemoveDoomed(Sample(f, m), Num(10 * f))
  {
    var lv := Sample(f, m);
    SampleTree(f, m);
    SampleSlots(f, m);
    assert Under(lv, 1, 1, 0, 1) && CascadeUnder(lv, 1, 1, 0, 1);
    SampleUnder(f, m, 1, 0);
    DoomedLeaf(lv, f, m, 1, 0, f);
  }

  /** A full root, the last child of which loses a leaf: the deletion in the root runs past its
      last slot (src/common/bpt.cc:318-343). */
  lemma LastMergeFails(f: nat, m: nat)
    requires Shape(f, m) && m == 20
    ensures Inv(SampleMeta(f, m), SampleDisk(f, m), Sample(f, m), SampleLevelOf(f, m))
    ensures RemoveDoomed(Sample(f, m), Num(10 * Before(f, m - 1)))
  {
    var lv := Sample(f, m);
    SampleTree(f, m);
    SampleSlots(f, m);
    var a := m - 1;
    assert Cascade(lv, 1, a) by {
      assert Under(lv, 1, a, 0, a) && CascadeUnder(lv, 1, a, 0, a);
    }
    SampleUnder(f, m, a, 0);
    DoomedLeaf(lv, f, m, a, 0, Before(f, a));
  }

  // ---------- which of these removals lose a record ----------

  lemma SampleLoses(f: nat, m: nat, a: nat, i: nat, c: nat)
    requires Shape(f, m) && a < m && i < (if a == 0 then f else 10) && c == Before(f, a) + i && c < Before(f, m)
    ensures RemoveLoses(Sample(f, m), Num(10 * c)) <==> LosesAt(Sample(f, m), c, a)
    ensures RemoveOverruns(Sample(f, m), Num(10 * c)) <==> OverrunsAt(Sample(f, m), c, a)
  {
    SampleTree(f, m);
    SampleUnder(f, m, a, i);
    SampleLeaves(f, m, c);
    SampleSlots(f, m);
    RecordLoses(SampleMeta(f, m), SampleDisk(f, m), Sample(f, m), SampleLevelOf(f, m), c, Num(10 * c), a, i);
  }

  /** The collapse of the root loses none. */
  lemma CollapseKeeps(f: nat, m: nat)
    requires f == 10 && m == 2
    ensures !RemoveLoses(Sample(f, m), Num(0)) && !RemoveOverruns(Sample(f, m), Num(0))
  {
    var lv := Sample(f, m);
    SampleSlots(f, m);
    SampleLoses(f, m, 0, 0, 0);
    assert Under(lv, 1, 0, 0, 0);
    LosesHere(lv, 1, 0, 0, 0, false);
    OverrunsHere(lv, 1, 0, 0, 0, false);
  }

  /** The left borrow loses records. */
  lemma LeftBorrowHides(f: nat, m: nat)
    requires Shape(f, m) && f > 10
    ensures RemoveLoses(Sample(f, m), Num(10 * f)) && !RemoveOverruns(Sample(f, m), Num(10 * f))
  {
    var lv := Sample(f, m);
    SampleSlots(f, m);
    SampleLoses(f, m, 1, 0, f);
    SampleLeaves(f, m, f);
    assert Under(lv, 1, 1, 0, 1);
    LosesHere(lv, 1, 1, 0, 1, false);
    OverrunsHere(lv, 1, 1, 0, 1, false);
  }

  /** The merge of a last child below a full root loses none, but writes past the end of the root. */
  lemma LastMergeKeeps(f: nat, m: nat)
    requires Shape(f, m) && m == 20
    ensures !RemoveLoses(Sample(f, m), Num(10 * Before(f, m - 1)))
    ensures RemoveOverruns(Sample(f, m), Num(10 * Before(f, m - 1)))
  {
    var lv := Sample(f, m);
    var a := m - 1;
    SampleSlots(f, m);
    SampleLoses(f, m, a, 0, Before(f, a));
    assert Under(lv, 1, a, 0, a);
    LosesHere(lv, 1, a, 0, a, false);
    SampleLeaves(f, m, Before(f, a));
    OverrunsHere(lv, 1, a, 0, a, false);
  }
}
