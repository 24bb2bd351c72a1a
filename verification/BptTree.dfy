/** When a file holds a B+ tree: the invariant of `bplus_tree`, level by level. */
module BptTree {
  import opened KeyOrder
  import opened BptLevels

  // Sizes of the blocks in the file (bytes), as laid out by a 64-bit compiler.
  const META_SIZE: nat := 72
  const LEAF_SIZE: nat := 1392
  const INTERNAL_SIZE: nat := 1472

  // ---------- one level ----------

  ghost function OffAt(L: Level, j: int): Off { if 0 <= j < |L| then L[j].off else 0 }

  ghost predicate Matches(b: Block, x: Node)
  {
    match x
    case LeafNode(_, recs) => b.Leaf? && b.recs == recs
    case InnerNode(_, slots) => b.Internal? && b.slots == slots
  }

  // Node j of level l is on disk, linked to its neighbours whatever their parents are.
  // The ghost map lvl remembers the level of every block ever handed out.
  ghost predicate NodeOK(disk: Disk, lvl: map<Off, nat>, L: Level, l: nat, j: nat)
    requires j < |L|
  {
    var o := L[j].off;
    && o != 0 && o in disk && o in lvl && lvl[o] == l
    && (L[j].LeafNode? <==> l == 0)
    && Matches(disk[o], L[j])
    && disk[o].next == OffAt(L, j + 1)
    && disk[o].prev == OffAt(L, j - 1)
  }

  ghost predicate Distinct(L: Level)
  {
    forall i, j :: 0 <= i < j < |L| ==> L[i].off != L[j].off
  }

  ghost predicate LevelOK(disk: Disk, lvl: map<Off, nat>, L: Level, l: nat)
  {
    && |L| >= 1
    && Distinct(L)
    && forall j :: 0 <= j < |L| ==> NodeOK(disk, lvl, L, l, j)
  }

  ghost predicate ParentOK(disk: Disk, x: Node)
  {
    forall i :: 0 <= i < |SlotsOf(x)| ==>
      SlotsOf(x)[i].child in disk && disk[SlotsOf(x)[i].child].parent == x.off
  }

  ghost predicate ParentsOK(disk: Disk, L: Level)
  {
    forall j :: 0 <= j < |L| ==> ParentOK(disk, L[j])
  }

  // ---------- two neighbouring levels ----------

  // The slots S of a level point to the nodes of the level below, in order.
  ghost predicate Kids(lower: Level, S: seq<Slot>)
  {
    |S| == |lower| && forall c :: 0 <= c < |S| ==> S[c].child == lower[c].off
  }

  // The keys of all slots but the rightmost separate: strictly increasing.
  ghost predicate SortedSlots(S: seq<Slot>)
  {
    forall a, b :: 0 <= a < b < |S| - 1 ==> Rank(S[a].key) < Rank(S[b].key)
  }

  ghost predicate SortedRecs(R: seq<Record>)
  {
    forall a, b :: 0 <= a < b < |R| ==> Rank(R[a].key) < Rank(R[b].key)
  }

  // k separates neighbours x and y. Between leaves: x < k <= y. Between internal nodes k is
  // the key of the last slot of x: the hidden-key invariant, which makes the "unused" last
  // key of every internal node off the right spine equal to the separator above it.
  ghost predicate SepOK(x: Node, y: Node, k: Key)
  {
    match x
    case InnerNode(_, slots) => |slots| > 0 && slots[|slots|-1].key == k
    case LeafNode(_, recs) =>
      && (forall i :: 0 <= i < |recs| ==> Rank(recs[i].key) < Rank(k))
      && (forall i :: 0 <= i < |RecsOf(y)| ==> Rank(k) <= Rank(RecsOf(y)[i].key))
  }

  ghost predicate SepAll(lower: Level, S: seq<Slot>)
    requires |S| == |lower|
  {
    forall c :: 0 <= c < |S| - 1 ==> SepOK(lower[c], lower[c+1], S[c].key)
  }

  ghost predicate KeysAt(lower: Level, S: seq<Slot>)
  {
    |S| == |lower| && SortedSlots(S) && SepAll(lower, S)
  }

  // ---------- the whole tree ----------

  // Fewest children of a node of level l that has `len` nodes. Only the root level of a
  // tree, and the leaf level of a tree of one leaf, have a single node.
  ghost function MinSize(l: nat, len: nat): nat
  {
    if len != 1 then MIN_FILL else if l == 0 then 0 else if l == 1 then 1 else 2
  }

  ghost predicate SizesOK(L: Level, l: nat)
  {
    forall j :: 0 <= j < |L| ==> MinSize(l, |L|) <= Count(L[j]) <= BP_ORDER
  }

  ghost function Inner(lv: seq<Level>): nat
  {
    if |lv| <= 1 then 0 else Inner(lv[..|lv|-1]) + |lv[|lv|-1]|
  }

  ghost function SizeOf(b: Block): nat { if b.Leaf? then LEAF_SIZE else INTERNAL_SIZE }

  // Blocks lie below meta.slot, do not overlap, and do not overlap the meta block.
  ghost predicate AllocOK(meta: Meta, disk: Disk, lvl: map<Off, nat>)
  {
    && lvl.Keys <= disk.Keys
    && (forall o :: o in disk ==> META_SIZE <= o && o + SizeOf(disk[o]) <= meta.slot)
    && (forall o, p :: o in disk && p in disk && o < p ==> o + SizeOf(disk[o]) <= p)
    && META_SIZE <= meta.slot
  }

  ghost predicate MetaOK(meta: Meta, lv: seq<Level>)
  {
    && meta.order == BP_ORDER
    && |lv| == meta.height + 1 >= 2
    && |lv[0]| >= 1
    && |lv[meta.height]| >= 1
    && meta.leafNum == |lv[0]|
    && meta.internalNum == Inner(lv)
    && meta.rootOffset == lv[meta.height][0].off
    && meta.leafOffset == lv[0][0].off
  }

  // While a change climbs the tree, the slots of one level p are still to be written; S is
  // what they must become. With p == 0 nothing is pending; with p == |lv| the two nodes of
  // the top level are waiting for a new root.
  ghost function Flat(lv: seq<Level>, l: nat, p: nat, S: seq<Slot>): seq<Slot>
    requires l < |lv| || l == p
  {
    if l == p then S else Slots(lv[l])
  }

  ghost predicate TopOK(disk: Disk, L: Level)
  {
    forall j :: 0 <= j < |L| ==> L[j].off in disk && disk[L[j].off].parent == 0
  }

  ghost predicate Blocks(disk: Disk, lv: seq<Level>, lvl: map<Off, nat>)
  {
    forall l :: 0 <= l < |lv| ==> LevelOK(disk, lvl, lv[l], l)
  }

  ghost predicate Parents(disk: Disk, lv: seq<Level>)
  {
    forall l :: 1 <= l < |lv| ==> ParentsOK(disk, lv[l])
  }

  ghost predicate Sizes(lv: seq<Level>)
  {
    forall l :: 0 <= l < |lv| ==> SizesOK(lv[l], l)
  }

  ghost predicate Children(lv: seq<Level>, p: nat, S: seq<Slot>)
  {
    && p <= |lv|
    && forall l :: 1 <= l < |lv| + (if p == |lv| then 1 else 0) ==> Kids(lv[l-1], Flat(lv, l, p, S))
  }

  ghost predicate StructP(meta: Meta, disk: Disk, lv: seq<Level>, lvl: map<Off, nat>, p: nat, S: seq<Slot>)
  {
    && MetaOK(meta, lv)
    && AllocOK(meta, disk, lvl)
    && Blocks(disk, lv, lvl)
    && Parents(disk, lv)
    && Sizes(lv)
    && Children(lv, p, S)
    && |lv[meta.height]| == (if p == |lv| then 2 else 1)
    && TopOK(disk, lv[meta.height])
  }

  ghost predicate LeavesSorted(L: Level)
  {
    forall j :: 0 <= j < |L| ==> SortedRecs(RecsOf(L[j]))
  }

  ghost predicate KeysP(lv: seq<Level>, p: nat, S: seq<Slot>)
  {
    && |lv| >= 1 && p <= |lv|
    && LeavesSorted(lv[0])
    && (forall l :: 1 <= l < |lv| + (if p == |lv| then 1 else 0) ==> KeysAt(lv[l-1], Flat(lv, l, p, S)))
  }

  ghost predicate Struct(meta: Meta, disk: Disk, lv: seq<Level>, lvl: map<Off, nat>)
  {
    StructP(meta, disk, lv, lvl, 0, [])
  }

  // Kept folded, the invariants show what they say only where OpenStruct or OpenTree asks.
  ghost predicate Unfold(meta: Meta) { true }

  ghost predicate FoldedStruct(meta: Meta, disk: Disk, lv: seq<Level>, lvl: map<Off, nat>, p: nat, S: seq<Slot>)
  {
    && |lv| == meta.height + 1 >= 2
    && p <= |lv|
    && forall u {:trigger Unfold(u)} :: u == meta ==> StructP(u, disk, lv, lvl, p, S)
  }

  lemma OpenStruct(meta: Meta, disk: Disk, lv: seq<Level>, lvl: map<Off, nat>, p: nat, S: seq<Slot>)
    requires FoldedStruct(meta, disk, lv, lvl, p, S)
    ensures StructP(meta, disk, lv, lvl, p, S)
  {
    assert Unfold(meta);
  }

  lemma FoldStruct(meta: Meta, disk: Disk, lv: seq<Level>, lvl: map<Off, nat>, p: nat, S: seq<Slot>)
    requires StructP(meta, disk, lv, lvl, p, S)
    ensures FoldedStruct(meta, disk, lv, lvl, p, S)
  {
  }

  ghost predicate Folded(meta: Meta, disk: Disk, lv: seq<Level>, lvl: map<Off, nat>, p: nat, S: seq<Slot>)
  {
    && FoldedStruct(meta, disk, lv, lvl, p, S)
    && forall u {:trigger Unfold(u)} :: u == meta ==> KeysP(lv, p, S)
  }

  lemma OpenTree(meta: Meta, disk: Disk, lv: seq<Level>, lvl: map<Off, nat>, p: nat, S: seq<Slot>)
    requires Folded(meta, disk, lv, lvl, p, S)
    ensures StructP(meta, disk, lv, lvl, p, S) && KeysP(lv, p, S)
  {
    assert Unfold(meta);
  }

  lemma FoldTree(meta: Meta, disk: Disk, lv: seq<Level>, lvl: map<Off, nat>, p: nat, S: seq<Slot>)
    requires FoldedStruct(meta, disk, lv, lvl, p, S) && KeysP(lv, p, S)
    ensures Folded(meta, disk, lv, lvl, p, S)
  {
  }

  // The invariant of the tree.
  ghost predicate Inv(meta: Meta, disk: Disk, lv: seq<Level>, lvl: map<Off, nat>)
  {
    Folded(meta, disk, lv, lvl, 0, [])
  }

  // The file alone decides whether it holds a well-formed tree.
  ghost predicate Sound(meta: Meta, disk: Disk)
  {
    exists lv: seq<Level>, lvl: map<Off, nat> :: Inv(meta, disk, lv, lvl)
  }

  // ---------- the levels are determined by the file ----------

  lemma NodeDetermined(disk: Disk, lvl1: map<Off, nat>, lvl2: map<Off, nat>, L1: Level, L2: Level, l: nat, j: nat)
    requires j < |L1| && j < |L2| && L1[j].off == L2[j].off
    requires NodeOK(disk, lvl1, L1, l, j) && NodeOK(disk, lvl2, L2, l, j)
    ensures L1[j] == L2[j]
  {
  }

  lemma LevelDetermined(disk: Disk, lvl1: map<Off, nat>, lvl2: map<Off, nat>, L1: Level, L2: Level, l: nat)
    requires LevelOK(disk, lvl1, L1, l) && LevelOK(disk, lvl2, L2, l)
    requires |L1| == |L2| && forall j :: 0 <= j < |L1| ==> L1[j].off == L2[j].off
    ensures L1 == L2
  {
    forall j | 0 <= j < |L1| ensures L1[j] == L2[j] {
      NodeDetermined(disk, lvl1, lvl2, L1, L2, l, j);
    }
  }

  /** Two readings of one file as a tree agree on every level, from the root down. */
  lemma {:induction false} LevelsDetermined(meta: Meta, disk: Disk,
      lv1: seq<Level>, lvl1: map<Off, nat>, lv2: seq<Level>, lvl2: map<Off, nat>, l: nat)
    requires Struct(meta, disk, lv1, lvl1) && Struct(meta, disk, lv2, lvl2)
    requires l <= meta.height
    ensures |lv1| == |lv2| && forall m :: l <= m < |lv1| ==> lv1[m] == lv2[m]
    decreases meta.height - l
  {
    if l < meta.height {
      LevelsDetermined(meta, disk, lv1, lvl1, lv2, lvl2, l + 1);
      assert Kids(lv1[l], Flat(lv1, l + 1, 0, [])) && Kids(lv2[l], Flat(lv2, l + 1, 0, []));
      forall j | 0 <= j < |lv1[l]| ensures lv1[l][j].off == lv2[l][j].off {
        assert Slots(lv1[l+1])[j].child == lv1[l][j].off;
      }
    }
    LevelDetermined(disk, lvl1, lvl2, lv1[l], lv2[l], l);
  }

  lemma Unique(meta: Meta, disk: Disk, lv1: seq<Level>, lvl1: map<Off, nat>, lv2: seq<Level>, lvl2: map<Off, nat>)
    requires Struct(meta, disk, lv1, lvl1) && Struct(meta, disk, lv2, lvl2)
    ensures lv1 == lv2
  {
    LevelsDetermined(meta, disk, lv1, lvl1, lv2, lvl2, 0);
  }

  // So a file whose structure is right but whose keys are not is not a tree at all.
  lemma WrongKeys(meta: Meta, disk: Disk, lv: seq<Level>, lvl: map<Off, nat>)
    requires Struct(meta, disk, lv, lvl) && !KeysP(lv, 0, [])
    ensures !Sound(meta, disk)
  {
    if Sound(meta, disk) {
      var lv2: seq<Level>, lvl2: map<Off, nat> :| Inv(meta, disk, lv2, lvl2);
      OpenTree(meta, disk, lv2, lvl2, 0, []);
      Unique(meta, disk, lv, lvl, lv2, lvl2);
    }
  }

  lemma WrongRoot(meta: Meta, disk: Disk)
    requires meta.rootOffset in disk && disk[meta.rootOffset].parent != 0
    ensures !Sound(meta, disk)
  {
    forall lv: seq<Level>, lvl: map<Off, nat> ensures !Inv(meta, disk, lv, lvl) {
      if Inv(meta, disk, lv, lvl) {
        OpenTree(meta, disk, lv, lvl, 0, []);
        assert false;
      }
    }
  }
}
