/** The conditions under which remove fails as it is written, hides a record, or writes past the end of
    a node, as checks that read the file: a caller can evaluate them before the call. */
module BptGuard {
  import opened KeyOrder
  import opened BptLevels
  import opened BptTree
  import opened BptSearch
  import opened BptPaths
  import opened BptIndexDelete
  import opened BptRebalance
  import opened BptRemoveFacts
  import opened BptLeafMerge
  import opened BptLoss
  import opened BptTwin
  import opened Bpt

  // With nothing pending, the slots of any level may be given in full.
  lemma NothingPending(meta: Meta, disk: Disk, lv: seq<Level>, lvl: map<Off, nat>, l: nat)
    requires Inv(meta, disk, lv, lvl) && 1 <= l < |lv|
    ensures FoldedStruct(meta, disk, lv, lvl, l, Slots(lv[l]))
  {
    OpenTree(meta, disk, lv, lvl, 0, []);
    assert forall m :: 1 <= m < |lv| ==> Flat(lv, m, l, Slots(lv[l])) == Flat(lv, m, 0, []);
    FoldStruct(meta, disk, lv, lvl, l, Slots(lv[l]));
  }

  // Only nodes of the top level have no parent; the last node of a level has no next.
  lemma TopNode(meta: Meta, disk: Disk, lv: seq<Level>, lvl: map<Off, nat>, l: nat, j: nat)
    requires Inv(meta, disk, lv, lvl) && 1 <= l < |lv| && j < |lv[l]|
    ensures lv[l][j].InnerNode? && lv[l][j].off in disk && disk[lv[l][j].off].Internal?
    ensures disk[lv[l][j].off].slots == lv[l][j].slots && disk[lv[l][j].off].next == OffAt(lv[l], j + 1)
    ensures lv[l][j].off != 0 && (disk[lv[l][j].off].next != 0 <==> j + 1 < |lv[l]|)
    ensures lv[l][j].off == meta.rootOffset <==> l == |lv| - 1
  {
    OpenTree(meta, disk, lv, lvl, 0, []);
    NodeFacts(meta, disk, lv, lvl, 0, [], l, j);
    NodeFacts(meta, disk, lv, lvl, 0, [], meta.height, 0);
    assert LevelOK(disk, lvl, lv[l], l) && NodeOK(disk, lvl, lv[l], l, j);
    if j + 1 < |lv[l]| {
      assert NodeOK(disk, lvl, lv[l], l, j + 1);
    }
  }

  // What a node that loses a slot does, unless it is the root: it keeps enough slots, takes one from a
  // sibling, or merges with its right sibling or, as a last child, into its left one.
  datatype Way = AtRoot | Roomy | FromLeft | FromRight | WithNext | IntoPrev

  ghost function WayOf(lv: seq<Level>, l: nat, j: nat, k: nat, i: nat): Way
    requires Under(lv, l, j, k, i)
  {
    var n := Count(lv[l+1][k]);
    if Count(lv[l][j]) > MIN_FILL then Roomy
    else if i > 0 && Count(lv[l][j-1]) > MIN_FILL then FromLeft
    else if i + 1 < n && j + 1 < |lv[l]| && Count(lv[l][j+1]) > MIN_FILL then FromRight
    else if i + 1 < n then WithNext
    else IntoPrev
  }

  method WayUp(t: BplusTree, off: Off, l: nat, ghost j: nat) returns (way: Way, up: Off, ghost k: nat, ghost i: nat)
    requires t.Valid() && 1 <= l < |t.lv| && j < |t.lv[l]| && off == t.lv[l][j].off
    ensures off in t.disk && t.disk[off].Internal? && t.disk[off].slots == SlotsOf(t.lv[l][j])
    ensures t.lv[l][j].InnerNode? && (way.AtRoot? <==> l == |t.lv| - 1)
    ensures !way.AtRoot? ==> Under(t.lv, l, j, k, i) && way == WayOf(t.lv, l, j, k, i) && up == t.lv[l+1][k].off
  {
    TopNode(t.meta, t.disk, t.lv, t.lvl, l, j);
    var node := t.disk[off];
    if off == t.meta.rootOffset {
      return AtRoot, off, 0, 0;
    }
    NothingPending(t.meta, t.disk, t.lv, t.lvl, l);
    k, i := FamilyOf(t.meta, t.disk, t.lv, t.lvl, l, Slots(t.lv[l]), j);
    up := node.parent;
    var parent := t.disk[up];
    var first, last := parent.slots[0].child, parent.slots[|parent.slots|-1].child;
    way := if off != last then WithNext else IntoPrev;
    if |node.slots| > MIN_FILL {
      return Roomy, up, k, i;
    }
    if off != first {
      assert OnDisk(t.disk, t.lv[l][j-1]);
      if |t.disk[node.prev].slots| > MIN_FILL {
        return FromLeft, up, k, i;
      }
    }
    if off != last {
      assert OnDisk(t.disk, t.lv[l][j+1]);
      if |t.disk[node.next].slots| > MIN_FILL {
        return FromRight, up, k, i;
      }
    }
  }

  /** Whether taking a slot out of node j of level l goes wrong, there or further up. */
  method CascadeFrom(t: BplusTree, off: Off, l: nat, ghost j: nat) returns (doomed: bool)
    requires t.Valid() && 1 <= l < |t.lv| && j < |t.lv[l]| && off == t.lv[l][j].off
    ensures doomed <==> Cascade(t.lv, l, j)
    decreases |t.lv| - l
  {
    var way, up;
    ghost var k, i;
    way, up, k, i := WayUp(t, off, l, j);
    if way.AtRoot? {
      return |t.disk[off].slots| == 2 && l > 1;
    }
    CascadeHere(t.lv, l, j, k, i);
    match way
    case Roomy => doomed := false;
    case FromLeft => doomed := true;
    case FromRight => doomed := false;
    case WithNext => doomed := CascadeFrom(t, up, l + 1, k);
    case IntoPrev =>
      TopNode(t.meta, t.disk, t.lv, t.lvl, l + 1, k);
      var parent := t.disk[up];
      if |parent.slots| == BP_ORDER || parent.next != 0 {
        return true;
      }
      doomed := CascadeFrom(t, up, l + 1, k);
  }

  /** Whether taking a slot out of node j of level l loses a record; stale: its last key gets stale. */
  method LosesFrom(t: BplusTree, off: Off, l: nat, stale: bool, ghost j: nat) returns (loses: bool)
    requires t.Valid() && 1 <= l < |t.lv| && j < |t.lv[l]| && off == t.lv[l][j].off
    ensures loses <==> Loses(t.lv, l, j, stale)
    decreases |t.lv| - l
  {
    var way, up;
    ghost var k, i;
    way, up, k, i := WayUp(t, off, l, j);
    if way.AtRoot? {
      return false;
    }
    LosesHere(t.lv, l, j, k, i, stale);
    match way
    case Roomy => loses := false;
    case FromLeft => loses := true;
    case FromRight => loses := stale;
    case WithNext =>
      loses := stale;
      if !stale {
        loses := LosesFrom(t, up, l + 1, false, k);
      }
    case IntoPrev => loses := LosesFrom(t, up, l + 1, true, k);
  }

  /** Whether it writes past the end of a node. */
  method OverrunsFrom(t: BplusTree, off: Off, l: nat, stale: bool, ghost j: nat) returns (overruns: bool)
    requires t.Valid() && 1 <= l < |t.lv| && j < |t.lv[l]| && off == t.lv[l][j].off
    ensures overruns <==> Overruns(t.lv, l, j, stale)
    decreases |t.lv| - l
  {
    var way, up;
    ghost var k, i;
    way, up, k, i := WayUp(t, off, l, j);
    overruns := stale && |t.disk[off].slots| == BP_ORDER;
    if overruns || way.AtRoot? {
      return;
    }
    OverrunsHere(t.lv, l, j, k, i, stale);
    if way.WithNext? || way.IntoPrev? {
      overruns := OverrunsFrom(t, up, l + 1, way.IntoPrev?, k);
    }
  }

  /** The leaf of the key, if removing the key merges it with a neighbour; then its parent loses a slot. */
  method MergingLeaf(t: BplusTree, key: Key) returns (merges: bool, up: Off, ghost c: nat, ghost k: nat)
    requires t.Valid()
    ensures merges ==> |t.lv| >= 2 && k < |t.lv[1]| && up == t.lv[1][k].off
    ensures RemoveDoomed(t.lv, key) <==> merges && Cascade(t.lv, 1, k)
    ensures RemoveLoses(t.lv, key) <==> merges && Loses(t.lv, 1, k, false)
    ensures RemoveOverruns(t.lv, key) <==> merges && Overruns(t.lv, 1, k, false)
  {
    ghost var blocks;
    up, k, blocks := t.SearchIndex(key);
    PathNode(t.meta, t.disk, t.lv, t.lvl, 1, k);
    var parent := t.disk[up];
    var pi := FindSlot(parent.slots, key);
    PathStep(t.meta, t.disk, t.lv, t.lvl, 1, k, key, pi);
    c := Start(t.lv[1], k) + pi;
    LeafAt(t.meta, t.disk, t.lv, t.lvl, c);
    LeafDecides(t.meta, t.disk, t.lv, t.lvl, c, key);
    var off := parent.slots[pi].child;
    var found := HasKey(t.disk[off].recs, key);
    if !found {
      NotDoomed(t.lv, key);
      NotLost(t.meta, t.disk, t.lv, t.lvl, key);
      return false, up, c, k;
    }
    DoomedAt(t.meta, t.disk, t.lv, t.lvl, c, key, k, pi);
    RemoveLosesAt(t.meta, t.disk, t.lv, t.lvl, c, key, k, pi);
    LeafFamily(t.meta, t.disk, t.lv, t.lvl, c, k, pi);
    merges := LeafIsTight(t, off, c);
  }

  method LeafIsTight(t: BplusTree, off: Off, ghost c: nat) returns (tight: bool)
    requires t.Valid() && t.meta.leafNum == |t.lv[0]| && c < |t.lv[0]| && off == t.lv[0][c].off && |t.lv| >= 2
    ensures tight <==> LeafMerges(t.lv, c)
  {
    LeafAt(t.meta, t.disk, t.lv, t.lvl, c);
    LeafNext(t.meta, t.disk, t.lv, t.lvl, c);
    var leaf := t.disk[off];
    if t.meta.leafNum == 1 || |leaf.recs| > MIN_FILL {
      return false;
    }
    if leaf.prev != 0 {
      LeafAt(t.meta, t.disk, t.lv, t.lvl, c - 1);
      if |t.disk[leaf.prev].recs| > MIN_FILL {
        return false;
      }
    }
    if leaf.next != 0 {
      LeafAt(t.meta, t.disk, t.lv, t.lvl, c + 1);
      if |t.disk[leaf.next].recs| > MIN_FILL {
        return false;
      }
    }
    tight := true;
  }

  /** Whether the removal of a key fails as the code is written. */
  method RemovalIsDoomed(t: BplusTree, key: Key) returns (doomed: bool)
    requires t.Valid()
    ensures doomed <==> RemoveDoomed(t.lv, key)
  {
    var up;
    ghost var c, k;
    doomed, up, c, k := MergingLeaf(t, key);
    if doomed {
      doomed := CascadeFrom(t, up, 1, k);
    }
  }

  /** Whether it hides a record. */
  method RemovalLoses(t: BplusTree, key: Key) returns (loses: bool)
    requires t.Valid()
    ensures loses <==> RemoveLoses(t.lv, key)
  {
    var up;
    ghost var c, k;
    loses, up, c, k := MergingLeaf(t, key);
    if loses {
      loses := LosesFrom(t, up, 1, false, k);
    }
  }

  /** Whether it writes past the end of a node. */
  method RemovalOverruns(t: BplusTree, key: Key) returns (overruns: bool)
    requires t.Valid()
    ensures overruns <==> RemoveOverruns(t.lv, key)
  {
    var up;
    ghost var c, k;
    overruns, up, c, k := MergingLeaf(t, key);
    if overruns {
      overruns := OverrunsFrom(t, up, 1, false, k);
    }
  }
}
