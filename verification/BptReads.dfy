/** The leaves of a file that is only searchable or readable: reading and updating them. */
module BptReads {
  import opened BptLevels
  import opened BptTree
  import opened BptPaths
  import opened BptMerge
  import opened BptLeafSteps
  import opened BptLeafInsert
  import opened BptOrder
  import opened BptLoss
  import opened BptTwin

  // A leaf, and the same one in the well-formed file beside.
  lemma LeafRead(meta: Meta, disk: Disk, lv: seq<Level>, lvl: map<Off, nat>, D: Disk, B: seq<Level>, c: nat)
    requires IsTwin(meta, disk, lv, lvl, D, B) && c < |lv[0]|
    ensures lv[0][c].LeafNode? && lv[0][c].off in disk && disk[lv[0][c].off].Leaf? && lv[0][c].off != 0
    ensures disk[lv[0][c].off].recs == lv[0][c].recs && SortedRecs(lv[0][c].recs)
    ensures disk[lv[0][c].off].next == OffAt(lv[0], c + 1)
  {
    LeafAt(meta, D, B, lvl, c);
    assert SameRead(disk[lv[0][c].off], D[lv[0][c].off]);
  }

  // The value of record i of leaf c becomes another one.
  ghost function UpdatedDisk(disk: Disk, x: Node): Disk
    requires x.LeafNode? && x.off in disk && disk[x.off].Leaf?
  {
    disk[x.off := disk[x.off].(recs := x.recs)]
  }

  ghost function UpdatedLeaf(x: Node, i: nat, value: int): Node
    requires x.LeafNode? && i < |x.recs|
  {
    LeafNode(x.off, x.recs[i := Record(x.recs[i].key, value)])
  }

  lemma UpdateBuilt(meta: Meta, disk: Disk, lv: seq<Level>, lvl: map<Off, nat>, c: nat, x: Node)
    requires Built(meta, disk, lv, lvl) && c < |lv[0]| && x.LeafNode? && x.off == lv[0][c].off
    requires x.off in disk && disk[x.off].Leaf? && lv[0][c].LeafNode? && |x.recs| == |lv[0][c].recs|
    ensures Built(meta, UpdatedDisk(disk, x), lv[0 := lv[0][c := x]], lvl)
  {
    var R := WithoutParent(disk, meta.rootOffset);
    OpenStruct(meta, R, lv, lvl, 0, []);
    NodeFacts(meta, R, lv, lvl, 0, [], meta.height, 0);
    LeafFacts(meta, R, lv, lvl, 0, [], c);
    assert UpdatedDisk(R, x) == WithoutParent(UpdatedDisk(disk, x), meta.rootOffset);
    RewriteLeafStruct(meta, R, UpdatedDisk(R, x), lv, lvl, c, x);
  }

  lemma UpdateEntries(lv: seq<Level>, c: nat, i: nat, value: int)
    requires Ordered(lv) && c < |lv[0]| && lv[0][c].LeafNode? && i < |lv[0][c].recs|
    ensures var lv' := lv[0 := lv[0][c := UpdatedLeaf(lv[0][c], i, value)]];
      Ordered(lv') && Entries(lv') == Entries(lv)[lv[0][c].recs[i].key := value]
    ensures lv[0][c].recs[i].key in Entries(lv)
  {
    RecsUpdate(lv[0], c, i, value);
    RecsAt(lv[0], c, i);
    DictUpdate(Recs(lv[0]), RecStart(lv[0], c) + i, value);
  }

  lemma UpdateTwin(meta: Meta, disk: Disk, lv: seq<Level>, lvl: map<Off, nat>, D: Disk, B: seq<Level>,
      c: nat, i: nat, value: int)
    requires IsTwin(meta, disk, lv, lvl, D, B) && c < |lv[0]| && lv[0][c].LeafNode? && i < |lv[0][c].recs|
    ensures lv[0][c].off in disk && disk[lv[0][c].off].Leaf? && lv[0][c].off in D && D[lv[0][c].off].Leaf?
    ensures var x := UpdatedLeaf(lv[0][c], i, value);
      IsTwin(meta, UpdatedDisk(disk, x), lv[0 := lv[0][c := x]], lvl, UpdatedDisk(D, x), B[0 := B[0][c := x]])
  {
    var x := UpdatedLeaf(lv[0][c], i, value);
    LeafRead(meta, disk, lv, lvl, D, B, c);
    LeafAt(meta, D, B, lvl, c);
    UpdateStep(meta, D, B, lvl, c, i, value);
    TwinSelf(lv[0][c := x]);
    assert SameReads(UpdatedDisk(disk, x), UpdatedDisk(D, x));
    assert Twin(lv[0 := lv[0][c := x]], B[0 := B[0][c := x]], |lv|);
  }

  /** An update changes one binding, and keeps of the file what held of it before. */
  lemma UpdateKeeps(meta: Meta, disk: Disk, lv: seq<Level>, lvl: map<Off, nat>, c: nat, i: nat, value: int)
    requires Readable(meta, disk, lv, lvl) && c < |lv[0]| && lv[0][c].LeafNode? && i < |lv[0][c].recs|
    requires lv[0][c].off in disk && disk[lv[0][c].off].Leaf?
    ensures var x := UpdatedLeaf(lv[0][c], i, value);
      var disk', lv' := UpdatedDisk(disk, x), lv[0 := lv[0][c := x]];
      && Readable(meta, disk', lv', lvl)
      && (Searchable(meta, disk, lv, lvl) ==> Searchable(meta, disk', lv', lvl))
      && (Inv(meta, disk, lv, lvl) ==> Inv(meta, disk', lv', lvl))
      && Entries(lv') == Entries(lv)[x.recs[i].key := value]
    ensures lv[0][c].recs[i].key in Entries(lv)
  {
    var x := UpdatedLeaf(lv[0][c], i, value);
    OpenReadable(meta, disk, lv, lvl);
    UpdateBuilt(meta, disk, lv, lvl, c, x);
    UpdateEntries(lv, c, i, value);
    if Searchable(meta, disk, lv, lvl) {
      var D, B := OpenSearchable(meta, disk, lv, lvl);
      UpdateTwin(meta, disk, lv, lvl, D, B, c, i, value);
    }
    if Inv(meta, disk, lv, lvl) {
      UpdateStep(meta, disk, lv, lvl, c, i, value);
    }
  }
}
