/** The tree that init_from_empty writes: a root with one child, an empty leaf. */
module BptEmpty {
  import opened KeyOrder
  import opened BptLevels
  import opened BptTree
  import opened BptLeafSteps
  import opened BptPaths

  ghost function EmptyLevels(root: Off, leaf: Off): seq<Level>
  {
    [[LeafNode(leaf, [])], [InnerNode(root, [Slot(EMPTY_KEY, leaf)])]]
  }

  ghost function EmptyLevelOf(root: Off, leaf: Off): map<Off, nat>
  {
    map[root := 1, leaf := 0]
  }

  lemma EmptyTree(meta: Meta, disk: Disk, root: Off, leaf: Off)
    requires root == META_SIZE && leaf == META_SIZE + INTERNAL_SIZE
    requires meta == Meta(BP_ORDER, 1, 1, 1, leaf + LEAF_SIZE, root, leaf)
    requires disk == map[root := Internal(0, 0, 0, [Slot(EMPTY_KEY, leaf)]), leaf := Leaf(root, 0, 0, [])]
    ensures Inv(meta, disk, EmptyLevels(root, leaf), EmptyLevelOf(root, leaf))
    ensures Entries(EmptyLevels(root, leaf)) == map[]
  {
    var lv, lvl := EmptyLevels(root, leaf), EmptyLevelOf(root, leaf);
    SlotsOne(lv[1][0]);
    RecsOne(lv[0][0]);
    assert Inner(lv) == 1 by {
      assert lv[..1] == [lv[0]];
    }
    assert Blocks(disk, lv, lvl) by {
      assert LevelOK(disk, lvl, lv[0], 0) && LevelOK(disk, lvl, lv[1], 1);
    }
    assert Parents(disk, lv) by {
      assert ParentOK(disk, lv[1][0]);
    }
    assert KeysAt(lv[0], Flat(lv, 1, 0, []));
    FoldStruct(meta, disk, lv, lvl, 0, []);
    FoldTree(meta, disk, lv, lvl, 0, []);
    DictIs([], map[]);
  }
}
