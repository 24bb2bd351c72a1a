/** What single writes to the file do to one level: nodes rewritten in place, a node linked
    in after another, two neighbours merged. */
module BptSteps {
  import opened BptLevels
  import opened BptTree

  ghost predicate SameOffs(L: Level, L': Level)
  {
    |L'| == |L| && forall j :: 0 <= j < |L| ==> L'[j].off == L[j].off && (L'[j].LeafNode? <==> L[j].LeafNode?)
  }

  // b' is b with new children and possibly a new parent.
  ghost predicate SameLinks(b: Block, b': Block)
  {
    b'.next == b.next && b'.prev == b.prev && (b'.Leaf? <==> b.Leaf?)
  }

  // Node x is on disk' with its own children, the next it had, and the given prev.
  ghost predicate Relinked(disk: Disk, disk': Disk, x: Node, prev: Off)
  {
    && x.off in disk && x.off in disk' && Matches(disk'[x.off], x)
    && disk'[x.off].next == disk[x.off].next && disk'[x.off].prev == prev
  }

  // Blocks of level l keep everything but their parent.
  ghost predicate Untouched(disk: Disk, disk': Disk, lvl: map<Off, nat>, l: nat)
  {
    forall o :: o in lvl && lvl[o] == l && o in disk ==>
      o in disk' && disk'[o] == disk[o].(parent := disk'[o].parent)
  }

  lemma LevelRewritten(disk: Disk, disk': Disk, lvl: map<Off, nat>, lvl': map<Off, nat>, L: Level, L': Level, l: nat)
    requires LevelOK(disk, lvl, L, l) && SameOffs(L, L')
    requires forall o :: o in lvl ==> o in lvl' && lvl'[o] == lvl[o]
    requires forall j :: 0 <= j < |L| ==>
      L[j].off in disk && L[j].off in disk' && SameLinks(disk[L[j].off], disk'[L[j].off])
        && Matches(disk'[L[j].off], L'[j])
    ensures LevelOK(disk', lvl', L', l)
  {
    forall j | 0 <= j < |L'| ensures NodeOK(disk', lvl', L', l, j) {
      assert NodeOK(disk, lvl, L, l, j);
    }
  }

  lemma LevelUntouched(disk: Disk, disk': Disk, lvl: map<Off, nat>, lvl': map<Off, nat>, L: Level, l: nat)
    requires LevelOK(disk, lvl, L, l)
    requires forall o :: o in lvl ==> o in lvl' && lvl'[o] == lvl[o]
    requires Untouched(disk, disk', lvl, l)
    ensures LevelOK(disk', lvl', L, l)
  {
    forall j | 0 <= j < |L|
      ensures L[j].off in disk && L[j].off in disk' && SameLinks(disk[L[j].off], disk'[L[j].off])
        && Matches(disk'[L[j].off], L[j])
    {
      assert NodeOK(disk, lvl, L, l, j);
    }
    LevelRewritten(disk, disk', lvl, lvl', L, L, l);
  }

  // node_create: y becomes the right neighbour of x, which takes the place of node j.
  ghost function WithSplit(L: Level, j: nat, x: Node, y: Node): Level
    requires j < |L|
  {
    L[..j] + [x, y] + L[j+1..]
  }

  lemma LevelSplit(disk: Disk, disk': Disk, lvl: map<Off, nat>, lvl': map<Off, nat>, L: Level, l: nat,
                   j: nat, x: Node, y: Node)
    requires LevelOK(disk, lvl, L, l) && j < |L|
    requires x.off == L[j].off && y.off !in lvl && y.off != 0
    requires (x.LeafNode? <==> l == 0) && (y.LeafNode? <==> l == 0)
    requires lvl' == lvl[y.off := l]
    requires x.off in disk' && y.off in disk'
    requires Matches(disk'[x.off], x) && disk'[x.off].next == y.off && disk'[x.off].prev == OffAt(L, j - 1)
    requires Matches(disk'[y.off], y) && disk'[y.off].next == OffAt(L, j + 1) && disk'[y.off].prev == x.off
    requires forall k :: 0 <= k < |L| && k != j ==>
      Relinked(disk, disk', L[k], if k == j + 1 then y.off else OffAt(L, k - 1))
    ensures LevelOK(disk', lvl', WithSplit(L, j, x, y), l)
  {
    var L' := WithSplit(L, j, x, y);
    SplitDistinct(disk, lvl, L, l, j, x, y);
    forall k | 0 <= k < |L| && k != j ensures RelinkedAt(disk, disk', L, j, y.off, k) {
    }
    forall k | 0 <= k < |L'| ensures NodeOK(disk', lvl', L', l, k) {
      assert NodeOK(disk, lvl, L, l, if k <= j then k else k - 1);
      SplitNode(disk, disk', lvl, lvl', L, l, j, x, y, k);
    }
  }

  lemma SplitDistinct(disk: Disk, lvl: map<Off, nat>, L: Level, l: nat, j: nat, x: Node, y: Node)
    requires LevelOK(disk, lvl, L, l) && j < |L|
    requires x.off == L[j].off && y.off !in lvl
    ensures Distinct(WithSplit(L, j, x, y))
  {
    forall k | 0 <= k < |L| ensures L[k].off != y.off {
      assert NodeOK(disk, lvl, L, l, k);
    }
  }

  // Node k has been rewritten as far as links go, for a new node at o behind node j.
  ghost predicate RelinkedAt(disk: Disk, disk': Disk, L: Level, j: nat, o: Off, k: nat)
    requires k < |L|
  {
    Relinked(disk, disk', L[k], if k == j + 1 then o else OffAt(L, k - 1))
  }

  lemma SplitNode(disk: Disk, disk': Disk, lvl: map<Off, nat>, lvl': map<Off, nat>, L: Level, l: nat,
                  j: nat, x: Node, y: Node, k: nat)
    requires j < |L| && k <= |L| && NodeOK(disk, lvl, L, l, if k <= j then k else k - 1)
    requires x.off == L[j].off && y.off !in lvl && y.off != 0
    requires (x.LeafNode? <==> l == 0) && (y.LeafNode? <==> l == 0)
    requires lvl' == lvl[y.off := l]
    requires x.off in disk' && y.off in disk'
    requires Matches(disk'[x.off], x) && disk'[x.off].next == y.off && disk'[x.off].prev == OffAt(L, j - 1)
    requires Matches(disk'[y.off], y) && disk'[y.off].next == OffAt(L, j + 1) && disk'[y.off].prev == x.off
    requires k < j || k > j + 1 ==> RelinkedAt(disk, disk', L, j, y.off, if k < j then k else k - 1)
    ensures NodeOK(disk', lvl', WithSplit(L, j, x, y), l, k)
  {
    var L' := WithSplit(L, j, x, y);
    if k < j {
      assert L'[k] == L[k] && OffAt(L', k - 1) == OffAt(L, k - 1) && OffAt(L', k + 1) == OffAt(L, k + 1);
    } else if k > j + 1 {
      assert L'[k] == L[k-1] && OffAt(L', k + 1) == OffAt(L, k);
      assert OffAt(L', k - 1) == if k == j + 2 then y.off else OffAt(L, k - 2);
    } else if k == j {
      assert OffAt(L', j - 1) == OffAt(L, j - 1) && OffAt(L', j + 1) == y.off;
    } else {
      assert OffAt(L', j) == x.off && OffAt(L', j + 2) == OffAt(L, j + 1);
    }
  }

  // node_remove: node j + 1 is gone, x takes the place of node j.
  ghost function WithMerge(L: Level, j: nat, x: Node): Level
    requires j + 1 < |L|
  {
    L[..j] + [x] + L[j+2..]
  }

  lemma LevelMerge(disk: Disk, disk': Disk, lvl: map<Off, nat>, L: Level, l: nat, j: nat, x: Node)
    requires LevelOK(disk, lvl, L, l) && j + 1 < |L|
    requires x.off == L[j].off && (x.LeafNode? <==> l == 0)
    requires x.off in disk'
    requires Matches(disk'[x.off], x) && disk'[x.off].next == OffAt(L, j + 2) && disk'[x.off].prev == OffAt(L, j - 1)
    requires forall k :: 0 <= k < |L| && k != j && k != j + 1 ==>
      Relinked(disk, disk', L[k], if k == j + 2 then x.off else OffAt(L, k - 1))
    ensures LevelOK(disk', lvl, WithMerge(L, j, x), l)
  {
    var L' := WithMerge(L, j, x);
    forall k | 0 <= k < |L'| ensures NodeOK(disk', lvl, L', l, k) {
      assert NodeOK(disk, lvl, L, l, if k <= j then k else k + 1);
      if k < j {
        assert Relinked(disk, disk', L[k], OffAt(L, k - 1));
      } else if k > j {
        assert Relinked(disk, disk', L[k+1], if k == j + 1 then x.off else OffAt(L, k));
      }
      MergeNode(disk, disk', lvl, L, l, j, x, k);
    }
    MergeDistinct(L, j, x);
  }

  lemma MergeDistinct(L: Level, j: nat, x: Node)
    requires Distinct(L) && j + 1 < |L| && x.off == L[j].off
    ensures Distinct(WithMerge(L, j, x))
  {
    var L' := WithMerge(L, j, x);
    forall a, b | 0 <= a < b < |L'| ensures L'[a].off != L'[b].off {
      assert L'[a].off == L[if a <= j then a else a + 1].off;
      assert L'[b].off == L[if b <= j then b else b + 1].off;
    }
  }

  lemma MergeNode(disk: Disk, disk': Disk, lvl: map<Off, nat>, L: Level, l: nat, j: nat, x: Node, k: nat)
    requires j + 1 < |L| && k < |WithMerge(L, j, x)| && NodeOK(disk, lvl, L, l, if k <= j then k else k + 1)
    requires x.off == L[j].off && (x.LeafNode? <==> l == 0)
    requires x.off in disk'
    requires Matches(disk'[x.off], x) && disk'[x.off].next == OffAt(L, j + 2) && disk'[x.off].prev == OffAt(L, j - 1)
    requires k < j ==> Relinked(disk, disk', L[k], OffAt(L, k - 1))
    requires k > j ==> Relinked(disk, disk', L[k+1], if k == j + 1 then x.off else OffAt(L, k))
    ensures NodeOK(disk', lvl, WithMerge(L, j, x), l, k)
  {
    var L' := WithMerge(L, j, x);
    if k < j {
      assert L'[k] == L[k] && OffAt(L', k - 1) == OffAt(L, k - 1) && OffAt(L', k + 1) == OffAt(L, k + 1);
    } else if k > j {
      assert L'[k] == L[k+1] && OffAt(L', k + 1) == OffAt(L, k + 2);
      assert OffAt(L', k - 1) == if k == j + 1 then x.off else OffAt(L, k);
    } else {
      assert OffAt(L', j + 1) == OffAt(L, j + 2) && OffAt(L', j - 1) == OffAt(L, j - 1);
    }
  }
}
