/** How a change climbs the tree: writing the pending slots of level p leaves at most the
    slots of level p + 1 pending. */
module BptAdvance {
  import opened BptLevels
  import opened BptTree
  import opened BptSteps

  lemma {:induction false} InnerLengths(lv: seq<Level>, p: nat, L': Level)
    requires p < |lv|
    ensures Inner(lv[p := L']) == Inner(lv) + (if p == 0 then 0 else |L'| - |lv[p]|)
    decreases |lv|
  {
    if |lv| > 1 {
      var shorter := lv[..|lv|-1];
      if p < |lv| - 1 {
        assert lv[p := L'][..|lv|-1] == shorter[p := L'];
        InnerLengths(shorter, p, L');
      } else {
        assert lv[p := L'][..|lv|-1] == shorter;
      }
    }
  }

  // The meta block after level p got other nodes, and they were counted.
  lemma MetaAfter(meta: Meta, meta': Meta, lv: seq<Level>, p: nat, L': Level)
    requires MetaOK(meta, lv) && p < |lv| && |lv[p]| >= 1 && |L'| >= 1 && L'[0].off == lv[p][0].off
    requires meta'.order == meta.order && meta'.height == meta.height
    requires meta'.rootOffset == meta.rootOffset && meta'.leafOffset == meta.leafOffset
    requires meta'.leafNum == meta.leafNum + (if p == 0 then |L'| - |lv[p]| else 0)
    requires meta'.internalNum == meta.internalNum + (if p == 0 then 0 else |L'| - |lv[p]|)
    ensures MetaOK(meta', lv[p := L'])
  {
    InnerLengths(lv, p, L');
  }

  // Writes that turn no leaf into an internal node keep the blocks apart.
  lemma AllocKept(meta: Meta, meta': Meta, disk: Disk, disk': Disk, lvl: map<Off, nat>)
    requires AllocOK(meta, disk, lvl) && meta'.slot == meta.slot && disk'.Keys == disk.Keys
    requires forall o :: o in disk ==> (disk'[o].Leaf? <==> disk[o].Leaf?)
    ensures AllocOK(meta', disk', lvl)
  {
  }

  lemma InnerPush(lv: seq<Level>, top: Level)
    requires |lv| >= 1
    ensures Inner(lv + [top]) == Inner(lv) + |top|
  {
    assert (lv + [top])[..|lv|] == lv;
  }

  // Every child listed on level l lies one level lower.
  lemma ChildLevel(disk: Disk, lvl: map<Off, nat>, lower: Level, L: Level, l: nat, j: nat, i: nat)
    requires l >= 1 && LevelOK(disk, lvl, lower, l - 1) && Kids(lower, Slots(L))
    requires j < |L| && i < |SlotsOf(L[j])|
    ensures Start(L, j) + i < |lower|
    ensures SlotsOf(L[j])[i].child == lower[Start(L, j) + i].off
    ensures SlotsOf(L[j])[i].child in disk && SlotsOf(L[j])[i].child in lvl
    ensures lvl[SlotsOf(L[j])[i].child] == l - 1
  {
    SlotsAt(L, j, i);
    var c := Start(L, j) + i;
    assert Slots(L)[c].child == lower[c].off;
    assert NodeOK(disk, lvl, lower, l - 1, c);
  }

  // A write that changes blocks of level p, and parents of blocks of level p - 1 only.
  ghost predicate OnlyLevel(disk: Disk, disk': Disk, lvl: map<Off, nat>, p: nat)
  {
    forall o :: o in lvl && o in disk ==>
      && o in disk'
      && (lvl[o] != p ==> disk'[o] == disk[o].(parent := disk'[o].parent))
      && (lvl[o] + 1 != p ==> disk'[o].parent == disk[o].parent)
  }

  lemma ParentsUntouched(disk: Disk, disk': Disk, lvl: map<Off, nat>, lower: Level, L: Level, l: nat, p: nat)
    requires l >= 1 && l != p && LevelOK(disk, lvl, lower, l - 1) && Kids(lower, Slots(L))
    requires ParentsOK(disk, L) && OnlyLevel(disk, disk', lvl, p)
    ensures ParentsOK(disk', L)
  {
    forall j | 0 <= j < |L| ensures ParentOK(disk', L[j]) {
      assert ParentOK(disk, L[j]);
      forall i | 0 <= i < |SlotsOf(L[j])|
        ensures SlotsOf(L[j])[i].child in disk' && disk'[SlotsOf(L[j])[i].child].parent == L[j].off
      {
        ChildLevel(disk, lvl, lower, L, l, j, i);
      }
    }
  }

  // What level p + 1, or the pending slots for it, must satisfy over the new level p.
  ghost predicate KidsAbove(lv: seq<Level>, p: nat, L': Level, q: nat, S2: seq<Slot>)
    requires p < |lv|
  {
    if q == p + 1 then Kids(L', S2)
    else p + 1 < |lv| ==> Kids(L', Slots(lv[p+1]))
  }

  ghost predicate KeysAbove(lv: seq<Level>, p: nat, L': Level, q: nat, S2: seq<Slot>)
    requires p < |lv|
  {
    if q == p + 1 then KeysAt(L', S2)
    else p + 1 < |lv| ==> KeysAt(L', Slots(lv[p+1]))
  }

  lemma BlocksAdvance(disk: Disk, disk': Disk, lv: seq<Level>, lvl: map<Off, nat>, lvl': map<Off, nat>,
                      p: nat, L': Level)
    requires Blocks(disk, lv, lvl) && p < |lv|
    requires forall o :: o in lvl ==> o in lvl' && lvl'[o] == lvl[o]
    requires OnlyLevel(disk, disk', lvl, p)
    requires LevelOK(disk', lvl', L', p)
    ensures Blocks(disk', lv[p := L'], lvl')
  {
    var lv' := lv[p := L'];
    forall l | 0 <= l < |lv| ensures LevelOK(disk', lvl', lv'[l], l) {
      if l != p {
        LevelUntouched(disk, disk', lvl, lvl', lv[l], l);
      }
    }
  }

  lemma ParentsAdvance(disk: Disk, disk': Disk, lv: seq<Level>, lvl: map<Off, nat>,
                       p: nat, S: seq<Slot>, L': Level)
    requires Blocks(disk, lv, lvl) && Parents(disk, lv) && Children(lv, p, S) && p < |lv|
    requires OnlyLevel(disk, disk', lvl, p)
    requires p >= 1 ==> ParentsOK(disk', L')
    ensures Parents(disk', lv[p := L'])
  {
    var lv' := lv[p := L'];
    forall l | 1 <= l < |lv| ensures ParentsOK(disk', lv'[l]) {
      if l != p {
        assert Kids(lv[l-1], Flat(lv, l, p, S));
        ParentsUntouched(disk, disk', lvl, lv[l-1], lv[l], l, p);
      }
    }
  }

  lemma ChildrenAdvance(lv: seq<Level>, p: nat, S: seq<Slot>, L': Level, q: nat, S2: seq<Slot>)
    requires Children(lv, p, S) && p < |lv|
    requires q == 0 || q == p + 1
    requires p >= 1 ==> Slots(L') == S
    requires KidsAbove(lv, p, L', q, S2)
    ensures Children(lv[p := L'], q, S2)
  {
    var lv' := lv[p := L'];
    forall l | 1 <= l < |lv'| + (if q == |lv'| then 1 else 0) ensures Kids(lv'[l-1], Flat(lv', l, q, S2)) {
      if l < |lv| {
        assert Kids(lv[l-1], Flat(lv, l, p, S));
      }
    }
  }

  lemma TopUntouched(disk: Disk, disk': Disk, lvl: map<Off, nat>, L: Level, l: nat, p: nat)
    requires LevelOK(disk, lvl, L, l) && TopOK(disk, L) && p <= l
    requires OnlyLevel(disk, disk', lvl, p)
    ensures TopOK(disk', L)
  {
    forall j | 0 <= j < |L| ensures L[j].off in disk' && disk'[L[j].off].parent == 0 {
      assert NodeOK(disk, lvl, L, l, j);
    }
  }

  /** The structure of the tree after level p was rewritten as L', which realises the slots
      S that were pending for it; now at most level p + 1 is pending. */
  lemma StructAdvance(meta: Meta, meta': Meta, disk: Disk, disk': Disk, lv: seq<Level>,
      lvl: map<Off, nat>, lvl': map<Off, nat>, p: nat, S: seq<Slot>, L': Level, q: nat, S2: seq<Slot>)
    requires FoldedStruct(meta, disk, lv, lvl, p, S) && p < |lv|
    requires q == 0 || q == p + 1
    requires forall o :: o in lvl ==> o in lvl' && lvl'[o] == lvl[o]
    requires OnlyLevel(disk, disk', lvl, p)
    requires LevelOK(disk', lvl', L', p) && SizesOK(L', p)
    requires p >= 1 ==> ParentsOK(disk', L') && Slots(L') == S
    requires MetaOK(meta', lv[p := L']) && AllocOK(meta', disk', lvl')
    requires KidsAbove(lv, p, L', q, S2)
    requires p == |lv| - 1 ==> |L'| == (if q == |lv| then 2 else 1) && TopOK(disk', L')
    ensures FoldedStruct(meta', disk', lv[p := L'], lvl', q, S2)
  {
    OpenStruct(meta, disk, lv, lvl, p, S);
    BlocksAdvance(disk, disk', lv, lvl, lvl', p, L');
    ParentsAdvance(disk, disk', lv, lvl, p, S, L');
    ChildrenAdvance(lv, p, S, L', q, S2);
    if p < |lv| - 1 {
      TopUntouched(disk, disk', lvl, lv[meta.height], meta.height, p);
    }
    FoldStruct(meta', disk', lv[p := L'], lvl', q, S2);
  }

  lemma KeysAdvance(lv: seq<Level>, p: nat, S: seq<Slot>, L': Level, q: nat, S2: seq<Slot>)
    requires KeysP(lv, p, S) && p < |lv|
    requires q == 0 || q == p + 1
    requires if p == 0 then LeavesSorted(L') else Slots(L') == S
    requires KeysAbove(lv, p, L', q, S2)
    ensures KeysP(lv[p := L'], q, S2)
  {
    var lv' := lv[p := L'];
    forall l | 1 <= l < |lv'| + (if q == |lv'| then 1 else 0) ensures KeysAt(lv'[l-1], Flat(lv', l, q, S2)) {
      if l < |lv| {
        assert KeysAt(lv[l-1], Flat(lv, l, p, S));
      }
    }
  }

  ghost predicate SameKids(S: seq<Slot>, T: seq<Slot>)
  {
    |T| == |S| && forall c :: 0 <= c < |S| ==> T[c].child == S[c].child
  }

  // Slots that list the same children may be pending instead.
  lemma StructPending(meta: Meta, disk: Disk, lv: seq<Level>, lvl: map<Off, nat>, p: nat, S: seq<Slot>, S2: seq<Slot>)
    requires FoldedStruct(meta, disk, lv, lvl, p, S) && 1 <= p < |lv|
    requires SameKids(S, S2)
    ensures FoldedStruct(meta, disk, lv, lvl, p, S2)
  {
    OpenStruct(meta, disk, lv, lvl, p, S);
    forall l | 1 <= l < |lv| ensures Kids(lv[l-1], Flat(lv, l, p, S2)) {
      assert Kids(lv[l-1], Flat(lv, l, p, S));
    }
    FoldStruct(meta, disk, lv, lvl, p, S2);
  }

  // Level p is rewritten in place: same nodes, same links, new children.
  ghost predicate Rewritten(disk: Disk, disk': Disk, L: Level, L': Level)
  {
    && SameOffs(L, L')
    && disk'.Keys == disk.Keys
    && (forall o :: o in disk ==> (disk'[o].Leaf? <==> disk[o].Leaf?))
    && forall j :: 0 <= j < |L| ==>
         L[j].off in disk && SameLinks(disk[L[j].off], disk'[L[j].off]) && Matches(disk'[L[j].off], L'[j])
  }

  lemma KidsSameOffs(L: Level, L': Level, S: seq<Slot>)
    requires Kids(L, S) && SameOffs(L, L')
    ensures Kids(L', S)
  {
  }

  lemma StructRewrite(meta: Meta, disk: Disk, disk': Disk, lv: seq<Level>, lvl: map<Off, nat>,
      p: nat, S: seq<Slot>, L': Level, q: nat, S2: seq<Slot>)
    requires FoldedStruct(meta, disk, lv, lvl, p, S) && p < |lv|
    requires OnlyLevel(disk, disk', lvl, p) && Rewritten(disk, disk', lv[p], L')
    requires SizesOK(L', p)
    requires p >= 1 ==> ParentsOK(disk', L') && Slots(L') == S
    requires q == 0 || (q == p + 1 < |lv| && Kids(L', S2))
    ensures FoldedStruct(meta, disk', lv[p := L'], lvl, q, S2)
  {
    OpenStruct(meta, disk, lv, lvl, p, S);
    var L := lv[p];
    assert LevelOK(disk, lvl, L, p);
    LevelRewritten(disk, disk', lvl, lvl, L, L', p);
    InnerLengths(lv, p, L');
    if p + 1 < |lv| {
      assert Kids(L, Flat(lv, p + 1, p, S));
      KidsSameOffs(L, L', Slots(lv[p+1]));
    } else {
      forall j | 0 <= j < |L'| ensures L'[j].off in disk' && disk'[L'[j].off].parent == 0 {
        assert NodeOK(disk, lvl, L, p, j);
      }
    }
    StructAdvance(meta, meta, disk, disk', lv, lvl, lvl, p, S, L', q, S2);
  }
}
