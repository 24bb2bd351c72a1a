/** What a well-formed file gives its readers: the leaf chain lists the whole map in key order,
    and the height bounds the number of entries from both sides. */
module BptChain {
  import opened BptLevels
  import opened BptTree
  import opened BptLeafSteps
  import opened BptLeafInsert
  import opened BptPaths

  // ---------- the leaf chain ----------

  // The offsets met by following `next` n times from off.
  ghost function Chain(disk: Disk, off: Off, n: nat): seq<Off>
    decreases n
  {
    if n == 0 || off !in disk then [] else [off] + Chain(disk, disk[off].next, n - 1)
  }

  // The same towards the left.
  ghost function ChainBack(disk: Disk, off: Off, n: nat): seq<Off>
    decreases n
  {
    if n == 0 || off !in disk then [] else ChainBack(disk, disk[off].prev, n - 1) + [off]
  }

  ghost function Offs(L: Level): seq<Off> { seq(|L|, j requires 0 <= j < |L| => L[j].off) }

  // The records of the leaves at the given offsets, end to end.
  ghost function RecordsAt(disk: Disk, offs: seq<Off>): seq<Record>
  {
    if |offs| == 0 then []
    else
      var o := offs[|offs|-1];
      RecordsAt(disk, offs[..|offs|-1]) + (if o in disk && disk[o].Leaf? then disk[o].recs else [])
  }

  lemma {:induction false} ChainForward(disk: Disk, lvl: map<Off, nat>, L: Level, l: nat, j: nat)
    requires LevelOK(disk, lvl, L, l) && j <= |L|
    ensures Chain(disk, OffAt(L, j), |L| - j) == Offs(L)[j..]
    decreases |L| - j
  {
    if j < |L| {
      assert NodeOK(disk, lvl, L, l, j);
      ChainForward(disk, lvl, L, l, j + 1);
    }
  }

  lemma {:induction false} ChainBackward(disk: Disk, lvl: map<Off, nat>, L: Level, l: nat, j: nat)
    requires LevelOK(disk, lvl, L, l) && j <= |L|
    ensures ChainBack(disk, OffAt(L, j - 1), j) == Offs(L)[..j]
  {
    if j > 0 {
      assert NodeOK(disk, lvl, L, l, j - 1);
      ChainBackward(disk, lvl, L, l, j - 1);
      assert Offs(L)[..j] == Offs(L)[..j-1] + [L[j-1].off];
    }
  }

  ghost predicate LeafOnDisk(disk: Disk, x: Node)
  {
    x.LeafNode? && x.off in disk && disk[x.off].Leaf? && disk[x.off].recs == x.recs
  }

  lemma {:induction false} ChainRecords(disk: Disk, L: Level)
    requires forall j :: 0 <= j < |L| ==> LeafOnDisk(disk, L[j])
    ensures RecordsAt(disk, Offs(L)) == Recs(L)
  {
    if |L| == 0 {
      RecsEmpty();
    } else {
      var M := L[..|L|-1];
      assert LeafOnDisk(disk, L[|L|-1]);
      ChainRecords(disk, M);
      RecsSnoc(L);
      assert Offs(L)[..|L|-1] == Offs(M);
    }
  }

  /** Following `next` from meta.leafOffset through meta.leafNum leaves ends the chain and lists
      every entry of the file once, in key order; following `prev` from its last leaf takes the
      same way back. */
  lemma ChainEnumerates(meta: Meta, disk: Disk)
    requires Sound(meta, disk)
    ensures var offs := Chain(disk, meta.leafOffset, meta.leafNum);
      && |offs| == meta.leafNum >= 1
      && offs[0] == meta.leafOffset
      && ChainBack(disk, offs[|offs|-1], meta.leafNum) == offs
      && (forall i :: 0 <= i < |offs| ==> offs[i] in disk && disk[offs[i]].Leaf?)
      && disk[offs[0]].prev == 0 && disk[offs[|offs|-1]].next == 0
      && SortedRecs(RecordsAt(disk, offs))
      && Holds(RecordsAt(disk, offs), Contents(meta, disk))
  {
    var lv: seq<Level>, lvl: map<Off, nat> :| Inv(meta, disk, lv, lvl);
    ContentsUnique(meta, disk, lv, lvl);
    LeavesChained(meta, disk, lv, lvl);
    LeafRoom(meta, disk, lv, lvl, 0);
  }

  lemma LeavesChained(meta: Meta, disk: Disk, lv: seq<Level>, lvl: map<Off, nat>)
    requires Inv(meta, disk, lv, lvl)
    ensures Chain(disk, meta.leafOffset, meta.leafNum) == Offs(lv[0])
    ensures |lv[0]| == meta.leafNum >= 1 && lv[0][0].off == meta.leafOffset
    ensures ChainBack(disk, lv[0][|lv[0]|-1].off, meta.leafNum) == Offs(lv[0])
    ensures forall j :: 0 <= j < |lv[0]| ==> LeafOnDisk(disk, lv[0][j])
    ensures lv[0][0].off in disk && disk[lv[0][0].off].prev == 0
    ensures lv[0][|lv[0]|-1].off in disk && disk[lv[0][|lv[0]|-1].off].next == 0
    ensures RecordsAt(disk, Offs(lv[0])) == Recs(lv[0])
  {
    LeafLevel(meta, disk, lv, lvl);
    WholeChain(disk, lvl, lv[0]);
    LeavesOnDisk(disk, lvl, lv[0]);
    ChainRecords(disk, lv[0]);
  }

  lemma WholeChain(disk: Disk, lvl: map<Off, nat>, L: Level)
    requires LevelOK(disk, lvl, L, 0) && |L| >= 1
    ensures Chain(disk, L[0].off, |L|) == Offs(L) && ChainBack(disk, L[|L|-1].off, |L|) == Offs(L)
  {
    ChainForward(disk, lvl, L, 0, 0);
    ChainBackward(disk, lvl, L, 0, |L|);
  }

  lemma LeafLevel(meta: Meta, disk: Disk, lv: seq<Level>, lvl: map<Off, nat>)
    requires Inv(meta, disk, lv, lvl)
    ensures LevelOK(disk, lvl, lv[0], 0)
    ensures |lv[0]| == meta.leafNum >= 1 && lv[0][0].off == meta.leafOffset
  {
    OpenTree(meta, disk, lv, lvl, 0, []);
  }

  lemma LeavesOnDisk(disk: Disk, lvl: map<Off, nat>, L: Level)
    requires LevelOK(disk, lvl, L, 0) && |L| >= 1
    ensures forall j :: 0 <= j < |L| ==> LeafOnDisk(disk, L[j])
    ensures L[0].off in disk && disk[L[0].off].prev == 0
    ensures L[|L|-1].off in disk && disk[L[|L|-1].off].next == 0
  {
    forall j | 0 <= j < |L| ensures LeafOnDisk(disk, L[j]) {
      assert NodeOK(disk, lvl, L, 0, j);
    }
    assert NodeOK(disk, lvl, L, 0, 0) && NodeOK(disk, lvl, L, 0, |L| - 1);
  }

  // ---------- height and size ----------

  function Power(b: nat, n: nat): nat { if n == 0 then 1 else b * Power(b, n - 1) }

  lemma {:induction false} SlotsSize(L: Level, lo: nat, hi: nat)
    requires forall j :: 0 <= j < |L| ==> lo <= |SlotsOf(L[j])| <= hi
    ensures lo * |L| <= |Slots(L)| <= hi * |L|
  {
    if |L| == 0 {
      SlotsEmpty();
    } else {
      SlotsSnoc(L);
      SlotsSize(L[..|L|-1], lo, hi);
      assert lo * |L| == lo * (|L| - 1) + lo && hi * |L| == hi * (|L| - 1) + hi;
    }
  }

  lemma {:induction false} RecsSize(L: Level, lo: nat, hi: nat)
    requires forall j :: 0 <= j < |L| ==> lo <= |RecsOf(L[j])| <= hi
    ensures lo * |L| <= |Recs(L)| <= hi * |L|
  {
    if |L| == 0 {
      RecsEmpty();
    } else {
      RecsSnoc(L);
      RecsSize(L[..|L|-1], lo, hi);
      assert lo * |L| == lo * (|L| - 1) + lo && hi * |L| == hi * (|L| - 1) + hi;
    }
  }

  lemma WidthStep(meta: Meta, disk: Disk, lv: seq<Level>, lvl: map<Off, nat>, l: nat)
    requires Inv(meta, disk, lv, lvl) && l < |lv| - 1 && meta.height >= 2
    requires l + 2 < |lv| ==> |lv[l+1]| > 1
    ensures if l + 2 < |lv| then MIN_FILL * |lv[l+1]| <= |lv[l]| <= BP_ORDER * |lv[l+1]|
            else (l > 0 ==> 2 <= |lv[l]|) && |lv[l]| <= BP_ORDER
  {
    var U := lv[l+1];
    OpenTree(meta, disk, lv, lvl, 0, []);
    assert Kids(lv[l], Flat(lv, l + 1, 0, [])) && SizesOK(U, l + 1);
    LevelFacts(meta, disk, lv, lvl, 0, [], l + 1);
    SlotsSize(U, MinSize(l + 1, |U|), BP_ORDER);
  }

  // A level further down is at least ten and at most twenty times as wide.
  lemma {:induction false} Width(meta: Meta, disk: Disk, lv: seq<Level>, lvl: map<Off, nat>, l: nat)
    requires Inv(meta, disk, lv, lvl) && l < |lv| - 1 && meta.height >= 2
    ensures 2 * Power(MIN_FILL, meta.height - 1 - l) <= |lv[l]| <= Power(BP_ORDER, meta.height - l)
    decreases |lv| - l
  {
    if l + 2 < |lv| {
      Width(meta, disk, lv, lvl, l + 1);
      PowerPositive(MIN_FILL, meta.height - 2 - l);
      WidthStep(meta, disk, lv, lvl, l);
      PowerStep(MIN_FILL, meta.height - 2 - l, BP_ORDER, meta.height - 1 - l, |lv[l+1]|);
    } else {
      WidthStep(meta, disk, lv, lvl, l);
      assert Power(BP_ORDER, 1) == BP_ORDER * Power(BP_ORDER, 0);
    }
  }

  lemma PowerStep(b: nat, m: nat, d: nat, n: nat, w: nat)
    requires 2 * Power(b, m) <= w <= Power(d, n)
    ensures 2 * Power(b, m + 1) <= b * w && d * w <= Power(d, n + 1)
  {
    AtMostTimes(b, 2 * Power(b, m), w);
    AtMostTimes(d, w, Power(d, n));
    assert b * (2 * Power(b, m)) == 2 * (b * Power(b, m));
  }

  lemma AtMostTimes(b: nat, x: nat, y: nat)
    requires x <= y
    ensures b * x <= b * y
  {
  }

  lemma {:induction false} DictSize(R: seq<Record>)
    requires SortedRecs(R)
    ensures |Dict(R)| == |R|
  {
    if |R| == 0 {
      DictIs([], map[]);
    } else {
      var n := |R| - 1;
      var Q := R[..n];
      DictSize(Q);
      assert InsertRec(Q, n, R[n]) == R;
      DictInsert(Q, n, R[n]);
    }
  }

  lemma LeavesSize(meta: Meta, disk: Disk, lv: seq<Level>, lvl: map<Off, nat>)
    requires Inv(meta, disk, lv, lvl) && |lv[0]| > 1
    ensures MIN_FILL * |lv[0]| <= |Recs(lv[0])| <= BP_ORDER * |lv[0]|
  {
    forall j | 0 <= j < |lv[0]| ensures MIN_FILL <= |RecsOf(lv[0][j])| <= BP_ORDER {
      LeafAt(meta, disk, lv, lvl, j);
    }
    RecsSize(lv[0], MIN_FILL, BP_ORDER);
  }

  /** A search of a file of height h reads h + 1 blocks; such a file holds at least 2 * 10^h and
      at most 20^(h + 1) entries. */
  lemma LogarithmicHeight(meta: Meta, disk: Disk)
    requires Sound(meta, disk) && meta.height >= 2
    ensures 2 * Power(MIN_FILL, meta.height) <= |Contents(meta, disk)| <= Power(BP_ORDER, meta.height + 1)
  {
    var lv: seq<Level>, lvl: map<Off, nat> :| Inv(meta, disk, lv, lvl);
    ContentsUnique(meta, disk, lv, lvl);
    EntriesSize(meta, disk, lv, lvl);
  }

  lemma EntriesSize(meta: Meta, disk: Disk, lv: seq<Level>, lvl: map<Off, nat>)
    requires Inv(meta, disk, lv, lvl) && meta.height >= 2
    ensures 2 * Power(MIN_FILL, meta.height) <= |Entries(lv)| <= Power(BP_ORDER, meta.height + 1)
  {
    Width(meta, disk, lv, lvl, 0);
    OneMoreLevel(meta.height - 1, |lv[0]|);
    LeafRoom(meta, disk, lv, lvl, 0);
    LeavesSize(meta, disk, lv, lvl);
    DictSize(Recs(lv[0]));
  }

  lemma OneMoreLevel(n: nat, w: nat)
    requires 2 * Power(MIN_FILL, n) <= w <= Power(BP_ORDER, n + 1)
    ensures 2 * Power(MIN_FILL, n + 1) <= MIN_FILL * w && BP_ORDER * w <= Power(BP_ORDER, n + 2)
    ensures w > 1
  {
    PowerPositive(MIN_FILL, n);
  }

  lemma {:induction false} PowerPositive(b: nat, n: nat)
    requires b >= 1
    ensures Power(b, n) >= 1
  {
    if n > 0 {
      PowerPositive(b, n - 1);
    }
  }

  /** A tree of more than 400 entries has a level between root and leaves; so has every tree of its height,
      and those hold at least 200. */
  lemma SmallTree(meta: Meta, disk: Disk, lv: seq<Level>, lvl: map<Off, nat>)
    requires Inv(meta, disk, lv, lvl)
    ensures |Entries(lv)| > 400 ==> meta.height >= 2
    ensures meta.height >= 2 ==> |Entries(lv)| >= 200
  {
    if meta.height >= 2 {
      EntriesSize(meta, disk, lv, lvl);
      SquareAtMost(MIN_FILL, meta.height);
    } else {
      OneLevel(meta, disk, lv, lvl);
    }
  }

  lemma SquareAtMost(b: nat, n: nat)
    requires b >= 1 && n >= 2
    ensures b * b <= Power(b, n)
  {
    PowerPositive(b, n - 2);
    assert Power(b, n - 1) == b * Power(b, n - 2);
    AtMostTimes(b, 1, Power(b, n - 2));
    AtMostTimes(b, b, Power(b, n - 1));
  }

  lemma OneLevel(meta: Meta, disk: Disk, lv: seq<Level>, lvl: map<Off, nat>)
    requires Inv(meta, disk, lv, lvl) && meta.height <= 1
    ensures |Entries(lv)| <= BP_ORDER * BP_ORDER
  {
    OpenTree(meta, disk, lv, lvl, 0, []);
    LeafRoom(meta, disk, lv, lvl, 0);
    DictSize(Recs(lv[0]));
    assert Kids(lv[0], Flat(lv, 1, 0, [])) && SizesOK(lv[1], 1);
    LevelFacts(meta, disk, lv, lvl, 0, [], 1);
    SlotsSize(lv[1], 0, BP_ORDER);
    forall j | 0 <= j < |lv[0]| ensures 0 <= |RecsOf(lv[0][j])| <= BP_ORDER {
      LeafAt(meta, disk, lv, lvl, j);
    }
    RecsSize(lv[0], 0, BP_ORDER);
  }
}
