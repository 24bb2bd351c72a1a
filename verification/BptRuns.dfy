/** Whole runs of a tree, closed and opened again at will, against a finite map; and the runs
    that show where the code as written goes wrong. */
module BptRuns {
  import opened Options
  import opened KeyOrder
  import opened BptLevels
  import opened BptTree
  import opened BptSearch
  import opened BptPaths
  import opened BptLeafMerge
  import opened BptRange
  import opened BptLeafSteps
  import opened BptTwin
  import opened BptAnswers
  import opened BptChain
  import opened BptGuard
  import opened BptWitness
  import opened Bpt

  // Calls of a client. A range without a page must not ask for the next one: see SearchRange.
  datatype Op =
    | DoSearch(key: Key)
    | DoRange(left: Option<Key>, right: Key, max: nat, wantNext: bool)
    | DoInsert(key: Key, value: int)
    | DoUpdate(key: Key, value: int)
    | DoRemove(key: Key)
    | DoReopen

  // What a call returns; page and left are what search_range leaves in the caller's variables.
  datatype Answer = Answer(code: int, value: Option<int>, page: seq<int>, left: Option<Key>, more: Option<bool>)

  predicate Allowed(ops: seq<Op>)
  {
    forall i :: 0 <= i < |ops| && ops[i].DoRange? && ops[i].wantNext ==> ops[i].max > 0
  }

  ghost function Apply(op: Op, m: map<Key, int>): map<Key, int>
  {
    match op
    case DoSearch(_) => m
    case DoRange(_, _, _, _) => m
    case DoInsert(k, v) => if k in m then m else m[k := v]
    case DoUpdate(k, v) => if k in m then m[k := v] else m
    case DoRemove(k) => m - {k}
    case DoReopen => m
  }

  // What an operation answers when the map is m and its records stand in the leaves L. The leaves decide
  // whether a search that misses gives the next larger key, and whether search_range sees that there is more.
  ghost predicate Answers(op: Op, m: map<Key, int>, L: Level, a: Answer)
  {
    match op
    case DoSearch(k) => if k in m then a.code == 0 && a.value == Some(m[k]) else AnswersMiss(m, L, k, a)
    case DoRange(left, right, max, wantNext) => AnswersRange(m, L, left, right, max, wantNext, a)
    case DoInsert(k, _) => a.code == if k in m then 1 else 0
    case DoUpdate(k, _) =>
      if k in m then a.code == 0
      else (a.code == -1 && LeafEndsBelow(L, k)) || (a.code == 1 && exists n :: IsNextLarger(m, k, n))
    case DoRemove(k) => a.code == if k in m then 0 else -1
    case DoReopen => a.code == 0
  }

  // The next larger key with the difference of the lengths (of equally long keys only the sign), or nothing.
  ghost predicate AnswersMiss(m: map<Key, int>, L: Level, k: Key, a: Answer)
  {
    || (a.code == -1 && a.value == None && LeafEndsBelow(L, k))
    || (a.code > 0 && exists n ::
          IsNextLarger(m, k, n) && a.value == Some(m[n]) && (|n| != |k| ==> a.code == |n| - |k|))
  }

  ghost predicate AnswersRange(m: map<Key, int>, L: Level, left: Option<Key>, right: Key, max: nat, wantNext: bool,
      a: Answer)
  {
    if left.None? || Rank(left.value) > Rank(right) then a == Answer(-1, None, [], left, None)
    else if max == 0 then a.code == 0 && a.page == [] && (a.more != Some(true) ==> a.left == left)
    else exists keys, f: nat ::
      && KeysInRange(m, left.value, right, keys) && LowerRecAt(Recs(L), left.value, f)
      && IsPage(m, keys, left, max, wantNext, FirstOfLeaf(L, f + max), a)
  }

  // The bound keys between two bounds, in order.
  ghost predicate KeysInRange(m: map<Key, int>, lo: Key, hi: Key, keys: seq<Key>)
  {
    && (forall i, j :: 0 <= i < j < |keys| ==> Rank(keys[i]) < Rank(keys[j]))
    && (forall i :: 0 <= i < |keys| ==> keys[i] in m && Rank(lo) <= Rank(keys[i]) <= Rank(hi))
    && (forall k :: k in m && Rank(lo) <= Rank(k) <= Rank(hi) ==> exists i :: 0 <= i < |keys| && keys[i] == k)
  }

  // The values of the first keys; if the caller is told of more, the next page begins with the
  // first key that is not on this one. He is not told when the page ends where a leaf ends.
  ghost predicate IsPage(m: map<Key, int>, keys: seq<Key>, left: Option<Key>, max: nat, wantNext: bool,
      leafEnds: bool, a: Answer)
  {
    && a.code == |a.page| == (if |keys| < max then |keys| else max)
    && (forall t :: 0 <= t < |a.page| ==> keys[t] in m && a.page[t] == m[keys[t]])
    && a.more == (if wantNext then Some(max < |keys| && !leafEnds) else None)
    && a.left == if a.more == Some(true) then Some(keys[max]) else left
  }

  // The map after the first n operations.
  ghost function After(ops: seq<Op>, n: nat, m: map<Key, int>): map<Key, int>
    requires n <= |ops|
  {
    if n == 0 then m else Apply(ops[n-1], After(ops, n - 1, m))
  }

  // A removal that, as the code is written, hides a record or writes past the end of a node.
  ghost predicate HarmfulOp(t: BplusTree, op: Op)
    reads t
  {
    t.version.AsWritten? && op.DoRemove? && (RemoveLoses(t.lv, op.key) || RemoveOverruns(t.lv, op.key))
  }

  // A removal that, as the code is written, leaves no well-formed tree.
  ghost predicate DoomedOp(t: BplusTree, op: Op)
    reads t
  {
    t.version.AsWritten? && op.DoRemove? && RemoveDoomed(t.lv, op.key)
  }

  // What works in every file whose searches come to the right leaves.
  predicate LooksUp(op: Op)
  {
    op.DoSearch? || op.DoRange? || op.DoUpdate?
  }

  ghost predicate Works(t: BplusTree)
    reads t
  {
    t.Valid() || Searchable(t.meta, t.disk, t.lv, t.lvl)
  }

  /** Any run refines the run of a finite map, answer by answer, and keeps a well-formed file. As the code
      is written, this holds up to the first removal that is doomed; if that one neither hides a record nor
      writes past the end of a node, the run goes on, no longer whole, for as long as it searches, reads
      ranges and updates. */
  method Replay(start: BplusTree, ops: seq<Op>)
    returns (t: BplusTree, answers: seq<Answer>, whole: bool, ghost leaves: seq<Level>)
    requires start.Valid() && Allowed(ops)
    modifies start
    ensures t.version == start.version && |answers| <= |ops|
    ensures Stands(t, whole)
    ensures !whole ==> SpoiltBefore(ops, |answers|)
    ensures |answers| < |ops| ==>
      var op := ops[|answers|];
      if whole then HarmfulOp(t, op) else op.DoInsert? || op.DoRemove? || op.DoReopen?
    ensures Entries(t.lv) == After(ops, |answers|, Entries(old(start.lv)))
    ensures |t.lv| >= 1 && Recorded(ops, answers, leaves, old(start.lv)[0], t.lv[0])
    ensures Answered(ops, Entries(old(start.lv)), leaves, answers)
  {
    t, answers, whole := start, [], true;
    ghost var m0 := Entries(start.lv);
    LeafLevel(t);
    ghost var first := start.lv[0];
    leaves := [first];
    while |answers| < |ops|
      invariant t.version == start.version && (t == start || fresh(t)) && Stands(t, whole) && |t.lv| >= 1
      invariant Ran(ops, m0, first, answers, leaves, whole, Entries(t.lv), t.lv[0])
      decreases |ops| - |answers|
    {
      var op := ops[|answers|];
      var stop := Stops(t, op, whole);
      if stop {
        return;
      }
      ghost var m, L, before := Entries(t.lv), t.lv[0], whole;
      var a;
      t, a, whole := GoOn(t, op, whole);
      RanOn(ops, m0, first, answers, leaves, before, m, L, a, whole, Entries(t.lv), t.lv[0]);
      answers, leaves := answers + [a], leaves + [t.lv[0]];
    }
  }

  // A run so far: m is the map and L the leaves that it has come to.
  ghost predicate Ran(ops: seq<Op>, m0: map<Key, int>, first: Level, answers: seq<Answer>, leaves: seq<Level>,
      whole: bool, m: map<Key, int>, L: Level)
  {
    && Recorded(ops, answers, leaves, first, L) && Answered(ops, m0, leaves, answers)
    && m == After(ops, |answers|, m0) && (!whole ==> SpoiltBefore(ops, |answers|))
  }

  lemma RanOn(ops: seq<Op>, m0: map<Key, int>, first: Level, answers: seq<Answer>, leaves: seq<Level>,
      whole: bool, m: map<Key, int>, L: Level, a: Answer, whole': bool, m': map<Key, int>, L': Level)
    requires Ran(ops, m0, first, answers, leaves, whole, m, L) && |answers| < |ops|
    requires Answers(ops[|answers|], m, L, a) && m' == Apply(ops[|answers|], m)
    requires LooksUp(ops[|answers|]) || ops[|answers|].DoReopen? ==> SameLeaves(L, L')
    requires !whole' ==> ops[|answers|].DoRemove? || (!whole && LooksUp(ops[|answers|]))
    ensures Ran(ops, m0, first, answers + [a], leaves + [L'], whole', m', L')
  {
    OneMoreAnswer(ops, m0, m, leaves, answers, a, L, L');
    RecordedOn(ops, answers, leaves, first, L, a, L');
    if !whole' {
      OneMoreStep(ops, |answers|);
    }
  }

  lemma RecordedOn(ops: seq<Op>, answers: seq<Answer>, leaves: seq<Level>, first: Level, L: Level, a: Answer, L': Level)
    requires Recorded(ops, answers, leaves, first, L) && |answers| < |ops|
    requires LooksUp(ops[|answers|]) || ops[|answers|].DoReopen? ==> SameLeaves(L, L')
    ensures Recorded(ops, answers + [a], leaves + [L'], first, L')
  {
    var r := leaves + [L'];
    forall i | 0 <= i < |answers| + 1 && (LooksUp(ops[i]) || ops[i].DoReopen?) ensures SameLeaves(r[i], r[i+1]) {
      assert r[i] == leaves[i] && (i < |answers| ==> r[i+1] == leaves[i+1]);
    }
  }

  // What holds of a file before the first removal that was doomed, and after it.
  ghost predicate Stands(t: BplusTree, whole: bool)
    reads t
  {
    if whole then t.Valid() else t.version.AsWritten? && Works(t)
  }

  method Stops(t: BplusTree, op: Op, whole: bool) returns (stop: bool)
    requires Stands(t, whole)
    ensures stop <==> if whole then HarmfulOp(t, op) else op.DoInsert? || op.DoRemove? || op.DoReopen?
  {
    if !whole {
      return !LooksUp(op);
    }
    stop := false;
    if t.version.AsWritten? && op.DoRemove? {
      stop := RemovalLoses(t, op.key);
      if !stop {
        stop := RemovalOverruns(t, op.key);
      }
    }
  }

  method GoOn(start: BplusTree, op: Op, whole: bool) returns (t: BplusTree, a: Answer, whole': bool)
    requires Stands(start, whole) && Allowed([op])
    requires if whole then !HarmfulOp(start, op) else LooksUp(op)
    modifies start
    ensures t.version == start.version && (t == start || fresh(t)) && Stands(t, whole')
    ensures !whole' ==> op.DoRemove? || (!whole && LooksUp(op))
    ensures Entries(t.lv) == Apply(op, Entries(old(start.lv)))
    ensures |old(start.lv)| >= 1 && |t.lv| >= 1 && Answers(op, Entries(old(start.lv)), old(start.lv)[0], a)
    ensures LooksUp(op) || op.DoReopen? ==> SameLeaves(old(start.lv)[0], t.lv[0])
  {
    var doomed := false;
    if whole && start.version.AsWritten? && op.DoRemove? {
      doomed := RemovalIsDoomed(start, op.key);
    }
    t, a := Step(start, op);
    whole' := whole && !doomed;
  }

  // Operation d is a removal, after which the run only looked up, as far as operation n.
  ghost predicate SpoiltAt(ops: seq<Op>, d: nat, n: nat)
  {
    d < n <= |ops| && ops[d].DoRemove? && forall i :: d < i < n ==> LooksUp(ops[i])
  }

  ghost predicate SpoiltBefore(ops: seq<Op>, n: nat)
  {
    exists d: nat :: SpoiltAt(ops, d, n)
  }

  lemma OneMoreStep(ops: seq<Op>, n: nat)
    requires n < |ops|
    ensures ops[n].DoRemove? || (SpoiltBefore(ops, n) && LooksUp(ops[n])) ==> SpoiltBefore(ops, n + 1)
  {
    if ops[n].DoRemove? {
      assert SpoiltAt(ops, n, n + 1);
    }
    if SpoiltBefore(ops, n) && LooksUp(ops[n]) {
      var d: nat :| SpoiltAt(ops, d, n);
      assert SpoiltAt(ops, d, n + 1);
    }
  }

  // The answers to the first operations are those of the map.
  ghost predicate Answered(ops: seq<Op>, m0: map<Key, int>, leaves: seq<Level>, answers: seq<Answer>)
  {
    && |answers| <= |ops| && |answers| <= |leaves|
    && forall i {:trigger answers[i]} :: 0 <= i < |answers| ==>
         Answers(ops[i], After(ops, i, m0), leaves[i], answers[i])
  }

  lemma OneMoreAnswer(ops: seq<Op>, m0: map<Key, int>, m: map<Key, int>, leaves: seq<Level>, answers: seq<Answer>,
      a: Answer, L: Level, L': Level)
    requires Answered(ops, m0, leaves, answers) && |answers| < |ops|
    requires |leaves| == |answers| + 1 && leaves[|answers|] == L
    requires m == After(ops, |answers|, m0) && Answers(ops[|answers|], m, L, a)
    ensures Answered(ops, m0, leaves + [L'], answers + [a])
    ensures After(ops, |answers| + 1, m0) == Apply(ops[|answers|], m)
  {
  }

  function Coded(code: int): Answer { Answer(code, None, [], None, None) }

  method Step(start: BplusTree, op: Op) returns (t: BplusTree, a: Answer)
    requires Works(start) && (start.Valid() || LooksUp(op)) && Allowed([op]) && !HarmfulOp(start, op)
    modifies start
    ensures t.version == start.version && (t == start || fresh(t)) && Works(t)
    ensures old(start.Valid() && !DoomedOp(start, op)) ==> t.Valid()
    ensures Entries(t.lv) == Apply(op, Entries(old(start.lv)))
    ensures |old(start.lv)| >= 1 && |t.lv| >= 1 && Answers(op, Entries(old(start.lv)), old(start.lv)[0], a)
    ensures LooksUp(op) || op.DoReopen? ==> SameLeaves(old(start.lv)[0], t.lv[0])
  {
    LeafLevel(start);
    t := start;
    var code;
    match op
    case DoSearch(k) => a := SearchStep(t, k);
    case DoRange(left, right, max, wantNext) =>
      assert [op][0] == op;
      a := RangeStep(t, left, right, max, wantNext);
    case DoInsert(k, v) =>
      code := t.Insert(k, v);
      a := Coded(code);
    case DoUpdate(k, v) => a := UpdateStep(t, k, v);
    case DoRemove(k) =>
      code := t.Remove(k);
      a := Coded(code);
    case DoReopen =>
      t := Reopen(t);
      a := Coded(0);
  }

  method Reopen(start: BplusTree) returns (t: BplusTree)
    requires start.Valid()
    ensures fresh(t) && t.Valid() && t.version == start.version && t.lv == start.lv
  {
    ContentsUnique(start.meta, start.disk, start.lv, start.lvl);
    t := new BplusTree(start.version, Some(File(start.metaBlock, start.disk)), false);
    OpenTree(t.meta, t.disk, t.lv, t.lvl, 0, []);
    OpenTree(start.meta, start.disk, start.lv, start.lvl, 0, []);
    Unique(t.meta, t.disk, t.lv, t.lvl, start.lv, start.lvl);
  }

  method SearchStep(t: BplusTree, k: Key) returns (a: Answer)
    requires Works(t) && |t.lv| >= 1
    ensures Answers(DoSearch(k), Entries(t.lv), t.lv[0], a)
  {
    ghost var blocks, c;
    var code, value;
    code, value, blocks, c := t.Search(k);
    a := Coded(code).(value := value);
    if code < 0 {
      NothingLarger(t.meta, t.disk, t.lv, t.lvl, c, k);
    }
  }

  method UpdateStep(t: BplusTree, k: Key, v: int) returns (a: Answer)
    requires Works(t) && |t.lv| >= 1
    modifies t
    ensures Works(t) && (old(t.Valid()) ==> t.Valid())
    ensures Entries(t.lv) == Apply(DoUpdate(k, v), Entries(old(t.lv)))
    ensures |t.lv| >= 1 && SameLeaves(old(t.lv)[0], t.lv[0])
    ensures Answers(DoUpdate(k, v), Entries(old(t.lv)), old(t.lv)[0], a)
  {
    ghost var c;
    ghost var meta, disk, lv: seq<Level>, lvl := t.meta, t.disk, t.lv, t.lvl;
    var code;
    code, c := t.Update(k, v);
    a := Coded(code);
    if code != 0 {
      UpdateMiss(meta, disk, lv, lvl, c, k);
    }
  }

  // A key that is not bound: its leaf ends below it, or holds the next larger one.
  lemma UpdateMiss(meta: Meta, disk: Disk, lv: seq<Level>, lvl: map<Off, nat>, c: nat, key: Key)
    requires Inv(meta, disk, lv, lvl) || Searchable(meta, disk, lv, lvl)
    requires |lv| >= 1 && c < |lv[0]| && Comes(lv, 0, c, key) && key !in Entries(lv)
    ensures LowerRecAt(RecsOf(lv[0][c]), key, |RecsOf(lv[0][c])|) ==> LeafEndsBelow(lv[0], key)
    ensures !LowerRecAt(RecsOf(lv[0][c]), key, |RecsOf(lv[0][c])|) ==> exists n :: IsNextLarger(Entries(lv), key, n)
  {
    if LowerRecAt(RecsOf(lv[0][c]), key, |RecsOf(lv[0][c])|) {
      NothingLarger(meta, disk, lv, lvl, c, key);
    } else {
      CanRead(meta, disk, lv, lvl);
      SearchLeaf(meta, disk, lv, lvl, c);
      var i := LowerExists(RecsOf(lv[0][c]), key);
      SearchAnswers(meta, disk, lv, lvl, c, key, i);
    }
  }

  lemma {:induction false} LowerExists(recs: seq<Record>, key: Key) returns (i: nat)
    requires SortedRecs(recs)
    ensures LowerRecAt(recs, key, i)
  {
    if |recs| == 0 || Rank(recs[|recs|-1].key) < Rank(key) {
      i := |recs|;
    } else {
      i := LowerExists(recs[..|recs|-1], key);
    }
  }

  // The same keys in the same leaves.
  ghost predicate SameLeaves(L: Level, L': Level)
  {
    |L| == |L'| && forall d :: 0 <= d < |L| ==> SameKeys(RecsOf(L[d]), RecsOf(L'[d]))
  }

  ghost predicate SameKeys(s: seq<Record>, t: seq<Record>)
  {
    |s| == |t| && forall i :: 0 <= i < |s| ==> t[i].key == s[i].key
  }

  // The leaves before each operation and at the end; looking up and reopening leave the keys where they are.
  ghost predicate Recorded(ops: seq<Op>, answers: seq<Answer>, leaves: seq<Level>, first: Level, last: Level)
  {
    && |leaves| == |answers| + 1 <= |ops| + 1 && leaves[0] == first && leaves[|answers|] == last
    && forall i :: 0 <= i < |answers| && (LooksUp(ops[i]) || ops[i].DoReopen?) ==> SameLeaves(leaves[i], leaves[i+1])
  }

  lemma LeafLevel(t: BplusTree)
    requires Works(t)
    ensures |t.lv| >= 1
  {
    RecordsSorted(t.meta, t.disk, t.lv, t.lvl);
  }

  method RangeStep(t: BplusTree, left: Option<Key>, right: Key, max: nat, wantNext: bool) returns (a: Answer)
    requires Works(t) && (wantNext ==> max > 0)
    ensures |t.lv| >= 1 && AnswersRange(Entries(t.lv), t.lv[0], left, right, max, wantNext, a)
  {
    var values := new int[max];
    ghost var f, z;
    var r, left', more;
    r, left', more, f, z := t.SearchRange(left, right, values, max, wantNext);
    a := Answer(r, None, if r < 0 then [] else values[..r], left', more);
    RecordsSorted(t.meta, t.disk, t.lv, t.lvl);
    if r >= 0 && max > 0 {
      PageOfRange(t.lv[0], Recs(t.lv[0]), left, right, max, wantNext, f, z, a);
    }
  }

  // A page of the records from f on, of which those before z lie in the range.
  lemma PageOfRange(L: Level, R: seq<Record>, left: Option<Key>, right: Key, max: nat, wantNext: bool, f: nat, z: nat,
      a: Answer)
    requires R == Recs(L) && SortedRecs(R) && left.Some? && Rank(left.value) <= Rank(right) && max > 0
    requires LowerRecAt(R, left.value, f) && UpperRecAt(R, right, z) && f <= z
    requires a.code == |a.page| == (if z - f < max then z - f else max)
    requires forall t :: 0 <= t < |a.page| ==> a.page[t] == R[f + t].value
    requires a.more == if wantNext then Some(max < z - f && !FirstOfLeaf(L, f + max)) else None
    requires a.more == Some(true) ==> f + max < z && a.left == Some(R[f + max].key)
    requires a.more != Some(true) ==> a.left == left
    ensures AnswersRange(Dict(R), L, left, right, max, wantNext, a)
  {
    var keys, m := KeysOf(R, f, z), Dict(R);
    RangeKeys(R, left.value, right, f, z);
    FirstKeys(R, m, keys, left, max, wantNext, f, z, FirstOfLeaf(L, f + max), a);
  }

  lemma FirstKeys(R: seq<Record>, m: map<Key, int>, keys: seq<Key>, left: Option<Key>, max: nat, wantNext: bool,
      f: nat, z: nat, leafEnds: bool, a: Answer)
    requires f <= z <= |R| && |keys| == z - f
    requires forall i :: 0 <= i < |keys| ==> keys[i] == R[f + i].key && keys[i] in m && m[keys[i]] == R[f + i].value
    requires a.code == |a.page| == (if z - f < max then z - f else max)
    requires forall t :: 0 <= t < |a.page| ==> a.page[t] == R[f + t].value
    requires a.more == if wantNext then Some(max < z - f && !leafEnds) else None
    requires a.more == Some(true) ==> f + max < z && a.left == Some(R[f + max].key)
    requires a.more != Some(true) ==> a.left == left
    ensures IsPage(m, keys, left, max, wantNext, leafEnds, a)
  {
    forall t | 0 <= t < |a.page| ensures keys[t] in m && a.page[t] == m[keys[t]] {
      assert keys[t] == R[f + t].key;
    }
  }

  lemma RecordsSorted(meta: Meta, disk: Disk, lv: seq<Level>, lvl: map<Off, nat>)
    requires Inv(meta, disk, lv, lvl) || Searchable(meta, disk, lv, lvl)
    ensures |lv| >= 1 && SortedRecs(Recs(lv[0]))
  {
    CanRead(meta, disk, lv, lvl);
    OpenReadable(meta, disk, lv, lvl);
  }

  ghost function KeysOf(R: seq<Record>, a: nat, z: nat): (keys: seq<Key>)
    requires a <= z <= |R|
    ensures |keys| == z - a && forall i :: 0 <= i < z - a ==> keys[i] == R[a + i].key
  {
    if a == z then [] else KeysOf(R, a, z - 1) + [R[z-1].key]
  }

  // The records between the two bounds are the bindings of the keys in the range.
  lemma RangeKeys(R: seq<Record>, lo: Key, hi: Key, a: nat, z: nat)
    requires SortedRecs(R) && LowerRecAt(R, lo, a) && UpperRecAt(R, hi, z) && a <= z
    ensures KeysInRange(Dict(R), lo, hi, KeysOf(R, a, z))
    ensures var keys := KeysOf(R, a, z);
      forall i :: 0 <= i < z - a ==> keys[i] in Dict(R) && Dict(R)[keys[i]] == R[a + i].value
  {
    var m, keys := Dict(R), KeysOf(R, a, z);
    forall i | 0 <= i < |keys| ensures keys[i] in m && m[keys[i]] == R[a + i].value {
      assert keys[i] == R[a + i].key;
    }
    forall i, j | 0 <= i < j < |keys| ensures Rank(keys[i]) < Rank(keys[j]) {
      assert keys[i] == R[a + i].key && keys[j] == R[a + j].key;
    }
    forall k | k in m && Rank(lo) <= Rank(k) <= Rank(hi) ensures exists i :: 0 <= i < |keys| && keys[i] == k {
      var i := PlaceInRange(R, lo, hi, a, z, k);
      assert keys[i] == k;
    }
  }

  lemma PlaceInRange(R: seq<Record>, lo: Key, hi: Key, a: nat, z: nat, k: Key) returns (i: nat)
    requires SortedRecs(R) && LowerRecAt(R, lo, a) && UpperRecAt(R, hi, z) && a <= z
    requires k in Dict(R) && Rank(lo) <= Rank(k) <= Rank(hi)
    ensures i < z - a && R[a + i].key == k
  {
    var n: nat :| n < |R| && R[n].key == k;
    assert a <= n < z;
    i := n - a;
  }

  // ---------- where the code as written goes wrong ----------

  method OpenSample(f: nat, m: nat, file: File) returns (t: BplusTree)
    requires Shape(f, m) && file == File(SampleMeta(f, m), SampleDisk(f, m))
    ensures fresh(t) && t.version == AsWritten && t.Valid() && t.lv == Sample(f, m)
  {
    SampleTree(f, m);
    ContentsUnique(SampleMeta(f, m), SampleDisk(f, m), Sample(f, m), SampleLevelOf(f, m));
    t := new BplusTree(AsWritten, Some(file), false);
    OpenTree(t.meta, t.disk, t.lv, t.lvl, 0, []);
    SampleStruct(f, m);
    Unique(t.meta, t.disk, t.lv, t.lvl, Sample(f, m), SampleLevelOf(f, m));
  }

  ghost predicate Spoilt(t: BplusTree)
    reads t
  {
    t.overrun || !Sound(t.meta, t.disk)
  }

  method RemoveFromSample(f: nat, m: nat, file: File, key: Key) returns (t: BplusTree)
    requires Shape(f, m) && file == File(SampleMeta(f, m), SampleDisk(f, m))
    requires RemoveDoomed(Sample(f, m), key)
    ensures fresh(t) && Spoilt(t) && Readable(t.meta, t.disk, t.lv, t.lvl)
    ensures Searchable(t.meta, t.disk, t.lv, t.lvl) <==> !RemoveLoses(Sample(f, m), key)
    ensures MissesKey(t.lv) <==> RemoveLoses(Sample(f, m), key)
    ensures t.overrun <==> RemoveOverruns(Sample(f, m), key)
    ensures Entries(t.lv) == Entries(Sample(f, m)) - {key}
  {
    t := OpenSample(f, m, file);
    var r := t.Remove(key);
  }

  // The three kinds of failing files, by the removal that spoils them.
  ghost predicate Collapses(f: nat, m: nat, key: Key)
  {
    f == 10 && m == 2 && key == Num(0)
  }

  ghost predicate BorrowsLeft(f: nat, m: nat, key: Key)
  {
    Shape(f, m) && f > 10 && key == Num(10 * f)
  }

  ghost predicate MergesLast(f: nat, m: nat, key: Key)
  {
    Shape(f, m) && m == 20 && key == Num(10 * Before(f, m - 1))
  }

  /** Well-formed files that one call of remove spoils: it leaves no well-formed tree, or has
      written past the end of a node. f and m shape the file, and key is the key to remove. Only
      the left borrow hides a key from its search, and only the merge of the last child of a full
      root writes past the end of a node. */
  method RemovalThatFails(f: nat, m: nat, file: File, key: Key) returns (t: BplusTree)
    requires Shape(f, m) && file == File(SampleMeta(f, m), SampleDisk(f, m))
    requires Collapses(f, m, key) || BorrowsLeft(f, m, key) || MergesLast(f, m, key)
    ensures fresh(t) && Spoilt(t) && Readable(t.meta, t.disk, t.lv, t.lvl)
    ensures MissesKey(t.lv) <==> BorrowsLeft(f, m, key)
    ensures t.overrun <==> MergesLast(f, m, key)
    ensures Entries(t.lv) == Entries(Sample(f, m)) - {key}
  {
    DoomedSample(f, m, key);
    SampleFate(f, m, key);
    t := RemoveFromSample(f, m, file, key);
  }

  /** A search of the file after a collapse of the root: it answers right. So it does after the merge of the
      last child of a full root, as far as the file goes; but that removal has written past the end of a
      node in memory, and what this does to the program is not followed. */
  method SearchThatStillWorks(f: nat, m: nat, file: File, key: Key, k: Key)
    returns (t: BplusTree, r: int, value: Option<int>)
    requires Shape(f, m) && file == File(SampleMeta(f, m), SampleDisk(f, m))
    requires Collapses(f, m, key) || MergesLast(f, m, key)
    ensures fresh(t) && Spoilt(t) && (t.overrun <==> MergesLast(f, m, key))
    ensures var left := Entries(Sample(f, m)) - {key};
      (r == 0 <==> k in left) && (k in left ==> value == Some(left[k]))
  {
    DoomedSample(f, m, key);
    SampleFate(f, m, key);
    t := RemoveFromSample(f, m, file, key);
    r, value := Look(t, k);
  }

  // A search, for its answer only.
  method Look(t: BplusTree, key: Key) returns (r: int, value: Option<int>)
    requires t.Valid() || Readable(t.meta, t.disk, t.lv, t.lvl)
    ensures r == 0 <==> Found(t.lv, key)
    ensures Works(t) ==> (r == 0 <==> key in Entries(t.lv)) && (r == 0 ==> value == Some(Entries(t.lv)[key]))
  {
    ghost var blocks, c;
    r, value, blocks, c := t.Search(key);
  }

  /** After the left borrow, a client who searches for all keys that are left comes to one that is not found. */
  method SearchThatGoesWrong(f: nat, m: nat, file: File, key: Key, keys: seq<Key>)
    returns (t: BplusTree, i: nat, r: int)
    requires Shape(f, m) && file == File(SampleMeta(f, m), SampleDisk(f, m)) && BorrowsLeft(f, m, key)
    requires forall k :: k in keys <==> k in Entries(Sample(f, m)) - {key}
    ensures fresh(t) && !t.overrun && Readable(t.meta, t.disk, t.lv, t.lvl)
    ensures Entries(t.lv) == Entries(Sample(f, m)) - {key}
    ensures i < |keys| && keys[i] in Entries(t.lv) && !Found(t.lv, keys[i]) && r != 0
  {
    FirstNodes(f, m);
    t := RemovalThatFails(f, m, file, key);
    i, r := FirstMissed(t, keys);
  }

  // Searches for one key after the other, until one is not found.
  method FirstMissed(t: BplusTree, keys: seq<Key>) returns (i: nat, r: int)
    requires Readable(t.meta, t.disk, t.lv, t.lvl) && MissesKey(t.lv)
    requires forall k :: k in keys <==> k in Entries(t.lv)
    ensures i < |keys| && keys[i] in Entries(t.lv) && !Found(t.lv, keys[i]) && r != 0
    ensures forall n :: 0 <= n < i ==> Found(t.lv, keys[n])
  {
    ghost var hidden :| hidden in Entries(t.lv) && !Found(t.lv, hidden);
    ghost var h: nat :| h < |keys| && keys[h] == hidden;
    i := 0;
    var value;
    r, value := Look(t, keys[i]);
    while r == 0
      invariant i <= h && (r == 0 <==> Found(t.lv, keys[i]))
      invariant forall n :: 0 <= n < i ==> Found(t.lv, keys[n])
      decreases h - i
    {
      i := i + 1;
      r, value := Look(t, keys[i]);
    }
  }

  predicate NoRepeats(keys: seq<Key>)
  {
    forall i, j :: 0 <= i < j < |keys| ==> keys[i] != keys[j]
  }

  /** As the code is written, the file does not survive a client who inserts more than 400 keys and then
      removes keys until fewer than 200 are left, whichever they are: some removal leaves no well-formed
      tree, or writes past the end of a node. */
  method GrowAndShrink(inserted: seq<Key>, removed: seq<Key>) returns (t: BplusTree, n: nat)
    requires NoRepeats(inserted) && |inserted| > 400
    requires NoRepeats(removed) && |inserted| < |removed| + 200 && forall k :: k in removed ==> k in inserted
    ensures fresh(t) && t.version == AsWritten && n < |removed| && Spoilt(t)
    ensures forall k :: k in Entries(t.lv) <==> k in inserted && k !in removed[..n+1]
  {
    t := Grow(inserted);
    forall i | 0 <= i < |removed| ensures removed[i] in Entries(t.lv) {
      assert removed[i] in inserted;
    }
    ghost var m := Entries(t.lv);
    n := Shrink(t, removed);
    WithoutKeys(m, removed, n + 1);
  }

  method Grow(keys: seq<Key>) returns (t: BplusTree)
    requires NoRepeats(keys)
    ensures fresh(t) && t.version == AsWritten && t.Valid()
    ensures |Entries(t.lv)| == |keys| && forall k :: k in Entries(t.lv) <==> k in keys
  {
    t := new BplusTree(AsWritten, None, true);
    var n := 0;
    while n < |keys|
      invariant n <= |keys| && fresh(t) && t.version == AsWritten && t.Valid()
      invariant |Entries(t.lv)| == n
      invariant forall k :: k in Entries(t.lv) <==> exists i :: 0 <= i < n && keys[i] == k
    {
      ghost var m := Entries(t.lv);
      assert keys[n] !in m;
      var r := t.Insert(keys[n], 0);
      OneMoreKey(m, keys[n], 0);
      n := n + 1;
    }
  }

  lemma OneMoreKey(m: map<Key, int>, k: Key, v: int)
    requires k !in m
    ensures |m[k := v]| == |m| + 1
  {
    assert m[k := v].Keys == m.Keys + {k};
  }

  lemma OneKeyLess(m: map<Key, int>, k: Key)
    requires k in m
    ensures |m - {k}| == |m| - 1
  {
    assert (m - {k}).Keys == m.Keys - {k};
  }

  // The bindings without those of the first n keys.
  ghost function Without(m: map<Key, int>, keys: seq<Key>, n: nat): map<Key, int>
    requires n <= |keys|
  {
    if n == 0 then m else Without(m, keys, n - 1) - {keys[n-1]}
  }

  lemma {:induction false} WithoutKeys(m: map<Key, int>, keys: seq<Key>, n: nat)
    requires n <= |keys|
    ensures forall k :: k in Without(m, keys, n) <==> k in m && k !in keys[..n]
    ensures forall k :: k in Without(m, keys, n) ==> Without(m, keys, n)[k] == m[k]
  {
    if n > 0 {
      WithoutKeys(m, keys, n - 1);
      assert keys[..n] == keys[..n-1] + [keys[n-1]];
    }
  }

  // Different keys, all of them bound. Kept folded.
  ghost predicate Bound(keys: seq<Key>, m: map<Key, int>)
  {
    forall u {:trigger Number(u)} :: u == |keys| ==> NoRepeats(keys) && forall i :: 0 <= i < u ==> keys[i] in m
  }

  ghost predicate Number(n: int) { true }

  lemma StillBound(m: map<Key, int>, keys: seq<Key>, n: nat)
    requires Bound(keys, m) && n < |keys|
    ensures keys[n] in Without(m, keys, n)
  {
    assert Number(|keys|);
    WithoutKeys(m, keys, n);
  }

  /** The removals before number n go well; that one does not. */
  method Shrink(t: BplusTree, keys: seq<Key>) returns (n: nat)
    requires t.Valid() && t.version == AsWritten && Bound(keys, Entries(t.lv))
    requires 400 < |Entries(t.lv)| < |keys| + 200
    modifies t
    ensures n < |keys| && Spoilt(t) && Entries(t.lv) == Without(Entries(old(t.lv)), keys, n + 1)
  {
    n := 0;
    ghost var m, size := Entries(t.lv), |Entries(t.lv)|;
    SmallTree(t.meta, t.disk, t.lv, t.lvl);
    while true
      invariant t.Valid() && t.version == AsWritten && t.meta.height >= 2 && n <= |keys|
      invariant |Entries(t.lv)| == size - n && Entries(t.lv) == Without(m, keys, n)
      decreases |keys| - n
    {
      SmallTree(t.meta, t.disk, t.lv, t.lvl);
      var doomed := RemoveNext(t, keys, n, m);
      if doomed {
        return;
      }
      n := n + 1;
    }
  }

  method RemoveNext(t: BplusTree, keys: seq<Key>, n: nat, ghost m: map<Key, int>) returns (doomed: bool)
    requires t.Valid() && t.version == AsWritten && n < |keys| && Entries(t.lv) == Without(m, keys, n)
    requires Bound(keys, m)
    modifies t
    ensures if doomed then Spoilt(t) else t.Valid() && t.meta.height == old(t.meta.height)
    ensures Entries(t.lv) == Without(m, keys, n + 1) && |Entries(t.lv)| == |Entries(old(t.lv))| - 1
  {
    StillBound(m, keys, n);
    doomed := RemoveBound(t, keys[n]);
  }

  // A removal that goes well keeps the height.
  method RemoveBound(t: BplusTree, key: Key) returns (doomed: bool)
    requires t.Valid() && t.version == AsWritten && key in Entries(t.lv)
    modifies t
    ensures t.version == AsWritten && (if doomed then Spoilt(t) else t.Valid() && t.meta.height == old(t.meta.height))
    ensures Entries(t.lv) == Entries(old(t.lv)) - {key} && |Entries(t.lv)| == |Entries(old(t.lv))| - 1
  {
    doomed := RemovalIsDoomed(t, key);
    OneKeyLess(Entries(t.lv), key);
    var r := t.Remove(key);
    if !doomed {
      ContentsUnique(t.meta, t.disk, t.lv, t.lvl);
    }
  }

  lemma SampleFate(f: nat, m: nat, key: Key)
    requires Shape(f, m) && (Collapses(f, m, key) || BorrowsLeft(f, m, key) || MergesLast(f, m, key))
    ensures RemoveLoses(Sample(f, m), key) <==> BorrowsLeft(f, m, key)
    ensures RemoveOverruns(Sample(f, m), key) <==> MergesLast(f, m, key)
  {
    if BorrowsLeft(f, m, key) {
      LeftBorrowHides(f, m);
      FirstNodes(f, m);
    } else if MergesLast(f, m, key) {
      LastMergeKeeps(f, m);
    } else {
      CollapseKeeps(f, m);
    }
  }

  // The keys of the last two kinds differ.
  lemma FirstNodes(f: nat, m: nat)
    requires Shape(f, m)
    ensures m == 20 ==> Num(10 * Before(f, m - 1)) != Num(10 * f)
  {
    if m == 20 {
      NumOrder(10 * f, 10 * Before(f, m - 1));
    }
  }

  lemma DoomedSample(f: nat, m: nat, key: Key)
    requires Shape(f, m)
    requires Collapses(f, m, key) || BorrowsLeft(f, m, key) || MergesLast(f, m, key)
    ensures RemoveDoomed(Sample(f, m), key)
  {
    if Collapses(f, m, key) {
      CollapseFails(f, m);
    } else if BorrowsLeft(f, m, key) {
      LeftBorrowFails(f, m);
    } else {
      LastMergeFails(f, m);
    }
  }

  /** A page of ten of sixteen records that search_range calls the last: it ends with a leaf. */
  method PageThatHidesTheRest(f: nat, m: nat, file: File, values: array<int>)
    returns (r: int, next: Option<bool>, ghost left: nat)
    requires Shape(f, m) && file == File(SampleMeta(f, m), SampleDisk(f, m)) && values.Length >= 10
    modifies values
    ensures r == 10 && next == Some(false) && left == 6
  {
    var t := OpenSample(f, m, file);
    var from: Key, to: Key := [1, 1], [1, 16];
    var l;
    ghost var a, z;
    NumOrder(0, 15);
    r, l, next, a, z := t.SearchRange(Some(from), to, values, 10, true);
    SampleBounds(t.lv[0], a, z);
    left := z - a - 10;
  }

  lemma SampleBounds(L: Level, a: nat, z: nat)
    requires |L| >= 2 && L[0] == LeafNode(Place(0), LeafRecs(0)) && L[1] == LeafNode(Place(1), LeafRecs(1))
    requires LowerRecAt(Recs(L), Num(0), a) && UpperRecAt(Recs(L), Num(15), z)
    ensures a == 0 && z == 16 && FirstOfLeaf(L, 10)
  {
    var R := Recs(L);
    LeafRecsAt(L, 0);
    LeafRecsAt(L, 1);
    assert L[..0] == [];
    RecsEmpty();
    NumOrder(0, 15);
    NumOrder(15, 16);
    assert R[RecStart(L, 0) + 0] == LeafRecs(0)[0];
    assert R[RecStart(L, 1) + 5] == LeafRecs(1)[5];
    assert R[RecStart(L, 1) + 6] == LeafRecs(1)[6];
    assert R[0].key == Num(0) && R[15].key == Num(15) && R[16].key == Num(16);
    assert RecStart(L, 1) == 10;
  }

  lemma LeafRecsAt(L: Level, c: nat)
    requires c < |L| && L[c] == LeafNode(Place(c), LeafRecs(c))
    ensures RecStart(L, c + 1) == RecStart(L, c) + 10 <= |Recs(L)|
    ensures forall i :: 0 <= i < 10 ==> Recs(L)[RecStart(L, c) + i] == LeafRecs(c)[i]
  {
    RecsStretch(L, c);
  }
}
