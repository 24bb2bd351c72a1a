/** What the faults of the deletion code do to searches. Beside the levels as written there are those
    with the keys they should have: as long as the two differ only in last keys, which no search
    reads, every search answers right; what happens otherwise hides a record. */
module BptLoss {
  import opened KeyOrder
  import opened BptLevels
  import opened BptTree
  import opened BptDeleteSteps
  import opened BptIndexDelete
  import opened BptRebalance
  import opened BptBorrow
  import opened BptMerge
  import opened BptRemoveFacts
  import opened BptSteps
  import opened BptLookup
  import opened BptPaths

  // ---------- levels that differ in last keys only ----------

  ghost predicate SameButLast(s: seq<Slot>, t: seq<Slot>)
  {
    |s| == |t| && forall i :: 0 <= i < |s| ==> s[i].child == t[i].child && (i + 1 < |s| ==> s[i] == t[i])
  }

  ghost predicate TwinNode(x: Node, y: Node)
  {
    match x
    case LeafNode(_, _) => y == x
    case InnerNode(off, slots) => y.InnerNode? && y.off == off && SameButLast(slots, y.slots)
  }

  ghost predicate TwinLevel(A: Level, B: Level)
  {
    |A| == |B| && forall j :: 0 <= j < |A| ==> TwinNode(A[j], B[j])
  }

  // B has the keys that A should have, below level l.
  ghost predicate Twin(A: seq<Level>, B: seq<Level>, l: nat)
  {
    && |A| == |B|
    && (forall m :: 0 <= m < |A| && m < l ==> TwinLevel(A[m], B[m]))
    && (forall m :: l <= m < |A| ==> B[m] == A[m])
  }

  // Every search comes to the leaf that it should come to.
  ghost predicate Findable(lv: seq<Level>)
  {
    exists L: seq<Level> :: Twin(lv, L, |lv|) && KeysP(L, 0, [])
  }

  lemma TwinRefl(lv: seq<Level>, l: nat)
    ensures Twin(lv, lv, l)
  {
    forall m, j | 0 <= m < |lv| && 0 <= j < |lv[m]| ensures TwinNode(lv[m][j], lv[m][j]) {
    }
  }

  // ---------- a deletion on its way up ----------

  // While slot i + 1 of node j of level l is about to go (stale: dropped as it stands), either some
  // record is lost already, or B has the keys that are right up to there; a stale key is then still
  // followed by a record that it must not have on its right.
  ghost predicate Tracked(lv: seq<Level>, B: seq<Level>, l: nat, j: nat, i: nat, stale: bool, lost: bool)
  {
    && |B| == |lv| && 1 <= l < |lv| && j < |lv[l]|
    && i + 1 < |SlotsOf(lv[l][j])| && Start(lv[l], j) + i + 1 < |Slots(lv[l])|
    && forall u {:trigger Unfold(u)} :: u == stale ==> TrackedAt(lv, B, l, j, i, u, lost)
  }

  // Kept folded: what Tracked says shows only where Unfold is mentioned.
  ghost predicate Unfold(stale: bool) { true }

  lemma TrackedMeans(lv: seq<Level>, B: seq<Level>, l: nat, j: nat, i: nat, stale: bool, lost: bool)
    requires Tracked(lv, B, l, j, i, stale, lost)
    ensures lost ==> LostBelow(lv, l)
    ensures !lost ==> RightBelow(lv, B, l, j, i)
  {
    assert Unfold(stale);
  }

  ghost predicate TrackedAt(lv: seq<Level>, B: seq<Level>, l: nat, j: nat, i: nat, stale: bool, lost: bool)
    requires 1 <= l < |lv| && j < |lv[l]| && i + 1 < |SlotsOf(lv[l][j])| && Start(lv[l], j) + i + 1 < |Slots(lv[l])|
  {
    if lost then LostBelow(lv, l) else RightBelow(lv, B, l, j, i) && (stale ==> StaleUnder(lv, l, j, i))
  }

  ghost predicate RightBelow(lv: seq<Level>, B: seq<Level>, l: nat, j: nat, i: nat)
    requires l < |lv| && j < |lv[l]| && Start(lv[l], j) + i + 1 < |Slots(lv[l])|
  {
    Twin(lv, B, l) && KeysP(B, l, Deleted(Slots(lv[l]), Start(lv[l], j) + i, false))
  }

  ghost predicate StaleUnder(lv: seq<Level>, l: nat, j: nat, i: nat)
    requires 1 <= l < |lv| && j < |lv[l]| && i < |SlotsOf(lv[l][j])|
  {
    exists f: nat ::
      && Below(lv, l - 1, Start(lv[l], j) + i, f) && f < |lv[0]| && |RecsOf(lv[0][f])| > 0
      && Rank(SlotsOf(lv[l][j])[i].key) <= Rank(RecsOf(lv[0][f])[0].key)
  }

  // The end of a removal: either some record is lost, or every search comes to its leaf.
  ghost predicate Ends(lv: seq<Level>, lost: bool)
  {
    (lost ==> LostBelow(lv, |lv|)) && (!lost ==> Findable(lv))
  }

  /** The deletions that lose records, read off the tree before the call: node j of level l is about
      to lose a slot (stale: and keeps a stale last key), has too few left, and
      - it borrows from its left sibling, or
      - a slot is put behind its stale key, by a borrow from or a merge with its right sibling, or
      - its parent meets one of these in turn; there the key is stale if it is a last child's. */
  ghost predicate Loses(lv: seq<Level>, l: nat, j: nat, stale: bool)
    decreases |lv| - l, 1
  {
    && 1 <= l && l + 1 < |lv| && j < |lv[l]| && Count(lv[l][j]) <= MIN_FILL
    && exists k: nat, i: nat :: Under(lv, l, j, k, i) && LosesUnder(lv, l, j, k, i, stale)
  }

  ghost predicate LosesUnder(lv: seq<Level>, l: nat, j: nat, k: nat, i: nat, stale: bool)
    requires Under(lv, l, j, k, i) && 1 <= l
    decreases |lv| - l, 0
  {
    var n := Count(lv[l+1][k]);
    if i > 0 && Count(lv[l][j-1]) > MIN_FILL then true
    else if i + 1 < n && j + 1 < |lv[l]| && Count(lv[l][j+1]) > MIN_FILL then stale
    else if i + 1 < n then stale || Loses(lv, l + 1, k, false)
    else Loses(lv, l + 1, k, true)
  }

  lemma LosesHere(lv: seq<Level>, l: nat, j: nat, k: nat, i: nat, stale: bool)
    requires 1 <= l && Under(lv, l, j, k, i)
    ensures Loses(lv, l, j, stale) <==> Count(lv[l][j]) <= MIN_FILL && LosesUnder(lv, l, j, k, i, stale)
  {
    forall k2: nat, i2: nat | Under(lv, l, j, k2, i2) ensures k2 == k && i2 == i {
      UnderUnique(lv, l, j, k, i, k2, i2);
    }
  }

  lemma {:induction false} LosesAbove(lv: seq<Level>, lv': seq<Level>, l: nat, j: nat, stale: bool)
    requires |lv'| == |lv| && forall m :: l <= m < |lv| ==> lv'[m] == lv[m]
    ensures Loses(lv', l, j, stale) <==> Loses(lv, l, j, stale)
    decreases |lv| - l
  {
    if 1 <= l && l + 1 < |lv| && j < |lv[l]| {
      forall k: nat, i: nat | Under(lv, l, j, k, i) || Under(lv', l, j, k, i)
        ensures Under(lv, l, j, k, i) && Under(lv', l, j, k, i)
        ensures LosesUnder(lv, l, j, k, i, stale) <==> LosesUnder(lv', l, j, k, i, stale)
      {
        LosesAbove(lv, lv', l + 1, k, false);
        LosesAbove(lv, lv', l + 1, k, true);
      }
    }
  }

  /** The deletions that write past the end of a node: a stale slot goes from a full node, here or where
      the merges on the way up end. */
  ghost predicate Overruns(lv: seq<Level>, l: nat, j: nat, stale: bool)
    decreases |lv| - l, 1
  {
    && 1 <= l < |lv| && j < |lv[l]|
    && ((stale && Count(lv[l][j]) == BP_ORDER)
        || (l + 1 < |lv| && Count(lv[l][j]) <= MIN_FILL
            && exists k: nat, i: nat :: Under(lv, l, j, k, i) && OverrunsUnder(lv, l, j, k, i)))
  }

  ghost predicate OverrunsUnder(lv: seq<Level>, l: nat, j: nat, k: nat, i: nat)
    requires Under(lv, l, j, k, i) && 1 <= l
    decreases |lv| - l, 0
  {
    var n := Count(lv[l+1][k]);
    if i > 0 && Count(lv[l][j-1]) > MIN_FILL then false
    else if i + 1 < n && j + 1 < |lv[l]| && Count(lv[l][j+1]) > MIN_FILL then false
    else Overruns(lv, l + 1, k, i + 1 == n)
  }

  lemma OverrunsHere(lv: seq<Level>, l: nat, j: nat, k: nat, i: nat, stale: bool)
    requires 1 <= l && Under(lv, l, j, k, i)
    ensures Overruns(lv, l, j, stale) <==>
      (stale && Count(lv[l][j]) == BP_ORDER) || (Count(lv[l][j]) <= MIN_FILL && OverrunsUnder(lv, l, j, k, i))
  {
    forall k2: nat, i2: nat | Under(lv, l, j, k2, i2) ensures k2 == k && i2 == i {
      UnderUnique(lv, l, j, k, i, k2, i2);
    }
  }

  lemma {:induction false} OverrunsAbove(lv: seq<Level>, lv': seq<Level>, l: nat, j: nat, stale: bool)
    requires |lv'| == |lv| && forall m :: l <= m < |lv| ==> lv'[m] == lv[m]
    ensures Overruns(lv', l, j, stale) <==> Overruns(lv, l, j, stale)
    decreases |lv| - l
  {
    if 1 <= l && l + 1 < |lv| && j < |lv[l]| {
      forall k: nat, i: nat | Under(lv, l, j, k, i) || Under(lv', l, j, k, i)
        ensures Under(lv, l, j, k, i) && Under(lv', l, j, k, i)
        ensures OverrunsUnder(lv, l, j, k, i) <==> OverrunsUnder(lv', l, j, k, i)
      {
        OverrunsAbove(lv, lv', l + 1, k, false);
        OverrunsAbove(lv, lv', l + 1, k, true);
      }
    }
  }

  // What becomes of a deletion is read off the levels above.
  lemma FateAbove(lv: seq<Level>, lv': seq<Level>, l: nat, j: nat, stale: bool)
    requires |lv'| == |lv| && forall m :: 0 <= m < |lv| && l <= m ==> lv'[m] == lv[m]
    ensures Cascade(lv', l, j) <==> Cascade(lv, l, j)
    ensures Loses(lv', l, j, stale) <==> Loses(lv, l, j, stale)
    ensures Overruns(lv', l, j, stale) <==> Overruns(lv, l, j, stale)
  {
    CascadeAbove(lv, lv', l, j);
    LosesAbove(lv, lv', l, j, stale);
    OverrunsAbove(lv, lv', l, j, stale);
  }

  // ---------- one level ----------

  lemma DeletedTwin(s: seq<Slot>, i: nat, stale: bool)
    requires i + 1 < |s| && (stale ==> i + 2 == |s|)
    ensures SameButLast(Deleted(s, i, stale), Deleted(s, i, false))
  {
    forall a | 0 <= a < |s| - 1
      ensures Deleted(s, i, stale)[a].child == Deleted(s, i, false)[a].child
      ensures a + 1 < |s| - 1 ==> Deleted(s, i, stale)[a] == Deleted(s, i, false)[a]
    {
      DeletedAt(s, i, stale, a);
      DeletedAt(s, i, false, a);
    }
  }

  // One level finished: the next may follow.
  lemma TwinNext(A: seq<Level>, B: seq<Level>, l: nat, X: Level, Y: Level, l': nat)
    requires Twin(A, B, l) && l < |A| && TwinLevel(X, Y) && l < l'
    ensures Twin(A[l := X], B[l := Y], l')
  {
    var A', B' := A[l := X], B[l := Y];
    forall m | 0 <= m < |A'| && m < l' ensures TwinLevel(A'[m], B'[m]) {
      if m > l {
        TwinRefl(A, l);
        assert TwinLevel(A[m], A[m]) by {
          forall j | 0 <= j < |A[m]| ensures TwinNode(A[m][j], A[m][j]) {
          }
        }
      }
    }
  }

  lemma TwinSelf(L: Level)
    ensures TwinLevel(L, L)
  {
    forall j | 0 <= j < |L| ensures TwinNode(L[j], L[j]) {
    }
  }

  /** The node keeps enough slots. */
  lemma AbsorbTracked(lv: seq<Level>, B: seq<Level>, l: nat, j: nat, i: nat, stale: bool, lost: bool, x: Node)
    requires Tracked(lv, B, l, j, i, stale, lost)
    requires forall a :: 0 <= a < |lv[l]| ==> lv[l][a].InnerNode? && |lv[l][a].slots| >= 1
    requires stale ==> i + 2 == |lv[l][j].slots|
    requires x == InnerNode(lv[l][j].off, Deleted(lv[l][j].slots, i, stale))
    ensures Ends(lv[l := lv[l][j := x]], lost)
  {
    TrackedMeans(lv, B, l, j, i, stale, lost);
    var lv' := lv[l := lv[l][j := x]];
    if lost {
      StillLost(lv, lv', l, |lv'|);
    } else {
      AbsorbRight(lv, B, l, j, i, stale, x);
    }
  }

  lemma AbsorbRight(lv: seq<Level>, B: seq<Level>, l: nat, j: nat, i: nat, stale: bool, x: Node)
    requires 1 <= l < |lv| && j < |lv[l]| && |B| == |lv| && lv[l][j].InnerNode? && i + 1 < |lv[l][j].slots|
    requires forall a :: 0 <= a < |lv[l]| ==> lv[l][a].InnerNode? && |lv[l][a].slots| >= 1
    requires Start(lv[l], j) + i + 1 < |Slots(lv[l])| && RightBelow(lv, B, l, j, i)
    requires stale ==> i + 2 == |lv[l][j].slots|
    requires x == InnerNode(lv[l][j].off, Deleted(lv[l][j].slots, i, stale))
    ensures Findable(lv[l := lv[l][j := x]])
  {
    var y := InnerNode(lv[l][j].off, Deleted(lv[l][j].slots, i, false));
    var lv', B' := lv[l := lv[l][j := x]], B[l := B[l][j := y]];
    DeletedNode(lv[l], j, i, false, y);
    AbsorbKeys(B, l, j, i, false, true, 0, y);
    DeletedTwin(lv[l][j].slots, i, stale);
    TwinSelf(lv[l]);
    assert TwinLevel(lv[l][j := x], lv[l][j := y]);
    TwinNext(lv, B, l, lv[l][j := x], lv[l][j := y], |lv|);
    assert Twin(lv', B', |lv'|);
  }

  /** The root goes. */
  lemma CollapseTracked(lv: seq<Level>, B: seq<Level>, l: nat, i: nat, stale: bool, lost: bool)
    requires Tracked(lv, B, l, 0, i, stale, lost) && l == |lv| - 1
    ensures Ends(lv[..l], lost)
  {
    assert Unfold(stale);
    if lost {
      StillLost(lv, lv[..l], l, l);
    } else {
      var S := Deleted(Slots(lv[l]), Start(lv[l], 0) + i, false);
      forall m | 1 <= m < l ensures KeysAt(B[..l][m-1], Flat(B[..l], m, 0, [])) {
        assert KeysAt(B[m-1], Flat(B, m, l, S));
      }
      assert Twin(lv[..l], B[..l], l) && KeysP(B[..l], 0, []);
    }
  }

  // A slot put behind a stale key: the record below is lost.
  lemma StaleLoses(lv: seq<Level>, lv': seq<Level>, l: nat, j: nat, i: nat, j': nat)
    requires 1 <= l < |lv| && j < |lv[l]| && i < |SlotsOf(lv[l][j])| && StaleUnder(lv, l, j, i)
    requires l < |lv'| && forall m :: 0 <= m < l ==> lv'[m] == lv[m]
    requires j' < |lv'[l]| && i + 1 < |SlotsOf(lv'[l][j'])| && Start(lv'[l], j') == Start(lv[l], j)
    requires SlotsOf(lv'[l][j'])[i].key == SlotsOf(lv[l][j])[i].key && Start(lv[l], j) + i < |lv[l-1]|
    ensures forall l' :: l < l' ==> LostBelow(lv', l')
  {
    var p := Start(lv[l], j) + i;
    var f: nat :|
      && Below(lv, l - 1, p, f) && f < |lv[0]| && |RecsOf(lv[0][f])| > 0
      && Rank(SlotsOf(lv[l][j])[i].key) <= Rank(RecsOf(lv[0][f])[0].key);
    BelowSame(lv, lv', l - 1, p, f);
    assert Under(lv', l - 1, p, j', i);
    BlockedAt(lv', l - 1, p, f, 0, j', i);
  }

  // What a pending deletion below the root says of the tree around it.
  ghost predicate Around(lv: seq<Level>, l: nat)
  {
    && 1 <= l && l + 1 < |lv| && UpperKeys(lv, l)
    && (forall a :: 1 <= a < l ==> NonEmpty(lv, a))
    && (forall f :: 0 <= f < |lv[0]| ==> lv[0][f].LeafNode? && |lv[0][f].recs| >= 1)
    && (forall m :: 0 <= m < |lv[l]| ==> lv[l][m].InnerNode? && |lv[l][m].slots| >= 1)
    && AllInner(lv[l]) && AllInner(lv[l+1])
    && |Slots(lv[l+1])| == |lv[l]| && |Slots(lv[l])| == |lv[l-1]| + 1
  }

  // Levels l and above are the same in both.
  lemma TwinUp(lv: seq<Level>, B: seq<Level>, l: nat, lv': seq<Level>, B': seq<Level>, l': nat)
    requires Twin(lv, B, l) && |lv'| == |B'| == |lv| && l <= l'
    requires forall m :: 0 <= m < |lv| && m < l ==> lv'[m] == lv[m] && B'[m] == B[m]
    requires forall m :: l <= m < |lv| ==> B'[m] == lv'[m]
    ensures Twin(lv', B', l')
  {
    forall m | 0 <= m < |lv'| && m < l' ensures TwinLevel(lv'[m], B'[m]) {
      TwinSelf(lv'[m]);
    }
  }

  lemma SameStart(L: Level, L': Level, j: nat)
    requires j <= |L| && j <= |L'| && forall m :: 0 <= m < j ==> L'[m] == L[m]
    ensures Start(L', j) == Start(L, j)
  {
    assert L'[..j] == L[..j];
  }

  // A stale deletion leaves the key of slot i where it was.
  lemma StaleKeyStays(s: seq<Slot>, i: nat, t: seq<Slot>)
    requires i + 2 == |s| && |t| >= 1
    ensures i + 1 < |Deleted(s, i, true) + t| && (Deleted(s, i, true) + t)[i].key == s[i].key
  {
    DeletedAt(s, i, true, i);
    assert (Deleted(s, i, true) + t)[i] == Deleted(s, i, true)[i];
  }

  /** A slot from the right sibling. */
  lemma BorrowRightTracked(lv: seq<Level>, B: seq<Level>, l: nat, j: nat, i: nat, stale: bool, lost: bool,
      k: nat, pi: nat, x: Node, y: Node)
    requires Tracked(lv, B, l, j, i, stale, lost) && Around(lv, l) && (stale ==> i + 2 == |SlotsOf(lv[l][j])|)
    requires Under(lv, l, j, k, pi) && j + 1 < |lv[l]| && pi + 1 < |SlotsOf(lv[l+1][k])|
    requires |SlotsOf(lv[l][j+1])| >= 2
    requires x == InnerNode(lv[l][j].off, Remaining(lv, l, j, i, stale) + [SlotsOf(lv[l][j+1])[0]])
    requires y == InnerNode(lv[l][j+1].off, SlotsOf(lv[l][j+1])[1..])
    ensures lv[l+1][k].InnerNode?
    ensures Ends(ShiftedLevels(lv, l, j, x, y, k, pi, SlotsOf(lv[l][j+1])[0].key), lost || stale)
  {
    assert Unfold(stale);
    var key := SlotsOf(lv[l][j+1])[0].key;
    var lv' := ShiftedLevels(lv, l, j, x, y, k, pi, key);
    if lost {
      StillLost(lv, lv', l, |lv'|);
    } else if stale {
      StaleKeyStays(SlotsOf(lv[l][j]), i, [SlotsOf(lv[l][j+1])[0]]);
      SameStart(lv[l], lv'[l], j);
      StaleLoses(lv, lv', l, j, i, j);
    } else {
      var S := Deleted(Slots(lv[l]), Start(lv[l], j) + i, false);
      var B' := ShiftedLevels(B, l, j, x, y, k, pi, key);
      RegroupedFlat(lv[l], j, i, false, j, x, y);
      UpperSame(lv, B, l);
      BorrowRightKeys(B, l, S, j, i, false, true, 0, k, pi, x, y);
      TwinUp(lv, B, l, lv', B', |lv'|);
    }
  }

  lemma UpperSame(lv: seq<Level>, B: seq<Level>, l: nat)
    requires UpperKeys(lv, l) && |B| == |lv| && forall m :: l <= m < |lv| ==> B[m] == lv[m]
    ensures UpperKeys(B, l)
  {
    forall m | l < m < |B| ensures KeysAt(B[m-1], Slots(B[m])) {
      assert KeysAt(lv[m-1], Slots(lv[m]));
    }
  }

  lemma AssembleTracked(lv: seq<Level>, B: seq<Level>, l: nat, U: Level, k: nat, pi: nat, c: nat, stale: bool,
      lost: bool)
    requires |B| == |lv| && 1 <= l < |lv| && lv[l] == U && k < |U| && pi + 1 < |SlotsOf(U[k])|
    requires c == Start(U, k) + pi && c + 1 < |Slots(U)|
    requires lost ==> LostBelow(lv, l)
    requires !lost ==> Twin(lv, B, l) && KeysP(B, l, Deleted(Slots(U), c, false))
    requires !lost && stale ==> StaleUnder(lv, l, k, pi)
    ensures Tracked(lv, B, l, k, pi, stale, lost)
  {
    assert TrackedAt(lv, B, l, k, pi, stale, lost);
  }

  /** A merge with the right sibling. */
  lemma MergeNextTracked(lv: seq<Level>, B: seq<Level>, l: nat, j: nat, i: nat, stale: bool, lost: bool,
      k: nat, pi: nat, x: Node)
    requires Tracked(lv, B, l, j, i, stale, lost) && Around(lv, l) && (stale ==> i + 2 == |SlotsOf(lv[l][j])|)
    requires Under(lv, l, j, k, pi) && j + 1 < |lv[l]| && pi + 1 < |SlotsOf(lv[l+1][k])|
    requires x == InnerNode(lv[l][j].off, Remaining(lv, l, j, i, stale) + SlotsOf(lv[l][j+1]))
    ensures Tracked(lv[l := WithMerge(lv[l], j, x)], B[l := WithMerge(lv[l], j, x)], l + 1, k, pi, false, lost || stale)
  {
    assert Unfold(stale);
    var lv', B' := lv[l := WithMerge(lv[l], j, x)], B[l := WithMerge(lv[l], j, x)];
    SlotsAt(lv[l+1], k, pi + 1);
    if lost {
      StillLost(lv, lv', l, l + 1);
    } else if stale {
      MergeNextStale(lv, l, j, i, x);
    } else {
      MergedRight(lv, B, l, j, i, j, x);
      TwinUp(lv, B, l, lv', B', l + 1);
    }
    AssembleTracked(lv', B', l + 1, lv[l+1], k, pi, j, false, lost || stale);
  }

  lemma MergeNextStale(lv: seq<Level>, l: nat, j: nat, i: nat, x: Node)
    requires Around(lv, l) && j + 1 < |lv[l]| && i + 2 == |SlotsOf(lv[l][j])| && StaleUnder(lv, l, j, i)
    requires Start(lv[l], j) + i + 1 < |Slots(lv[l])|
    requires x == InnerNode(lv[l][j].off, Remaining(lv, l, j, i, true) + SlotsOf(lv[l][j+1]))
    ensures LostBelow(lv[l := WithMerge(lv[l], j, x)], l + 1)
  {
    var lv' := lv[l := WithMerge(lv[l], j, x)];
    StaleKeyStays(SlotsOf(lv[l][j]), i, SlotsOf(lv[l][j+1]));
    SameStart(lv[l], lv'[l], j);
    StaleLoses(lv, lv', l, j, i, j);
  }

  // The right keys after a merge.
  lemma MergedRight(lv: seq<Level>, B: seq<Level>, l: nat, j: nat, i: nat, c: nat, x: Node)
    requires UpperKeys(lv, l) && l + 1 < |lv| && j < |lv[l]| && i + 1 < |SlotsOf(lv[l][j])|
    requires forall m :: 0 <= m < |lv[l]| ==> lv[l][m].InnerNode? && |lv[l][m].slots| >= 1
    requires |Slots(lv[l+1])| == |lv[l]|
    requires Start(lv[l], j) + i + 1 < |Slots(lv[l])| && RightBelow(lv, B, l, j, i)
    requires (j == c || j == c + 1) && c + 1 < |lv[l]|
    requires x.InnerNode? && x.off == lv[l][c].off
    requires x.slots == if j == c then Remaining(lv, l, j, i, false) + SlotsOf(lv[l][c+1])
                        else SlotsOf(lv[l][c]) + Remaining(lv, l, j, i, false)
    ensures c + 1 < |Slots(lv[l+1])|
    ensures KeysP(B[l := WithMerge(lv[l], c, x)], l + 1, Deleted(Slots(lv[l+1]), c, false))
  {
    UpperSame(lv, B, l);
    MergedKeys(B, l, lv[l], lv[l+1], j, i, c, x);
  }

  lemma MergedKeys(B: seq<Level>, l: nat, L: Level, U: Level, j: nat, i: nat, c: nat, x: Node)
    requires UpperKeys(B, l) && l + 1 < |B| && B[l] == L && B[l+1] == U && |Slots(U)| == |L|
    requires (j == c || j == c + 1) && c + 1 < |L| && i + 1 < |SlotsOf(L[j])| && Start(L, j) + i + 1 < |Slots(L)|
    requires forall m :: 0 <= m < |L| ==> L[m].InnerNode? && |L[m].slots| >= 1
    requires KeysP(B, l, Deleted(Slots(L), Start(L, j) + i, false))
    requires SlotsOf(x)
          == (if j == c then Deleted(SlotsOf(L[j]), i, false) + SlotsOf(L[c+1])
              else SlotsOf(L[c]) + Deleted(SlotsOf(L[j]), i, false))
    requires x.InnerNode? && |x.slots| > 0
    ensures KeysP(B[l := WithMerge(L, c, x)], l + 1, Deleted(Slots(U), c, false))
  {
    var S := Deleted(Slots(L), Start(L, j) + i, false);
    MergedFlat(L, j, i, false, c, x);
    MergeDoneKeys(B, l, S, j, i, false, true, 0, c, x, false);
  }

  // ---------- a merge with the left sibling, of a last child ----------

  lemma {:induction false} TwinSlots(A: Level, B: Level, j: nat)
    requires TwinLevel(A, B) && j <= |A|
    ensures Start(A, j) == Start(B, j)
    decreases j
  {
    if j == 0 {
      StartEnds(A);
      StartEnds(B);
    } else {
      TwinSlots(A, B, j - 1);
      assert TwinNode(A[j-1], B[j-1]);
      SlotsAt(A, j - 1, 0);
      SlotsAt(B, j - 1, 0);
    }
  }

  lemma TwinUnder(A: seq<Level>, B: seq<Level>, n: nat, q: nat, p: nat, i: nat)
    requires |A| == |B| && n + 1 < |A| && TwinLevel(A[n], B[n]) && TwinLevel(A[n+1], B[n+1])
    ensures Under(A, n, q, p, i) <==> Under(B, n, q, p, i)
  {
    if p < |A[n+1]| {
      TwinSlots(A[n+1], B[n+1], p);
      assert TwinNode(A[n+1][p], B[n+1][p]);
    }
  }

  lemma {:induction false} TwinBelow(A: seq<Level>, B: seq<Level>, m: nat, p: nat, f: nat)
    requires |A| == |B| && m < |A| && (forall a :: 0 <= a <= m ==> TwinLevel(A[a], B[a])) && Below(B, m, p, f)
    ensures Below(A, m, p, f)
    decreases m
  {
    if m > 0 {
      assert BelowChild(B, m - 1, p, f);
      var q: nat, i: nat :| Under(B, m - 1, q, p, i) && Below(B, m - 1, q, f);
      TwinBelow(A, B, m - 1, q, f);
      TwinUnder(A, B, m - 1, q, p, i);
      assert BelowChild(A, m - 1, p, f);
    }
  }

  // The records of leaf f do not lie below the key.
  ghost predicate NotBelow(leaves: Level, f: nat, key: Key)
  {
    f < |leaves| && forall e :: 0 <= e < |RecsOf(leaves[f])| ==> Rank(key) <= Rank(RecsOf(leaves[f])[e].key)
  }

  // The records of the first leaf below a node do not lie below the key before the node.
  lemma {:induction false} FirstLeafKeys(B: seq<Level>, l: nat, S: seq<Slot>, m: nat, q: nat)
    requires KeysP(B, l, S) && m < l < |B| && 0 < q < |B[m]| && forall a :: 1 <= a <= m ==> NonEmpty(B, a)
    requires forall f :: 0 <= f < |B[0]| ==> B[0][f].LeafNode?
    ensures q - 1 < |Flat(B, m + 1, l, S)|
    ensures NotBelow(B[0], FirstLeaf(B, m, q), Flat(B, m + 1, l, S)[q-1].key)
    decreases m
  {
    var U := Flat(B, m + 1, l, S);
    assert KeysAt(B[m], U);
    assert SepOK(B[m][q-1], B[m][q], U[q-1].key);
    if m > 0 {
      assert NonEmpty(B, m);
      KeyBeforeNode(B[m], q, U[q-1].key);
      FirstChild(B, m, q);
      FirstLeafKeys(B, l, S, m - 1, Start(B[m], q));
    }
  }

  lemma KeyBeforeNode(L: Level, q: nat, key: Key)
    requires 0 < q < |L| && |SlotsOf(L[q-1])| >= 1 && LastKey(L[q-1]) == key
    ensures 0 < Start(L, q) <= |Slots(L)| && Slots(L)[Start(L, q) - 1].key == key
  {
    SlotsAt(L, q - 1, |SlotsOf(L[q-1])| - 1);
  }

  lemma TwinNonEmpty(A: seq<Level>, B: seq<Level>, a: nat)
    requires |A| == |B| && NonEmpty(A, a) && TwinLevel(A[a], B[a]) && |A[a-1]| == |B[a-1]|
    ensures NonEmpty(B, a)
  {
    TwinSlots(A[a], B[a], |A[a]|);
    StartEnds(A[a]);
    StartEnds(B[a]);
    forall j | 0 <= j < |B[a]| ensures B[a][j].InnerNode? && |B[a][j].slots| >= 1 {
      assert TwinNode(A[a][j], B[a][j]);
    }
  }

  // A leaf below node j whose records do not lie below the key before the node.
  lemma LeafBehindKey(lv: seq<Level>, B: seq<Level>, l: nat, j: nat, i: nat) returns (f: nat)
    requires Around(lv, l) && 0 < j < |lv[l]| && i + 1 < |SlotsOf(lv[l][j])|
    requires Start(lv[l], j) + i + 1 < |Slots(lv[l])| && RightBelow(lv, B, l, j, i)
    ensures Below(lv, l - 1, Start(lv[l], j), f) && NotBelow(lv[0], f, LastKey(lv[l][j-1]))
    ensures f < |lv[0]| && |RecsOf(lv[0][f])| > 0
  {
    var S, q := Deleted(Slots(lv[l]), Start(lv[l], j) + i, false), Start(lv[l], j);
    KeyBeforeNode(lv[l], j, LastKey(lv[l][j-1]));
    forall a | 1 <= a <= l - 1 ensures NonEmpty(B, a) {
      TwinNonEmpty(lv, B, a);
    }
    f := FirstLeaf(B, l - 1, q);
    FirstLeafBelow(B, l - 1, q);
    TwinBelow(lv, B, l - 1, q, f);
    TwinLeaves(lv[0], B[0]);
    DeletedAt(Slots(lv[l]), q + i, false, q - 1);
    assert S[q-1].key == LastKey(lv[l][j-1]);
    FirstLeafAt(B, l, S, q, LastKey(lv[l][j-1]));
  }

  lemma FirstLeafAt(B: seq<Level>, l: nat, S: seq<Slot>, q: nat, key: Key)
    requires 1 <= l < |B| && KeysP(B, l, S) && 0 < q < |B[l-1]| && forall a :: 1 <= a <= l - 1 ==> NonEmpty(B, a)
    requires forall f :: 0 <= f < |B[0]| ==> B[0][f].LeafNode?
    requires q - 1 < |S| && S[q-1].key == key
    ensures NotBelow(B[0], FirstLeaf(B, l - 1, q), key)
  {
    FirstLeafKeys(B, l, S, l - 1, q);
  }

  lemma TwinLeaves(A: Level, B: Level)
    requires TwinLevel(A, B) && forall f :: 0 <= f < |A| ==> A[f].LeafNode?
    ensures A == B
  {
    forall m | 0 <= m < |B| ensures B[m] == A[m] {
      assert TwinNode(A[m], B[m]);
    }
  }

  /** A merge with the left sibling: the key passed up is stale, and the records of the merged node lie
      behind it. */
  lemma MergePrevTracked(lv: seq<Level>, B: seq<Level>, l: nat, j: nat, i: nat, stale: bool, lost: bool,
      k: nat, pi: nat, x: Node, y: Node)
    requires Tracked(lv, B, l, j, i, stale, lost) && Around(lv, l) && (stale ==> i + 2 == |SlotsOf(lv[l][j])|)
    requires 0 < j && Under(lv, l, j - 1, k, pi) && pi + 1 < |SlotsOf(lv[l+1][k])|
    requires x == InnerNode(lv[l][j-1].off, SlotsOf(lv[l][j-1]) + Remaining(lv, l, j, i, stale))
    requires y == InnerNode(lv[l][j-1].off, SlotsOf(lv[l][j-1]) + Remaining(lv, l, j, i, false))
    ensures Tracked(lv[l := WithMerge(lv[l], j - 1, x)], B[l := WithMerge(lv[l], j - 1, y)], l + 1, k, pi, true, lost)
  {
    TrackedMeans(lv, B, l, j, i, stale, lost);
    if lost {
      MergedLost(lv, B, l, j - 1, k, pi, x, y, true);
    } else {
      MergePrevRight(lv, B, l, j, i, stale, k, pi, x, y);
      MergedKept(lv, B, l, j - 1, k, pi, x, y);
    }
  }

  lemma MergedKept(lv: seq<Level>, B: seq<Level>, l: nat, c: nat, k: nat, pi: nat, x: Node, y: Node)
    requires |B| == |lv| && l + 1 < |lv| && c + 1 < |lv[l]| && Under(lv, l, c, k, pi)
    requires pi + 1 < |SlotsOf(lv[l+1][k])| && c + 1 < |Slots(lv[l+1])|
    requires Twin(lv[l := WithMerge(lv[l], c, x)], B[l := WithMerge(lv[l], c, y)], l + 1)
    requires KeysP(B[l := WithMerge(lv[l], c, y)], l + 1, Deleted(Slots(lv[l+1]), c, false))
    requires StaleUnder(lv[l := WithMerge(lv[l], c, x)], l + 1, k, pi)
    ensures Tracked(lv[l := WithMerge(lv[l], c, x)], B[l := WithMerge(lv[l], c, y)], l + 1, k, pi, true, false)
  {
    AssembleTracked(lv[l := WithMerge(lv[l], c, x)], B[l := WithMerge(lv[l], c, y)], l + 1, lv[l+1], k, pi, c, true,
                    false);
  }

  // What was lost below stays lost.
  lemma MergedLost(lv: seq<Level>, B: seq<Level>, l: nat, c: nat, k: nat, pi: nat, x: Node, y: Node, stale: bool)
    requires LostBelow(lv, l) && |B| == |lv| && l + 1 < |lv| && c + 1 < |lv[l]| && Under(lv, l, c, k, pi)
    requires pi + 1 < |SlotsOf(lv[l+1][k])|
    ensures Tracked(lv[l := WithMerge(lv[l], c, x)], B[l := WithMerge(lv[l], c, y)], l + 1, k, pi, stale, true)
  {
    var lv', B' := lv[l := WithMerge(lv[l], c, x)], B[l := WithMerge(lv[l], c, y)];
    SlotsAt(lv[l+1], k, pi + 1);
    StillLost(lv, lv', l, l + 1);
    AssembleTracked(lv', B', l + 1, lv[l+1], k, pi, c, stale, true);
  }

  lemma MergePrevRight(lv: seq<Level>, B: seq<Level>, l: nat, j: nat, i: nat, stale: bool, k: nat, pi: nat,
      x: Node, y: Node)
    requires Around(lv, l) && |B| == |lv| && 0 < j < |lv[l]|
    requires i + 1 < |SlotsOf(lv[l][j])| && Start(lv[l], j) + i + 1 < |Slots(lv[l])|
    requires stale ==> i + 2 == |SlotsOf(lv[l][j])|
    requires RightBelow(lv, B, l, j, i) && Under(lv, l, j - 1, k, pi)
    requires x == InnerNode(lv[l][j-1].off, SlotsOf(lv[l][j-1]) + Remaining(lv, l, j, i, stale))
    requires y == InnerNode(lv[l][j-1].off, SlotsOf(lv[l][j-1]) + Remaining(lv, l, j, i, false))
    ensures j < |Slots(lv[l+1])|
    ensures Twin(lv[l := WithMerge(lv[l], j - 1, x)], B[l := WithMerge(lv[l], j - 1, y)], l + 1)
    ensures KeysP(B[l := WithMerge(lv[l], j - 1, y)], l + 1, Deleted(Slots(lv[l+1]), j - 1, false))
    ensures StaleUnder(lv[l := WithMerge(lv[l], j - 1, x)], l + 1, k, pi)
  {
    MergedRight(lv, B, l, j, i, j - 1, y);
    MergedTwins(lv, B, l, j, i, stale, x, y);
    var f := LeafBehindKey(lv, B, l, j, i);
    StaleAbove(lv, l, j, k, pi, x, f);
  }

  lemma MergedTwins(lv: seq<Level>, B: seq<Level>, l: nat, j: nat, i: nat, stale: bool, x: Node, y: Node)
    requires l < |lv| && Twin(lv, B, l) && 0 < j < |lv[l]| && i + 1 < |SlotsOf(lv[l][j])|
    requires stale ==> i + 2 == |SlotsOf(lv[l][j])|
    requires x == InnerNode(lv[l][j-1].off, SlotsOf(lv[l][j-1]) + Remaining(lv, l, j, i, stale))
    requires y == InnerNode(lv[l][j-1].off, SlotsOf(lv[l][j-1]) + Remaining(lv, l, j, i, false))
    ensures Twin(lv[l := WithMerge(lv[l], j - 1, x)], B[l := WithMerge(lv[l], j - 1, y)], l + 1)
  {
    DeletedTwin(SlotsOf(lv[l][j]), i, stale);
    assert TwinNode(x, y);
    var X, Y := WithMerge(lv[l], j - 1, x), WithMerge(lv[l], j - 1, y);
    forall a | 0 <= a < |X| ensures TwinNode(X[a], Y[a]) {
    }
    TwinNext(lv, B, l, X, Y, l + 1);
  }

  lemma StaleAbove(lv: seq<Level>, l: nat, j: nat, k: nat, pi: nat, x: Node, f: nat)
    requires 1 <= l && l + 1 < |lv| && UpperKeys(lv, l) && 0 < j < |lv[l]|
    requires lv[l][j-1].InnerNode? && |lv[l][j-1].slots| >= 1 && |lv[l][j-1].slots| < |SlotsOf(x)|
    requires Under(lv, l, j - 1, k, pi)
    requires Below(lv, l - 1, Start(lv[l], j), f) && f < |lv[0]| && |RecsOf(lv[0][f])| > 0
    requires NotBelow(lv[0], f, LastKey(lv[l][j-1]))
    ensures StaleUnder(lv[l := WithMerge(lv[l], j - 1, x)], l + 1, k, pi)
  {
    BelowMerged(lv, l, j, x, f);
    KeyAbove(lv, l, j, k, pi);
    StaleBy(lv[l := WithMerge(lv[l], j - 1, x)], l + 1, lv[l+1], lv[0], k, pi, j - 1, f);
  }

  // The key of the slot above is the last key of the node.
  lemma KeyAbove(lv: seq<Level>, l: nat, j: nat, k: nat, pi: nat)
    requires UpperKeys(lv, l) && 0 < j < |lv[l]| && Under(lv, l, j - 1, k, pi)
    requires lv[l][j-1].InnerNode? && |lv[l][j-1].slots| >= 1
    ensures SlotsOf(lv[l+1][k])[pi].key == LastKey(lv[l][j-1])
  {
    SlotsAt(lv[l+1], k, pi);
    assert KeysAt(lv[l], Slots(lv[l+1]));
    assert SepOK(lv[l][j-1], lv[l][j], Slots(lv[l+1])[j-1].key);
  }

  // What hung below node j hangs below the merged node.
  lemma BelowMerged(lv: seq<Level>, l: nat, j: nat, x: Node, f: nat)
    requires 1 <= l < |lv| && 0 < j < |lv[l]| && Below(lv, l - 1, Start(lv[l], j), f)
    requires |SlotsOf(lv[l][j-1])| < |SlotsOf(x)|
    ensures Below(lv[l := WithMerge(lv[l], j - 1, x)], l, j - 1, f)
  {
    var lv' := lv[l := WithMerge(lv[l], j - 1, x)];
    var q, n := Start(lv[l], j), |SlotsOf(lv[l][j-1])|;
    SameStart(lv[l], lv'[l], j - 1);
    SlotsAt(lv[l], j - 1, 0);
    BelowSame(lv, lv', l - 1, q, f);
    assert Under(lv', l - 1, q, j - 1, n);
    assert BelowChild(lv', l - 1, j - 1, f);
  }

  lemma StaleBy(lv: seq<Level>, l: nat, U: Level, leaves: Level, k: nat, pi: nat, c: nat, f: nat)
    requires 1 <= l < |lv| && lv[l] == U && lv[0] == leaves && k < |U| && pi < |SlotsOf(U[k])|
    requires c == Start(U, k) + pi && Below(lv, l - 1, c, f) && f < |leaves| && |RecsOf(leaves[f])| > 0
    requires NotBelow(leaves, f, SlotsOf(U[k])[pi].key)
    ensures StaleUnder(lv, l, k, pi)
  {
  }

  // ---------- a slot from the left sibling ----------

  lemma {:induction false} WideBelow(lv: seq<Level>, l: nat, a: nat)
    requires a <= l < |lv| && forall m :: 1 <= m <= l ==> NonEmpty(lv, m)
    ensures |lv[a]| >= |lv[l]|
    decreases l - a
  {
    if a < l {
      WideBelow(lv, l, a + 1);
      assert NonEmpty(lv, a + 1);
      StartMono(lv[a+1], 0, |lv[a+1]|);
      StartEnds(lv[a+1]);
    }
  }

  lemma StructNonEmpty(meta: Meta, disk: Disk, lv: seq<Level>, lvl: map<Off, nat>, p: nat, S: seq<Slot>, a: nat)
    requires FoldedStruct(meta, disk, lv, lvl, p, S) && 1 <= a < |lv| && a != p
    ensures NonEmpty(lv, a)
  {
    OpenStruct(meta, disk, lv, lvl, p, S);
    LevelFacts(meta, disk, lv, lvl, p, S, a);
    assert Kids(lv[a-1], Flat(lv, a, p, S));
  }

  lemma StructLeaves(meta: Meta, disk: Disk, lv: seq<Level>, lvl: map<Off, nat>, p: nat, S: seq<Slot>)
    requires FoldedStruct(meta, disk, lv, lvl, p, S) && |lv[0]| >= 2
    ensures forall f :: 0 <= f < |lv[0]| ==> lv[0][f].LeafNode? && |lv[0][f].recs| >= 1
  {
    OpenStruct(meta, disk, lv, lvl, p, S);
    forall f | 0 <= f < |lv[0]| ensures lv[0][f].LeafNode? && |lv[0][f].recs| >= 1 {
      LeafFacts(meta, disk, lv, lvl, p, S, f);
    }
  }

  /** As written, a left borrow loses records: the first two keys of the borrower are equal. */
  lemma BorrowLeftLoses(meta: Meta, disk: Disk, lv: seq<Level>, lvl: map<Off, nat>, l: nat, j: nat)
    requires FoldedStruct(meta, disk, lv, lvl, 0, []) && 1 <= l < |lv| && j < |lv[l]|
    requires |SlotsOf(lv[l][j])| > 2 && SlotsOf(lv[l][j])[0].key == SlotsOf(lv[l][j])[1].key
    ensures forall l' :: l < l' ==> LostBelow(lv, l')
  {
    forall a | 1 <= a <= l ensures NonEmpty(lv, a) {
      StructNonEmpty(meta, disk, lv, lvl, 0, [], a);
    }
    assert NonEmpty(lv, l);
    SlotsAt(lv[l], j, 2);
    WideBelow(lv, l - 1, 0);
    StructLeaves(meta, disk, lv, lvl, 0, []);
    TwoEqualHide(lv, l, j, 0);
  }

  // ---------- where tracking starts ----------

  lemma PendingAround(meta: Meta, disk: Disk, lv: seq<Level>, lvl: map<Off, nat>,
      l: nat, j: nat, i: nat, stale: bool, ok: bool, b: nat)
    requires PendingDelete(meta, disk, lv, lvl, l, j, i, stale, ok, b) && l + 1 < |lv| && |lv[l]| >= 2
    ensures Around(lv, l)
  {
    var S := Deleted(Slots(lv[l]), Start(lv[l], j) + i, stale);
    forall a | 1 <= a < l ensures NonEmpty(lv, a) {
      StructNonEmpty(meta, disk, lv, lvl, l, S, a);
    }
    UpperFacts(meta, disk, lv, lvl, l, S);
    UpperCount(meta, disk, lv, lvl, l, S);
    OpenDelete(meta, disk, lv, lvl, l, j, i, stale, ok, b);
    assert Kids(lv[l-1], Flat(lv, l, l, S));
    StartMono(lv[l], 0, |lv[l]|);
    StartEnds(lv[l]);
    PendingWide(lv, l, j, i, stale);
    StructLeaves(meta, disk, lv, lvl, l, S);
  }

  lemma PendingWide(lv: seq<Level>, l: nat, j: nat, i: nat, stale: bool)
    requires 1 <= l < |lv| && |lv[l]| >= 2 && |lv[l-1]| == |Slots(lv[l])| - 1 && j < |lv[l]|
    requires forall m :: 0 <= m < |lv[l]| ==> |SlotsOf(lv[l][m])| >= 1
    requires i + 1 < |SlotsOf(lv[l][j])| && forall a :: 1 <= a < l ==> NonEmpty(lv, a)
    ensures |lv[0]| >= 2
  {
    StartEnds(lv[l]);
    StartMono(lv[l], 0, j);
    SlotsAt(lv[l], j, 0);
    StartMono(lv[l], j + 1, |lv[l]|);
    WideBelow(lv, l - 1, 0);
  }

  /** A deletion that is pending on the lowest level, with the right keys. */
  lemma TrackingStarts(meta: Meta, disk: Disk, lv: seq<Level>, lvl: map<Off, nat>, l: nat, j: nat, i: nat, b: nat)
    requires PendingDelete(meta, disk, lv, lvl, l, j, i, false, true, b)
    ensures Tracked(lv, lv, l, j, i, false, false)
  {
    OpenDelete(meta, disk, lv, lvl, l, j, i, false, true, b);
    TwinRefl(lv, l);
    assert TrackedAt(lv, lv, l, j, i, false, false);
  }
}
