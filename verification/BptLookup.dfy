/** Where a search ends, told by the slots of the nodes alone, and records that no search ends at. */
module BptLookup {
  import opened KeyOrder
  import opened BptLevels
  import opened BptSearch
  import opened BptIndexDelete
  import opened BptRemoveFacts

  // The search for a key comes to node j of level l.
  ghost predicate Leads(lv: seq<Level>, l: nat, j: nat, key: Key)
    decreases |lv| - l
  {
    && l < |lv| && j < |lv[l]|
    && if l == |lv| - 1 then j == 0
       else exists k: nat, i: nat ::
         Under(lv, l, j, k, i) && UpperAt(SlotsOf(lv[l+1][k]), key, i) && Leads(lv, l + 1, k, key)
  }

  ghost predicate Missed(lv: seq<Level>, l: nat, f: nat, e: nat)
    requires l < |lv| && f < |lv[l]| && e < |RecsOf(lv[l][f])|
  {
    !Leads(lv, l, f, RecsOf(lv[l][f])[e].key)
  }

  // Some record of the leaves is not in the leaf to which the search for its key comes.
  ghost predicate Hides(lv: seq<Level>)
  {
    |lv| >= 1 && exists f: nat, e: nat :: f < |lv[0]| && e < |RecsOf(lv[0][f])| && Missed(lv, 0, f, e)
  }

  // Leaf f hangs below node p of level m.
  ghost predicate Below(lv: seq<Level>, m: nat, p: nat, f: nat)
    decreases m, 0
  {
    && m < |lv| && p < |lv[m]|
    && if m == 0 then p == f else BelowChild(lv, m - 1, p, f)
  }

  ghost predicate BelowChild(lv: seq<Level>, n: nat, p: nat, f: nat)
    decreases n, 1
  {
    exists q: nat, i: nat :: Under(lv, n, q, p, i) && Below(lv, n, q, f)
  }

  lemma {:induction false} LeadsUp(lv: seq<Level>, z: nat, m: nat, p: nat, f: nat, key: Key)
    requires Below(lv, m, p, f) && Leads(lv, z, f, key) && z == 0
    ensures Leads(lv, m, p, key)
    decreases m
  {
    if m > 0 {
      assert BelowChild(lv, m - 1, p, f);
      var q: nat, i: nat :| Under(lv, m - 1, q, p, i) && Below(lv, m - 1, q, f);
      LeadsUp(lv, z, m - 1, q, f, key);
      LeadsParent(lv, m - 1, q, p, i, key);
    }
  }

  lemma LeadsParent(lv: seq<Level>, n: nat, q: nat, p: nat, i: nat, key: Key)
    requires Leads(lv, n, q, key) && Under(lv, n, q, p, i)
    ensures Leads(lv, n + 1, p, key) && UpperAt(SlotsOf(lv[n+1][p]), key, i)
  {
    var k: nat, a: nat :| Under(lv, n, q, k, a) && UpperAt(SlotsOf(lv[n+1][k]), key, a) && Leads(lv, n + 1, k, key);
    UnderUnique(lv, n, q, p, i, k, a);
  }

  // Record e of leaf f hangs below node p of level m, but the search for its key passes by that node,
  // whether or not it comes to the parent.
  ghost predicate Blocked(lv: seq<Level>, m: nat, p: nat, f: nat, e: nat)
  {
    && m + 1 < |lv| && Below(lv, m, p, f) && f < |lv[0]| && e < |RecsOf(lv[0][f])|
    && forall k: nat, i: nat :: Under(lv, m, p, k, i) ==> !UpperAt(SlotsOf(lv[m+1][k]), RecsOf(lv[0][f])[e].key, i)
  }

  // Some record is blocked by a node below level l.
  ghost predicate LostBelow(lv: seq<Level>, l: nat)
  {
    exists m: nat, p: nat, f: nat, e: nat :: m + 1 < l && Blocked(lv, m, p, f, e)
  }

  lemma BlockedMissed(lv: seq<Level>, z: nat, m: nat, p: nat, f: nat, e: nat)
    requires Blocked(lv, m, p, f, e) && z == 0
    ensures Missed(lv, z, f, e)
  {
    var key := RecsOf(lv[z][f])[e].key;
    if Leads(lv, z, f, key) {
      LeadsUp(lv, z, m, p, f, key);
    }
  }

  /** A blocked record is not found. */
  lemma LostHides(lv: seq<Level>, l: nat)
    requires LostBelow(lv, l)
    ensures Hides(lv)
  {
    var m: nat, p: nat, f: nat, e: nat :| m + 1 < l && Blocked(lv, m, p, f, e);
    BlockedMissed(lv, 0, m, p, f, e);
  }

  lemma {:induction false} BelowSame(lv: seq<Level>, lv': seq<Level>, m: nat, p: nat, f: nat)
    requires Below(lv, m, p, f) && m < |lv'| && forall a :: 0 <= a <= m ==> lv'[a] == lv[a]
    ensures Below(lv', m, p, f)
    decreases m
  {
    if m > 0 {
      assert BelowChild(lv, m - 1, p, f);
      var q: nat, i: nat :| Under(lv, m - 1, q, p, i) && Below(lv, m - 1, q, f);
      BelowSame(lv, lv', m - 1, q, f);
      assert Under(lv', m - 1, q, p, i) && BelowChild(lv', m - 1, p, f);
    }
  }

  // What happens on level l and above does not bring a record back that is blocked further down.
  lemma StillLost(lv: seq<Level>, lv': seq<Level>, l: nat, l': nat)
    requires LostBelow(lv, l) && l <= l' && l <= |lv'| && forall a :: 0 <= a < l ==> a < |lv| && lv'[a] == lv[a]
    ensures LostBelow(lv', l')
  {
    var m: nat, p: nat, f: nat, e: nat :| m + 1 < l && Blocked(lv, m, p, f, e);
    BelowSame(lv, lv', m, p, f);
    forall k: nat, i: nat | Under(lv', m, p, k, i)
      ensures !UpperAt(SlotsOf(lv'[m+1][k]), RecsOf(lv'[0][f])[e].key, i)
    {
      assert Under(lv, m, p, k, i);
    }
    assert Blocked(lv', m, p, f, e);
  }

  // The key of one slot keeps every search that should go to its child away from it.
  lemma BlockedAt(lv: seq<Level>, m: nat, p: nat, f: nat, e: nat, k: nat, i: nat)
    requires m + 1 < |lv| && Below(lv, m, p, f) && f < |lv[0]| && e < |RecsOf(lv[0][f])|
    requires Under(lv, m, p, k, i) && !UpperAt(SlotsOf(lv[m+1][k]), RecsOf(lv[0][f])[e].key, i)
    ensures Blocked(lv, m, p, f, e)
    ensures forall l :: m + 1 < l ==> LostBelow(lv, l)
  {
    forall k2: nat, i2: nat | Under(lv, m, p, k2, i2)
      ensures !UpperAt(SlotsOf(lv[m+1][k2]), RecsOf(lv[0][f])[e].key, i2)
    {
      UnderUnique(lv, m, p, k, i, k2, i2);
    }
  }

  // The leftmost leaf below a node.
  ghost function FirstLeaf(lv: seq<Level>, m: nat, p: nat): nat
    requires m < |lv| && p < |lv[m]|
    requires forall a :: 1 <= a <= m ==> NonEmpty(lv, a)
    decreases m
  {
    if m == 0 then p else
      FirstChild(lv, m, p);
      FirstLeaf(lv, m - 1, Start(lv[m], p))
  }

  // Every node of level a has a child.
  ghost predicate NonEmpty(lv: seq<Level>, a: nat)
  {
    && 1 <= a < |lv| && |Slots(lv[a])| == |lv[a-1]|
    && forall j :: 0 <= j < |lv[a]| ==> lv[a][j].InnerNode? && |lv[a][j].slots| >= 1
  }

  lemma FirstChild(lv: seq<Level>, m: nat, p: nat)
    requires m < |lv| && p < |lv[m]| && NonEmpty(lv, m)
    ensures Start(lv[m], p) < |lv[m-1]| && Under(lv, m - 1, Start(lv[m], p), p, 0)
  {
    SlotsAt(lv[m], p, 0);
  }

  lemma {:induction false} FirstLeafBelow(lv: seq<Level>, m: nat, p: nat)
    requires m < |lv| && p < |lv[m]| && forall a :: 1 <= a <= m ==> NonEmpty(lv, a)
    ensures FirstLeaf(lv, m, p) < |lv[0]| && Below(lv, m, p, FirstLeaf(lv, m, p))
    decreases m
  {
    if m > 0 {
      FirstChild(lv, m, p);
      FirstLeafBelow(lv, m - 1, Start(lv[m], p));
      assert BelowChild(lv, m - 1, p, FirstLeaf(lv, m, p));
    }
  }

  /** A node whose first two keys are equal hides all records below its second child. */
  lemma TwoEqualHide(lv: seq<Level>, l: nat, j: nat, e: nat)
    requires 1 <= l < |lv| && j < |lv[l]| && forall a :: 1 <= a <= l ==> NonEmpty(lv, a)
    requires |SlotsOf(lv[l][j])| > 2 && SlotsOf(lv[l][j])[0].key == SlotsOf(lv[l][j])[1].key
    requires forall f :: 0 <= f < |lv[0]| ==> e < |RecsOf(lv[0][f])|
    ensures forall l' :: l < l' ==> LostBelow(lv, l')
  {
    var p := Start(lv[l], j) + 1;
    SlotsAt(lv[l], j, 1);
    assert NonEmpty(lv, l);
    FirstLeafBelow(lv, l - 1, p);
    BlockedAt(lv, l - 1, p, FirstLeaf(lv, l - 1, p), e, j, 1);
  }
}
