/** Blocks of the tree file, and the levels they form.

    The file is read as a list of levels, leaves first: every level is the left-to-right
    list of its nodes, and the slots of the nodes of one level, put end to end, list
    exactly the nodes of the level below. */
module BptLevels {
  import opened KeyOrder

  const BP_ORDER: nat := 20
  const MIN_FILL: nat := BP_ORDER / 2

  // A file offset; 0 stands for "none", as the meta block owns offset 0.
  type Off = nat

  // index_t and record_t
  datatype Slot = Slot(key: Key, child: Off)
  datatype Record = Record(key: Key, value: int)

  // internal_node_t and leaf_node_t. The field `n` is the length of the children list;
  // array elements from n on are never read and are not part of the model.
  datatype Block =
    | Internal(parent: Off, next: Off, prev: Off, slots: seq<Slot>)
    | Leaf(parent: Off, next: Off, prev: Off, recs: seq<Record>)

  type Disk = map<Off, Block>

  datatype Meta = Meta(order: nat, internalNum: nat, leafNum: nat, height: nat,
                       slot: Off, rootOffset: Off, leafOffset: Off)

  // A node as it stands in its level.
  datatype Node = LeafNode(off: Off, recs: seq<Record>) | InnerNode(off: Off, slots: seq<Slot>)

  type Level = seq<Node>

  ghost function SlotsOf(x: Node): seq<Slot> { if x.InnerNode? then x.slots else [] }
  ghost function RecsOf(x: Node): seq<Record> { if x.LeafNode? then x.recs else [] }
  ghost function Count(x: Node): nat { if x.InnerNode? then |x.slots| else |x.recs| }

  // All slots of a level, end to end.
  ghost function SlotsFold(L: Level): seq<Slot>
  {
    if |L| == 0 then [] else SlotsFold(L[..|L|-1]) + SlotsOf(L[|L|-1])
  }

  // All records of a leaf level, end to end.
  ghost function RecsFold(L: Level): seq<Record>
  {
    if |L| == 0 then [] else RecsFold(L[..|L|-1]) + RecsOf(L[|L|-1])
  }

  // The same lists, kept folded: their definitions show only where Unfold is mentioned.
  ghost predicate Unfold(L: Level) { true }

  ghost predicate IsSlots(L: Level, s: seq<Slot>)
  {
    forall u {:trigger Unfold(u)} :: u == L ==> s == SlotsFold(u)
  }

  ghost predicate IsRecs(L: Level, s: seq<Record>)
  {
    forall u {:trigger Unfold(u)} :: u == L ==> s == RecsFold(u)
  }

  ghost function Slots(L: Level): seq<Slot>
  {
    assert IsSlots(L, SlotsFold(L));
    var s :| IsSlots(L, s);
    s
  }

  ghost function Recs(L: Level): seq<Record>
  {
    assert IsRecs(L, RecsFold(L));
    var s :| IsRecs(L, s);
    s
  }

  lemma SlotsEmpty()
    ensures Slots([]) == []
  {
    assert Unfold([]);
  }

  lemma SlotsSnoc(L: Level)
    requires |L| > 0
    ensures Slots(L) == Slots(L[..|L|-1]) + SlotsOf(L[|L|-1])
  {
    assert Unfold(L) && Unfold(L[..|L|-1]);
  }

  lemma RecsEmpty()
    ensures Recs([]) == []
  {
    assert Unfold([]);
  }

  lemma RecsSnoc(L: Level)
    requires |L| > 0
    ensures Recs(L) == Recs(L[..|L|-1]) + RecsOf(L[|L|-1])
  {
    assert Unfold(L) && Unfold(L[..|L|-1]);
  }

  // Where the slots of node j begin among the slots of its level.
  ghost function Start(L: Level, j: nat): nat
    requires j <= |L|
  {
    |Slots(L[..j])|
  }

  ghost function RecStart(L: Level, j: nat): nat
    requires j <= |L|
  {
    |Recs(L[..j])|
  }

  // ---------- lists of slots ----------

  lemma {:induction false} SlotsConcat(A: Level, B: Level)
    ensures Slots(A + B) == Slots(A) + Slots(B)
  {
    if |B| == 0 {
      assert A + B == A && B == [];
      SlotsEmpty();
    } else {
      assert (A + B)[..|A + B|-1] == A + B[..|B|-1];
      SlotsConcat(A, B[..|B|-1]);
      SlotsSnoc(A + B);
      SlotsSnoc(B);
    }
  }

  lemma SlotsOne(x: Node)
    ensures Slots([x]) == SlotsOf(x)
  {
    SlotsSnoc([x]);
    assert [x][..0] == [];
    SlotsEmpty();
  }

  lemma SlotsTwo(x: Node, y: Node)
    ensures Slots([x, y]) == SlotsOf(x) + SlotsOf(y)
  {
    assert [x, y] == [x] + [y];
    SlotsConcat([x], [y]);
    SlotsOne(x);
    SlotsOne(y);
  }

  // Replacing a stretch of nodes replaces their stretch of slots.
  lemma SlotsReplace(L: Level, j: nat, k: nat, X: Level)
    requires j <= k <= |L|
    ensures Start(L, j) <= Start(L, k) <= |Slots(L)|
    ensures Slots(L[j..k]) == Slots(L)[Start(L, j)..Start(L, k)]
    ensures Slots(L[..j] + X + L[k..]) == Slots(L)[..Start(L, j)] + Slots(X) + Slots(L)[Start(L, k)..]
  {
    var s := Slots(L);
    assert L == L[..k] + L[k..] && L[..k] == L[..j] + L[j..k];
    SlotsConcat(L[..k], L[k..]);
    SlotsConcat(L[..j], L[j..k]);
    SlotsConcat(L[..j], X);
    SlotsConcat(L[..j] + X, L[k..]);
    assert s == Slots(L[..j]) + Slots(L[j..k]) + Slots(L[k..]);
    assert s[..Start(L, j)] == Slots(L[..j]);
    assert s[Start(L, k)..] == Slots(L[k..]);
  }

  lemma {:induction false} SlotsAt(L: Level, j: nat, i: nat)
    requires j < |L| && i <= |SlotsOf(L[j])|
    ensures Start(L, j + 1) == Start(L, j) + |SlotsOf(L[j])| <= |Slots(L)|
    ensures i < |SlotsOf(L[j])| ==> Slots(L)[Start(L, j) + i] == SlotsOf(L[j])[i]
  {
    var M := L[..|L|-1];
    SlotsSnoc(L);
    if j < |L| - 1 {
      SlotsAt(M, j, i);
      assert M[..j] == L[..j] && M[..j+1] == L[..j+1];
    } else {
      assert L[..j+1] == L;
    }
  }

  // Every slot of a level belongs to a node.
  lemma {:induction false} Locate(L: Level, c: nat) returns (j: nat, i: nat)
    requires c < |Slots(L)|
    ensures j < |L| && i < |SlotsOf(L[j])|
    ensures c == Start(L, j) + i
    ensures Slots(L)[c] == SlotsOf(L[j])[i]
  {
    if |L| == 0 {
      SlotsEmpty();
      assert false;
    }
    var M := L[..|L|-1];
    SlotsSnoc(L);
    if c < |Slots(M)| {
      j, i := Locate(M, c);
      assert M[..j] == L[..j];
    } else {
      j, i := |L| - 1, c - |Slots(M)|;
    }
  }

  lemma {:induction false} StartMono(L: Level, j: nat, k: nat)
    requires j <= k <= |L|
    ensures Start(L, j) <= Start(L, k) <= |Slots(L)|
    ensures (forall m :: j <= m < k ==> |SlotsOf(L[m])| >= 1) ==> Start(L, k) >= Start(L, j) + (k - j)
    decreases k - j
  {
    SlotsReplace(L, j, k, []);
    if j < k {
      StartMono(L, j + 1, k);
      SlotsAt(L, j, 0);
    }
  }

  lemma StartEnds(L: Level)
    ensures Start(L, 0) == 0
    ensures Start(L, |L|) == |Slots(L)|
  {
    assert L[..0] == [] && L[..|L|] == L;
    SlotsEmpty();
  }
}
