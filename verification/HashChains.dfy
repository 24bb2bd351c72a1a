/** Bucket arrays of a chained hash table, and the finite map they stand for. */
module HashChains {

  type Bytes = seq<bv8>

  // A pointer; 0 is NULL.
  type Ptr = nat

  datatype Entry = Entry(key: Bytes, value: Ptr)

  type Chain = seq<Entry>

  // Bytes of a HashData header and of a bucket, as laid out by a 64-bit compiler.
  const NODE_SIZE: nat := 32
  const BUCKET_SIZE: nat := 8

  const UINT_RANGE: int := 0x1_0000_0000

  // The bucket of a key: its hash code, an int converted to unsigned, modulo the capacity.
  function SlotOf(h: Bytes -> int, capacity: nat, key: Bytes): (i: nat)
    requires capacity > 0
    ensures i < capacity
  {
    h(key) % UINT_RANGE % capacity
  }

  // A hash code, taken as unsigned, lies i beyond a multiple of the capacity.
  ghost predicate Splits(code: int, capacity: nat, i: nat, w: int, q: nat)
  {
    code == w * 0x1_0000_0000 + q * capacity + i && i < capacity && q * capacity + i < 0x1_0000_0000
  }

  ghost predicate InBucket(code: int, capacity: nat, i: nat)
  {
    exists w: int, q: nat :: Splits(code, capacity, i, w, q)
  }

  lemma SlotIs(h: Bytes -> int, capacity: nat, key: Bytes)
    requires capacity > 0
    ensures InBucket(h(key), capacity, SlotOf(h, capacity, key))
  {
    var code := h(key);
    var r := code % UINT_RANGE;
    var q := r / capacity;
    assert r == q * capacity + r % capacity;
    assert Splits(code, capacity, SlotOf(h, capacity, key), code / UINT_RANGE, q);
  }

  /** A code has one bucket. */
  lemma OneBucket(code: int, capacity: nat, i: nat, j: nat)
    requires InBucket(code, capacity, i) && InBucket(code, capacity, j)
    ensures i == j
  {
    var w: int, q: nat :| Splits(code, capacity, i, w, q);
    var w2: int, q2: nat :| Splits(code, capacity, j, w2, q2);
    assert q * capacity >= 0 && q2 * capacity >= 0;
    assert w == w2;
    assert (q - q2) * capacity == j - i;
    SmallMultiple(q - q2, capacity);
  }

  lemma SmallMultiple(a: int, n: int)
    requires n > 0 && -n < a * n < n
    ensures a == 0
  {
    assert a >= 1 ==> a * n == (a - 1) * n + n && (a - 1) * n >= 0;
    assert a <= -1 ==> a * n == (a + 1) * n - n && (a + 1) * n <= 0;
  }

  // ---------- chains ----------

  ghost predicate HasKey(c: Chain, key: Bytes)
  {
    exists j :: 0 <= j < |c| && c[j].key == key
  }

  ghost predicate DistinctKeys(c: Chain)
  {
    forall a, b :: 0 <= a < b < |c| ==> c[a].key != c[b].key
  }

  // Where a key stands in its chain.
  ghost function Position(c: Chain, key: Bytes): (j: nat)
    requires HasKey(c, key)
    ensures j < |c| && c[j].key == key
  {
    var j: nat :| j < |c| && c[j].key == key;
    j
  }

  ghost function Remove(c: Chain, j: nat): Chain
    requires j < |c|
  {
    c[..j] + c[j+1..]
  }

  // ---------- bucket arrays ----------

  // Represents is kept folded: what it says shows only where Unfold is mentioned.
  ghost predicate Unfold(B: seq<Chain>) { true }

  // The buckets B hold exactly the bindings of m, each in the bucket of its key, once.
  ghost predicate Represents(B: seq<Chain>, h: Bytes -> int, m: map<Bytes, Ptr>)
  {
    |B| > 0 && forall u {:trigger Unfold(u)} :: u == B ==> Stores(u, h, m)
  }

  ghost predicate Stores(B: seq<Chain>, h: Bytes -> int, m: map<Bytes, Ptr>)
    requires |B| > 0
  {
    && (forall i :: 0 <= i < |B| ==> DistinctKeys(B[i]))
    && (forall i, j :: 0 <= i < |B| && 0 <= j < |B[i]| ==> SlotOf(h, |B|, B[i][j].key) == i)
    && (forall i, j :: 0 <= i < |B| && 0 <= j < |B[i]| ==> B[i][j].key in m && m[B[i][j].key] == B[i][j].value)
    && (forall k :: k in m ==> HasKey(B[SlotOf(h, |B|, k)], k))
  }

  lemma Found(B: seq<Chain>, h: Bytes -> int, m: map<Bytes, Ptr>, key: Bytes, j: nat)
    requires Represents(B, h, m)
    requires var c := B[SlotOf(h, |B|, key)]; j <= |c| && forall a :: 0 <= a < j ==> c[a].key != key
    ensures var c := B[SlotOf(h, |B|, key)];
      && (j < |c| && c[j].key == key ==> key in m && m[key] == c[j].value)
      && (j == |c| ==> key !in m)
  {
    assert Unfold(B);
    var c := B[SlotOf(h, |B|, key)];
    assert key in m ==> HasKey(c, key);
  }

  lemma PushRepresents(B: seq<Chain>, h: Bytes -> int, m: map<Bytes, Ptr>, e: Entry)
    requires Represents(B, h, m) && e.key !in m
    ensures var i := SlotOf(h, |B|, e.key);
      Represents(B[i := [e] + B[i]], h, m[e.key := e.value])
  {
    assert Unfold(B);
    var i := SlotOf(h, |B|, e.key);
    var c := [e] + B[i];
    var B' := B[i := c];
    forall k | k in m[e.key := e.value] ensures HasKey(B'[SlotOf(h, |B'|, k)], k) {
      if k == e.key {
        assert c[0].key == k;
      } else {
        var s := SlotOf(h, |B|, k);
        var j := Position(B[s], k);
        assert s == i ==> c[j + 1].key == k;
      }
    }
    forall a, b | 0 <= a < b < |c| ensures c[a].key != c[b].key {
      assert c[b] == B[i][b-1];
    }
    assert Stores(B', h, m[e.key := e.value]);
  }

  // The value of one node changed.
  ghost function SetValue(B: seq<Chain>, i: nat, j: nat, value: Ptr): seq<Chain>
    requires i < |B| && j < |B[i]|
  {
    B[i := B[i][j := Entry(B[i][j].key, value)]]
  }

  // The value of a key changed.
  ghost function ValueSet(B: seq<Chain>, h: Bytes -> int, key: Bytes, value: Ptr): seq<Chain>
    requires |B| > 0 && HasKey(B[SlotOf(h, |B|, key)], key)
  {
    var i := SlotOf(h, |B|, key);
    SetValue(B, i, Position(B[i], key), value)
  }

  lemma SetRepresents(B: seq<Chain>, h: Bytes -> int, m: map<Bytes, Ptr>, i: nat, j: nat, value: Ptr)
    requires Represents(B, h, m) && i < |B| && j < |B[i]|
    ensures Represents(SetValue(B, i, j, value), h, m[B[i][j].key := value])
  {
    assert Unfold(B);
    var m', B' := m[B[i][j].key := value], SetValue(B, i, j, value);
    forall k | k in m' ensures HasKey(B'[SlotOf(h, |B'|, k)], k) {
      SetHasKey(B, i, j, value, SlotOf(h, |B|, k), k);
    }
    forall a, b | 0 <= a < |B'| && 0 <= b < |B'[a]|
      ensures B'[a][b].key == B[a][b].key && B'[a][b].key in m' && m'[B'[a][b].key] == B'[a][b].value
    {
      SetBinds(B, h, m, i, j, value, a, b);
    }
    assert Stores(B', h, m');
  }

  lemma SetHasKey(B: seq<Chain>, i: nat, j: nat, value: Ptr, s: nat, k: Bytes)
    requires i < |B| && j < |B[i]| && s < |B| && HasKey(B[s], k)
    ensures HasKey(SetValue(B, i, j, value)[s], k)
  {
    var p := Position(B[s], k);
    assert SetValue(B, i, j, value)[s][p].key == k;
  }

  lemma SetBinds(B: seq<Chain>, h: Bytes -> int, m: map<Bytes, Ptr>, i: nat, j: nat, value: Ptr, a: nat, b: nat)
    requires Represents(B, h, m) && i < |B| && j < |B[i]| && a < |B| && b < |B[a]|
    ensures |SetValue(B, i, j, value)[a]| == |B[a]|
    ensures var e, m' := SetValue(B, i, j, value)[a][b], m[B[i][j].key := value];
      e.key == B[a][b].key && e.key in m' && m'[e.key] == e.value
  {
    assert Unfold(B);
    if B[a][b].key == B[i][j].key {
      assert a == SlotOf(h, |B|, B[i][j].key) == i;
      assert DistinctKeys(B[i]);
      assert b == j;
    }
  }

  lemma RemoveRepresents(B: seq<Chain>, h: Bytes -> int, m: map<Bytes, Ptr>, i: nat, j: nat)
    requires Represents(B, h, m) && i < |B| && j < |B[i]|
    ensures Represents(B[i := Remove(B[i], j)], h, m - {B[i][j].key})
  {
    assert Unfold(B);
    var key, c := B[i][j].key, Remove(B[i], j);
    var B' := B[i := c];
    assert forall b :: 0 <= b < |c| ==> c[b] == B[i][if b < j then b else b + 1];
    forall k | k in m - {key} ensures HasKey(B'[SlotOf(h, |B'|, k)], k) {
      var s := SlotOf(h, |B|, k);
      var p := Position(B[s], k);
      assert s == i ==> p != j && c[if p < j then p else p - 1].key == k;
    }
    assert Stores(B', h, m - {key});
  }

  // ---------- counting ----------

  function NodeBytes(e: Entry): nat { NODE_SIZE + |e.key| }

  ghost function ChainBytes(c: Chain): nat
  {
    if |c| == 0 then 0 else ChainBytes(c[..|c|-1]) + NodeBytes(c[|c|-1])
  }

  // Nodes of all chains, end to end: the order in which hash_walk meets them.
  ghost function Flat(B: seq<Chain>): Chain
  {
    if |B| == 0 then [] else Flat(B[..|B|-1]) + B[|B|-1]
  }

  lemma {:induction false} ChainBytesConcat(c: Chain, d: Chain)
    ensures ChainBytes(c + d) == ChainBytes(c) + ChainBytes(d)
  {
    if |d| == 0 {
      assert c + d == c;
    } else {
      assert (c + d)[..|c + d|-1] == c + d[..|d|-1];
      ChainBytesConcat(c, d[..|d|-1]);
    }
  }

  lemma {:induction false} FlatConcat(A: seq<Chain>, B: seq<Chain>)
    ensures Flat(A + B) == Flat(A) + Flat(B)
  {
    if |B| == 0 {
      assert A + B == A;
    } else {
      assert (A + B)[..|A + B|-1] == A + B[..|B|-1];
      FlatConcat(A, B[..|B|-1]);
    }
  }

  lemma FlatSplit(B: seq<Chain>, i: nat)
    requires i < |B|
    ensures Flat(B) == Flat(B[..i]) + B[i] + Flat(B[i+1..])
    ensures Flat(B[..i+1]) == Flat(B[..i]) + B[i]
  {
    assert B == B[..i+1] + B[i+1..] && B[..i+1][..i] == B[..i];
    FlatConcat(B[..i+1], B[i+1..]);
  }

  // Changing one chain changes the totals by the difference.
  lemma FlatUpdate(B: seq<Chain>, i: nat, c: Chain)
    requires i < |B|
    ensures |Flat(B[i := c])| == |Flat(B)| - |B[i]| + |c|
    ensures ChainBytes(Flat(B[i := c])) == ChainBytes(Flat(B)) - ChainBytes(B[i]) + ChainBytes(c)
  {
    FlatSplit(B, i);
    FlatSplit(B[i := c], i);
    assert B[i := c][..i] == B[..i] && B[i := c][i+1..] == B[i+1..];
    var x, y := Flat(B[..i]), Flat(B[i+1..]);
    ChainBytesConcat(x, B[i]);
    ChainBytesConcat(x + B[i], y);
    ChainBytesConcat(x, c);
    ChainBytesConcat(x + c, y);
  }

  lemma PushTotals(B: seq<Chain>, i: nat, e: Entry)
    requires i < |B|
    ensures |Flat(B[i := [e] + B[i]])| == |Flat(B)| + 1
    ensures ChainBytes(Flat(B[i := [e] + B[i]])) == ChainBytes(Flat(B)) + NodeBytes(e)
  {
    FlatUpdate(B, i, [e] + B[i]);
    ChainBytesConcat([e], B[i]);
    assert [e][..0] == [];
  }

  lemma RemoveTotals(B: seq<Chain>, i: nat, j: nat)
    requires i < |B| && j < |B[i]|
    ensures |Flat(B[i := Remove(B[i], j)])| == |Flat(B)| - 1
    ensures ChainBytes(Flat(B[i := Remove(B[i], j)])) == ChainBytes(Flat(B)) - NodeBytes(B[i][j])
  {
    var c := B[i];
    FlatUpdate(B, i, Remove(c, j));
    assert c == c[..j] + [c[j]] + c[j+1..];
    ChainBytesConcat(c[..j], [c[j]]);
    ChainBytesConcat(c[..j] + [c[j]], c[j+1..]);
    ChainBytesConcat(c[..j], c[j+1..]);
    assert [c[j]][..0] == [];
  }

  lemma {:induction false} SetBytes(c: Chain, j: nat, value: Ptr)
    requires j < |c|
    ensures ChainBytes(c[j := Entry(c[j].key, value)]) == ChainBytes(c)
  {
    var d := c[j := Entry(c[j].key, value)];
    assert c == c[..j] + [c[j]] + c[j+1..];
    assert d == c[..j] + [d[j]] + c[j+1..];
    ChainBytesConcat(c[..j], [c[j]]);
    ChainBytesConcat(c[..j] + [c[j]], c[j+1..]);
    ChainBytesConcat(c[..j], [d[j]]);
    ChainBytesConcat(c[..j] + [d[j]], c[j+1..]);
    assert [c[j]][..0] == [] && [d[j]][..0] == [];
  }

  lemma SetTotals(B: seq<Chain>, i: nat, j: nat, value: Ptr)
    requires i < |B| && j < |B[i]|
    ensures var B' := B[i := B[i][j := Entry(B[i][j].key, value)]];
      |Flat(B')| == |Flat(B)| && ChainBytes(Flat(B')) == ChainBytes(Flat(B))
  {
    FlatUpdate(B, i, B[i][j := Entry(B[i][j].key, value)]);
    SetBytes(B[i], j, value);
  }

  // ---------- the walk meets every binding once ----------

  lemma {:induction false} FlatPlace(B: seq<Chain>, n: nat) returns (i: nat, j: nat)
    requires n < |Flat(B)|
    ensures i < |B| && j < |B[i]| && Flat(B)[n] == B[i][j] && n == |Flat(B[..i])| + j
  {
    var M := B[..|B|-1];
    if n < |Flat(M)| {
      i, j := FlatPlace(M, n);
      assert M[..i] == B[..i];
    } else {
      i, j := |B| - 1, n - |Flat(M)|;
    }
  }

  lemma FlatAt(B: seq<Chain>, i: nat, j: nat)
    requires i < |B| && j < |B[i]|
    ensures |Flat(B[..i])| + j < |Flat(B)| && Flat(B)[|Flat(B[..i])| + j] == B[i][j]
  {
    FlatSplit(B, i);
  }

  /** The nodes met by a walk carry distinct keys and are exactly the bindings of the map. */
  lemma WalkOrder(B: seq<Chain>, h: Bytes -> int, m: map<Bytes, Ptr>)
    requires Represents(B, h, m)
    ensures DistinctKeys(Flat(B))
    ensures forall n :: 0 <= n < |Flat(B)| ==> Flat(B)[n].key in m && m[Flat(B)[n].key] == Flat(B)[n].value
    ensures forall k :: k in m ==> HasKey(Flat(B), k)
    ensures |Flat(B)| == |m|
  {
    assert Unfold(B);
    var F := Flat(B);
    forall n | 0 <= n < |F| ensures F[n].key in m && m[F[n].key] == F[n].value {
      var i, j := FlatPlace(B, n);
    }
    forall a, b | 0 <= a < b < |F| ensures F[a].key != F[b].key {
      var i, j := FlatPlace(B, a);
      var p, q := FlatPlace(B, b);
      assert i == p ==> j < q;
    }
    forall k | k in m ensures HasKey(F, k) {
      var s := SlotOf(h, |B|, k);
      FlatAt(B, s, Position(B[s], k));
    }
    CountKeys(F, m.Keys);
    assert |m| == |m.Keys|;
  }

  lemma {:induction false} CountKeys(c: Chain, s: set<Bytes>)
    requires DistinctKeys(c)
    requires forall n :: 0 <= n < |c| ==> c[n].key in s
    requires forall k :: k in s ==> HasKey(c, k)
    ensures |c| == |s|
  {
    if |c| == 0 {
      assert s == {};
    } else {
      var d, k := c[..|c|-1], c[|c|-1].key;
      forall x | x in s - {k} ensures HasKey(d, x) {
        var j := Position(c, x);
        assert d[j].key == x;
      }
      CountKeys(d, s - {k});
    }
  }

  lemma FlatPrefix(B: seq<Chain>, i: nat, p: nat)
    requires i <= p <= |B|
    ensures |Flat(B[..i])| <= |Flat(B[..p])|
  {
    assert B[..p] == B[..i] + B[i..p];
    FlatConcat(B[..i], B[i..p]);
  }

  // Every node has a bucket, and nodes of earlier buckets come first.
  ghost predicate InBucketOrder(F: Chain, h: Bytes -> int, capacity: nat)
  {
    && (forall a :: 0 <= a < |F| ==> HasBucket(h(F[a].key), capacity))
    && (forall a, b :: 0 <= a < b < |F| ==> NotBefore(h(F[a].key), h(F[b].key), capacity))
  }

  ghost predicate HasBucket(code: int, capacity: nat) { exists i: nat :: InBucket(code, capacity, i) }

  // The bucket of the first code does not come after that of the second.
  ghost predicate NotBefore(code: int, later: int, capacity: nat)
  {
    forall i: nat, j: nat :: InBucket(code, capacity, i) && InBucket(later, capacity, j) ==> i <= j
  }

  /** A walk goes through the buckets in order: the remainders of the hash codes do not decrease. */
  lemma WalkByBucket(B: seq<Chain>, h: Bytes -> int, m: map<Bytes, Ptr>)
    requires Represents(B, h, m)
    ensures InBucketOrder(Flat(B), h, |B|)
  {
    var F := Flat(B);
    forall a | 0 <= a < |F| ensures HasBucket(h(F[a].key), |B|) {
      SlotIs(h, |B|, F[a].key);
    }
    forall a, b | 0 <= a < b < |F| ensures NotBefore(h(F[a].key), h(F[b].key), |B|) {
      TwoNodes(B, h, m, a, b);
    }
  }

  lemma TwoNodes(B: seq<Chain>, h: Bytes -> int, m: map<Bytes, Ptr>, a: nat, b: nat)
    requires Represents(B, h, m) && a < b < |Flat(B)|
    ensures NotBefore(h(Flat(B)[a].key), h(Flat(B)[b].key), |B|)
  {
    assert Unfold(B);
    var k, l := Flat(B)[a].key, Flat(B)[b].key;
    var p, x := FlatPlace(B, a);
    var q, y := FlatPlace(B, b);
    SlotIs(h, |B|, k);
    SlotIs(h, |B|, l);
    if q < p {
      FlatSplit(B, q);
      FlatPrefix(B, q + 1, p);
    }
    forall i: nat, j: nat | InBucket(h(k), |B|, i) && InBucket(h(l), |B|, j) ensures i <= j {
      OneBucket(h(k), |B|, i, p);
      OneBucket(h(l), |B|, j, q);
    }
  }

  // ---------- nodes hung into buckets ----------

  ghost function Hang(B: seq<Chain>, h: Bytes -> int, e: Entry): (B': seq<Chain>)
    requires |B| > 0
    ensures |B'| == |B|
  {
    var i := SlotOf(h, |B|, e.key);
    B[i := [e] + B[i]]
  }

  // One after the other, each at the front of its bucket.
  ghost function HangAll(B: seq<Chain>, h: Bytes -> int, c: Chain): (B': seq<Chain>)
    requires |B| > 0
    ensures |B'| == |B|
  {
    if |c| == 0 then B else Hang(HangAll(B, h, c[..|c|-1]), h, c[|c|-1])
  }

  lemma {:induction false} HangConcat(B: seq<Chain>, h: Bytes -> int, c: Chain, d: Chain)
    requires |B| > 0
    ensures HangAll(B, h, c + d) == HangAll(HangAll(B, h, c), h, d)
  {
    if |d| == 0 {
      assert c + d == c;
    } else {
      assert (c + d)[..|c + d|-1] == c + d[..|d|-1];
      HangConcat(B, h, c, d[..|d|-1]);
    }
  }

  ghost function NoNodes(n: nat): seq<Chain>
  {
    seq(n, _ => [])
  }

  lemma PositionIs(c: Chain, key: Bytes, j: nat)
    requires DistinctKeys(c) && j < |c| && c[j].key == key
    ensures HasKey(c, key) && Position(c, key) == j
  {
  }

  lemma ChainDistinct(B: seq<Chain>, h: Bytes -> int, m: map<Bytes, Ptr>, i: nat)
    requires Represents(B, h, m) && i < |B|
    ensures DistinctKeys(B[i])
  {
    assert Unfold(B);
  }
}
