/** The chained hash table in its pointer-valued form (hash_init), with a prime number of
    buckets that grows with the number of items. */
module HashTable {
  import opened HashChains

  const ENOENT: int := 2
  const ENOMEM: int := 12
  const EINVAL: int := 22
  const ENOSPC: int := 28

  // prime_array
  function PrimeArray(): seq<nat>
  {
    [
    1, 3, 17, 37, 79, 163, 331, 673, 1361, 2729, 5471, 10949, 21911, 43853, 87719, 175447,
    350899, 701819, 1403641, 2807303, 5614657, 11229331, 22458671, 44917381, 89834777,
    179669557, 359339171, 718678369, 1437356741, 2147483647]
  }

  // Capacities in increasing order; except for the step from the first to the second,
  // neighbours lie at least ten apart.
  ghost predicate Capacities(p: seq<nat>)
  {
    && |p| > 1 && p[0] == 1
    && (forall a, b :: 0 <= a < b < |p| ==> p[a] < p[b])
    && (forall a, b :: 0 < a < b < |p| ==> p[a] + 10 <= p[b])
  }

  lemma PrimesAreCapacities()
    ensures Capacities(PrimeArray()) && |PrimeArray()| == 30
    // from the third on to the last but one, a step doubles the capacity
    ensures forall i :: 2 <= i < 28 ==> 2 * PrimeArray()[i] < PrimeArray()[i+1] < 2 * PrimeArray()[i] + 60
  {
    var p := PrimeArray();
    assert forall i :: 0 <= i < 29 ==> p[i] < p[i+1];
    assert forall i :: 0 < i < 29 ==> p[i] + 10 <= p[i+1];
    CapacitiesFromSteps(p);
  }

  lemma CapacitiesFromSteps(p: seq<nat>)
    requires |p| > 1 && p[0] == 1
    requires forall i :: 0 <= i < |p| - 1 ==> p[i] < p[i+1]
    requires forall i :: 0 < i < |p| - 1 ==> p[i] + 10 <= p[i+1]
    ensures Capacities(p)
  {
    forall a, b | 0 <= a < b < |p| ensures p[a] < p[b] && (a > 0 ==> p[a] + 10 <= p[b]) {
      StepsUp(p, a, b);
    }
  }

  lemma {:induction false} StepsUp(p: seq<nat>, a: nat, b: nat)
    requires forall i :: 0 <= i < |p| - 1 ==> p[i] < p[i+1]
    requires forall i :: 0 < i < |p| - 1 ==> p[i] + 10 <= p[i+1]
    requires a < b < |p|
    ensures p[a] < p[b] && (a > 0 ==> p[a] + 10 <= p[b])
  {
    if a + 1 < b {
      StepsUp(p, a, b - 1);
    }
    assert p[b-1] < p[b-1+1];
  }

  class HashArray {
    const primes: seq<nat>
    var buckets: array<Chain>
    var hashFunc: Bytes -> int
    var itemCount: int
    // Index of the capacity among the primes.
    var prime: nat
    var loadFactor: real
    var maxBytes: nat
    var bytesUsed: int
    // The bindings of the table.
    ghost var contents: map<Bytes, Ptr>

    ghost predicate Valid()
      reads this, buckets
    {
      && Capacities(primes) && prime < |primes| && buckets.Length == primes[prime]
      && Represents(buckets[..], hashFunc, contents)
      && Accounted(buckets[..], itemCount, bytesUsed)
      && 0.1 <= loadFactor <= 1.0
    }

    ghost function State(): TableState
      reads this
    {
      TableState(contents, itemCount, prime, bytesUsed)
    }

    ghost function Set(): Settings
      reads this
    {
      Settings(maxBytes, loadFactor, primes)
    }

    // Fewer items than the load factor allows for.
    ghost predicate Light()
      reads this
    {
      Below(itemCount, loadFactor, buckets.Length)
    }

    // The load is below the load factor, and nothing but a failing malloc can change that.
    ghost predicate StableLoad()
      reads this, buckets
      requires Valid()
    {
      Light() && maxBytes == 0 && (prime > 0 || Below(1, loadFactor, primes[1]))
    }

    // Whether adding a node to a table with these items and this capacity is followed by a rehash,
    // and one that succeeds; bytes includes the node.
    ghost predicate Grows(items: int, bytes: int, prime: nat, granted: bool)
      reads this
      requires prime < |primes|
    {
      Takes(items + 1, bytes, prime, granted, Set())
    }

    // Whether a table that was light before the node was added is so afterwards: there is room in
    // its buckets, or in those of the next prime; but three buckets may be too few for one item.
    ghost predicate StaysLight(items: int, bytes: int, prime: nat, granted: bool)
      reads this
      requires prime < |primes| && |primes| > 1
    {
      || Below(items + 1, loadFactor, primes[prime])
      || (Grows(items, bytes, prime, granted) && (prime > 0 || Below(1, loadFactor, primes[1])))
    }

    lemma StableIs()
      requires Valid()
      ensures StableLoad() <==> Stable(State(), Set())
    {
    }

    constructor ()
      ensures primes == PrimeArray() && Capacities(primes)
    {
      PrimesAreCapacities();
      primes := PrimeArray();
      buckets := new Chain[0];
      hashFunc := (k: Bytes) => 0;
      itemCount, prime, loadFactor, maxBytes, bytesUsed := 0, 0, 0.5, 0, 0;
      contents := map[];
    }

    // _hash_alloc_buckets; granted says whether malloc succeeds.
    method AllocBuckets(oldCapacity: nat, granted: bool) returns (result: int)
      requires Capacities(primes) && prime < |primes|
      modifies this`buckets, this`bytesUsed
      ensures result == 0 <==> (maxBytes == 0 || old(bytesUsed) + BUCKET_SIZE * primes[prime] <= maxBytes) && granted
      ensures result != 0 ==> buckets == old(buckets) && bytesUsed == old(bytesUsed)
      ensures result != 0 ==>
        result == if maxBytes == 0 || bytesUsed + BUCKET_SIZE * primes[prime] <= maxBytes then ENOMEM else ENOSPC
      ensures result == 0 ==> fresh(buckets) && buckets.Length == primes[prime]
      ensures result == 0 ==> forall i :: 0 <= i < buckets.Length ==> buckets[i] == []
      ensures result == 0 ==> bytesUsed == old(bytesUsed) + BUCKET_SIZE * primes[prime] - BUCKET_SIZE * oldCapacity
    {
      var bytes := BUCKET_SIZE * primes[prime];
      if maxBytes > 0 && bytesUsed + bytes > maxBytes {
        return ENOSPC;
      }
      if !granted {
        return ENOMEM;
      }
      buckets := new Chain[primes[prime]](_ => []);
      bytesUsed := bytesUsed + bytes - BUCKET_SIZE * oldCapacity;
      return 0;
    }

    /** hash_init_ex without value buffers. The byte limit is set only after the first buckets
        are there, so they may exceed it. */
    method Init(hashFunc: Bytes -> int, capacity: nat, loadFactor: real, maxBytes: nat,
        granted: bool) returns (result: int)
      requires Capacities(primes)
      modifies this
      ensures result == EINVAL <==> capacity >= primes[|primes|-1]
      ensures result == ENOMEM <==> capacity < primes[|primes|-1] && !granted
      ensures result == 0 || result == EINVAL || result == ENOMEM
      ensures result == 0 ==> Valid() && fresh(buckets) && contents == map[] && itemCount == 0 && Light()
      ensures result == 0 ==> buckets.Length > capacity && (prime > 0 ==> primes[prime-1] <= capacity)
      ensures result == 0 ==> this.hashFunc == hashFunc && this.maxBytes == maxBytes
      ensures result == 0 ==> this.loadFactor == if 0.1 <= loadFactor <= 1.0 then loadFactor else 0.5
    {
      itemCount, bytesUsed, this.maxBytes := 0, 0, 0;
      contents := map[];
      var p := 0;
      while p < |primes| && primes[p] <= capacity
        invariant 0 <= p <= |primes|
        invariant forall q :: 0 <= q < p ==> primes[q] <= capacity
      {
        p := p + 1;
      }
      if p == |primes| {
        return EINVAL;
      }
      assert primes[p] <= primes[|primes|-1];
      prime := p;
      result := AllocBuckets(0, granted);
      if result != 0 {
        return;
      }
      this.hashFunc := hashFunc;
      this.maxBytes := maxBytes;
      this.loadFactor := if 0.1 <= loadFactor <= 1.0 then loadFactor else 0.5;
      EmptyBuckets(buckets[..], hashFunc);
      NoneBelow(this.loadFactor, buckets.Length);
    }

    // ---------- find ----------

    // The walk along one chain that find, insert and delete share.
    method FindInChain(c: Chain, key: Bytes) returns (j: nat)
      ensures j <= |c| && (forall a :: 0 <= a < j ==> c[a].key != key)
      ensures j < |c| ==> c[j].key == key
    {
      j := 0;
      while j < |c| && c[j].key != key
        invariant j <= |c| && forall a :: 0 <= a < j ==> c[a].key != key
      {
        j := j + 1;
      }
    }

    // The value of a key, or NULL.
    method Find(key: Bytes) returns (value: Ptr)
      requires Valid()
      ensures value == if key in contents then contents[key] else 0
    {
      var i := SlotOf(hashFunc, buckets.Length, key);
      var j := FindInChain(buckets[i], key);
      Found(buckets[..], hashFunc, contents, key, j);
      if j < |buckets[i]| {
        return buckets[i][j].value;
      } else {
        return 0;
      }
    }

    // ---------- insertion and growth ----------

    /** Binds a key. Returns 1 for a new key and 0 for one that was bound; if a new node does not
        fit the byte limit or cannot be allocated, it changes nothing. */
    method Insert(key: Bytes, value: Ptr, nodeGranted: bool, bucketsGranted: bool) returns (r: int)
      requires Valid()
      requires key !in contents ==> prime + 1 < |primes| || Below(itemCount + 1, loadFactor, buckets.Length)
      modifies this, buckets
      ensures Valid() && hashFunc == old(hashFunc) && maxBytes == old(maxBytes) && loadFactor == old(loadFactor)
      ensures buckets == old(buckets) || fresh(buckets)
      ensures r <= 1 && (r == 0 <==> key in old(contents))
      ensures r == 1 <==>
        key !in old(contents) && (maxBytes == 0 || old(bytesUsed) + NODE_SIZE + |key| <= maxBytes) && nodeGranted
      ensures r >= 0 ==> contents == old(contents)[key := value]
      ensures r < 0 ==> contents == old(contents) && buckets == old(buckets) && buckets[..] == old(buckets[..])
      ensures r < 0 ==>
        r == if maxBytes == 0 || bytesUsed + NODE_SIZE + |key| <= maxBytes then -ENOMEM else -ENOSPC
      ensures maxBytes > 0 && old(bytesUsed) <= maxBytes ==> bytesUsed <= maxBytes
      ensures r <= 0 ==> bytesUsed == old(bytesUsed)
      // where the nodes hang
      ensures r == 0 ==> buckets == old(buckets)
      ensures r == 0 ==> HasKey(old(buckets[..])[SlotOf(hashFunc, |old(buckets[..])|, key)], key)
      ensures r == 0 ==> buckets[..] == ValueSet(old(buckets[..]), hashFunc, key, value)
      ensures r == 1 ==>
        var B := Hang(old(buckets[..]), hashFunc, Entry(key, value));
        buckets[..] == if prime == old(prime) then B else HangAll(NoNodes(primes[prime]), hashFunc, Flat(B))
      ensures r == 1 ==>
        bytesUsed == old(bytesUsed) + NODE_SIZE + |key| + BUCKET_SIZE * primes[prime] - BUCKET_SIZE * primes[old(prime)]
      ensures itemCount == if r == 1 then old(itemCount) + 1 else old(itemCount)
      ensures r <= 0 ==> prime == old(prime)
      ensures r == 1 ==>
        var grows := Grows(old(itemCount), old(bytesUsed) + NODE_SIZE + |key|, old(prime), bucketsGranted);
        prime == if grows then old(prime) + 1 else old(prime)
      // exactly when the number of items stays below what the load factor allows
      ensures old(Light()) && r <= 0 ==> Light()
      ensures old(Light()) && r == 1 ==>
        (Light() <==> StaysLight(old(itemCount), old(bytesUsed) + NODE_SIZE + |key|, old(prime), bucketsGranted))
    {
      var i := SlotOf(hashFunc, buckets.Length, key);
      var j := FindInChain(buckets[i], key);
      Found(buckets[..], hashFunc, contents, key, j);
      if j < |buckets[i]| {
        SetRepresents(buckets[..], hashFunc, contents, i, j, value);
        SetTotals(buckets[..], i, j, value);
        ChainDistinct(buckets[..], hashFunc, contents, i);
        PositionIs(buckets[i], key, j);
        ghost var B := buckets[..];
        buckets[i] := buckets[i][j := Entry(key, value)];
        assert buckets[..] == B[i := B[i][j := Entry(key, value)]];
        contents := contents[key := value];
        return 0;
      }
      var bytes := NODE_SIZE + |key|;
      if maxBytes > 0 && bytesUsed + bytes > maxBytes {
        return -ENOSPC;
      }
      if !nodeGranted {
        return -ENOMEM;
      }
      AddNode(Entry(key, value), bucketsGranted);
      return 1;
    }

    // The part of hash_insert_ex for a new node.
    method AddNode(e: Entry, bucketsGranted: bool)
      requires Valid() && e.key !in contents
      requires prime + 1 < |primes| || Below(itemCount + 1, loadFactor, buckets.Length)
      requires maxBytes == 0 || bytesUsed + NODE_SIZE + |e.key| <= maxBytes
      modifies this, buckets
      ensures Valid() && hashFunc == old(hashFunc) && maxBytes == old(maxBytes) && loadFactor == old(loadFactor)
      ensures buckets == old(buckets) || fresh(buckets)
      ensures contents == old(contents)[e.key := e.value]
      ensures maxBytes > 0 ==> bytesUsed <= maxBytes
      ensures itemCount == old(itemCount) + 1
      ensures var B := Hang(old(buckets[..]), hashFunc, e);
        buckets[..] == if prime == old(prime) then B else HangAll(NoNodes(primes[prime]), hashFunc, Flat(B))
      ensures bytesUsed ==
        old(bytesUsed) + NODE_SIZE + |e.key| + BUCKET_SIZE * primes[prime] - BUCKET_SIZE * primes[old(prime)]
      ensures prime == if Grows(old(itemCount), old(bytesUsed) + NODE_SIZE + |e.key|, old(prime), bucketsGranted)
        then old(prime) + 1 else old(prime)
      ensures old(Light()) ==>
        (Light() <==> StaysLight(old(itemCount), old(bytesUsed) + NODE_SIZE + |e.key|, old(prime), bucketsGranted))
    {
      LinkNode(e);
      GrowIfFull(bucketsGranted);
    }

    // The rehash that may follow a new node.
    method GrowIfFull(granted: bool)
      requires Valid() && itemCount > 0 && (prime + 1 < |primes| || Light())
      modifies this
      ensures Valid() && contents == old(contents) && itemCount == old(itemCount)
      ensures hashFunc == old(hashFunc) && maxBytes == old(maxBytes) && loadFactor == old(loadFactor)
      ensures maxBytes > 0 && old(bytesUsed) <= maxBytes ==> bytesUsed <= maxBytes
      ensures prime == if Grows(itemCount - 1, old(bytesUsed), old(prime), granted) then old(prime) + 1 else old(prime)
      ensures if prime == old(prime) then buckets == old(buckets) && buckets[..] == old(buckets[..])
        else fresh(buckets) && buckets[..] == HangAll(NoNodes(primes[prime]), hashFunc, Flat(old(buckets[..])))
      ensures bytesUsed == old(bytesUsed) + BUCKET_SIZE * primes[prime] - BUCKET_SIZE * primes[old(prime)]
      ensures Below(itemCount - 1, loadFactor, primes[old(prime)]) ==>
        (Light() <==> StaysLight(itemCount - 1, old(bytesUsed), old(prime), granted))
    {
      var full := OverLoaded();
      if full {
        if Below(itemCount - 1, loadFactor, primes[prime]) {
          NextPrimeIsLight(primes, prime, itemCount - 1, loadFactor);
        }
        var _ := Rehash(granted);
      }
    }

    // Hangs a node into its bucket and accounts for it.
    method LinkNode(e: Entry)
      requires Valid() && e.key !in contents
      modifies this`bytesUsed, this`itemCount, this`contents, buckets
      ensures Valid() && contents == old(contents)[e.key := e.value]
      ensures itemCount == old(itemCount) + 1 && bytesUsed == old(bytesUsed) + NODE_SIZE + |e.key|
      ensures buckets[..] == Hang(old(buckets[..]), hashFunc, e)
    {
      bytesUsed := bytesUsed + NodeBytes(e);
      ghost var B, i := buckets[..], SlotOf(hashFunc, buckets.Length, e.key);
      PushRepresents(B, hashFunc, contents, e);
      PushTotals(B, i, e);
      AddToBucket(e);
      contents := contents[e.key := e.value];
    }

    // The test for a rehash.
    method OverLoaded() returns (full: bool)
      requires buckets.Length > 0
      ensures full <==> !Light()
    {
      LoadTest(itemCount, buckets.Length, loadFactor);
      full := itemCount as real / buckets.Length as real >= loadFactor;
    }

    // Puts a node at the front of its chain.
    method AddToBucket(e: Entry)
      requires buckets.Length > 0
      modifies this`itemCount, buckets
      ensures itemCount == old(itemCount) + 1
      ensures var i := SlotOf(hashFunc, buckets.Length, e.key);
        buckets[..] == old(buckets[..])[i := [e] + old(buckets[..])[i]]
    {
      var i := SlotOf(hashFunc, buckets.Length, e.key);
      buckets[i] := [e] + buckets[i];
      itemCount := itemCount + 1;
    }

    // Hangs the nodes of one chain into their new buckets.
    method MoveChain(c: Chain, ghost m: map<Bytes, Ptr>) returns (ghost m': map<Bytes, Ptr>)
      requires buckets.Length > 0 && Represents(buckets[..], hashFunc, m)
      requires DistinctKeys(c) && forall j :: 0 <= j < |c| ==> c[j].key !in m
      modifies this`itemCount, buckets
      ensures Represents(buckets[..], hashFunc, m') && Added(m, c, m')
      ensures buckets[..] == HangAll(old(buckets[..]), hashFunc, c)
      ensures itemCount == old(itemCount) + |c|
      ensures |Flat(buckets[..])| == old(|Flat(buckets[..])|) + |c|
      ensures ChainBytes(Flat(buckets[..])) == old(ChainBytes(Flat(buckets[..]))) + ChainBytes(c)
    {
      m' := m;
      var j := 0;
      while j < |c|
        invariant 0 <= j <= |c|
        invariant Represents(buckets[..], hashFunc, m') && Added(m, c[..j], m')
        invariant buckets[..] == HangAll(old(buckets[..]), hashFunc, c[..j])
        invariant itemCount == old(itemCount) + j
        invariant |Flat(buckets[..])| == old(|Flat(buckets[..])|) + j
        invariant ChainBytes(Flat(buckets[..])) == old(ChainBytes(Flat(buckets[..]))) + ChainBytes(c[..j])
      {
        AddedStep(m, c, j, m');
        PushRepresents(buckets[..], hashFunc, m', c[j]);
        PushTotals(buckets[..], SlotOf(hashFunc, buckets.Length, c[j].key), c[j]);
        AddToBucket(c[j]);
        m' := m'[c[j].key := c[j].value];
        assert c[..j+1][..j] == c[..j];
        j := j + 1;
      }
      assert c[..j] == c;
    }

    /** Moves all nodes to a bucket array of the next prime length. If that array does not fit or
        cannot be allocated, nothing changes. */
    method Rehash(granted: bool) returns (result: int)
      requires Valid() && prime + 1 < |primes|
      modifies this
      ensures Valid() && contents == old(contents) && itemCount == old(itemCount)
      ensures hashFunc == old(hashFunc) && maxBytes == old(maxBytes) && loadFactor == old(loadFactor)
      ensures result == 0 <==>
        (maxBytes == 0 || old(bytesUsed) + BUCKET_SIZE * primes[old(prime) + 1] <= maxBytes) && granted
      ensures result == 0 ==> fresh(buckets) && prime == old(prime) + 1
      ensures result == 0 ==> buckets[..] == HangAll(NoNodes(primes[prime]), hashFunc, Flat(old(buckets[..])))
      ensures result == 0 ==>
        bytesUsed == old(bytesUsed) + BUCKET_SIZE * primes[prime] - BUCKET_SIZE * primes[old(prime)]
      ensures result != 0 ==> buckets[..] == old(buckets[..])
      ensures result != 0 ==> buckets == old(buckets) && prime == old(prime) && bytesUsed == old(bytesUsed)
      ensures maxBytes > 0 && old(bytesUsed) <= maxBytes ==> bytesUsed <= maxBytes
    {
      var oldBuckets := buckets;
      var oldCapacity := buckets.Length;
      prime := prime + 1;
      result := AllocBuckets(oldCapacity, granted);
      if result != 0 {
        prime := prime - 1;
        return;
      }
      itemCount := 0;
      MoveAll(oldBuckets);
    }

    // The loop of _rehash1.
    method MoveAll(oldBuckets: array<Chain>)
      requires buckets != oldBuckets && buckets.Length > 0 && itemCount == 0
      requires forall i :: 0 <= i < buckets.Length ==> buckets[i] == []
      requires Represents(oldBuckets[..], hashFunc, contents)
      modifies this`itemCount, buckets
      ensures Represents(buckets[..], hashFunc, contents)
      ensures buckets[..] == HangAll(NoNodes(buckets.Length), hashFunc, Flat(oldBuckets[..]))
      ensures itemCount == |Flat(buckets[..])| == |Flat(oldBuckets[..])|
      ensures ChainBytes(Flat(buckets[..])) == ChainBytes(Flat(oldBuckets[..]))
    {
      ghost var B := oldBuckets[..];
      ghost var m: map<Bytes, Ptr> := map[];
      EmptyBuckets(buckets[..], hashFunc);
      assert buckets[..] == NoNodes(buckets.Length);
      var i := 0;
      while i < oldBuckets.Length
        invariant 0 <= i <= oldBuckets.Length && oldBuckets[..] == B
        invariant Represents(buckets[..], hashFunc, m) && MovedTo(B, hashFunc, contents, m, i)
        invariant buckets[..] == HangAll(NoNodes(buckets.Length), hashFunc, Flat(B[..i]))
        invariant itemCount == |Flat(buckets[..])| == |Flat(B[..i])|
        invariant ChainBytes(Flat(buckets[..])) == ChainBytes(Flat(B[..i]))
      {
        MovedDistinct(B, hashFunc, contents, m, i);
        ghost var m0 := m;
        m := MoveChain(oldBuckets[i], m);
        HangConcat(NoNodes(buckets.Length), hashFunc, Flat(B[..i]), B[i]);
        MovedStep(B, hashFunc, contents, m0, i, m);
        FlatSplit(B, i);
        ChainBytesConcat(Flat(B[..i]), B[i]);
        i := i + 1;
      }
      assert B[..i] == B;
      MovedAll(B, hashFunc, contents, m);
    }

    // ---------- deletion and walk ----------

    method Delete(key: Bytes) returns (result: int)
      requires Valid()
      modifies this, buckets
      ensures Valid() && buckets == old(buckets) && prime == old(prime)
      ensures hashFunc == old(hashFunc) && maxBytes == old(maxBytes) && loadFactor == old(loadFactor)
      ensures result == if key in old(contents) then 0 else ENOENT
      ensures contents == old(contents) - {key}
      ensures result == 0 ==> itemCount == old(itemCount) - 1 && bytesUsed == old(bytesUsed) - NODE_SIZE - |key|
      ensures result != 0 ==>
        buckets[..] == old(buckets[..]) && itemCount == old(itemCount) && bytesUsed == old(bytesUsed)
      ensures result == 0 ==> var s := SlotOf(hashFunc, |old(buckets[..])|, key);
        HasKey(old(buckets[..])[s], key)
        && buckets[..] == old(buckets[..])[s := Remove(old(buckets[..])[s], Position(old(buckets[..])[s], key))]
      ensures old(Light()) ==> Light()
    {
      var i := SlotOf(hashFunc, buckets.Length, key);
      var c := buckets[i];
      var j := FindInChain(c, key);
      Found(buckets[..], hashFunc, contents, key, j);
      if j == |c| {
        return ENOENT;
      }
      ChainDistinct(buckets[..], hashFunc, contents, i);
      PositionIs(c, key, j);
      FewerBelow(itemCount, loadFactor, buckets.Length);
      UnlinkNode(i, j);
      return 0;
    }

    // Takes a node out of its chain and out of the accounts.
    method UnlinkNode(i: nat, j: nat)
      requires Valid() && i < buckets.Length && j < |buckets[i]|
      modifies this`bytesUsed, this`itemCount, this`contents, buckets
      ensures Valid() && contents == old(contents) - {old(buckets[i][j]).key}
      ensures itemCount == old(itemCount) - 1 && bytesUsed == old(bytesUsed) - NodeBytes(old(buckets[i][j]))
      ensures buckets[..] == old(buckets[..])[i := Remove(old(buckets[i]), j)]
    {
      ghost var B, c := buckets[..], buckets[i];
      var e := buckets[i][j];
      RemoveRepresents(B, hashFunc, contents, i, j);
      RemoveTotals(B, i, j);
      buckets[i] := buckets[i][..j] + buckets[i][j+1..];
      assert buckets[..] == B[i := Remove(c, j)];
      itemCount := itemCount - 1;
      bytesUsed := bytesUsed - NodeBytes(e);
      contents := contents - {e.key};
    }

    /** Calls visit with each node and its number, in the order of Flat, until one call returns
        something other than 0; n is the number of calls that returned 0. The nodes come in the order of
        the buckets, and in each the latest first. */
    method Walk(visit: (nat, Entry) -> int) returns (result: int, ghost n: nat)
      requires Valid()
      ensures n <= |Flat(buckets[..])|
      ensures forall k :: 0 <= k < n ==> visit(k, Flat(buckets[..])[k]) == 0
      ensures n == |Flat(buckets[..])| ==> result == 0
      ensures n < |Flat(buckets[..])| ==> result == visit(n, Flat(buckets[..])[n]) != 0
      ensures InBucketOrder(Flat(buckets[..]), hashFunc, buckets.Length)
    {
      WalkByBucket(buckets[..], hashFunc, contents);
      result, n := VisitAll(visit);
    }

    // The loop of hash_walk.
    method VisitAll(visit: (nat, Entry) -> int) returns (result: int, ghost n: nat)
      ensures n <= |Flat(buckets[..])|
      ensures forall k :: 0 <= k < n ==> visit(k, Flat(buckets[..])[k]) == 0
      ensures n == |Flat(buckets[..])| ==> result == 0
      ensures n < |Flat(buckets[..])| ==> result == visit(n, Flat(buckets[..])[n]) != 0
    {
      ghost var B := buckets[..];
      ghost var F := Flat(B);
      var index := 0;
      n := 0;
      var i := 0;
      while i < buckets.Length
        invariant 0 <= i <= buckets.Length && index == n == |Flat(B[..i])| <= |F|
        invariant forall k :: 0 <= k < n ==> visit(k, F[k]) == 0
      {
        FlatSplit(B, i);
        var c := buckets[i];
        ghost var d;
        result, d := WalkChain(c, visit, index);
        VisitedSoFar(Flat(B[..i]), c, Flat(B[i+1..]), visit, d);
        n := n + d;
        if result != 0 {
          return;
        }
        index := index + |c|;
        i := i + 1;
      }
      assert B[..i] == B;
      result := 0;
    }

    // The inner loop of hash_walk; the first node has the number start.
    method WalkChain(c: Chain, visit: (nat, Entry) -> int, start: nat) returns (result: int, ghost n: nat)
      ensures n <= |c| && forall k :: 0 <= k < n ==> visit(start + k, c[k]) == 0
      ensures if n == |c| then result == 0 else result == visit(start + n, c[n]) != 0
    {
      n := 0;
      var j := 0;
      while j < |c|
        invariant 0 <= j == n <= |c|
        invariant forall k :: 0 <= k < n ==> visit(start + k, c[k]) == 0
      {
        result := visit(start + j, c[j]);
        if result != 0 {
          return;
        }
        n := n + 1;
        j := j + 1;
      }
      result := 0;
    }
  }

  lemma VisitedSoFar(a: Chain, c: Chain, z: Chain, visit: (nat, Entry) -> int, d: nat)
    requires forall k :: 0 <= k < |a| ==> visit(k, (a + c + z)[k]) == 0
    requires d <= |c| && forall k :: 0 <= k < d ==> visit(|a| + k, c[k]) == 0
    ensures forall k :: 0 <= k < |a| + d ==> visit(k, (a + c + z)[k]) == 0
    ensures d < |c| ==> (a + c + z)[|a| + d] == c[d]
  {
    forall k | |a| <= k < |a| + d ensures visit(k, (a + c + z)[k]) == 0 {
      assert (a + c + z)[k] == c[k - |a|];
    }
  }

  // ---------- whole runs ----------

  // Calls of a client; the flags say whether malloc would succeed.
  datatype Call =
    | DoInsert(key: Bytes, value: Ptr, nodeGranted: bool, bucketsGranted: bool)
    | DoDelete(key: Bytes)
    | DoFind(key: Bytes)

  // What decides how a table answers: its bindings, their number, the index of its prime and its bytes.
  datatype TableState = TableState(m: map<Bytes, Ptr>, items: int, prime: nat, bytes: int)

  // What never changes: the byte limit, the load factor and the primes.
  datatype Settings = Settings(limit: nat, load: real, primes: seq<nat>)

  ghost function AnswerOf(s: TableState, c: Call, g: Settings): int
  {
    match c
    case DoInsert(key, _, granted, _) =>
      if key in s.m then 0
      else if g.limit > 0 && s.bytes + NODE_SIZE + |key| > g.limit then -ENOSPC
      else if !granted then -ENOMEM
      else 1
    case DoDelete(key) => if key in s.m then 0 else ENOENT
    case DoFind(key) => if key in s.m then s.m[key] else 0
  }

  ghost function AfterCall(s: TableState, c: Call, g: Settings): TableState
  {
    match c
    case DoInsert(key, value, _, granted) =>
      var r := AnswerOf(s, c, g);
      if r < 0 then s
      else if r == 0 then s.(m := s.m[key := value])
      else Grown(TableState(s.m[key := value], s.items + 1, s.prime, s.bytes + NODE_SIZE + |key|), granted, g)
    case DoDelete(key) =>
      if key in s.m then s.(m := s.m - {key}, items := s.items - 1, bytes := s.bytes - NODE_SIZE - |key|) else s
    case DoFind(_) => s
  }

  // Whether a table takes the next prime: it has become too full, and the buckets fit the limit and are granted.
  ghost predicate Takes(items: int, bytes: int, prime: nat, granted: bool, g: Settings)
  {
    && prime + 1 < |g.primes| && !Below(items, g.load, g.primes[prime]) && granted
    && (g.limit == 0 || bytes + BUCKET_SIZE * g.primes[prime + 1] <= g.limit)
  }

  ghost function Grown(s: TableState, granted: bool, g: Settings): TableState
  {
    if Takes(s.items, s.bytes, s.prime, granted, g) then
      var bytes := s.bytes + BUCKET_SIZE * g.primes[s.prime + 1] - BUCKET_SIZE * g.primes[s.prime];
      s.(prime := s.prime + 1, bytes := bytes)
    else s
  }

  ghost function AfterCalls(s: TableState, calls: seq<Call>, g: Settings): TableState
  {
    var n := |calls| - 1;
    if n < 0 then s else AfterCall(AfterCalls(s, calls[..n], g), calls[n], g)
  }

  ghost predicate Answered(s: TableState, calls: seq<Call>, g: Settings, answers: seq<int>)
  {
    |answers| == |calls| && forall i {:trigger answers[i]} :: 0 <= i < |calls| ==>
      answers[i] == AnswerOf(AfterCalls(s, calls[..i], g), calls[i], g)
  }

  function Inserts(calls: seq<Call>): (n: nat)
    ensures n <= |calls|
  {
    var k := |calls| - 1;
    if k < 0 then 0 else Inserts(calls[..k]) + if calls[k].DoInsert? then 1 else 0
  }

  predicate BucketsGranted(calls: seq<Call>)
  {
    forall i :: 0 <= i < |calls| && calls[i].DoInsert? ==> calls[i].bucketsGranted
  }

  /** Any run of calls acts on the table as on a finite map with its number of items, prime and bytes: these
      decide every answer. If the largest prime has room for all keys inserted, the list of primes is never
      left. Without a byte limit and with memory for the buckets, the load stays below the load factor after
      every run, and so after each of its calls - unless it starts in a single bucket with a load factor of
      at most a third. */
  method Run(h: HashArray, calls: seq<Call>) returns (answers: seq<int>)
    requires h.Valid()
    requires Below(h.itemCount + Inserts(calls), h.loadFactor, h.primes[|h.primes|-1])
    modifies h, h.buckets
    ensures h.Valid() && h.Set() == old(h.Set())
    ensures h.State() == AfterCalls(old(h.State()), calls, h.Set())
    ensures Answered(old(h.State()), calls, h.Set(), answers)
    ensures h.prime >= old(h.prime)
    ensures h.maxBytes > 0 && old(h.bytesUsed) <= h.maxBytes ==> h.bytesUsed <= h.maxBytes
    ensures h.buckets == old(h.buckets) || fresh(h.buckets)
    ensures h.itemCount <= old(h.itemCount) + Inserts(calls)
    ensures old(h.StableLoad()) && BucketsGranted(calls) ==> h.StableLoad()
  {
    var n := |calls| - 1;
    if n < 0 {
      return [];
    }
    ghost var largest := h.primes[|h.primes|-1];
    LessBelow(h.itemCount + Inserts(calls[..n]), h.itemCount + Inserts(calls), h.loadFactor, largest);
    ghost var all := h.itemCount + Inserts(calls);
    answers := Run(h, calls[..n]);
    if calls[n].DoInsert? {
      LessBelow(h.itemCount + 1, all, h.loadFactor, largest);
    }
    ghost var s := h.State();
    var r := Perform(h, calls[n]);
    AnsweredOn(old(h.State()), calls, h.Set(), answers, r, s);
    answers := answers + [r];
  }

  ghost predicate Stable(s: TableState, g: Settings)
  {
    && s.items >= 0 && |g.primes| > 1 && s.prime < |g.primes| && Below(s.items, g.load, g.primes[s.prime])
    && g.limit == 0 && (s.prime > 0 || Below(1, g.load, g.primes[1]))
  }

  /** A call keeps the load below the load factor. */
  lemma CallKeeps(s: TableState, c: Call, g: Settings)
    requires Stable(s, g) && Capacities(g.primes) && 0.1 <= g.load <= 1.0
    requires c.DoInsert? ==> c.bucketsGranted
    requires c.DoInsert? && c.key !in s.m ==> s.prime + 1 < |g.primes| || Below(s.items + 1, g.load, g.primes[s.prime])
    ensures AfterCall(s, c, g).items >= 0 ==> Stable(AfterCall(s, c, g), g)
  {
    if c.DoInsert? && s.prime + 1 < |g.primes| {
      NextPrimeIsLight(g.primes, s.prime, s.items, g.load);
    } else if c.DoDelete? {
      FewerBelow(s.items, g.load, g.primes[s.prime]);
    }
  }

  lemma AnsweredOn(s0: TableState, calls: seq<Call>, g: Settings, answers: seq<int>, r: int, s: TableState)
    requires |calls| > 0 && Answered(s0, calls[..|calls|-1], g, answers)
    requires s == AfterCalls(s0, calls[..|calls|-1], g) && r == AnswerOf(s, calls[|calls|-1], g)
    ensures Answered(s0, calls, g, answers + [r])
    ensures AfterCalls(s0, calls, g) == AfterCall(s, calls[|calls|-1], g)
  {
    var n := |calls| - 1;
    assert forall i :: 0 <= i < n ==> calls[..n][..i] == calls[..i];
  }

  method Perform(h: HashArray, c: Call) returns (r: int)
    requires h.Valid()
    requires c.DoInsert? && c.key !in h.contents ==> Below(h.itemCount + 1, h.loadFactor, h.primes[|h.primes|-1])
    modifies h, h.buckets
    ensures h.Valid() && (h.buckets == old(h.buckets) || fresh(h.buckets))
    ensures h.Set() == old(h.Set()) && h.State() == AfterCall(old(h.State()), c, h.Set())
    ensures r == AnswerOf(old(h.State()), c, h.Set()) && h.prime >= old(h.prime)
    ensures h.itemCount <= old(h.itemCount) + if c.DoInsert? then 1 else 0
    ensures h.maxBytes > 0 && old(h.bytesUsed) <= h.maxBytes ==> h.bytesUsed <= h.maxBytes
    ensures old(h.StableLoad()) && (c.DoInsert? ==> c.bucketsGranted) ==> h.StableLoad()
  {
    ghost var s := h.State();
    h.StableIs();
    r := Dispatch(h, c);
    if Stable(s, h.Set()) && (c.DoInsert? ==> c.bucketsGranted) {
      CallKeeps(s, c, h.Set());
    }
    h.StableIs();
  }

  method Dispatch(h: HashArray, c: Call) returns (r: int)
    requires h.Valid()
    requires c.DoInsert? && c.key !in h.contents ==> Below(h.itemCount + 1, h.loadFactor, h.primes[|h.primes|-1])
    modifies h, h.buckets
    ensures h.Valid() && (h.buckets == old(h.buckets) || fresh(h.buckets))
    ensures h.Set() == old(h.Set()) && h.State() == AfterCall(old(h.State()), c, h.Set())
    ensures r == AnswerOf(old(h.State()), c, h.Set()) && h.prime >= old(h.prime)
    ensures h.itemCount <= old(h.itemCount) + if c.DoInsert? then 1 else 0
    ensures h.maxBytes > 0 && old(h.bytesUsed) <= h.maxBytes ==> h.bytesUsed <= h.maxBytes
  {
    match c
    case DoInsert(key, value, nodeGranted, bucketsGranted) =>
      r := PerformInsert(h, key, value, nodeGranted, bucketsGranted);
    case DoDelete(key) => r := h.Delete(key);
    case DoFind(key) => r := h.Find(key);
  }

  method PerformInsert(h: HashArray, key: Bytes, value: Ptr, nodeGranted: bool, bucketsGranted: bool) returns (r: int)
    requires h.Valid()
    requires key !in h.contents ==> Below(h.itemCount + 1, h.loadFactor, h.primes[|h.primes|-1])
    modifies h, h.buckets
    ensures h.Valid() && (h.buckets == old(h.buckets) || fresh(h.buckets)) && h.Set() == old(h.Set())
    ensures var c := DoInsert(key, value, nodeGranted, bucketsGranted);
      h.State() == AfterCall(old(h.State()), c, h.Set()) && r == AnswerOf(old(h.State()), c, h.Set())
    ensures h.prime >= old(h.prime) && h.itemCount <= old(h.itemCount) + 1
    ensures h.maxBytes > 0 && old(h.bytesUsed) <= h.maxBytes ==> h.bytesUsed <= h.maxBytes
  {
    ghost var s, g := h.State(), h.Set();
    r := h.Insert(key, value, nodeGranted, bucketsGranted);
    InsertIs(s, h.State(), g, key, value, nodeGranted, bucketsGranted, r);
  }

  lemma InsertIs(s: TableState, t: TableState, g: Settings, key: Bytes, value: Ptr, nodeGranted: bool,
      bucketsGranted: bool, r: int)
    requires r == AnswerOf(s, DoInsert(key, value, nodeGranted, bucketsGranted), g) && s.prime < |g.primes|
    requires r < 0 ==> t == s
    requires r == 0 ==> t == s.(m := s.m[key := value])
    requires r == 1 ==> t.m == s.m[key := value] && t.items == s.items + 1 && t.prime < |g.primes|
    requires r == 1 ==>
      var takes := Takes(s.items + 1, s.bytes + NODE_SIZE + |key|, s.prime, bucketsGranted, g);
      && t.prime == (if takes then s.prime + 1 else s.prime)
      && t.bytes == s.bytes + NODE_SIZE + |key| + BUCKET_SIZE * g.primes[t.prime] - BUCKET_SIZE * g.primes[s.prime]
    ensures t == AfterCall(s, DoInsert(key, value, nodeGranted, bucketsGranted), g)
  {
  }

  /** A table asked for a capacity of 0 gets one bucket; with a load factor of at most a third, it has
      reached the load factor after its first key, although it has grown to three buckets. */
  method OneBucketFails(hashFunc: Bytes -> int, loadFactor: real, key: Bytes, value: Ptr) returns (h: HashArray)
    requires 0.1 <= loadFactor && 3.0 * loadFactor <= 1.0
    ensures h.Valid() && h.contents == map[key := value] && h.buckets.Length == 3 && !h.Light()
  {
    h := new HashArray();
    var result := h.Init(hashFunc, 0, loadFactor, 0, true);
    assert h.prime == 0 && h.primes[0] == 1 && h.primes[1] == 3;
    FirstStep(loadFactor);
    NoRoomInOne(loadFactor);
    var r := h.Insert(key, value, true, true);
  }

  lemma NoRoomInOne(load: real)
    requires load <= 1.0
    ensures !Below(1, load, 1)
  {
    OpenBelow(1, load, 1);
  }

  // The counters of a table with the buckets B.
  ghost predicate Accounted(B: seq<Chain>, items: int, bytes: int)
  {
    && items == |Flat(B)|
    && bytes == BUCKET_SIZE * |B| + ChainBytes(Flat(B))
  }

  lemma {:induction false} FlatEmpty(B: seq<Chain>)
    requires forall i :: 0 <= i < |B| ==> B[i] == []
    ensures Flat(B) == []
  {
    if |B| > 0 {
      FlatEmpty(B[..|B|-1]);
    }
  }

  lemma EmptyBuckets(B: seq<Chain>, h: Bytes -> int)
    requires |B| > 0 && forall i :: 0 <= i < |B| ==> B[i] == []
    ensures Represents(B, h, map[]) && Accounted(B, 0, BUCKET_SIZE * |B|)
  {
    FlatEmpty(B);
    var none: map<Bytes, Ptr> := map[];
    assert Stores(B, h, none);
  }

  // ---------- what a rehash has moved so far ----------

  ghost predicate Added(m: map<Bytes, Ptr>, c: Chain, m': map<Bytes, Ptr>)
  {
    && (forall k :: k in m ==> k in m' && m'[k] == m[k])
    && (forall j :: 0 <= j < |c| ==> c[j].key in m' && m'[c[j].key] == c[j].value)
    && (forall k :: k in m' ==> k in m || HasKey(c, k))
  }

  lemma AddedStep(m: map<Bytes, Ptr>, c: Chain, j: nat, m': map<Bytes, Ptr>)
    requires DistinctKeys(c) && j < |c| && Added(m, c[..j], m') && c[j].key !in m
    ensures c[j].key !in m' && Added(m, c[..j+1], m'[c[j].key := c[j].value])
  {
    var d, m2 := c[..j+1], m'[c[j].key := c[j].value];
    forall k | k in m' ensures k in m || HasKey(d, k) {
      if k !in m {
        var a := Position(c[..j], k);
        assert d[a].key == k;
      }
    }
    assert d[j] == c[j];
    assert HasKey(d, c[j].key);
    assert forall a :: 0 <= a < j ==> d[a] == c[..j][a];
    assert !HasKey(c[..j], c[j].key);
  }

  // m holds the bindings of the first i old buckets.
  ghost predicate MovedTo(B: seq<Chain>, h: Bytes -> int, contents: map<Bytes, Ptr>, m: map<Bytes, Ptr>, i: nat)
  {
    && |B| > 0
    && (forall k :: k in m <==> k in contents && SlotOf(h, |B|, k) < i)
    && (forall k :: k in m ==> m[k] == contents[k])
  }

  lemma MovedDistinct(B: seq<Chain>, h: Bytes -> int, contents: map<Bytes, Ptr>, m: map<Bytes, Ptr>, i: nat)
    requires Represents(B, h, contents) && MovedTo(B, h, contents, m, i) && i < |B|
    ensures DistinctKeys(B[i]) && forall j :: 0 <= j < |B[i]| ==> B[i][j].key !in m
  {
    assert Unfold(B);
  }

  lemma MovedStep(B: seq<Chain>, h: Bytes -> int, contents: map<Bytes, Ptr>, m: map<Bytes, Ptr>, i: nat,
      m': map<Bytes, Ptr>)
    requires Represents(B, h, contents) && MovedTo(B, h, contents, m, i) && i < |B| && Added(m, B[i], m')
    ensures MovedTo(B, h, contents, m', i + 1)
  {
    assert Unfold(B);
    forall k | k in m' ensures k in contents && SlotOf(h, |B|, k) < i + 1 && m'[k] == contents[k] {
      if k !in m {
        var j := Position(B[i], k);
      }
    }
    forall k | k in contents && SlotOf(h, |B|, k) < i + 1 ensures k in m' {
      if SlotOf(h, |B|, k) == i {
        var j := Position(B[i], k);
      }
    }
  }

  lemma MovedAll(B: seq<Chain>, h: Bytes -> int, contents: map<Bytes, Ptr>, m: map<Bytes, Ptr>)
    requires MovedTo(B, h, contents, m, |B|)
    ensures m == contents
  {
  }

  // items < load * capacity; kept folded, because products are slow to reason about.
  ghost predicate Below(items: int, load: real, capacity: int)
  {
    forall u {:trigger Number(u)} :: u == items ==> u as real < load * capacity as real
  }

  ghost predicate Number(n: int) { true }

  lemma OpenBelow(items: int, load: real, capacity: int)
    ensures Below(items, load, capacity) <==> items as real < load * capacity as real
  {
    assert Number(items);
  }

  /** A step in the list of primes makes room for one more item, except that the step from 1 to 3
      does so exactly if the load factor exceeds a third. */
  lemma NextPrimeIsLight(p: seq<nat>, prime: nat, items: int, load: real)
    requires Capacities(p) && prime + 1 < |p| && 0.1 <= load <= 1.0 && items >= 0
    requires Below(items, load, p[prime])
    ensures Below(items + 1, load, p[prime + 1]) <==> prime > 0 || Below(1, load, p[1])
  {
    OpenBelow(items, load, p[prime]);
    if prime > 0 {
      OpenBelow(items + 1, load, p[prime + 1]);
      var gap := p[prime + 1] - p[prime];
      assert load * p[prime + 1] as real == load * p[prime] as real + load * gap as real;
      LoadTimesGap(load, gap);
    } else {
      assert load * p[0] as real == load;
      assert items == 0;
    }
  }

  // The condition for the step from 1 to 3, in numbers.
  lemma FirstStep(load: real)
    ensures Below(1, load, PrimeArray()[1]) <==> 3.0 * load > 1.0
  {
    OpenBelow(1, load, 3);
  }

  lemma LoadTimesGap(load: real, gap: int)
    requires 0.1 <= load && gap >= 10
    ensures load * gap as real >= 1.0
  {
    assert load * gap as real >= 0.1 * gap as real;
  }

  // The test of hash_insert_ex for a rehash.
  lemma LoadTest(items: int, capacity: int, load: real)
    requires capacity >= 1
    ensures items as real / capacity as real >= load <==> !Below(items, load, capacity)
  {
    OpenBelow(items, load, capacity);
    var x, c := items as real, capacity as real;
    assert x == (x / c) * c;
  }

  lemma LessBelow(items: int, more: int, load: real, capacity: int)
    requires items <= more
    ensures Below(more, load, capacity) ==> Below(items, load, capacity)
  {
    OpenBelow(items, load, capacity);
    OpenBelow(more, load, capacity);
  }

  lemma FewerBelow(items: int, load: real, capacity: int)
    ensures Below(items, load, capacity) ==> Below(items - 1, load, capacity)
  {
    OpenBelow(items, load, capacity);
    OpenBelow(items - 1, load, capacity);
  }

  lemma NoneBelow(load: real, capacity: int)
    requires load >= 0.1 && capacity >= 1
    ensures Below(0, load, capacity)
  {
    OpenBelow(0, load, capacity);
    assert load * capacity as real >= 0.1 * capacity as real;
  }
}
