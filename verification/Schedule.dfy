/** The task scheduler: entries in a chain sorted by the time of their next call, re-linked in
    place after every pass. */
module Schedule {
  import opened Options

  const ENOENT: int := 2
  const ENOMEM: int := 12
  const EINVAL: int := 22

  // The type int of the code, for intervals and for the result of a comparison.
  type CInt = x: int | -0x8000_0000 <= x < 0x8000_0000

  const INT_MAX: int := 0x7fff_ffff

  class ScheduleEntry {
    const id: int
    const interval: CInt
    var nextCall: int
    var next: ScheduleEntry?
    // How often its function was called.
    var calls: nat

    constructor (id: int, interval: CInt, nextCall: int)
      ensures this.id == id && this.interval == interval && this.nextCall == nextCall && this.calls == 0
    {
      this.id, this.interval, this.nextCall, this.next, this.calls := id, interval, nextCall, null, 0;
    }
  }

  // ---------- the first call ----------

  /** The first time after now that lies a whole number of intervals after base (base <= now). */
  function FirstCall(now: int, base: int, interval: int): (t: int)
    requires interval > 0 && base <= now
    ensures now < t <= now + interval && (t - base) % interval == 0
  {
    var t := now + interval - (now - base) % interval;
    FirstCallMultiple(now - base, interval);
    t
  }

  lemma FirstCallMultiple(d: int, interval: int)
    requires interval > 0 && d >= 0
    ensures (d + interval - d % interval) % interval == 0
  {
    var q := d / interval;
    assert d == q * interval + d % interval;
    assert d + interval - d % interval == (q + 1) * interval;
    MultipleModZero(q + 1, interval);
  }

  lemma MultipleModZero(q: int, n: int)
    requires n > 0
    ensures (q * n) % n == 0
  {
    var r := (q * n) % n;
    var k := (q * n) / n;
    assert q * n == k * n + r;
    assert (q - k) * n == r;
    SmallMultiple(q - k, n);
  }

  lemma SmallMultiple(a: int, n: int)
    requires n > 0 && -n < a * n < n
    ensures a == 0
  {
    AtLeastOnce(a, n);
    AtLeastOnce(-a, n);
  }

  lemma AtLeastOnce(a: int, n: int)
    requires n > 0
    ensures a >= 1 ==> a * n >= n
    ensures (-a) * n == -(a * n)
  {
  }

  /** It is the only such time within one interval. */
  lemma FirstCallUnique(now: int, base: int, interval: int, t: int)
    requires interval > 0 && base <= now
    requires now < t <= now + interval && (t - base) % interval == 0
    ensures t == FirstCall(now, base, interval)
  {
    var u := FirstCall(now, base, interval);
    var a, b := (t - base) / interval, (u - base) / interval;
    assert t - base == a * interval && u - base == b * interval;
    assert t - u == (a - b) * interval;
    SmallMultiple(a - b, interval);
  }

  // The time t of a first call: without a time base one interval from now; else within one interval
  // after now, and a whole number of intervals after the base. Kept folded.
  ghost predicate IsFirst(t: int, now: int, base: Option<int>, interval: int)
  {
    forall u {:trigger Unfold(u)} :: u == t && interval > 0 ==>
      match base
      case None => u == now + interval
      case Some(b) => now < u <= now + interval && (u - b) % interval == 0
  }

  ghost predicate Unfold(t: int) { true }

  lemma FirstMeans(t: int, now: int, base: Option<int>, interval: int)
    requires IsFirst(t, now, base, interval) && interval > 0
    ensures base.None? ==> t == now + interval
    ensures base.Some? ==> now < t <= now + interval && (t - base.value) % interval == 0
    ensures base.Some? && base.value <= now ==> t == FirstCall(now, base.value, interval)
  {
    assert Unfold(t);
    if base.Some? && base.value <= now {
      FirstCallUnique(now, base.value, interval, t);
    }
  }

  // ---------- lists of entries ----------

  ghost predicate Distinct(c: seq<ScheduleEntry>)
  {
    forall i, j :: 0 <= i < j < |c| ==> c[i] != c[j]
  }

  ghost predicate UniqueIds(c: seq<ScheduleEntry>)
  {
    forall i, j :: 0 <= i < j < |c| ==> c[i].id != c[j].id
  }

  ghost predicate Linked(c: seq<ScheduleEntry>)
    reads c
  {
    forall i {:trigger c[i].next} :: 0 <= i < |c| ==> c[i].next == if i + 1 < |c| then c[i+1] else null
  }

  ghost predicate Ordered(c: seq<ScheduleEntry>)
    reads c`nextCall
  {
    forall i, j {:trigger c[i].nextCall, c[j].nextCall} :: 0 <= i < j < |c| ==> c[i].nextCall <= c[j].nextCall
  }

  // No two times lie further apart than the comparison can tell.
  ghost predicate Near(c: seq<ScheduleEntry>)
    reads c`nextCall
  {
    forall e, f :: e in c && f in c ==> e.nextCall - f.nextCall <= INT_MAX
  }

  // Sorted, as far as the comparison goes.
  ghost predicate InOrder(c: seq<ScheduleEntry>)
    reads c`nextCall
  {
    Near(c) ==> Ordered(c)
  }

  ghost function Members(c: seq<ScheduleEntry>): set<ScheduleEntry>
  {
    set e | e in c
  }

  // c lists the same entries as s.
  ghost predicate SameEntries(c: seq<ScheduleEntry>, s: seq<ScheduleEntry>)
  {
    |c| == |s| && Members(c) == Members(s)
  }

  ghost function InsertAt(c: seq<ScheduleEntry>, k: nat, e: ScheduleEntry): seq<ScheduleEntry>
    requires k <= |c|
  {
    c[..k] + [e] + c[k..]
  }

  lemma SameMember(c: seq<ScheduleEntry>, s: seq<ScheduleEntry>)
    requires SameEntries(c, s)
    ensures forall e :: e in c <==> e in s
    ensures forall i :: 0 <= i < |c| ==> c[i] in s
  {
    forall e | e in c || e in s ensures e in c && e in s {
      assert e in Members(c) && e in Members(s);
    }
    forall i | 0 <= i < |c| ensures c[i] in s {
      assert c[i] in c;
    }
  }

  lemma InsertKeeps(c: seq<ScheduleEntry>, k: nat, e: ScheduleEntry)
    requires k <= |c| && Distinct(c) && e !in c
    ensures Distinct(InsertAt(c, k, e))
    ensures forall x :: x in InsertAt(c, k, e) <==> x in c || x == e
  {
    var d := InsertAt(c, k, e);
    forall i, j | 0 <= i < j < |d| ensures d[i] != d[j] {
      assert i != k ==> d[i] == c[if i < k then i else i - 1];
      assert j != k ==> d[j] == c[if j < k then j else j - 1];
    }
    assert d[k] == e;
    assert forall i :: 0 <= i < |c| ==> c[i] == d[if i < k then i else i + 1];
  }

  lemma InsertEnds(c: seq<ScheduleEntry>, k: nat, e: ScheduleEntry)
    requires k < |c|
    ensures var d := InsertAt(c, k, e);
      |d| == |c| + 1 && d[|d|-1] == c[|c|-1] && d[0] == if k == 0 then e else c[0]
  {
  }

  lemma OrderedInsert(c: seq<ScheduleEntry>, k: nat, e: ScheduleEntry)
    requires Ordered(c) && k <= |c|
    requires forall i :: 0 <= i < k ==> c[i].nextCall <= e.nextCall
    requires forall i :: k <= i < |c| ==> e.nextCall <= c[i].nextCall
    ensures Ordered(InsertAt(c, k, e))
  {
    var d := InsertAt(c, k, e);
    forall i, j | 0 <= i < j < |d| ensures d[i].nextCall <= d[j].nextCall {
      assert i != k ==> d[i] == c[if i < k then i else i - 1];
      assert j != k ==> d[j] == c[if j < k then j else j - 1];
    }
  }

  lemma LinkedInsert(c: seq<ScheduleEntry>, k: nat, e: ScheduleEntry)
    requires k <= |c|
    requires forall i {:trigger c[i].next} :: 0 <= i < |c| ==>
      c[i].next == if i + 1 == k then e else if i + 1 < |c| then c[i+1] else null
    requires e.next == if k < |c| then c[k] else null
    ensures Linked(InsertAt(c, k, e))
  {
    var d := InsertAt(c, k, e);
    assert d[k] == e;
    forall i | 0 <= i < |d| ensures d[i].next == if i + 1 < |d| then d[i+1] else null {
      if i < k {
        assert d[i] == c[i] && (i + 1 < k ==> d[i+1] == c[i+1]);
      } else if i > k {
        assert d[i] == c[i-1] && (i + 1 < |d| ==> d[i+1] == c[i]);
      } else {
        assert i + 1 < |d| ==> d[i+1] == c[i];
      }
    }
  }

  lemma SameInsert(c: seq<ScheduleEntry>, s: seq<ScheduleEntry>, n: nat, k: nat)
    requires n < |s| && k <= |c| && SameEntries(c, s[..n]) && Distinct(c) && Distinct(s)
    ensures SameEntries(InsertAt(c, k, s[n]), s[..n+1]) && Distinct(InsertAt(c, k, s[n]))
  {
    SameMember(c, s[..n]);
    assert s[n] !in s[..n];
    InsertKeeps(c, k, s[n]);
    assert s[..n+1] == s[..n] + [s[n]];
    assert Members(InsertAt(c, k, s[n])) == Members(s[..n+1]);
  }

  // ---------- deletion and merging ----------

  // Where the first entry with an id stands, or the number of entries.
  ghost function IndexOf(s: seq<ScheduleEntry>, id: int): (i: nat)
    ensures i <= |s| && (forall j :: 0 <= j < i ==> s[j].id != id) && (i < |s| ==> s[i].id == id)
  {
    if |s| == 0 || s[0].id == id then 0 else
      assert forall j :: 0 < j < |s| ==> s[j] == s[1..][j-1];
      1 + IndexOf(s[1..], id)
  }

  ghost function Without(s: seq<ScheduleEntry>, id: int): seq<ScheduleEntry>
  {
    var i := IndexOf(s, id);
    if i < |s| then s[..i] + s[i+1..] else s
  }

  // An entry takes the place of the first one with its id, or goes to the end.
  ghost function With(s: seq<ScheduleEntry>, w: ScheduleEntry): seq<ScheduleEntry>
  {
    var i := IndexOf(s, w.id);
    if i < |s| then s[i := w] else s + [w]
  }

  ghost function WithAll(s: seq<ScheduleEntry>, waiting: seq<ScheduleEntry>): seq<ScheduleEntry>
  {
    var n := |waiting| - 1;
    if n < 0 then s else With(WithAll(s, waiting[..n]), waiting[n])
  }

  // The entries once one id is deleted (if it is not negative) and the waiting ones are merged.
  ghost function Updated(s: seq<ScheduleEntry>, delId: int, waiting: seq<ScheduleEntry>): seq<ScheduleEntry>
  {
    WithAll(if delId >= 0 then Without(s, delId) else s, waiting)
  }

  lemma WithoutKeeps(s: seq<ScheduleEntry>, id: int)
    ensures Distinct(s) ==> Distinct(Without(s, id))
    ensures forall e :: e in Without(s, id) ==> e in s
  {
    var i, d := IndexOf(s, id), Without(s, id);
    if i < |s| {
      assert forall j :: 0 <= j < |d| ==> d[j] == s[if j < i then j else j + 1];
    }
  }

  lemma WithKeeps(s: seq<ScheduleEntry>, w: ScheduleEntry)
    requires Distinct(s) && w !in s
    ensures Distinct(With(s, w))
    ensures forall e :: e in With(s, w) ==> e in s || e == w
  {
    var i, d := IndexOf(s, w.id), With(s, w);
    assert forall j :: 0 <= j < |d| ==> d[j] == if j < |s| && j != i then s[j] else w;
  }

  lemma Apart(s: seq<ScheduleEntry>, waiting: seq<ScheduleEntry>)
    requires Distinct(s + waiting)
    ensures Distinct(s) && Distinct(waiting) && forall e :: e in s ==> e !in waiting
  {
    var c := s + waiting;
    forall i, j | 0 <= i < j < |s| ensures s[i] != s[j] {
      assert c[i] == s[i] && c[j] == s[j];
    }
    forall i, j | 0 <= i < j < |waiting| ensures waiting[i] != waiting[j] {
      assert c[|s| + i] == waiting[i] && c[|s| + j] == waiting[j];
    }
    forall e | e in s ensures e !in waiting {
      var i :| 0 <= i < |s| && s[i] == e;
      forall j | 0 <= j < |waiting| ensures waiting[j] != e {
        assert c[i] == e && c[|s| + j] == waiting[j];
      }
    }
  }

  lemma DistinctParts(s: seq<ScheduleEntry>, d: seq<ScheduleEntry>, waiting: seq<ScheduleEntry>)
    requires Distinct(s + waiting) && Distinct(d) && forall e :: e in d ==> e in s
    ensures Distinct(d + waiting)
  {
    Apart(s, waiting);
    var c := d + waiting;
    forall i, j | 0 <= i < j < |c| ensures c[i] != c[j] {
      if i < |d| && j >= |d| {
        assert d[i] in s && waiting[j - |d|] in waiting;
      }
    }
  }

  lemma OnlyOne(c: seq<ScheduleEntry>, e: ScheduleEntry)
    requires SameEntries(c, [e])
    ensures c == [e]
  {
    SameMember(c, [e]);
  }

  // ---------- entries with different ids ----------

  // m lists the entries of c by id.
  ghost predicate ById(c: seq<ScheduleEntry>, m: map<int, ScheduleEntry>)
  {
    && UniqueIds(c)
    && (forall i :: 0 <= i < |c| ==> c[i].id in m && m[c[i].id] == c[i])
    && (forall id :: id in m ==> m[id] in c && m[id].id == id)
  }

  // The entries by id once the waiting ones are merged in, later ones winning.
  ghost function Merged(m: map<int, ScheduleEntry>, waiting: seq<ScheduleEntry>): map<int, ScheduleEntry>
  {
    var n := |waiting| - 1;
    if n < 0 then m else Merged(m, waiting[..n])[waiting[n].id := waiting[n]]
  }

  lemma ByIdSame(c: seq<ScheduleEntry>, s: seq<ScheduleEntry>, m: map<int, ScheduleEntry>)
    requires ById(s, m) && SameEntries(c, s) && Distinct(c)
    ensures ById(c, m)
  {
    SameMember(c, s);
    forall i, j | 0 <= i < j < |c| ensures c[i].id != c[j].id {
      assert m[c[i].id] == c[i] && m[c[j].id] == c[j];
    }
  }

  lemma ByIdWithout(s: seq<ScheduleEntry>, m: map<int, ScheduleEntry>, id: int)
    requires ById(s, m)
    ensures ById(Without(s, id), m - {id})
  {
    var i, d := IndexOf(s, id), Without(s, id);
    assert i == |s| ==> id !in m;
    assert i < |s| ==> forall j :: 0 <= j < |d| ==> d[j] == s[if j < i then j else j + 1];
    forall k | k in m && k != id ensures m[k] in d {
      var j :| 0 <= j < |s| && s[j] == m[k];
      assert i < |s| ==> d[if j < i then j else j - 1] == m[k];
    }
  }

  lemma ByIdWith(s: seq<ScheduleEntry>, m: map<int, ScheduleEntry>, w: ScheduleEntry)
    requires ById(s, m)
    ensures ById(With(s, w), m[w.id := w])
  {
    var i, d, n := IndexOf(s, w.id), With(s, w), m[w.id := w];
    assert d[i] == w;
    assert forall j :: 0 <= j < |d| ==> d[j] == if j < |s| && j != i then s[j] else w;
    forall j | 0 <= j < |s| && j != i ensures s[j].id != w.id {
      assert i < |s| ==> s[i].id != s[j].id;
    }
    forall k | k in n ensures n[k] in d && n[k].id == k {
      if k != w.id {
        var j :| 0 <= j < |s| && s[j] == m[k];
        assert d[j] == m[k];
      }
    }
  }

  lemma {:induction false} ByIdWithAll(s: seq<ScheduleEntry>, m: map<int, ScheduleEntry>, waiting: seq<ScheduleEntry>)
    requires ById(s, m)
    ensures ById(WithAll(s, waiting), Merged(m, waiting))
  {
    var n := |waiting| - 1;
    if n >= 0 {
      ByIdWithAll(s, m, waiting[..n]);
      ByIdWith(WithAll(s, waiting[..n]), Merged(m, waiting[..n]), waiting[n]);
    }
  }

  /** Entries with different ids keep them different, and are updated like a finite map. */
  lemma UpdatedById(s: seq<ScheduleEntry>, m: map<int, ScheduleEntry>, delId: int, waiting: seq<ScheduleEntry>)
    requires ById(s, m)
    ensures ById(Updated(s, delId, waiting), Merged(if delId >= 0 then m - {delId} else m, waiting))
  {
    if delId >= 0 {
      ByIdWithout(s, m, delId);
      ByIdWithAll(Without(s, delId), m - {delId}, waiting);
    } else {
      ByIdWithAll(s, m, waiting);
    }
  }

  lemma ResortedById(s: seq<ScheduleEntry>, c: seq<ScheduleEntry>, m: map<int, ScheduleEntry>, delId: int,
      waiting: seq<ScheduleEntry>)
    requires Distinct(c) && SameEntries(c, Updated(s, delId, waiting))
    ensures ById(s, m) ==> ById(c, Merged(if delId >= 0 then m - {delId} else m, waiting))
  {
    if ById(s, m) {
      UpdatedById(s, m, delId, waiting);
      ByIdSame(c, Updated(s, delId, waiting), Merged(if delId >= 0 then m - {delId} else m, waiting));
    }
  }

  // ---------- parts of the chain ----------

  ghost predicate Positive(c: seq<ScheduleEntry>)
  {
    forall i :: 0 <= i < |c| ==> c[i].interval > 0
  }

  // Entry i and all before it have a positive interval.
  ghost predicate PositiveTo(c: seq<ScheduleEntry>, i: nat)
  {
    i < |c| && forall j :: 0 <= j <= i ==> c[j].interval > 0
  }

  lemma SuffixOrdered(c: seq<ScheduleEntry>, k: nat)
    requires k <= |c|
    requires forall i, j {:trigger c[i].nextCall, c[j].nextCall} :: k <= i < j < |c| ==> c[i].nextCall <= c[j].nextCall
    ensures Ordered(c[k..]) && (k == 0 ==> Ordered(c))
  {
    var d := c[k..];
    forall i, j | 0 <= i < j < |d| ensures d[i].nextCall <= d[j].nextCall {
      assert d[i] == c[k+i] && d[j] == c[k+j];
    }
  }

  lemma SuffixChain(c: seq<ScheduleEntry>, k: nat)
    requires k <= |c| && Linked(c) && Distinct(c)
    ensures Linked(c[k..]) && Distinct(c[k..])
  {
    var d := c[k..];
    forall i | 0 <= i < |d| ensures d[i].next == if i + 1 < |d| then d[i+1] else null {
      assert d[i] == c[k+i];
    }
  }

  lemma SameTrans(c: seq<ScheduleEntry>, d: seq<ScheduleEntry>, s: seq<ScheduleEntry>)
    requires SameEntries(c, d) && SameEntries(d, s)
    ensures SameEntries(c, s)
  {
  }

  // The entries of c from i to count are linked to their successors.
  ghost predicate StillLinked(c: seq<ScheduleEntry>, i: nat, count: nat)
    reads c
  {
    count < |c| && forall k {:trigger c[k].next} :: i <= k < count ==> c[k].next == c[k+1]
  }

  // All entries of c but those from i to count are in d, and nothing else.
  ghost predicate Parts(c: seq<ScheduleEntry>, d: seq<ScheduleEntry>, i: nat, count: nat)
  {
    && i <= count <= |c| && |d| == |c| - count + i
    && (forall k :: i <= k < count ==> c[k] !in d)
    && (forall k :: 0 <= k < |c| && !(i <= k < count) ==> c[k] in d)
    && (forall k :: 0 <= k < |d| ==> d[k] in c)
  }

  lemma PartsStart(c: seq<ScheduleEntry>, count: nat)
    requires Distinct(c) && count <= |c|
    ensures Parts(c, c[count..], 0, count)
  {
    var d := c[count..];
    forall k | count <= k < |c| ensures c[k] in d {
      assert d[k - count] == c[k];
    }
  }

  lemma PartsEnd(c: seq<ScheduleEntry>, d: seq<ScheduleEntry>, count: nat)
    requires Parts(c, d, count, count)
    ensures SameEntries(d, c)
  {
  }

  lemma PartsStep(c: seq<ScheduleEntry>, d: seq<ScheduleEntry>, i: nat, count: nat, k: nat)
    requires Distinct(c) && Distinct(d) && Parts(c, d, i, count) && i < count && k <= |d|
    ensures Parts(c, InsertAt(d, k, c[i]), i + 1, count)
  {
    InsertKeeps(d, k, c[i]);
  }

  // The difference of two times as the code returns it: cut off to the type int.
  function Truncated(d: int): (r: CInt)
    ensures (r - d) % 0x1_0000_0000 == 0
  {
    (d + 0x8000_0000) % 0x1_0000_0000 - 0x8000_0000
  }

  function Compare(a: int, b: int): CInt
  {
    Truncated(a - b)
  }

  /** Times less than 2^31 seconds apart are compared right; for the next 2^31 seconds the answer is wrong. */
  lemma CompareRight(a: int, b: int)
    requires -0x1_0000_0000 < a - b < 0x1_0000_0000
    ensures (Compare(a, b) <= 0 <==> a <= b) <==> -0x8000_0000 <= a - b <= INT_MAX
    ensures -0x8000_0000 <= a - b <= INT_MAX ==> Compare(a, b) == a - b
  {
  }

  lemma ComparedRight(r: seq<ScheduleEntry>, s: seq<ScheduleEntry>, n: nat)
    requires n < |s| && SameEntries(r, s[..n])
    ensures Near(s) ==> forall i :: 0 <= i < |r| ==>
      (Compare(r[i].nextCall, s[n].nextCall) <= 0 <==> r[i].nextCall <= s[n].nextCall)
  {
    SameMember(r, s[..n]);
    if Near(s) {
      forall i | 0 <= i < |r|
        ensures Compare(r[i].nextCall, s[n].nextCall) <= 0 <==> r[i].nextCall <= s[n].nextCall
      {
        assert r[i] in s[..n] && r[i] in s && s[n] in s;
      }
    }
  }

  lemma NearSame(c: seq<ScheduleEntry>, s: seq<ScheduleEntry>)
    requires SameEntries(c, s) && Near(c)
    ensures Near(s)
  {
    SameMember(c, s);
  }

  lemma StartedNear(list: seq<ScheduleEntry>, now: int)
    requires forall i :: 0 <= i < |list| ==> now < list[i].nextCall <= now + INT_MAX
    ensures Near(list) && forall e :: e in list ==> e.nextCall <= now + INT_MAX
  {
  }

  // qsort by the time of the next call.
  method Sort(s: seq<ScheduleEntry>) returns (r: seq<ScheduleEntry>)
    requires Distinct(s)
    ensures Distinct(r) && SameEntries(r, s)
    ensures InOrder(r)
  {
    r := [];
    var n := 0;
    while n < |s|
      invariant 0 <= n <= |s|
      invariant Distinct(r) && SameEntries(r, s[..n]) && (Near(s) ==> Ordered(r))
    {
      var k := 0;
      ComparedRight(r, s, n);
      while k < |r| && Compare(r[k].nextCall, s[n].nextCall) <= 0
        invariant 0 <= k <= |r| && (Near(s) ==> forall i :: 0 <= i < k ==> r[i].nextCall <= s[n].nextCall)
      {
        k := k + 1;
      }
      SameInsert(r, s, n, k);
      if Near(s) {
        OrderedInsert(r, k, s[n]);
      }
      r := r[..k] + [s[n]] + r[k..];
      n := n + 1;
    }
    assert s[..n] == s;
    if Near(r) {
      NearSame(r, s);
    }
  }

  class ScheduleContext {
    var entries: seq<ScheduleEntry>
    var head: ScheduleEntry?
    var tail: ScheduleEntry?
    // The entries in the order of the chain.
    ghost var chain: seq<ScheduleEntry>

    // Head, links and tail make the chain, which is acyclic, and, if sorted, in order of the next calls.
    ghost predicate Chained(sorted: bool)
      reads this, chain
    {
      && Distinct(chain) && Linked(chain) && (sorted ==> Ordered(chain))
      && (|chain| == 0 ==> head == null && tail == null)
      && (|chain| > 0 ==> head == chain[0] && tail == chain[|chain|-1])
    }

    // The chain holds the entries ...
    ghost predicate Complete()
      reads this, chain
    {
      Chained(false) && SameEntries(chain, entries) && Distinct(entries)
    }

    // ... in order.
    ghost predicate Valid()
      reads this, chain
    {
      Complete() && Ordered(chain)
    }

    constructor ()
      ensures Valid() && entries == []
    {
      entries, head, tail, chain := [], null, null, [];
    }

    // Sorts the entries and links them in their new order; the order is right if the comparisons are.
    method MakeChain()
      requires Distinct(entries)
      modifies this`entries, this`head, this`tail, this`chain, entries`next
      ensures Complete() && (Near(entries) ==> Valid())
      ensures SameEntries(entries, old(entries)) && chain == entries
    {
      if |entries| == 0 {
        head, tail, chain := null, null, [];
        return;
      }
      var sorted := Sort(entries);
      SameMember(sorted, entries);
      Install(sorted);
    }

    method Install(sorted: seq<ScheduleEntry>)
      requires |sorted| > 0 && Distinct(sorted) && InOrder(sorted)
      modifies this`entries, this`head, this`tail, this`chain, sorted`next
      ensures Chained(false) && chain == entries == sorted && InOrder(sorted)
    {
      head, tail := sorted[0], sorted[|sorted|-1];
      LinkAll(sorted);
      entries, chain := sorted, sorted;
    }

    method LinkAll(sorted: seq<ScheduleEntry>)
      requires |sorted| > 0 && Distinct(sorted) && InOrder(sorted)
      modifies sorted`next
      ensures Linked(sorted) && InOrder(sorted)
    {
      var i := 0;
      while i < |sorted| - 1
        invariant 0 <= i < |sorted|
        invariant forall k :: 0 <= k < i ==> sorted[k].next == sorted[k+1]
      {
        sorted[i].next := sorted[i+1];
        i := i + 1;
      }
      sorted[i].next := null;
    }

    // The first entry of the chain that is not called before the given time, and the one
    // before it.
    method FindPlace(time: int, ghost c: seq<ScheduleEntry>)
      returns (previous: ScheduleEntry?, until: ScheduleEntry?, ghost k: nat)
      requires Linked(c) && |c| > 0 && head == c[0] && time < c[|c|-1].nextCall
      ensures k < |c| && until == c[k] && previous == if k == 0 then null else c[k-1]
      ensures (forall i :: 0 <= i < k ==> c[i].nextCall < time) && c[k].nextCall >= time
    {
      previous, until := null, head;
      k := 0;
      while until != null && time > until.nextCall
        invariant 0 <= k < |c| && until == c[k]
        invariant previous == if k == 0 then null else c[k-1]
        invariant forall i :: 0 <= i < k ==> c[i].nextCall < time
        decreases |c| - k
      {
        previous := until;
        until := until.next;
        k := k + 1;
      }
    }

    method Append(node: ScheduleEntry, ghost sorted: bool)
      requires Chained(sorted) && |chain| > 0 && node !in chain && node.nextCall >= tail.nextCall
      modifies this`tail, this`chain, node`next, chain`next
      ensures Chained(sorted) && chain == InsertAt(old(chain), |old(chain)|, node)
    {
      ghost var c := chain;
      tail.next := node;
      tail := node;
      tail.next := null;
      chain := InsertAt(c, |c|, node);
      InsertKeeps(c, |c|, node);
      LinkedInsert(c, |c|, node);
      if sorted {
        OrderedInsert(c, |c|, node);
      }
    }

    // The links to and from an entry that goes to place k of the chain c.
    method LinkBetween(previous: ScheduleEntry?, node: ScheduleEntry, until: ScheduleEntry, ghost c: seq<ScheduleEntry>,
                       ghost k: nat)
      requires Distinct(c) && Linked(c) && k < |c| && node !in c
      requires previous == if k == 0 then null else c[k-1]
      modifies this`head, c`next, node`next
      ensures head == (if k == 0 then node else old(head)) && node.next == until
      ensures forall i {:trigger c[i].next} :: 0 <= i < |c| ==>
        c[i].next == if i + 1 == k then node else if i + 1 < |c| then c[i+1] else null
    {
      if previous == null {
        head := node;
      } else {
        previous.next := node;
      }
      node.next := until;
    }

    method HangBefore(node: ScheduleEntry, previous: ScheduleEntry?, until: ScheduleEntry, ghost k: nat,
                      ghost sorted: bool)
      requires Chained(sorted) && node !in chain && k < |chain| && until == chain[k]
      requires previous == if k == 0 then null else chain[k-1]
      requires forall i :: 0 <= i < k ==> chain[i].nextCall < node.nextCall
      requires node.nextCall <= until.nextCall
      modifies this`head, this`chain, node`next, chain`next
      ensures Chained(sorted) && chain == InsertAt(old(chain), k, node)
    {
      ghost var c, d := chain, InsertAt(chain, k, node);
      LinkBetween(previous, node, until, c, k);
      chain := d;
      assert Distinct(d) by { InsertKeeps(c, k, node); }
      assert Linked(d) by { LinkedInsert(c, k, node); }
      if sorted {
        OrderedInsert(c, k, node);
      }
      InsertEnds(c, k, node);
    }

    // Hangs an executed entry back into the chain, behind the entries called earlier (and, at
    // the tail, behind those called at the same time).
    method Relink(node: ScheduleEntry, ghost sorted: bool) returns (ghost k: nat)
      requires Chained(sorted) && |chain| > 0 && node !in chain
      modifies this`head, this`tail, this`chain, node`next, chain`next
      ensures Chained(sorted) && k <= |old(chain)| && chain == InsertAt(old(chain), k, node)
      ensures k == |old(chain)| <==> node.nextCall >= old(tail.nextCall)
      ensures k < |old(chain)| ==>
        node.nextCall <= old(chain)[k].nextCall && forall i :: 0 <= i < k ==> old(chain)[i].nextCall < node.nextCall
    {
      if node.nextCall >= tail.nextCall {
        k := |chain|;
        Append(node, sorted);
      } else {
        var previous, until;
        previous, until, k := FindPlace(node.nextCall, chain);
        HangBefore(node, previous, until, k, sorted);
      }
    }

    // ---------- one pass ----------

    // Calls the entries that are due, in chain order, while the continue flag is set: it is
    // for the given number of tests.
    method RunDue(now: int, tests: nat, ghost sorted: bool) returns (current: ScheduleEntry?, count: nat)
      requires Chained(sorted)
      modifies chain`nextCall, chain`calls
      ensures count <= |chain| && count <= tests
      ensures current == if count < |chain| then chain[count] else null
      ensures count < |chain| && count < tests ==> chain[count].nextCall > now
      ensures Distinct(chain) && Linked(chain)
      ensures sorted ==> Ordered(chain[count..]) && (count == 0 ==> Ordered(chain))
      ensures forall i :: 0 <= i < count ==>
        Called(chain[i].interval, chain[i].nextCall, chain[i].calls, old(chain[i].nextCall), old(chain[i].calls), now)
      ensures forall i :: count <= i < |chain| ==>
        && chain[i].nextCall == old(chain[i].nextCall) && chain[i].calls == old(chain[i].calls)
        && (sorted && count < tests ==> chain[i].nextCall > now)
    {
      count := 0;
      current := head;
      while count < tests && current != null && current.nextCall <= now
        invariant 0 <= count <= |chain| && count <= tests
        invariant current == if count < |chain| then chain[count] else null
        invariant forall i :: 0 <= i < count ==>
          Called(chain[i].interval, chain[i].nextCall, chain[i].calls, old(chain[i].nextCall), old(chain[i].calls), now)
        invariant forall i :: count <= i < |chain| ==>
          chain[i].nextCall == old(chain[i].nextCall) && chain[i].calls == old(chain[i].calls)
        decreases |chain| - count
      {
        Call(current, now);
        current := current.next;
        count := count + 1;
      }
      if sorted {
        SuffixOrdered(chain, count);
      }
    }

    // Calls the function of an entry and sets the time of the next call.
    method Call(e: ScheduleEntry, now: int)
      requires e.nextCall <= now
      modifies e`nextCall, e`calls
      ensures Called(e.interval, e.nextCall, e.calls, old(e.nextCall), old(e.calls), now)
    {
      e.calls := e.calls + 1;
      e.nextCall := now + e.interval;
    }

    // Re-links the first count entries of the chain, whose times have moved on; the rest of
    // the chain starts at current.
    method RelinkExecuted(current: ScheduleEntry?, count: nat, ghost sorted: bool)
      requires Distinct(chain) && Linked(chain) && 0 < count < |chain| && current == chain[count]
      requires head == chain[0] && tail == chain[|chain|-1] && (sorted ==> Ordered(chain[count..]))
      modifies this`head, this`tail, this`chain, chain`next
      ensures Chained(sorted) && SameEntries(chain, old(chain))
    {
      ghost var c := chain;
      var node := head;
      head := current;
      chain := c[count..];
      SuffixChain(c, count);
      PartsStart(c, count);
      var i := 0;
      while i < count
        invariant 0 <= i <= count && Chained(sorted)
        invariant i < count ==> node == c[i]
        invariant StillLinked(c, i, count)
        invariant Parts(c, chain, i, count)
      {
        node := RelinkNext(node, c, i, count, sorted);
        i := i + 1;
      }
      PartsEnd(c, chain, count);
    }

    // One entry goes back into the chain; the next one was its successor.
    method RelinkNext(node: ScheduleEntry, ghost c: seq<ScheduleEntry>, ghost i: nat, ghost count: nat,
                      ghost sorted: bool)
      returns (next: ScheduleEntry?)
      requires Chained(sorted) && Distinct(c) && i < count < |c| && node == c[i]
      requires StillLinked(c, i, count) && Parts(c, chain, i, count)
      modifies this`head, this`tail, this`chain, node`next, chain`next
      ensures Chained(sorted) && next == c[i+1] && StillLinked(c, i + 1, count) && Parts(c, chain, i + 1, count)
      ensures forall e :: e in chain ==> e in old(chain) || e == node
    {
      next := node.next;
      ghost var before := chain;
      ghost var k := Relink(node, sorted);
      InsertKeeps(before, k, node);
      PartsStep(c, before, i, count, k);
    }

    /** One pass of the thread at a fixed time, with the continue flag set for the given number of
        tests. */
    method Pass(now: int, tests: nat)
      requires Complete()
      modifies this`entries, this`head, this`tail, this`chain, entries
      ensures Complete() && SameEntries(entries, old(entries))
      ensures old(Valid()) && Near(entries) ==> Valid()
      ensures old(Valid() && InReach(now)) && tests > |old(entries)| ==> Valid() && InReach(now)
      ensures forall e :: e in old(entries) ==>
        Outcome(e.interval, e.nextCall, e.calls, old(e.nextCall), old(e.calls), now,
                old(Valid()) && tests > |old(entries)|)
      // after a complete pass the thread sleeps exactly if no entry that was due has a bad interval
      ensures old(Valid()) && tests > |old(entries)| > 0 && Valid() ==>
        head != null && (head.nextCall > now <==>
          forall e :: e in old(entries) ==> e.interval > 0 || old(e.nextCall) > now)
    {
      SameMember(chain, entries);
      ghost var sorted := Valid();
      var current, count := RunEntries(now, tests, sorted);
      Rechain(current, count, now, sorted);
      SameMember(entries, old(entries));
    }

    // A complete pass brings all calls into the time after now that an interval can reach.
    twostate lemma StillInReach(now: int)
      requires entries == old(entries) && old(InReach(now))
      requires forall e :: e in entries ==>
        Outcome(e.interval, e.nextCall, e.calls, old(e.nextCall), old(e.calls), now, true)
      ensures Near(entries) && InReach(now)
    {
      forall e | e in entries ensures now < e.nextCall <= now + INT_MAX && e.interval > 0 {
        assert Outcome(e.interval, e.nextCall, e.calls, old(e.nextCall), old(e.calls), now, true);
      }
    }

    // All intervals are positive, and no call lies further ahead than an interval can reach.
    ghost predicate InReach(now: int)
      reads this`entries, entries`nextCall
    {
      forall e :: e in entries ==> e.interval > 0 && e.nextCall <= now + INT_MAX
    }

    lemma HeadIsFirst(now: int)
      requires Chained(true)
      ensures |chain| > 0 ==> head != null && (head.nextCall > now <==> forall e :: e in chain ==> e.nextCall > now)
    {
      assert |chain| > 0 ==> chain[0] in chain;
      forall e | e in chain ensures head.nextCall <= e.nextCall {
        var i :| 0 <= i < |chain| && chain[i] == e;
        assert chain[0].nextCall <= chain[i].nextCall;
      }
    }

    // RunDue, seen from the entries.
    method RunEntries(now: int, tests: nat, ghost sorted: bool) returns (current: ScheduleEntry?, count: nat)
      requires Chained(sorted) && SameEntries(chain, entries)
      modifies chain`nextCall, chain`calls
      ensures count <= |chain| && current == if count < |chain| then chain[count] else null
      ensures Distinct(chain) && Linked(chain)
      ensures sorted ==> Ordered(chain[count..]) && (count == 0 ==> Ordered(chain))
      ensures forall e :: e in entries ==>
        Outcome(e.interval, e.nextCall, e.calls, old(e.nextCall), old(e.calls), now,
          sorted && tests > |entries|)
      ensures sorted && tests > |entries| && old(InReach(now)) ==> Near(entries) && InReach(now)
    {
      SameMember(chain, entries);
      current, count := RunDue(now, tests, sorted);
      forall e | e in entries
        ensures Outcome(e.interval, e.nextCall, e.calls, old(e.nextCall), old(e.calls), now,
          sorted && tests > |entries|)
      {
        var i :| 0 <= i < |chain| && chain[i] == e;
      }
      if sorted && tests > |entries| && old(InReach(now)) {
        StillInReach(now);
      }
    }

    // The part of a pass that follows the calls.
    method Rechain(current: ScheduleEntry?, count: nat, ghost now: int, ghost sorted: bool)
      requires Distinct(chain) && Linked(chain) && count <= |chain| && (sorted ==> Ordered(chain[count..]))
      requires (sorted && count == 0 ==> Ordered(chain)) && current == if count < |chain| then chain[count] else null
      requires |chain| == 0 ==> head == null && tail == null
      requires |chain| > 0 ==> head == chain[0] && tail == chain[|chain|-1]
      requires SameEntries(chain, entries) && Distinct(entries)
      modifies this`entries, this`head, this`tail, this`chain, entries`next
      ensures Complete() && (sorted && Near(entries) ==> Valid())
      ensures SameEntries(entries, old(entries)) && (old(Near(entries)) ==> Near(entries))
      ensures old(InReach(now)) ==> InReach(now)
      ensures Valid() && |entries| > 0 ==>
        head != null && (head.nextCall > now <==> forall e :: e in entries ==> e.nextCall > now)
    {
      ghost var list := entries;
      ChainAnew(current, count, sorted);
      SameMember(entries, list);
      SameMember(chain, entries);
      if Near(list) {
        NearSame(list, entries);
      }
      if Valid() {
        HeadIsFirst(now);
      }
    }

    method ChainAnew(current: ScheduleEntry?, count: nat, ghost sorted: bool)
      requires Distinct(chain) && Linked(chain) && count <= |chain| && (sorted ==> Ordered(chain[count..]))
      requires (sorted && count == 0 ==> Ordered(chain)) && current == if count < |chain| then chain[count] else null
      requires |chain| == 0 ==> head == null && tail == null
      requires |chain| > 0 ==> head == chain[0] && tail == chain[|chain|-1]
      requires SameEntries(chain, entries) && Distinct(entries)
      modifies this`entries, this`head, this`tail, this`chain, entries`next
      ensures Complete() && (sorted && Near(entries) ==> Valid())
      ensures SameEntries(entries, old(entries))
    {
      if count == 0 || |entries| == 1 {
        return;
      }
      if count > |entries| / 2 {
        MakeChain();
      } else {
        ghost var c := chain;
        SameMember(chain, entries);
        RelinkExecuted(current, count, sorted);
        SameTrans(chain, c, entries);
      }
    }

    // The chain of entries whose calls are near.
    method ChainAll(ghost now: int)
      requires Distinct(entries) && Near(entries) && InReach(now)
      modifies this`entries, this`head, this`tail, this`chain, entries`next
      ensures Valid() && InReach(now) && SameEntries(entries, old(entries))
    {
      ghost var list := entries;
      MakeChain();
      NearSame(list, entries);
      SameMember(entries, list);
    }

    // ---------- deletions and additions ----------

    // Index of the first entry with the given id, or the number of entries.
    method Find(list: seq<ScheduleEntry>, id: int) returns (i: nat)
      ensures i == IndexOf(list, id)
    {
      i := 0;
      while i < |list| && list[i].id != id
        invariant i <= |list| && forall j :: 0 <= j < i ==> list[j].id != id
      {
        i := i + 1;
      }
    }

    method DeleteById(id: int) returns (deleted: bool)
      requires Distinct(entries)
      modifies this`entries
      ensures Distinct(entries) && forall e :: e in entries ==> e in old(entries)
      ensures entries == Updated(old(entries), id, [])
      ensures deleted <==> id >= 0 && IndexOf(old(entries), id) < |old(entries)|
      ensures !deleted ==> entries == old(entries)
    {
      deleted := false;
      if id >= 0 {
        var i := Find(entries, id);
        WithoutKeeps(entries, id);
        if i < |entries| {
          entries := entries[..i] + entries[i+1..];
          deleted := true;
        }
      }
    }

    method MergeWaiting(waiting: seq<ScheduleEntry>)
      requires Distinct(entries + waiting)
      modifies this`entries
      ensures Distinct(entries) && entries == WithAll(old(entries), waiting)
      ensures forall e :: e in entries ==> e in old(entries) || e in waiting
    {
      ghost var s := entries;
      Apart(s, waiting);
      var n := 0;
      while n < |waiting|
        invariant 0 <= n <= |waiting|
        invariant Distinct(entries) && entries == WithAll(s, waiting[..n])
        invariant forall e :: e in entries ==> e in s || e in waiting[..n]
      {
        var w := waiting[n];
        var i := Find(entries, w.id);
        assert w !in entries;
        WithKeeps(entries, w);
        assert waiting[..n+1][..n] == waiting[..n];
        if i < |entries| {
          entries := entries[i := w];
        } else {
          entries := entries + [w];
        }
        n := n + 1;
      }
      assert waiting[..n] == waiting;
    }

    method MergeAndSort(waiting: seq<ScheduleEntry>)
      requires Distinct(entries + waiting)
      modifies this, entries`next, waiting`next
      ensures Complete() && (Near(entries) ==> Valid()) && SameEntries(entries, WithAll(old(entries), waiting))
    {
      ghost var s := entries;
      MergeWaiting(waiting);
      assert forall i :: 0 <= i < |entries| ==> entries[i] in s || entries[i] in waiting;
      MakeChain();
    }

    /** Deletes the first entry with one id and merges in the waiting ones, by id. Without memory for
        the merge only the deletion takes place. The waiting array has storage of its own. */
    method CheckWaiting(delId: int, waiting: seq<ScheduleEntry>, granted: bool, ghost m: map<int, ScheduleEntry>)
      returns (result: int)
      requires Complete() && Distinct(entries + waiting)
      modifies this, entries`next, waiting`next
      ensures Complete() && ((old(Valid()) || result == 0) && Near(entries) ==> Valid())
      ensures result == ENOENT <==> |waiting| == 0 && !(delId >= 0 && IndexOf(old(entries), delId) < |old(entries)|)
      ensures result == ENOMEM <==> |waiting| > 0 && !granted
      ensures result == 0 || result == ENOENT || result == ENOMEM
      ensures SameEntries(entries, Updated(old(entries), delId, if result == ENOMEM then [] else waiting))
      // entries with different ids are a finite map, and stay one
      ensures ById(old(entries), m) ==>
        ById(entries, Merged(if delId >= 0 then m - {delId} else m, if result == ENOMEM then [] else waiting))
    {
      ghost var s := entries;
      Apart(s, waiting);
      var deleted := DeleteById(delId);
      if |waiting| > 0 && granted {
        DistinctParts(s, entries, waiting);
        MergeAndSort(waiting);
        result := 0;
      } else {
        if deleted {
          assert forall e :: e in entries ==> e in s;
          MakeChain();
        }
        result := if |waiting| > 0 then ENOMEM else if deleted then 0 else ENOENT;
      }
      ResortedById(s, entries, m, delId, if result == ENOMEM then [] else waiting);
    }

    // ---------- the start of the thread ----------

    /** Sets the time of every entry's first call and makes the chain. */
    method Start(now: int, bases: seq<Option<int>>) returns (result: int)
      requires Distinct(entries) && |bases| == |entries|
      requires forall i :: 0 <= i < |bases| ==> bases[i].Some? ==> bases[i].value <= now
      modifies this`entries, this`head, this`tail, this`chain, entries
      ensures result == 0 <==> Positive(old(entries))
      ensures result == 0 || result == EINVAL
      ensures result == 0 ==> Valid() && InReach(now) && SameEntries(entries, old(entries))
      ensures result == 0 ==> forall i :: 0 <= i < |bases| ==>
        IsFirst(old(entries)[i].nextCall, now, bases[i], old(entries)[i].interval)
    {
      result := InitEntries(entries, now, bases);
      if result == 0 {
        StartedNear(entries, now);
        ChainAll(now);
      }
    }
  }

  // sched_init_entries: stops at the first entry whose interval is not positive. bases holds the
  // time base of each entry, computed from its hour and minute, not after now; None is TIME_NONE.
  method InitEntries(list: seq<ScheduleEntry>, now: int, bases: seq<Option<int>>) returns (result: int)
    requires Distinct(list) && |bases| == |list|
    requires forall i :: 0 <= i < |bases| ==> bases[i].Some? ==> bases[i].value <= now
    modifies list`nextCall
    ensures result == 0 <==> Positive(list)
    ensures result == 0 || result == EINVAL
    ensures forall i :: 0 <= i < |list| ==>
      if PositiveTo(list, i) then IsFirst(list[i].nextCall, now, bases[i], list[i].interval)
      else list[i].nextCall == old(list[i].nextCall)
    ensures result == 0 ==> forall i :: 0 <= i < |list| ==> now < list[i].nextCall <= now + INT_MAX
  {
    var i := 0;
    while i < |list|
      invariant 0 <= i <= |list|
      invariant forall j :: 0 <= j < i ==> now < list[j].nextCall <= now + INT_MAX
      invariant forall j :: 0 <= j < i ==> list[j].interval > 0
      invariant forall j :: 0 <= j < i ==> IsFirst(list[j].nextCall, now, bases[j], list[j].interval)
      invariant forall j :: i <= j < |list| ==> list[j].nextCall == old(list[j].nextCall)
    {
      var e := list[i];
      if e.interval <= 0 {
        return EINVAL;
      }
      e.nextCall := First(now, bases[i], e.interval);
      i := i + 1;
    }
    return 0;
  }

  /** sched_add_entries, when no other entries are waiting: the entries are copied to the waiting
      array, where they stay, even if their intervals are refused. */
  method AddEntries(src: seq<ScheduleEntry>, now: int, bases: seq<Option<int>>, granted: bool)
    returns (result: int, waiting: seq<ScheduleEntry>)
    requires |bases| == |src|
    requires forall i :: 0 <= i < |bases| ==> bases[i].Some? ==> bases[i].value <= now
    ensures result ==
      if |src| == 0 then ENOENT else if !granted then ENOMEM else if Positive(src) then 0 else EINVAL
    ensures Distinct(waiting) && forall i :: 0 <= i < |waiting| ==> fresh(waiting[i])
    ensures |waiting| == if granted then |src| else 0
    ensures forall i :: 0 <= i < |waiting| ==>
      && waiting[i].id == src[i].id && waiting[i].interval == src[i].interval && waiting[i].calls == 0
      && if PositiveTo(src, i) then IsFirst(waiting[i].nextCall, now, bases[i], src[i].interval)
         else waiting[i].nextCall == src[i].nextCall
  {
    waiting := [];
    if |src| == 0 {
      return ENOENT, [];
    }
    if !granted {
      return ENOMEM, [];
    }
    waiting := DupArray(src);
    result := InitEntries(waiting, now, bases);
    SameIntervals(waiting, src);
  }

  lemma SameIntervals(c: seq<ScheduleEntry>, s: seq<ScheduleEntry>)
    requires |c| == |s| && forall i :: 0 <= i < |c| ==> c[i].interval == s[i].interval
    ensures (Positive(c) <==> Positive(s)) && forall i: nat :: PositiveTo(c, i) <==> PositiveTo(s, i)
  {
  }

  method DupArray(src: seq<ScheduleEntry>) returns (dest: seq<ScheduleEntry>)
    ensures |dest| == |src| && Distinct(dest) && forall i :: 0 <= i < |dest| ==> fresh(dest[i])
    ensures forall i :: 0 <= i < |src| ==>
      && dest[i].id == src[i].id && dest[i].interval == src[i].interval
      && dest[i].nextCall == src[i].nextCall && dest[i].calls == 0
  {
    dest := [];
    var i := 0;
    while i < |src|
      invariant 0 <= i == |dest| <= |src| && Distinct(dest) && forall j :: 0 <= j < i ==> fresh(dest[j])
      invariant forall j :: 0 <= j < i ==>
        && dest[j].id == src[j].id && dest[j].interval == src[j].interval
        && dest[j].nextCall == src[j].nextCall && dest[j].calls == 0
    {
      var e := new ScheduleEntry(src[i].id, src[i].interval, src[i].nextCall);
      dest := dest + [e];
      i := i + 1;
    }
  }

  /** An entry that sched_add_entries refuses with EINVAL is merged all the same. With its interval it
      is due again after every pass: each calls it once more, and the thread never gets to sleep. */
  method RefusedButCalled(id: int, interval: CInt, start: int, now: int, passes: nat)
    returns (result: int, c: ScheduleContext, e: ScheduleEntry)
    requires interval <= 0 && start <= now
    ensures result == EINVAL && c.Valid() && c.entries == [e] && e.interval == interval
    ensures e.calls == passes && e.nextCall <= now
  {
    c := new ScheduleContext();
    var src := new ScheduleEntry(id, interval, start);
    var waiting;
    result, waiting := AddEntries([src], now, [None], true);
    e := waiting[0];
    assert !Positive([src]) by { assert [src][0].interval <= 0; }
    var r := c.CheckWaiting(-1, waiting, true, map[]);
    OnlyWaiting(e);
    assert waiting == [e];
    OnlyOne(c.entries, e);
    StaysDue(c, e, now, passes);
  }

  ghost predicate NeverBack(times: seq<int>, start: int)
  {
    (forall i :: 0 <= i < |times| ==> start <= times[i]) && forall i, j :: 0 <= i < j < |times| ==> times[i] <= times[j]
  }

  // An entry over complete passes at the given times: when it is to be called next, and how often it was.
  datatype Beat = Beat(next: int, calls: nat)

  ghost function BeatAfter(b: Beat, interval: int, times: seq<int>): Beat
  {
    var n := |times| - 1;
    if n < 0 then b else
      var d := BeatAfter(b, interval, times[..n]);
      if d.next <= times[n] then Beat(times[n] + interval, d.calls + 1) else d
  }

  // Pass number i calls the entry.
  ghost predicate CalledIn(b: Beat, interval: int, times: seq<int>, i: nat)
    requires i < |times|
  {
    BeatAfter(b, interval, times[..i+1]).calls == BeatAfter(b, interval, times[..i]).calls + 1
  }

  /** The first call is in the first pass at or after the time it is set to. */
  lemma {:induction false} FirstBeat(b: Beat, interval: int, times: seq<int>, i: nat)
    requires i < |times| && forall k :: 0 <= k < i ==> times[k] < b.next
    ensures BeatAfter(b, interval, times[..i]) == b
    ensures CalledIn(b, interval, times, i) <==> times[i] >= b.next
  {
    assert times[..i+1][..i] == times[..i];
    if i > 0 {
      assert times[..i][..i-1] == times[..i-1];
      FirstBeat(b, interval, times, i - 1);
    }
  }

  /** Called in pass i, the entry is called again in the first pass that is an interval or more later, and in
      none before. */
  lemma {:induction false} NextBeat(b: Beat, interval: int, times: seq<int>, i: nat, j: nat)
    requires i < j < |times| && CalledIn(b, interval, times, i)
    requires forall k :: i < k < j ==> times[k] < times[i] + interval
    ensures BeatAfter(b, interval, times[..j]).calls == BeatAfter(b, interval, times[..i+1]).calls
    ensures CalledIn(b, interval, times, j) <==> times[j] >= times[i] + interval
  {
    Waits(b, interval, times, i, j);
    assert times[..j+1][..j] == times[..j];
  }

  lemma {:induction false} Waits(b: Beat, interval: int, times: seq<int>, i: nat, j: nat)
    requires i < j <= |times| && CalledIn(b, interval, times, i)
    requires forall k :: i < k < j ==> times[k] < times[i] + interval
    ensures var d := BeatAfter(b, interval, times[..j]);
      d.next == times[i] + interval && d.calls == BeatAfter(b, interval, times[..i+1]).calls
  {
    assert times[..j][..j-1] == times[..j-1];
    if i + 1 < j {
      Waits(b, interval, times, i, j - 1);
    }
  }

  /** A run of complete passes after a start, or after any moment from which all calls are in reach: while
      the clock does not go back, no comparison of two times is ever cut off, so the chain stays sorted;
      after each pass no entry is due, and every entry keeps its beat. */
  method RunPasses(c: ScheduleContext, start: int, times: seq<int>)
    requires c.Valid() && c.InReach(start) && NeverBack(times, start)
    modifies c, c.entries
    ensures c.Valid() && SameEntries(c.entries, old(c.entries))
    ensures |times| > 0 ==> c.InReach(times[|times|-1]) && forall e :: e in c.entries ==> e.nextCall > times[|times|-1]
    ensures forall e :: e in old(c.entries) ==>
      Beat(e.nextCall, e.calls) == BeatAfter(Beat(old(e.nextCall), old(e.calls)), e.interval, times)
  {
    var n := 0;
    ghost var list := c.entries;
    assert times[..0] == [];
    while n < |times|
      invariant 0 <= n <= |times| && c.Valid() && SameEntries(c.entries, list)
      invariant c.InReach(if n == 0 then start else times[n-1])
      invariant n > 0 ==> forall e :: e in c.entries ==> e.nextCall > times[n-1]
      invariant forall e :: e in list ==>
        Beat(e.nextCall, e.calls) == BeatAfter(Beat(old(e.nextCall), old(e.calls)), e.interval, times[..n])
    {
      assert times[..n+1][..n] == times[..n];
      n := n + 1;
      OnePass(c, times[n-1], list);
    }
    SameMember(c.entries, list);
    assert times[..n] == times;
  }

  method OnePass(c: ScheduleContext, now: int, ghost list: seq<ScheduleEntry>)
    requires c.Valid() && c.InReach(now) && SameEntries(c.entries, list)
    modifies c, list
    ensures c.Valid() && SameEntries(c.entries, list) && c.InReach(now)
    ensures forall e :: e in c.entries ==> e.nextCall > now
    ensures forall e :: e in list ==>
      if old(e.nextCall) <= now then e.nextCall == now + e.interval && e.calls == old(e.calls) + 1
      else e.nextCall == old(e.nextCall) && e.calls == old(e.calls)
  {
    SameMember(c.entries, list);
    ghost var before := c.entries;
    c.Pass(now, |c.entries| + 1);
    SameMember(c.entries, before);
    SameTrans(c.entries, before, list);
  }

  lemma OnlyWaiting(e: ScheduleEntry)
    ensures Updated([], -1, [e]) == [e]
  {
    assert [e][..0] == [] && WithAll([], []) == [];
    assert With([], e) == [e];
  }

  method StaysDue(c: ScheduleContext, e: ScheduleEntry, now: int, passes: nat)
    requires c.Valid() && c.entries == [e] && e.interval <= 0 && e.nextCall <= now
    modifies c, e
    ensures c.Valid() && c.entries == [e] && e.nextCall <= now && e.calls == old(e.calls) + passes
  {
    var n := 0;
    while n < passes
      invariant 0 <= n <= passes && c.Valid() && c.entries == [e]
      invariant e.calls == old(e.calls) + n && e.nextCall <= now
    {
      assert e in c.entries;
      c.Pass(now, 2);
      OnlyOne(c.entries, e);
      n := n + 1;
    }
  }

  // Without a time base one interval from now, else the first time that the base allows.
  function First(now: int, base: Option<int>, interval: int): (t: int)
    requires interval > 0 && (base.Some? ==> base.value <= now)
    ensures IsFirst(t, now, base, interval) && now < t <= now + interval
  {
    match base
    case None => now + interval
    case Some(b) => FirstCall(now, b, interval)
  }

  // What a pass did to an entry, from its next call and its number of calls before and after:
  // it was due and has been called once, or nothing changed. Only a complete pass calls all
  // that are due; then those that are still due have an interval that is not positive.
  ghost predicate Outcome(interval: int, nextCall': int, calls': nat, nextCall: int, calls: nat, now: int,
      complete: bool)
  {
    && (Called(interval, nextCall', calls', nextCall, calls, now) || (calls' == calls && nextCall' == nextCall))
    && (complete ==> (nextCall <= now <==> Called(interval, nextCall', calls', nextCall, calls, now)))
    && (complete ==> (nextCall' > now <==> interval > 0 || nextCall > now))
  }

  ghost predicate Called(interval: int, nextCall': int, calls': nat, nextCall: int, calls: nat, now: int)
  {
    nextCall <= now && calls' == calls + 1 && nextCall' == now + interval
  }
}
