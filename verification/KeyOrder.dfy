/** The order of keys: C strings of at most 63 characters, compared by length first and
    then byte by byte. Rank embeds that order into the natural numbers, so that it is a
    total order in which only equal keys compare equal. */
module KeyOrder {

  // A character of a NUL-terminated string, as strcmp sees it (unsigned, never NUL).
  type Char = c: int | 1 <= c <= 255 witness 1

  // Contents of `key_t`: the 64-byte buffer always ends with a NUL.
  type Key = s: seq<Char> | |s| <= 63

  // `key_t()` with its default argument.
  const EMPTY_KEY: Key := []

  function StrCmp(a: seq<Char>, b: seq<Char>): int
  {
    if |a| == 0 then (if |b| == 0 then 0 else -b[0])
    else if |b| == 0 then a[0]
    else if a[0] != b[0] then a[0] - b[0]
    else StrCmp(a[1..], b[1..])
  }

  function KeyCmp(a: Key, b: Key): (r: int)
    ensures |a| != |b| ==> r == |a| - |b|
    ensures r < 0 <==> Rank(a) < Rank(b)
    ensures r > 0 <==> Rank(a) > Rank(b)
    ensures r == 0 <==> a == b
    ensures r == 0 <==> Rank(a) == Rank(b)
  {
    CompareRanks(a, b);
    var x := |a| - |b|;
    if x == 0 then StrCmp(a, b) else x
  }

  // The first n characters read as the digits of a number in base 256.
  ghost function RankUpTo(k: seq<Char>, n: nat): nat
    requires n <= |k|
  {
    if n == 0 then 0 else 256 * RankUpTo(k, n - 1) + k[n - 1]
  }

  // Rank is kept folded: its definition shows only where Unfold is mentioned, so that proofs
  // about trees see ranks as plain numbers.
  ghost predicate Unfold(k: seq<Char>) { true }

  ghost predicate IsRank(k: seq<Char>, n: nat)
  {
    forall u {:trigger Unfold(u)} :: u == k ==> n == RankUpTo(u, |u|)
  }

  ghost function Rank(k: seq<Char>): nat
  {
    assert IsRank(k, RankUpTo(k, |k|));
    var n: nat :| IsRank(k, n);
    n
  }

  lemma RankIs(k: seq<Char>)
    ensures Rank(k) == RankUpTo(k, |k|)
  {
    assert Unfold(k);
  }

  lemma {:induction false} LongerIsLarger(a: seq<Char>, m: nat, b: seq<Char>, n: nat)
    requires m <= |a| && n <= |b| && m < n
    ensures RankUpTo(a, m) < RankUpTo(b, n)
  {
    if m > 0 {
      LongerIsLarger(a, m - 1, b, n - 1);
    }
  }

  lemma {:induction false} SamePrefix(a: seq<Char>, b: seq<Char>, d: nat)
    requires d <= |a| && d <= |b| && a[..d] == b[..d]
    ensures RankUpTo(a, d) == RankUpTo(b, d)
  {
    if d > 0 {
      assert a[..d-1] == a[..d][..d-1] == b[..d][..d-1] == b[..d-1];
      assert a[d-1] == a[..d][d-1] == b[..d][d-1] == b[d-1];
      SamePrefix(a, b, d - 1);
    }
  }

  lemma {:induction false} FirstDifferenceDecides(a: seq<Char>, b: seq<Char>, d: nat, n: nat)
    requires |a| == |b| && d < n <= |a|
    requires a[..d] == b[..d] && a[d] < b[d]
    ensures RankUpTo(a, n) < RankUpTo(b, n)
  {
    if n == d + 1 {
      SamePrefix(a, b, d);
    } else {
      FirstDifferenceDecides(a, b, d, n - 1);
    }
  }

  // strcmp on strings of one length is decided by their first difference.
  lemma {:induction false} StrCmpSuffixes(a: seq<Char>, b: seq<Char>, d: nat)
    requires |a| == |b| && d <= |a| && a[..d] == b[..d]
    ensures StrCmp(a[d..], b[d..]) < 0 ==> Rank(a) < Rank(b)
    ensures StrCmp(a[d..], b[d..]) > 0 ==> Rank(a) > Rank(b)
    ensures StrCmp(a[d..], b[d..]) == 0 ==> a == b
    decreases |a| - d
  {
    RankIs(a);
    RankIs(b);
    if d == |a| {
      assert a == a[..d] == b[..d] == b;
    } else if a[d] < b[d] {
      FirstDifferenceDecides(a, b, d, |a|);
    } else if a[d] > b[d] {
      assert b[..d] == a[..d];
      FirstDifferenceDecides(b, a, d, |a|);
    } else {
      assert a[..d+1] == a[..d] + [a[d]] == b[..d] + [b[d]] == b[..d+1];
      assert a[d..][1..] == a[d+1..] && b[d..][1..] == b[d+1..];
      StrCmpSuffixes(a, b, d + 1);
    }
  }

  /** keycmp is the order of ranks, and ranks tell keys apart. */
  lemma CompareRanks(a: Key, b: Key)
    ensures |a| < |b| ==> Rank(a) < Rank(b)
    ensures |a| == |b| ==> (StrCmp(a, b) < 0 <==> Rank(a) < Rank(b))
    ensures |a| == |b| ==> (StrCmp(a, b) > 0 <==> Rank(a) > Rank(b))
    ensures |a| == |b| ==> (StrCmp(a, b) == 0 <==> a == b)
    ensures |a| > |b| ==> Rank(a) > Rank(b)
    ensures Rank(a) == Rank(b) <==> a == b
  {
    RankIs(a);
    RankIs(b);
    if |a| < |b| {
      LongerIsLarger(a, |a|, b, |b|);
    } else if |a| > |b| {
      LongerIsLarger(b, |b|, a, |a|);
    } else {
      assert a[0..] == a && b[0..] == b;
      StrCmpSuffixes(a, b, 0);
    }
  }

  /** Of two keys of one length the one that is smaller in the first byte in which they differ comes first. */
  lemma FirstByteDecides(a: Key, b: Key, d: nat)
    requires |a| == |b| && d < |a| && a[..d] == b[..d] && a[d] < b[d]
    ensures Rank(a) < Rank(b) && KeyCmp(a, b) < 0 && KeyCmp(b, a) > 0
  {
    RankIs(a);
    RankIs(b);
    FirstDifferenceDecides(a, b, d, |a|);
  }
}
