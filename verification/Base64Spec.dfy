/** Base64 (section 4 of RFC 4648) as functions on sequences: what the two codecs must compute.
    The functions are kept folded: what they compute shows only where a lemma opens them. */
module Base64Spec {

  type Byte = b: int | 0 <= b < 256

  // Table 1 of RFC 4648 without its last two characters, which a caller may choose.
  const ALPHABET: string := "ABCDEFGHIJKLMNOPQRSTUVWXYZ" + "abcdefghijklmnopqrstuvwxyz" + "0123456789"

  lemma AlphabetCodes()
    ensures |ALPHABET| == 62
    ensures forall v :: 0 <= v < 62 ==>
      ALPHABET[v] as int == if v < 26 then 65 + v else if v < 52 then 97 + (v - 26) else 48 + (v - 52)
  {
    var upper, lower, digits := "ABCDEFGHIJKLMNOPQRSTUVWXYZ", "abcdefghijklmnopqrstuvwxyz", "0123456789";
    assert |upper| == 26 && forall v :: 0 <= v < 26 ==> upper[v] as int == 65 + v;
    assert |lower| == 26 && forall v :: 0 <= v < 26 ==> lower[v] as int == 97 + v;
    assert |digits| == 10 && forall v :: 0 <= v < 10 ==> digits[v] as int == 48 + v;
  }

  ghost predicate Small(v: seq<int>) { forall i :: 0 <= i < |v| ==> 0 <= v[i] < 64 }

  // The codes of ASCII characters.
  ghost predicate Ascii(s: string) { forall i :: 0 <= i < |s| ==> s[i] as int < 128 }

  ghost function Codes(s: string): (c: seq<Byte>)
    requires Ascii(s)
    ensures |c| == |s| && forall i :: 0 <= i < |s| ==> c[i] == s[i] as int
  {
    seq(|s|, i requires 0 <= i < |s| => s[i] as int)
  }

  ghost predicate Sextet(x: int) { 0 <= x < 64 }

  function Zeros(n: nat): (z: seq<Byte>)
    ensures |z| == n && forall i :: 0 <= i < n ==> z[i] == 0
  {
    seq(n, _ => 0)
  }

  // A definition is open where one of these is mentioned.
  ghost predicate Number(n: int) { true }
  ghost predicate Unfold(s: seq<int>) { true }

  // ---------- arithmetic ----------

  lemma By4(x: int, k: int, r: int)
    requires x == k * 4 + r && 0 <= r < 4
    ensures x / 4 == k && x % 4 == r
  {
  }

  lemma By16(x: int, k: int, r: int)
    requires x == k * 16 + r && 0 <= r < 16
    ensures x / 16 == k && x % 16 == r
  {
  }

  lemma By64(x: int, k: int, r: int)
    requires x == k * 64 + r && 0 <= r < 64
    ensures x / 64 == k && x % 64 == r
  {
  }

  lemma By256(x: int, k: int, r: int)
    requires x == k * 256 + r && 0 <= r < 256
    ensures x / 256 == k && x % 256 == r
  {
  }

  lemma By4096(x: int, k: int, r: int)
    requires x == k * 4096 + r && 0 <= r < 4096
    ensures x / 4096 == k && x % 4096 == r
  {
  }

  lemma By65536(x: int, k: int, r: int)
    requires x == k * 65536 + r && 0 <= r < 65536
    ensures x / 65536 == k && x % 65536 == r
  {
  }

  // ---------- the four sextets of three bytes ----------

  ghost predicate IsFirst(a: int, r: int)
  {
    forall u {:trigger Number(u)} :: u == a ==> r == u / 4
  }

  ghost predicate IsSecond(a: int, b: int, r: int)
  {
    forall u {:trigger Number(u)} :: u == a ==> r == u % 4 * 16 + b / 16
  }

  ghost predicate IsThird(b: int, c: int, r: int)
  {
    forall u {:trigger Number(u)} :: u == b ==> r == u % 16 * 4 + c / 64
  }

  ghost predicate IsFourth(c: int, r: int)
  {
    forall u {:trigger Number(u)} :: u == c ==> r == u % 64
  }

  ghost function First(a: Byte): (r: int)
    ensures Sextet(r)
  {
    assert IsFirst(a, a / 4);
    var r: int :| IsFirst(a, r) && Sextet(r);
    r
  }

  ghost function Second(a: Byte, b: Byte): (r: int)
    ensures Sextet(r)
  {
    assert IsSecond(a, b, a % 4 * 16 + b / 16);
    var r: int :| IsSecond(a, b, r) && Sextet(r);
    r
  }

  ghost function Third(b: Byte, c: Byte): (r: int)
    ensures Sextet(r)
  {
    assert IsThird(b, c, b % 16 * 4 + c / 64);
    var r: int :| IsThird(b, c, r) && Sextet(r);
    r
  }

  ghost function Fourth(c: Byte): (r: int)
    ensures Sextet(r)
  {
    assert IsFourth(c, c % 64);
    var r: int :| IsFourth(c, r) && Sextet(r);
    r
  }

  lemma OpenGroup(a: Byte, b: Byte, c: Byte)
    ensures First(a) == a / 4 && Second(a, b) == a % 4 * 16 + b / 16
    ensures Third(b, c) == b % 16 * 4 + c / 64 && Fourth(c) == c % 64
  {
    assert Number(a) && Number(b) && Number(c);
  }

  ghost function Group(a: Byte, b: Byte, c: Byte): (q: seq<int>)
    ensures |q| == 4 && Small(q)
  {
    [First(a), Second(a, b), Third(b, c), Fourth(c)]
  }

  // ---------- the three bytes of four sextets ----------

  ghost predicate IsUpper(w: int, x: int, r: int)
  {
    forall u {:trigger Number(u)} :: u == w ==> r == u * 4 + x / 16
  }

  ghost predicate IsMiddle(x: int, y: int, r: int)
  {
    forall u {:trigger Number(u)} :: u == x ==> r == u % 16 * 16 + y / 4
  }

  ghost predicate IsLower(y: int, z: int, r: int)
  {
    forall u {:trigger Number(u)} :: u == y ==> r == u % 4 * 64 + z
  }

  ghost function Upper(w: int, x: int): Byte
    requires Sextet(w) && Sextet(x)
  {
    assert IsUpper(w, x, w * 4 + x / 16);
    var r: Byte :| IsUpper(w, x, r);
    r
  }

  ghost function Middle(x: int, y: int): Byte
    requires Sextet(x) && Sextet(y)
  {
    assert IsMiddle(x, y, x % 16 * 16 + y / 4);
    var r: Byte :| IsMiddle(x, y, r);
    r
  }

  ghost function Lower(y: int, z: int): Byte
    requires Sextet(y) && Sextet(z)
  {
    assert IsLower(y, z, y % 4 * 64 + z);
    var r: Byte :| IsLower(y, z, r);
    r
  }

  lemma OpenUpper(w: int, x: int)
    requires Sextet(w) && Sextet(x)
    ensures Upper(w, x) == w * 4 + x / 16
  {
    assert Number(w);
  }

  lemma OpenMiddle(x: int, y: int)
    requires Sextet(x) && Sextet(y)
    ensures Middle(x, y) == x % 16 * 16 + y / 4
  {
    assert Number(x);
  }

  lemma OpenLower(y: int, z: int)
    requires Sextet(y) && Sextet(z)
    ensures Lower(y, z) == y % 4 * 64 + z
  {
    assert Number(y);
  }

  ghost function Ungroup(w: int, x: int, y: int, z: int): (t: seq<Byte>)
    requires Sextet(w) && Sextet(x) && Sextet(y) && Sextet(z)
    ensures |t| == 3
  {
    [Upper(w, x), Middle(x, y), Lower(y, z)]
  }

  lemma UpperOfGroup(a: Byte, b: Byte)
    ensures Upper(First(a), Second(a, b)) == a
  {
    OpenGroup(a, b, 0);
    OpenUpper(First(a), Second(a, b));
    By16(Second(a, b), a % 4, b / 16);
  }

  lemma MiddleOfGroup(a: Byte, b: Byte, c: Byte)
    ensures Middle(Second(a, b), Third(b, c)) == b
  {
    OpenGroup(a, b, c);
    OpenMiddle(Second(a, b), Third(b, c));
    By16(Second(a, b), a % 4, b / 16);
    By4(Third(b, c), b % 16, c / 64);
  }

  lemma LowerOfGroup(b: Byte, c: Byte)
    ensures Lower(Third(b, c), Fourth(c)) == c
  {
    OpenGroup(0, b, c);
    OpenLower(Third(b, c), Fourth(c));
    By4(Third(b, c), b % 16, c / 64);
  }

  lemma GroupUngroup(a: Byte, b: Byte, c: Byte)
    ensures Ungroup(First(a), Second(a, b), Third(b, c), Fourth(c)) == [a, b, c]
  {
    UpperOfGroup(a, b);
    MiddleOfGroup(a, b, c);
    LowerOfGroup(b, c);
  }

  lemma ZeroSextets()
    ensures Third(0, 0) == 0 && Fourth(0) == 0
  {
    OpenGroup(0, 0, 0);
  }

  // ---------- byte strings and lists of sextets ----------

  ghost function SextetsFold(s: seq<Byte>): (v: seq<int>)
    ensures Small(v)
  {
    if |s| == 0 then []
    else if |s| == 1 then [First(s[0]), Second(s[0], 0)]
    else if |s| == 2 then [First(s[0]), Second(s[0], s[1]), Third(s[1], 0)]
    else Group(s[0], s[1], s[2]) + SextetsFold(s[3..])
  }

  ghost predicate IsSextets(s: seq<Byte>, v: seq<int>)
  {
    forall u: seq<Byte> {:trigger Unfold(u)} :: u == s ==> v == SextetsFold(u)
  }

  // The sextets of a byte string: the last group is filled up with zero bits, and has one
  // sextet more than bytes.
  ghost function Sextets(s: seq<Byte>): (v: seq<int>)
    ensures Small(v)
  {
    assert IsSextets(s, SextetsFold(s));
    var v: seq<int> :| IsSextets(s, v) && Small(v);
    v
  }

  lemma SextetsShort(s: seq<Byte>)
    requires |s| <= 2
    ensures |s| == 0 ==> Sextets(s) == []
    ensures |s| == 1 ==> Sextets(s) == [First(s[0]), Second(s[0], 0)]
    ensures |s| == 2 ==> Sextets(s) == [First(s[0]), Second(s[0], s[1]), Third(s[1], 0)]
  {
    assert Unfold(s);
  }

  lemma SextetsStep(s: seq<Byte>)
    requires |s| >= 3
    ensures Sextets(s) == Group(s[0], s[1], s[2]) + Sextets(s[3..])
  {
    assert Unfold(s) && Unfold(s[3..]);
  }

  ghost function BytesFold(v: seq<int>): seq<Byte>
    requires Small(v)
  {
    if |v| < 2 then []
    else if |v| == 2 then [Upper(v[0], v[1])]
    else if |v| == 3 then [Upper(v[0], v[1]), Middle(v[1], v[2])]
    else Ungroup(v[0], v[1], v[2], v[3]) + BytesFold(v[4..])
  }

  ghost predicate IsBytes(v: seq<int>, s: seq<Byte>)
    requires Small(v)
  {
    forall u {:trigger Unfold(u)} :: u == v ==> s == BytesFold(u)
  }

  // The bytes that a list of sextets holds in full.
  ghost function Bytes(v: seq<int>): seq<Byte>
    requires Small(v)
  {
    assert IsBytes(v, BytesFold(v));
    var s: seq<Byte> :| IsBytes(v, s);
    s
  }

  lemma BytesShort(v: seq<int>)
    requires Small(v) && |v| <= 3
    ensures |v| < 2 ==> Bytes(v) == []
    ensures |v| == 2 ==> Bytes(v) == [Upper(v[0], v[1])]
    ensures |v| == 3 ==> Bytes(v) == [Upper(v[0], v[1]), Middle(v[1], v[2])]
  {
    assert Unfold(v);
  }

  lemma BytesStep(v: seq<int>)
    requires Small(v) && |v| >= 4
    ensures Bytes(v) == Ungroup(v[0], v[1], v[2], v[3]) + Bytes(v[4..])
  {
    assert Unfold(v) && Unfold(v[4..]);
  }

  lemma BytesOfGroup(v: seq<int>)
    requires Small(v) && |v| == 4
    ensures Bytes(v) == Ungroup(v[0], v[1], v[2], v[3])
  {
    BytesStep(v);
    BytesShort(v[4..]);
  }

  lemma {:induction false} BytesOfSextets(s: seq<Byte>)
    ensures Bytes(Sextets(s)) == s
  {
    if |s| >= 3 {
      BytesOfSextets(s[3..]);
      SextetsStep(s);
      BytesStep(Sextets(s));
      GroupUngroup(s[0], s[1], s[2]);
      assert Sextets(s)[4..] == Sextets(s[3..]);
    } else {
      BytesOfShort(s);
    }
  }

  lemma BytesOfShort(s: seq<Byte>)
    requires |s| <= 2
    ensures Bytes(Sextets(s)) == s
  {
    SextetsShort(s);
    BytesShort(Sextets(s));
    if |s| > 0 {
      var b := if |s| == 2 then s[1] else 0;
      UpperOfGroup(s[0], b);
      MiddleOfGroup(s[0], b, 0);
    }
  }

  lemma {:induction false} BytesConcat(u: seq<int>, v: seq<int>)
    requires |u| % 4 == 0 && Small(u) && Small(v)
    ensures Small(u + v) && Bytes(u + v) == Bytes(u) + Bytes(v)
  {
    if |u| == 0 {
      BytesShort(u);
      assert u + v == v;
    } else {
      BytesConcat(u[4..], v);
      BytesStep(u);
      BytesStep(u + v);
      assert (u + v)[4..] == u[4..] + v;
    }
  }

  // Completing a group of four adds three bytes.
  lemma BytesSnoc(u: seq<int>, q: seq<int>)
    requires |u| % 4 == 0 && |q| == 4 && Small(u) && Small(q)
    ensures Small(u + q) && Bytes(u + q) == Bytes(u) + Ungroup(q[0], q[1], q[2], q[3])
  {
    BytesConcat(u, q);
    BytesOfGroup(q);
  }

  // Bytes that the last group lacks.
  function Missing(s: seq<Byte>): nat { if |s| % 3 == 0 then 0 else 3 - |s| % 3 }

  lemma MissingShort(s: seq<Byte>)
    requires 1 <= |s| <= 2
    ensures Missing(s) == 3 - |s|
  {
  }

  lemma MissingLater(s: seq<Byte>)
    requires |s| >= 3
    ensures Missing(s[3..]) == Missing(s)
  {
  }

  // Zero sextets that complete the last group add as many zero bytes.
  lemma {:induction false} BytesFilledUp(s: seq<Byte>)
    ensures var p := Missing(s);
      Small(Sextets(s) + Zeros(p)) && Bytes(Sextets(s) + Zeros(p)) == s + Zeros(p)
  {
    if |s| == 0 {
      SextetsShort(s);
      BytesShort([]);
      assert Sextets(s) + Zeros(0) == [] && s + Zeros(0) == [];
    } else if |s| <= 2 {
      MissingShort(s);
      ShortFilledUp(s, Zeros(Missing(s)));
    } else {
      BytesFilledUp(s[3..]);
      MissingLater(s);
      FilledStep(s, Zeros(Missing(s)));
    }
  }

  lemma FilledStep(s: seq<Byte>, z: seq<Byte>)
    requires |s| >= 3 && Small(Sextets(s[3..]) + z) && Bytes(Sextets(s[3..]) + z) == s[3..] + z
    ensures Small(Sextets(s) + z) && Bytes(Sextets(s) + z) == s + z
  {
    var r := Sextets(s[3..]) + z;
    SextetsStep(s);
    assert Sextets(s) + z == Group(s[0], s[1], s[2]) + r;
    GroupFirst(s[0], s[1], s[2], r);
    assert s + z == [s[0], s[1], s[2]] + (s[3..] + z);
  }

  lemma GroupFirst(a: Byte, b: Byte, c: Byte, r: seq<int>)
    requires Small(r)
    ensures Small(Group(a, b, c) + r) && Bytes(Group(a, b, c) + r) == [a, b, c] + Bytes(r)
  {
    BytesConcat(Group(a, b, c), r);
    BytesOfGroup(Group(a, b, c));
    GroupUngroup(a, b, c);
  }

  lemma ShortFilledUp(s: seq<Byte>, z: seq<Byte>)
    requires 1 <= |s| <= 2 && |z| == 3 - |s| && forall i :: 0 <= i < |z| ==> z[i] == 0
    ensures Small(Sextets(s) + z) && Bytes(Sextets(s) + z) == s + z
  {
    var b := if |s| == 2 then s[1] else 0;
    SextetsShort(s);
    ZeroSextets();
    assert Sextets(s) + z == Group(s[0], b, 0);
    GroupUngroup(s[0], b, 0);
    BytesOfGroup(Group(s[0], b, 0));
    assert s + z == [s[0], b, 0];
  }

  // Groups of four characters that n bytes take.
  function Groups(n: nat): nat { (n + 2) / 3 }

  lemma GroupsLater(n: nat)
    requires n >= 3
    ensures Groups(n) == Groups(n - 3) + 1
  {
  }

  lemma {:induction false} SextetsLength(s: seq<Byte>)
    ensures |Sextets(s)| + Missing(s) == 4 * Groups(|s|)
  {
    if |s| >= 3 {
      SextetsLength(s[3..]);
      SextetsStep(s);
      MissingLater(s);
      GroupsLater(|s|);
    } else {
      SextetsShort(s);
      if |s| > 0 {
        MissingShort(s);
      }
    }
  }

  lemma FourGroups(n: nat)
    ensures 4 * n % 4 == 0
  {
  }

  // ---------- the same, bit by bit ----------

  function Power2(n: nat): (p: nat)
    ensures p >= 1
  {
    if n == 0 then 1 else 2 * Power2(n - 1)
  }

  // The n low bits of x, most significant first.
  ghost function Bits(x: int, n: nat): seq<int>
    decreases n
  {
    if n == 0 then [] else Bits(x / 2, n - 1) + [x % 2]
  }

  // The bits of a list of numbers of n bits each, end to end.
  ghost function BitsFold(v: seq<int>, n: nat): seq<int>
  {
    if |v| == 0 then [] else BitsFold(v[..|v|-1], n) + Bits(v[|v|-1], n)
  }

  ghost predicate IsBitString(v: seq<int>, n: nat, b: seq<int>)
  {
    forall u {:trigger Unfold(u)} :: u == v ==> b == BitsFold(u, n)
  }

  ghost function BitString(v: seq<int>, n: nat): seq<int>
  {
    assert IsBitString(v, n, BitsFold(v, n));
    var b: seq<int> :| IsBitString(v, n, b);
    b
  }

  lemma BitStringEmpty(n: nat)
    ensures BitString([], n) == []
  {
    assert Unfold([]);
  }

  lemma BitStringSnoc(v: seq<int>, x: int, n: nat)
    ensures BitString(v + [x], n) == BitString(v, n) + Bits(x, n)
  {
    assert Unfold(v + [x]) && Unfold(v);
    assert (v + [x])[..|v|] == v;
  }

  lemma {:induction false} BitStringConcat(u: seq<int>, v: seq<int>, n: nat)
    ensures BitString(u + v, n) == BitString(u, n) + BitString(v, n)
  {
    if |v| == 0 {
      assert u + v == u && v == [];
      BitStringEmpty(n);
    } else {
      var w, x := v[..|v|-1], v[|v|-1];
      BitStringConcat(u, w, n);
      assert v == w + [x] && u + v == u + w + [x];
      BitStringSnoc(w, x, n);
      BitStringSnoc(u + w, x, n);
    }
  }

  lemma OneBits(x: int, n: nat)
    ensures BitString([x], n) == Bits(x, n)
  {
    BitStringEmpty(n);
    BitStringSnoc([], x, n);
    assert [] + [x] == [x];
  }

  lemma TwoBits(x: int, y: int, n: nat)
    ensures BitString([x, y], n) == Bits(x, n) + Bits(y, n)
  {
    OneBits(x, n);
    BitStringSnoc([x], y, n);
    assert [x] + [y] == [x, y];
  }

  lemma ThreeBits(x: int, y: int, z: int, n: nat)
    ensures BitString([x, y, z], n) == Bits(x, n) + Bits(y, n) + Bits(z, n)
  {
    TwoBits(x, y, n);
    BitStringSnoc([x, y], z, n);
    assert [x, y] + [z] == [x, y, z];
  }

  lemma FourBits(w: int, x: int, y: int, z: int, n: nat)
    ensures BitString([w, x, y, z], n) == Bits(w, n) + Bits(x, n) + Bits(y, n) + Bits(z, n)
  {
    ThreeBits(w, x, y, n);
    BitStringSnoc([w, x, y], z, n);
    assert [w, x, y] + [z] == [w, x, y, z];
  }

  lemma {:induction false} BitsJoin(hi: int, lo: int, m: nat, n: nat)
    requires 0 <= hi && 0 <= lo < Power2(n)
    ensures Bits(hi * Power2(n) + lo, m + n) == Bits(hi, m) + Bits(lo, n)
    decreases n
  {
    if n > 0 {
      DoubleAndAdd(hi, Power2(n - 1), lo);
      BitsJoin(hi, lo / 2, m, n - 1);
      Reassociate(Bits(hi, m), Bits(lo / 2, n - 1), [lo % 2]);
    }
  }

  lemma DoubleAndAdd(hi: int, p: int, lo: int)
    ensures var x := hi * (2 * p) + lo; x / 2 == hi * p + lo / 2 && x % 2 == lo % 2
  {
    var h := hi * p;
    assert hi * (2 * p) == 2 * h;
  }

  lemma Reassociate(a: seq<int>, b: seq<int>, c: seq<int>)
    ensures a + (b + c) == a + b + c
  {
  }

  lemma {:induction false} ZeroBits(n: nat)
    ensures Bits(0, n) == Zeros(n)
    decreases n
  {
    if n > 0 {
      ZeroBits(n - 1);
    }
  }

  // How many bits there are in a byte and in a sextet, and in the parts a byte is cut into.
  ghost predicate Widths(eight: nat, six: nat, four: nat, two: nat)
  {
    && eight == four + four && six == four + two && four == two + two
    && Power2(two) == 4 && Power2(four) == 16 && Power2(six) == 64
  }

  lemma TheWidths()
    ensures Widths(8, 6, 4, 2)
  {
    assert Power2(3) == 8 && Power2(5) == 32;
  }

  lemma CutByte(x: Byte, eight: nat, six: nat, four: nat, two: nat)
    requires Widths(eight, six, four, two)
    ensures Bits(x, eight) == Bits(x / 4, six) + Bits(x % 4, two)
    ensures Bits(x, eight) == Bits(x / 16, four) + Bits(x % 16, four)
    ensures Bits(x, eight) == Bits(x / 64, two) + Bits(x % 64, six)
  {
    BitsJoin(x / 4, x % 4, six, two);
    BitsJoin(x / 16, x % 16, four, four);
    BitsJoin(x / 64, x % 64, two, six);
  }

  lemma SextetBits(a: Byte, b: Byte, c: Byte, eight: nat, six: nat, four: nat, two: nat)
    requires Widths(eight, six, four, two)
    ensures Bits(First(a), six) == Bits(a / 4, six)
    ensures Bits(Second(a, b), six) == Bits(a % 4, two) + Bits(b / 16, four)
    ensures Bits(Third(b, c), six) == Bits(b % 16, four) + Bits(c / 64, two)
    ensures Bits(Fourth(c), six) == Bits(c % 64, six)
  {
    OpenGroup(a, b, c);
    BitsJoin(a % 4, b / 16, two, four);
    BitsJoin(b % 16, c / 64, four, two);
  }

  lemma GroupBits(a: Byte, b: Byte, c: Byte, eight: nat, six: nat, four: nat, two: nat)
    requires Widths(eight, six, four, two)
    ensures BitString(Group(a, b, c), six) == BitString([a, b, c], eight)
  {
    FourBits(First(a), Second(a, b), Third(b, c), Fourth(c), six);
    ThreeBits(a, b, c, eight);
    SextetBits(a, b, c, eight, six, four, two);
    CutByte(a, eight, six, four, two);
    CutByte(b, eight, six, four, two);
    CutByte(c, eight, six, four, two);
    JoinParts(Bits(a / 4, six), Bits(a % 4, two), Bits(b / 16, four), Bits(b % 16, four), Bits(c / 64, two),
      Bits(c % 64, six));
  }

  lemma JoinParts(a: seq<int>, b: seq<int>, c: seq<int>, d: seq<int>, e: seq<int>, f: seq<int>)
    ensures a + (b + c) + (d + e) + f == (a + b) + (c + d) + (e + f)
  {
  }

  lemma OneByteBits(a: Byte, eight: nat, six: nat, four: nat, two: nat)
    requires Widths(eight, six, four, two)
    ensures BitString([First(a), Second(a, 0)], six) == BitString([a], eight) + Zeros(four)
  {
    TwoBits(First(a), Second(a, 0), six);
    OneBits(a, eight);
    SextetBits(a, 0, 0, eight, six, four, two);
    CutByte(a, eight, six, four, two);
    ZeroBits(four);
    Reassociate(Bits(a / 4, six), Bits(a % 4, two), Zeros(four));
  }

  lemma TwoBytesBits(a: Byte, b: Byte, eight: nat, six: nat, four: nat, two: nat)
    requires Widths(eight, six, four, two)
    ensures BitString([First(a), Second(a, b), Third(b, 0)], six) == BitString([a, b], eight) + Zeros(two)
  {
    ThreeBits(First(a), Second(a, b), Third(b, 0), six);
    TwoBits(a, b, eight);
    SextetBits(a, b, 0, eight, six, four, two);
    CutByte(a, eight, six, four, two);
    CutByte(b, eight, six, four, two);
    ZeroBits(two);
    JoinParts(Bits(a / 4, six), Bits(a % 4, two), Bits(b / 16, four), Bits(b % 16, four), Zeros(two), []);
    assert Zeros(two) + [] == Zeros(two);
  }

  // Zero bits that fill up the last sextet of n bytes.
  function Fill(n: nat, four: nat, two: nat): nat
  {
    if n % 3 == 0 then 0 else if n % 3 == 1 then four else two
  }

  lemma {:induction false} CarryTheBits(s: seq<Byte>, eight: nat, six: nat, four: nat, two: nat)
    requires Widths(eight, six, four, two)
    ensures BitString(Sextets(s), six) == BitString(s, eight) + Zeros(Fill(|s|, four, two))
  {
    if |s| >= 3 {
      CarryTheBits(s[3..], eight, six, four, two);
      CarryStep(s, Zeros(Fill(|s|, four, two)), eight, six, four, two);
    } else {
      SextetsShort(s);
      if |s| == 2 {
        TwoBytesBits(s[0], s[1], eight, six, four, two);
        assert s == [s[0], s[1]];
      } else if |s| == 1 {
        OneByteBits(s[0], eight, six, four, two);
        assert s == [s[0]];
      } else {
        BitStringEmpty(six);
        BitStringEmpty(eight);
      }
    }
  }

  lemma CarryStep(s: seq<Byte>, fill: seq<int>, eight: nat, six: nat, four: nat, two: nat)
    requires Widths(eight, six, four, two) && |s| >= 3
    requires BitString(Sextets(s[3..]), six) == BitString(s[3..], eight) + fill
    ensures BitString(Sextets(s), six) == BitString(s, eight) + fill
  {
    SextetsStep(s);
    BitStringConcat(Group(s[0], s[1], s[2]), Sextets(s[3..]), six);
    assert s == [s[0], s[1], s[2]] + s[3..];
    BitStringConcat([s[0], s[1], s[2]], s[3..], eight);
    GroupBits(s[0], s[1], s[2], eight, six, four, two);
    Reassociate(BitString([s[0], s[1], s[2]], eight), BitString(s[3..], eight), fill);
  }

  /** The sextets carry the bits of the bytes, in order, filled up with zeros. */
  lemma SextetsCarryTheBits(s: seq<Byte>)
    ensures BitString(Sextets(s), 6) == BitString(s, 8) + Zeros(Fill(|s|, 4, 2))
  {
    TheWidths();
    CarryTheBits(s, 8, 6, 4, 2);
  }

  // ---------- numbers lined up and taken apart ----------

  // Three bytes lined up as one number of 24 bits, taken apart six bits at a time.
  lemma TakeApart(a: Byte, b: Byte, c: Byte, x: int)
    requires x == a * 65536 + b * 256 + c
    ensures x % 64 == Fourth(c) && x / 64 % 64 == Third(b, c)
    ensures x / 64 / 64 % 64 == Second(a, b) && x / 64 / 64 / 64 % 64 == First(a)
  {
    OpenGroup(a, b, c);
    LastSextet(a * 256 + b, c);
    ThirdSextet(a, b, c / 64);
    SecondSextet(a, b / 16);
    assert x / 64 == (a * 256 + b) * 4 + c / 64;
  }

  lemma LastSextet(h: int, c: int)
    requires 0 <= c < 256
    ensures var x := h * 256 + c; x / 64 == h * 4 + c / 64 && x % 64 == c % 64
  {
    By64(h * 256 + c, h * 4 + c / 64, c % 64);
  }

  lemma ThirdSextet(a: int, b: int, c: int)
    requires 0 <= b < 256 && 0 <= c < 4
    ensures var y := (a * 256 + b) * 4 + c; y / 64 == a * 16 + b / 16 && y % 64 == b % 16 * 4 + c
  {
    By64((a * 256 + b) * 4 + c, a * 16 + b / 16, b % 16 * 4 + c);
  }

  lemma SecondSextet(a: int, b: int)
    requires 0 <= a < 256 && 0 <= b < 16
    ensures var z := a * 16 + b; z / 64 == a / 4 && z % 64 == a % 4 * 16 + b && z / 64 % 64 == a / 4
  {
    By64(a * 16 + b, a / 4, a % 4 * 16 + b);
    By64(a / 4, 0, a / 4);
  }

  // Four sextets lined up, taken apart eight bits at a time.
  lemma TakeApartBytes(w: int, x: int, y: int, z: int, c: int)
    requires Sextet(w) && Sextet(x) && Sextet(y) && Sextet(z)
    requires c == ((w * 64 + x) * 64 + y) * 64 + z
    ensures c / 65536 % 256 == Upper(w, x)
    ensures c % 65536 / 256 == Middle(x, y)
    ensures c % 256 == Lower(y, z)
  {
    OpenUpper(w, x);
    OpenMiddle(x, y);
    OpenLower(y, z);
    TakeHigh(w, x, y * 64 + z, c);
    TakeLow(w * 64 + x, y, z, c);
  }

  lemma TakeHigh(w: int, x: int, low: int, c: int)
    requires 0 <= w < 64 && 0 <= x < 64 && 0 <= low < 4096 && c == w * 262144 + x * 4096 + low
    ensures c / 65536 == w * 4 + x / 16 && c / 65536 % 256 == w * 4 + x / 16
    ensures c % 65536 / 256 == x % 16 * 16 + low / 256
  {
    By65536(c, w * 4 + x / 16, x % 16 * 4096 + low);
    By256(w * 4 + x / 16, 0, w * 4 + x / 16);
    By256(x % 16 * 4096 + low, x % 16 * 16 + low / 256, low % 256);
  }

  lemma TakeLow(h: int, y: int, z: int, c: int)
    requires 0 <= y < 64 && 0 <= z < 64 && c == h * 4096 + y * 64 + z
    ensures (y * 64 + z) / 256 == y / 4
    ensures c % 256 == y % 4 * 64 + z
  {
    By256(y * 64 + z, y / 4, y % 4 * 64 + z);
    By256(c, h * 16 + y / 4, y % 4 * 64 + z);
  }
}
