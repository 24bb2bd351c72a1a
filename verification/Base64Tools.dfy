/** The second base64 codec: fixed alphabet, no lines, and a decoder whose accumulator is
    never masked. */
module Base64Tools {
  import opened Base64Spec
  import opened Base64

  const EQUALS: Byte := 61
  const INT_RANGE: int := 0x1_0000_0000

  // A context of the other codec with the standard alphabet and line length 0.
  ghost predicate Standard(x: Context)
  {
    && x.lineLength == 0 && x.padCh == '=' as int && |x.valueToChar| == 64 == |ALPHABET + "+/"|
    && forall v :: 0 <= v < 64 ==> x.valueToChar[v] == (ALPHABET + "+/")[v] as int
  }

  // base64_chars[v]
  function Char(v: int): (c: Byte)
    requires 0 <= v < 64
    ensures |ALPHABET + "+/"| == 64 && c == (ALPHABET + "+/")[v] as int
    ensures c == if v < 26 then 65 + v else if v < 52 then 71 + v else if v < 62 then v - 4
      else if v == 62 then 43 else 47
  {
    AlphabetCodes();
    (ALPHABET + "+/")[v] as int
  }

  // ---------- encoding ----------

  method FourLetters(a: Byte, b: Byte, c: Byte, ghost x: Context) returns (t: seq<Byte>)
    requires Standard(x)
    ensures t == Letters(x, Group(a, b, c))
  {
    OpenGroup(a, b, c);
    t := [Char(a / 4), Char(a % 4 * 16 + b / 16), Char(b % 16 * 4 + c / 64), Char(c % 64)];
  }

  // What is still to be written for the bytes s.
  ghost function Rest(x: Context, s: seq<Byte>): seq<Byte>
    requires Standard(x)
  {
    Text(x, s, 0, true)
  }

  // Without line breaks the position does not matter.
  lemma AnyPosition(x: Context, s: seq<Byte>, p: int, q: int, pad: bool)
    requires Standard(x) && p >= 0 && q >= 0
    ensures Text(x, s, p, pad) == Text(x, s, q, pad)
  {
    if |s| <= 2 {
      TextShort(x, s, p, pad);
      TextShort(x, s, q, pad);
    } else {
      TextStep(x, s, p, pad);
      TextStep(x, s, q, pad);
    }
  }

  lemma RestStep(x: Context, s: seq<Byte>)
    requires Standard(x) && |s| >= 3
    ensures Rest(x, s) == Letters(x, Group(s[0], s[1], s[2])) + Rest(x, s[3..])
  {
    TextStep(x, s, 0, true);
    AnyPosition(x, s[3..], NextPos(x, 0), 0, true);
  }

  lemma RestShort(x: Context, s: seq<Byte>)
    requires Standard(x) && 1 <= |s| <= 2
    ensures var q := Letters(x, Group(s[0], if |s| == 2 then s[1] else 0, 0));
      Rest(x, s) == q[..|s|+1] + Repeat(EQUALS, 3 - |s|)
  {
    TextShort(x, s, 0, true);
    CutGroup(x, s, if |s| == 2 then s[1] else 0, true);
    MissingShort(s);
  }

  /** Examples of section 10 of RFC 4648: "foobar", "fooba" and "foob". */
  lemma FooBar(x: Context)
    requires Standard(x)
    ensures Rest(x, [102, 111, 111, 98, 97, 114]) == Codes("Zm9v") + Codes("YmFy")
    ensures Rest(x, [102, 111, 111, 98, 97]) == Codes("Zm9v") + Codes("YmE=")
    ensures Rest(x, [102, 111, 111, 98]) == Codes("Zm9v") + Codes("Yg==")
  {
    FooThen(x, [98, 97, 114]);
    FooThen(x, [98, 97]);
    FooThen(x, [98]);
    ThenBar(x);
    ThenBa(x);
    ThenB(x);
    assert [102, 111, 111] + [98, 97, 114] == [102, 111, 111, 98, 97, 114];
    assert [102, 111, 111] + [98, 97] == [102, 111, 111, 98, 97];
    assert [102, 111, 111] + [98] == [102, 111, 111, 98];
  }

  lemma FooThen(x: Context, s: seq<Byte>)
    requires Standard(x)
    ensures Rest(x, [102, 111, 111] + s) == Codes("Zm9v") + Rest(x, s)
  {
    var foo: seq<Byte> := [102, 111, 111];
    RestStep(x, foo + s);
    assert (foo + s)[3..] == s;
    AlphabetCodes();
    FourOf(x, 102, 111, 111, "Zm9v");
  }

  lemma ThenBar(x: Context)
    requires Standard(x)
    ensures Rest(x, [98, 97, 114]) == Codes("YmFy")
  {
    var s: seq<Byte> := [98, 97, 114];
    RestStep(x, s);
    assert s[3..] == [];
    RestNone(x);
    FourOf(x, 98, 97, 114, "YmFy");
  }

  lemma ThenBa(x: Context)
    requires Standard(x)
    ensures Rest(x, [98, 97]) == Codes("YmE=")
  {
    RestShort(x, [98, 97]);
    FourOf(x, 98, 97, 0, "YmEA");
    assert Codes("YmEA")[..3] + Repeat(EQUALS, 1) == Codes("YmE=");
  }

  lemma ThenB(x: Context)
    requires Standard(x)
    ensures Rest(x, [98]) == Codes("Yg==")
  {
    RestShort(x, [98]);
    FourOf(x, 98, 0, 0, "YgAA");
    assert Codes("YgAA")[..2] + Repeat(EQUALS, 2) == Codes("Yg==");
  }

  lemma RestNone(x: Context)
    requires Standard(x)
    ensures Rest(x, []) == []
  {
    TextShort(x, [], 0, true);
  }

  lemma FourOf(x: Context, a: Byte, b: Byte, c: Byte, t: string)
    requires Standard(x) && Ascii(t) && |t| == 4
    requires t[0] as int == Char(a / 4) && t[1] as int == Char(a % 4 * 16 + b / 16)
    requires t[2] as int == Char(b % 16 * 4 + c / 64) && t[3] as int == Char(c % 64)
    ensures Letters(x, Group(a, b, c)) == Codes(t)
  {
    OpenGroup(a, b, c);
  }

  lemma OneMoreByte(three: seq<Byte>, i: nat, s: seq<Byte>, k: nat)
    requires |three| == 3 && i < 3 && i <= k < |s| && three[..i] == s[k-i..k]
    ensures three[i := s[k]][..i+1] == s[k-i..k+1]
  {
    assert three[i := s[k]][..i+1] == three[..i] + [s[k]];
  }

  /** _bast64_encode writes exactly what base64_encode_ex writes with the standard alphabet,
      padding and no line breaks. */
  method BastEncode(s: seq<Byte>, ghost x: Context) returns (ret: seq<Byte>)
    requires Standard(x)
    ensures ret == Text(x, s, 0, true)
  {
    var three, i;
    ghost var from;
    ret, three, i, from := EncodeTriples(s, x);
    if i > 0 {
      var last := LastLetters(three, i, s[from..], x);
      ret := ret + last;
    } else {
      TextShort(x, s[from..], 0, true);
    }
  }

  // The loop over the bytes; i bytes are left over.
  method EncodeTriples(s: seq<Byte>, ghost x: Context) returns (ret: seq<Byte>, three: seq<Byte>, i: nat,
      ghost from: nat)
    requires Standard(x)
    ensures i < 3 && from + i == |s| && |three| == 3 && three[..i] == s[from..]
    ensures ret + Rest(x, s[from..]) == Rest(x, s)
  {
    ret, i, three, from := [], 0, [0, 0, 0], 0;
    var k := 0;
    assert s[0..] == s;
    ghost var whole := Rest(x, s);
    while k < |s|
      invariant i < 3 && from + i == k <= |s| && |three| == 3 && three[..i] == s[from..k]
      invariant ret + Rest(x, s[from..]) == whole
    {
      OneMoreByte(three, i, s, k);
      three := three[i := s[k]];
      i, k := i + 1, k + 1;
      if i == 3 {
        ret := AddGroup(ret, three, s, from, x);
        from := k;
        i := 0;
      }
    }
    assert s[from..k] == s[from..];
  }

  method AddGroup(ret: seq<Byte>, three: seq<Byte>, s: seq<Byte>, ghost from: nat,
      ghost x: Context) returns (ret': seq<Byte>)
    requires Standard(x) && from + 3 <= |s| && |three| == 3 && three[..3] == s[from..from+3]
    ensures ret' + Rest(x, s[from+3..]) == ret + Rest(x, s[from..])
  {
    ghost var u, rest := s[from..], Rest(x, s[from+3..]);
    assert u[3..] == s[from+3..];
    assert forall j :: 0 <= j < 3 ==> three[j] == three[..3][j] == u[j];
    RestStep(x, u);
    var four := FourLetters(three[0], three[1], three[2], x);
    Reassociate(ret, four, rest);
    ret' := ret + four;
  }

  method LastLetters(pending: seq<Byte>, i: nat, ghost last: seq<Byte>, ghost x: Context) returns (ret: seq<Byte>)
    requires Standard(x) && 1 <= i <= 2 && |pending| == 3 && pending[..i] == last
    ensures ret == Rest(x, last)
  {
    RestShort(x, last);
    var three := pending;
    var j := i;
    while j < 3
      invariant i <= j <= 3 && |three| == 3 && three[..i] == last
      invariant forall m :: i <= m < j ==> three[m] == 0
    {
      three := three[j := 0];
      j := j + 1;
    }
    assert forall m :: 0 <= m < i ==> three[m] == three[..i][m];
    var four := FourLetters(three[0], three[1], three[2], x);
    ret := four[..i+1];
    while |ret| < 4
      invariant i + 1 <= |ret| <= 4 && ret == four[..i+1] + Repeat(EQUALS, |ret| - i - 1)
      decreases 4 - |ret|
    {
      ret := ret + [EQUALS];
    }
  }

  // ---------- decoding ----------

  method Table() returns (t: seq<int>)
    ensures IsTable(t)
  {
    t := seq(256, _ => -1);
    var i := 0;
    while i < 64
      invariant 0 <= i <= 64 && |t| == 256
      invariant forall v :: 0 <= v < i ==> t[Char(v)] == v
      invariant forall c :: 0 <= c < 256 ==> t[c] == -1 || (0 <= t[c] < i && Char(t[c]) == c)
    {
      t := t[Char(i) := i];
      i := i + 1;
    }
    AlphabetCodes();
    forall v | 0 <= v < 64 ensures Char(v) == (ALPHABET + "+/")[v] as int {
    }
  }

  ghost predicate IsTable(t: seq<int>)
  {
    && |t| == 256 && |ALPHABET + "+/"| == 64 && Ascii(ALPHABET + "+/")
    && (forall v :: 0 <= v < 64 ==> t[(ALPHABET + "+/")[v] as int] == v)
    && (forall c :: 0 <= c < 256 ==> t[c] == -1 || (0 <= t[c] < 64 && (ALPHABET + "+/")[t[c]] as int == c))
  }

  ghost function PrefixFold(t: seq<int>, s: seq<Byte>): (v: seq<int>)
    requires IsTable(t)
    ensures Small(v)
  {
    if |s| == 0 || t[s[0]] == -1 then [] else [t[s[0]]] + PrefixFold(t, s[1..])
  }

  ghost predicate IsPrefix(t: seq<int>, s: seq<Byte>, v: seq<int>)
    requires IsTable(t)
  {
    forall u: seq<Byte> {:trigger Unfold(u)} :: u == s ==> v == PrefixFold(t, u)
  }

  // The values of the letters before the first other character.
  ghost function Prefix(t: seq<int>, s: seq<Byte>): (v: seq<int>)
    requires IsTable(t)
    ensures Small(v)
  {
    assert IsPrefix(t, s, PrefixFold(t, s));
    var v: seq<int> :| IsPrefix(t, s, v) && Small(v);
    v
  }

  lemma PrefixEnd(t: seq<int>, s: seq<Byte>)
    requires IsTable(t) && (|s| == 0 || t[s[0]] == -1)
    ensures Prefix(t, s) == []
  {
    assert Unfold(s);
  }

  lemma PrefixStep(t: seq<int>, s: seq<Byte>)
    requires IsTable(t) && |s| > 0 && t[s[0]] != -1
    ensures Prefix(t, s) == [t[s[0]]] + Prefix(t, s[1..])
  {
    assert Unfold(s) && Unfold(s[1..]);
  }

  // The accumulator is an int that wraps around; here it is its value modulo 2^32. Of the values
  // read, the groups g are done; after those in q it has 0, 6, 4 or 2 bits that are not written yet.
  ghost predicate PendingAt(v: seq<int>, g: seq<int>, q: seq<int>, val: int, valb: int, out: seq<Byte>)
  {
    && v == g + q && Small(g) && Small(q) && |g| % 4 == 0 && |q| < 4 && val >= 0
    && out == Bytes(g) + Bytes(q)
    && (|q| == 0 ==> valb == -8)
    && (|q| == 1 ==> valb == -2 && val % 64 == q[0])
    && (|q| == 2 ==> valb == -4 && val % 16 == q[1] % 16)
    && (|q| == 3 ==> valb == -6 && val % 4 == q[2] % 4)
  }

  ghost predicate Pending(v: seq<int>, val: int, valb: int, out: seq<Byte>)
  {
    exists g, q :: PendingAt(v, g, q, val, valb, out)
  }

  // The wrap-around leaves the twelve low bits alone, and no others are written.
  lemma LowBits(val: int, w: int, y: int)
    requires 0 <= val && Sextet(w) && y == (val * 64 + w) % INT_RANGE
    ensures y >= 0 && y % 64 == w && y % 16 == w % 16 && y % 4 == w % 4
    ensures y / 16 % 256 == val % 64 * 4 + w / 16
    ensures y / 4 % 256 == val % 16 * 16 + w / 4
    ensures y % 256 == val % 4 * 64 + w
  {
    var g := Wrap(val * 64 + w);
    LowParts(val, w);
    var h := val % 64;
    By64(y, g * 64 + h, w);
    LowSixteenths(g, h, w, y);
    LowQuarters(g, h, w, y);
    By256(y, g * 16 + h / 4, h % 4 * 64 + w);
    LowerBits(val);
    LowerBits(y);
  }

  lemma Wrap(x: int) returns (g: int)
    requires x >= 0
    ensures x % INT_RANGE == g * 4096 + x % 4096
  {
    var z := x / INT_RANGE;
    assert x == z * INT_RANGE + x % INT_RANGE;
    g := x / 4096 - z * 1048576;
  }

  lemma LowParts(val: int, w: int)
    requires val >= 0 && Sextet(w)
    ensures (val * 64 + w) % 4096 == val % 64 * 64 + w
  {
    By4096(val * 64 + w, val / 64, val % 64 * 64 + w);
  }

  lemma LowSixteenths(g: int, h: int, w: int, y: int)
    requires Sextet(h) && Sextet(w) && y == g * 4096 + h * 64 + w
    ensures y / 16 % 256 == h * 4 + w / 16
  {
    By16(y, g * 256 + h * 4 + w / 16, w % 16);
    By256(y / 16, g, h * 4 + w / 16);
  }

  lemma LowQuarters(g: int, h: int, w: int, y: int)
    requires Sextet(h) && Sextet(w) && y == g * 4096 + h * 64 + w
    ensures y / 4 % 256 == h % 16 * 16 + w / 4
  {
    By4(y, g * 1024 + h * 16 + w / 4, w % 4);
    By256(y / 4, g * 4 + h / 16, h % 16 * 16 + w / 4);
  }

  // Dropping all but six bits keeps the lowest four and two.
  lemma LowerBits(x: int)
    ensures x % 64 % 16 == x % 16 && x % 64 % 4 == x % 4
  {
    var q, r := x / 64, x % 64;
    By16(x, q * 4 + r / 16, r % 16);
    By4(x, q * 16 + r / 4, r % 4);
  }

  // The byte that one more sextet completes.
  ghost function NewByte(q: seq<int>, w: int): seq<Byte>
    requires Small(q) && |q| < 4 && Sextet(w)
  {
    if |q| == 0 then [] else if |q| == 1 then [Upper(q[0], w)] else if |q| == 2 then [Middle(q[1], w)]
      else [Lower(q[2], w)]
  }

  lemma BytesGrow(q: seq<int>, w: int)
    requires Small(q) && |q| < 4 && Sextet(w)
    ensures Small(q + [w]) && Bytes(q + [w]) == Bytes(q) + NewByte(q, w)
  {
    BytesShort(q);
    if |q| == 3 {
      BytesOfGroup(q + [w]);
    } else {
      BytesShort(q + [w]);
    }
  }

  // ... and which is read off the accumulator.
  lemma WrittenByte(q: seq<int>, val: int, valb: int, w: int, y: int)
    requires Small(q) && Sextet(w) && y == (val * 64 + w) % INT_RANGE
    requires PendingAt(q, [], q, val, valb, Bytes([]) + Bytes(q))
    ensures NewByte(q, w) == if valb + 6 >= 0 then [y / Power2(valb + 6) % 256] else []
  {
    if |q| == 1 {
      UpperWritten(q[0], val, w, y);
    } else if |q| == 2 {
      MiddleWritten(q[1], val, w, y);
    } else if |q| == 3 {
      LowerWritten(q[2], val, w, y);
    }
  }

  lemma UpperWritten(a: int, val: int, w: int, y: int)
    requires val >= 0 && val % 64 == a && Sextet(w) && y == (val * 64 + w) % INT_RANGE
    ensures Upper(a, w) == y / Power2(4) % 256
  {
    LowBits(val, w, y);
    PowersUsed();
    OpenUpper(a, w);
  }

  lemma MiddleWritten(a: int, val: int, w: int, y: int)
    requires Sextet(a) && val >= 0 && val % 16 == a % 16 && Sextet(w) && y == (val * 64 + w) % INT_RANGE
    ensures Middle(a, w) == y / Power2(2) % 256
  {
    LowBits(val, w, y);
    PowersUsed();
    OpenMiddle(a, w);
  }

  lemma LowerWritten(a: int, val: int, w: int, y: int)
    requires Sextet(a) && val >= 0 && val % 4 == a % 4 && Sextet(w) && y == (val * 64 + w) % INT_RANGE
    ensures Lower(a, w) == y / Power2(0) % 256
  {
    LowBits(val, w, y);
    PowersUsed();
    OpenLower(a, w);
  }

  lemma PowersUsed()
    ensures Power2(0) == 1 && Power2(2) == 4 && Power2(4) == 16
  {
    assert Power2(1) == 2 && Power2(3) == 8;
  }

  lemma PendingStep(v: seq<int>, val: int, valb: int, out: seq<Byte>, w: int)
    requires Pending(v, val, valb, out) && Sextet(w)
    ensures var y := (val * 64 + w) % INT_RANGE;
      if valb + 6 >= 0 then
        valb + 6 <= 4 && Pending(v + [w], y, valb - 2, out + [y / Power2(valb + 6) % 256])
      else Pending(v + [w], y, valb + 6, out)
  {
    var g, q :| PendingAt(v, g, q, val, valb, out);
    var y := (val * 64 + w) % INT_RANGE;
    var out', valb' := out + NewByte(q, w), if valb + 6 >= 0 then valb - 2 else valb + 6;
    EmptyGroups(q);
    WrittenByte(q, val, valb, w, y);
    BytesGrow(q, w);
    LowBits(val, w, y);
    Reassociate(g, q, [w]);
    Reassociate(Bytes(g), Bytes(q), NewByte(q, w));
    if |q| < 3 {
      assert PendingAt(v + [w], g, q + [w], y, valb', out');
    } else {
      BytesConcat(g, q + [w]);
      EmptyGroups(g + (q + [w]));
      assert PendingAt(v + [w], g + (q + [w]), [], y, valb', out');
    }
  }

  lemma EmptyGroups(q: seq<int>)
    requires Small(q)
    ensures [] + q == q && q + [] == q && Bytes([]) == [] && Bytes([]) + Bytes(q) == Bytes(q)
      && Bytes(q) + Bytes([]) == Bytes(q)
  {
    BytesShort([]);
  }

  lemma PendingBytes(v: seq<int>, val: int, valb: int, out: seq<Byte>)
    requires Pending(v, val, valb, out)
    ensures Small(v) && val >= 0 && out == Bytes(v)
  {
    var g, q :| PendingAt(v, g, q, val, valb, out);
    BytesConcat(g, q);
  }

  lemma StartPending()
    ensures Pending([], 0, -8, [])
  {
    EmptyGroups([]);
    assert PendingAt([], [], [], 0, -8, []);
  }

  lemma OnlyLowLetters(t: seq<int>, c: Byte)
    requires IsTable(t)
    ensures c > 127 ==> t[c] == -1
    ensures t[c] != -1 ==> Sextet(t[c])
  {
  }

  method AddLetter(val: int, valb: int, out: seq<Byte>, w: int, ghost v: seq<int>)
    returns (val': int, valb': int, out': seq<Byte>)
    requires Pending(v, val, valb, out) && Sextet(w)
    ensures Pending(v + [w], val', valb', out')
  {
    PendingStep(v, val, valb, out, w);
    val' := (val * 64 + w) % INT_RANGE;
    valb' := valb + 6;
    out' := out;
    if valb' >= 0 {
      out' := out + [val' / Power2(valb') % 256];
      valb' := valb' - 8;
    }
  }

  /** _bast64_decode reads the letters before the first other character. The table is indexed by a
      signed char: if that other character is above 127, the code reads outside the table. */
  method BastDecode(s: seq<Byte>, t: seq<int>) returns (out: seq<Byte>, outside: bool)
    requires IsTable(t)
    ensures out == Bytes(Prefix(t, s))
    ensures outside <==> |Prefix(t, s)| < |s| && s[|Prefix(t, s)|] > 127
  {
    out, outside := [], false;
    var val, valb := 0, -8;
    ghost var v: seq<int> := [];
    var i := 0;
    StartPending();
    assert s[0..] == s;
    while i < |s|
      invariant 0 <= i <= |s| && |v| == i
      invariant Pending(v, val, valb, out)
      invariant v + Prefix(t, s[i..]) == Prefix(t, s)
    {
      var c := s[i];
      OnlyLowLetters(t, c);
      if c > 127 || t[c] == -1 {
        PendingBytes(v, val, valb, out);
        PrefixEnd(t, s[i..]);
        assert v + [] == v;
        return out, c > 127;
      }
      PrefixStep(t, s[i..]);
      assert s[i..][1..] == s[i+1..];
      Reassociate(v, [t[c]], Prefix(t, s[i+1..]));
      val, valb, out := AddLetter(val, valb, out, t[c], v);
      v := v + [t[c]];
      i := i + 1;
    }
    PendingBytes(v, val, valb, out);
    PrefixEnd(t, s[i..]);
    assert v + [] == v;
  }

  // ---------- round trip ----------

  lemma {:induction false} TextIsLetters(x: Context, s: seq<Byte>)
    requires Standard(x)
    ensures Rest(x, s) == Letters(x, Sextets(s)) + Repeat(EQUALS, Missing(s))
  {
    if |s| >= 3 {
      RestStep(x, s);
      TextIsLetters(x, s[3..]);
      MissingLater(s);
      SextetsStep(s);
      LettersConcat(x, Group(s[0], s[1], s[2]), Sextets(s[3..]));
      Reassociate(Letters(x, Group(s[0], s[1], s[2])), Letters(x, Sextets(s[3..])), Repeat(EQUALS, Missing(s)));
    } else {
      TextShort(x, s, 0, true);
      SextetsShort(s);
    }
  }

  lemma LettersConcat(x: Context, u: seq<int>, v: seq<int>)
    requires |x.valueToChar| == 64 && Small(u) && Small(v)
    ensures Letters(x, u + v) == Letters(x, u) + Letters(x, v)
  {
  }

  lemma {:induction false} PrefixOfLetters(x: Context, t: seq<int>, v: seq<int>, n: nat)
    requires Standard(x) && IsTable(t) && Small(v)
    ensures Prefix(t, Letters(x, v) + Repeat(EQUALS, n)) == v
  {
    var s := Letters(x, v) + Repeat(EQUALS, n);
    if |v| > 0 {
      PrefixOfLetters(x, t, v[1..], n);
      assert s[1..] == Letters(x, v[1..]) + Repeat(EQUALS, n);
      assert t[(ALPHABET + "+/")[v[0]] as int] == v[0];
      PrefixStep(t, s);
    } else {
      PrefixEnd(t, s);
    }
  }

  /** The letters of an encoded text are the sextets of its source, and what follows them is ASCII. */
  lemma BastRoundTrip(x: Context, t: seq<int>, s: seq<Byte>)
    requires Standard(x) && IsTable(t)
    ensures var v := Prefix(t, Text(x, s, 0, true));
      Bytes(v) == s && (|v| < |Text(x, s, 0, true)| ==> Text(x, s, 0, true)[|v|] <= 127)
  {
    TextIsLetters(x, s);
    PrefixOfLetters(x, t, Sextets(s), Missing(s));
    BytesOfSextets(s);
  }

  /** _bast64_decode inverts _bast64_encode, for every byte string. */
  method BastEncodeThenDecode(s: seq<Byte>, ghost x: Context) returns (text: seq<Byte>, out: seq<Byte>, outside: bool)
    requires Standard(x)
    ensures text == Text(x, s, 0, true) && !outside && out == s
  {
    text := BastEncode(s, x);
    var t := Table();
    out, outside := BastDecode(text, t);
    BastRoundTrip(x, t, s);
  }
}
