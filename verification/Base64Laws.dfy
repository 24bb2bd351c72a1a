/** What the codec is for: decoding inverts encoding, and the length is known in advance. */
module Base64Laws {
  import opened Base64Spec
  import opened Base64

  // ---------- reading what was written ----------

  lemma {:induction false} ReadConcat(x: Context, s: seq<Byte>, t: seq<Byte>)
    requires Tables(x)
    ensures Read(x, s + t) == Join(Read(x, s), Read(x, t))
  {
    if |t| == 0 {
      ReadEmpty(x);
      assert s + t == s && t == [];
    } else {
      var u, c := t[..|t|-1], t[|t|-1];
      ReadConcat(x, s, u);
      assert t == u + [c] && s + t == s + u + [c];
      ReadSnoc(x, u, c);
      ReadSnoc(x, s + u, c);
    }
  }

  ghost predicate Nothing(d: Data) { |d.values| == 0 && d.pads == 0 }

  ghost predicate AllIgnored(x: Context, s: seq<Byte>)
    requires Tables(x)
  {
    forall i :: 0 <= i < |s| ==> Nothing(One(x, s[i]))
  }

  lemma {:induction false} ReadIgnored(x: Context, s: seq<Byte>)
    requires Tables(x) && AllIgnored(x, s)
    ensures Nothing(Read(x, s))
  {
    if |s| == 0 {
      ReadEmpty(x);
    } else {
      var u, c := s[..|s|-1], s[|s|-1];
      ReadIgnored(x, u);
      ReadSnoc(x, u, c);
      assert s == u + [c];
    }
  }

  lemma {:induction false} ReadLetters(x: Context, v: seq<int>)
    requires Tables(x) && Small(v)
    ensures Read(x, Letters(x, v)) == Data(v, 0)
  {
    if |v| == 0 {
      ReadEmpty(x);
    } else {
      var u, y := v[..|v|-1], v[|v|-1];
      ReadLetters(x, u);
      OpenOne(x, x.valueToChar[y]);
      ReadSnoc(x, Letters(x, u), x.valueToChar[y]);
      assert Letters(x, v) == Letters(x, u) + [x.valueToChar[y]];
    }
  }

  lemma {:induction false} ReadPads(x: Context, n: nat)
    requires Tables(x)
    ensures Read(x, Repeat(x.padCh, n)) == Data(Zeros(n), n)
  {
    if n == 0 {
      ReadEmpty(x);
    } else {
      ReadPads(x, n - 1);
      OpenOne(x, x.padCh);
      ReadSnoc(x, Repeat(x.padCh, n - 1), x.padCh);
      assert Repeat(x.padCh, n) == Repeat(x.padCh, n - 1) + [x.padCh];
      assert Zeros(n) == Zeros(n - 1) + [0];
    }
  }

  // Pads at the end of a text.
  ghost function Pads(s: seq<Byte>, pad: bool): nat { if pad then Missing(s) else 0 }

  ghost function DataOf(s: seq<Byte>, pad: bool): Data { Data(Sextets(s) + Zeros(Pads(s, pad)), Pads(s, pad)) }

  lemma ReadLast(x: Context, s: seq<Byte>, pad: bool)
    requires Tables(x) && |s| <= 2
    ensures Read(x, LastGroup(x, s, pad)) == DataOf(s, pad)
  {
    ReadLetters(x, Sextets(s));
    ReadPads(x, Pads(s, pad));
    ReadConcat(x, Letters(x, Sextets(s)), Repeat(x.padCh, Pads(s, pad)));
  }

  // A separator in front changes nothing.
  lemma ReadBroken(x: Context, pos: int, t: seq<Byte>)
    requires Tables(x) && Separator(x)
    ensures Read(x, Break(x, pos) + t) == Read(x, t)
  {
    forall i | 0 <= i < |Break(x, pos)| ensures Nothing(One(x, Break(x, pos)[i])) {
      OpenOne(x, Break(x, pos)[i]);
    }
    ReadIgnored(x, Break(x, pos));
    ReadConcat(x, Break(x, pos), t);
  }

  /** Whatever the line length, a text reads as the sextets of its source. */
  lemma {:induction false} ReadText(x: Context, s: seq<Byte>, pos: int, pad: bool)
    requires Tables(x) && Separator(x)
    ensures Read(x, Text(x, s, pos, pad)) == DataOf(s, pad)
    decreases |s|
  {
    if |s| == 0 {
      TextShort(x, s, pos, pad);
      SextetsShort(s);
      ReadEmpty(x);
    } else if |s| <= 2 {
      TextShort(x, s, pos, pad);
      ReadLast(x, s, pad);
      ReadBroken(x, pos, LastGroup(x, s, pad));
    } else {
      ReadText(x, s[3..], NextPos(x, pos), pad);
      ReadStep(x, s, pos, pad, Text(x, s[3..], NextPos(x, pos), pad));
    }
  }

  lemma ReadStep(x: Context, s: seq<Byte>, pos: int, pad: bool, rest: seq<Byte>)
    requires Tables(x) && Separator(x) && |s| >= 3
    requires rest == Text(x, s[3..], NextPos(x, pos), pad) && Read(x, rest) == DataOf(s[3..], pad)
    ensures Read(x, Text(x, s, pos, pad)) == DataOf(s, pad)
  {
    var q, l := Group(s[0], s[1], s[2]), Letters(x, Group(s[0], s[1], s[2]));
    TextStep(x, s, pos, pad);
    assert Text(x, s, pos, pad) == Break(x, pos) + (l + rest);
    ReadBroken(x, pos, l + rest);
    ReadLetters(x, q);
    ReadConcat(x, l, rest);
    MissingLater(s);
    SextetsStep(s);
    Reassociate(q, Sextets(s[3..]), Zeros(Pads(s, pad)));
  }

  // ---------- round trips ----------

  // out and len give s back.
  ghost predicate Gives(out: seq<Byte>, len: int, s: seq<Byte>)
  {
    len == |s| && len <= |out| && out[..len] == s
  }

  lemma DecodedFrom(x: Context, t: seq<Byte>, s: seq<Byte>, out: seq<Byte>, len: int)
    requires Tables(x) && Read(x, t) == DataOf(s, true) && Decodes(x, t, out, len)
    ensures Gives(out, len, s)
  {
    BytesFilledUp(s);
    SextetsLength(s);
    FourGroups(Groups(|s|));
    assert (s + Zeros(Missing(s)))[..|s|] == s;
  }

  /** Whatever decodes a padded text gives its source: for every byte string, every line length and
      every separator made of characters outside the alphabet. */
  lemma RoundTrip(x: Context, s: seq<Byte>, out: seq<Byte>, len: int)
    requires Tables(x) && Separator(x) && Decodes(x, Text(x, s, 0, true), out, len)
    ensures Gives(out, len, s)
  {
    ReadText(x, s, 0, true);
    DecodedFrom(x, Text(x, s, 0, true), s, out, len);
  }

  /** base64_decode after base64_encode_ex with padding. */
  method EncodeThenDecode(x: Context, s: seq<Byte>) returns (t: seq<Byte>, out: seq<Byte>, len: int)
    requires Tables(x) && Separator(x)
    ensures len == |s| && len <= |out| && out[..len] == s
  {
    t := EncodeEx(x, s, true);
    out, len := Decode(x, t);
    RoundTrip(x, s, out, len);
  }

  // Characters of all separators in the text of g groups.
  ghost function SeparatorChars(x: Context, pos: int, g: nat): nat
    decreases g
  {
    if g == 0 then 0 else |Break(x, pos)| + SeparatorChars(x, NextPos(x, pos), g - 1)
  }

  lemma {:induction false} TextLength(x: Context, s: seq<Byte>, pos: int, pad: bool)
    requires |x.valueToChar| == 64
    ensures |Text(x, s, pos, pad)| == |Sextets(s)| + Pads(s, pad) + SeparatorChars(x, pos, Groups(|s|))
    decreases |s|
  {
    if |s| >= 3 {
      TextLength(x, s[3..], NextPos(x, pos), pad);
      TextStep(x, s, pos, pad);
      SextetsStep(s);
      MissingLater(s);
      GroupsLater(|s|);
    } else {
      TextShort(x, s, pos, pad);
      if |s| > 0 {
        LastLength(x, s, pos, pad);
      } else {
        SextetsShort(s);
      }
    }
  }

  lemma LastLength(x: Context, s: seq<Byte>, pos: int, pad: bool)
    requires |x.valueToChar| == 64 && 1 <= |s| <= 2
    ensures Groups(|s|) == 1 && SeparatorChars(x, pos, 1) == |Break(x, pos)|
    ensures |LastGroup(x, s, pad)| == |Sextets(s)| + Pads(s, pad)
  {
    assert SeparatorChars(x, NextPos(x, pos), 0) == 0;
  }

  lemma {:induction false} NoSeparators(x: Context, pos: int, g: nat)
    requires x.lineLength == 0
    ensures SeparatorChars(x, pos, g) == 0
    decreases g
  {
    if g > 0 {
      NoSeparators(x, NextPos(x, pos), g - 1);
    }
  }

  // The pads that base64_decode_auto adds to an unpadded text are the missing ones exactly if the
  // separators take a multiple of four characters.
  lemma AddedPads(v: nat, missing: nat, b: nat, n: nat)
    requires (v + missing) % 4 == 0 && missing < 4 && n == v + b
    ensures var p := if n % 4 == 0 then 0 else 4 - n % 4;
      && (b % 4 == 0 ==> p == missing)
      && (b % 4 != 0 ==> (v + p) % 4 != 0)
  {
  }

  lemma ReadFilledUp(x: Context, s: seq<Byte>, t: seq<Byte>, p: nat)
    requires Tables(x) && Separator(x) && t == Text(x, s, 0, false)
    ensures Read(x, t + Repeat(x.padCh, p)) == Data(Sextets(s) + Zeros(p), p)
  {
    ReadText(x, s, 0, false);
    ReadPads(x, p);
    ReadConcat(x, t, Repeat(x.padCh, p));
    assert Sextets(s) + Zeros(0) == Sextets(s);
  }

  /** Whatever decodes an unpadded text filled up with pads gives its source exactly if the
      separators in it take a multiple of four characters: without line breaks they always do. */
  lemma RoundTripAuto(x: Context, s: seq<Byte>, out: seq<Byte>, len: int)
    requires Tables(x) && Separator(x) && Decodes(x, FilledUp(x, Text(x, s, 0, false)), out, len)
    ensures Gives(out, len, s) <==> SeparatorChars(x, 0, Groups(|s|)) % 4 == 0
    ensures x.lineLength == 0 ==> Gives(out, len, s)
  {
    var t, v, b := Text(x, s, 0, false), Sextets(s), SeparatorChars(x, 0, Groups(|s|));
    var p := if |t| % 4 == 0 then 0 else 4 - |t| % 4;
    TextLength(x, s, 0, false);
    SextetsLength(s);
    FourGroups(Groups(|s|));
    AddedPads(|v|, Missing(s), b, |t|);
    ReadFilledUp(x, s, t, p);
    if b % 4 == 0 {
      DecodedFrom(x, FilledUp(x, t), s, out, len);
    } else {
      NotEmpty(x, s);
    }
    if x.lineLength == 0 {
      NoSeparators(x, 0, Groups(|s|));
    }
  }

  lemma NotEmpty(x: Context, s: seq<Byte>)
    requires SeparatorChars(x, 0, Groups(|s|)) != 0
    ensures |s| > 0
  {
  }

  /** base64_decode_auto after base64_encode_ex without padding. */
  method EncodeThenDecodeAuto(x: Context, s: seq<Byte>, granted: bool) returns (t: seq<Byte>, out: seq<Byte>, len: int)
    requires Tables(x) && Separator(x)
    ensures t == Text(x, s, 0, false)
    ensures Affordable(t, granted) ==>
      (len == |s| && len <= |out| && out[..len] == s <==> SeparatorChars(x, 0, Groups(|s|)) % 4 == 0)
    ensures Affordable(t, granted) && x.lineLength == 0 ==> len == |s| && len <= |out| && out[..len] == s
    ensures !Affordable(t, granted) ==> len == 0
  {
    t := EncodeEx(x, s, false);
    out, len := DecodeAuto(x, t, granted);
    if Affordable(t, granted) {
      RoundTripAuto(x, s, out, len);
    }
  }

  /** Two groups on two lines: without padding, decode_auto gives the bytes back only if the one
      separator takes a multiple of four characters. */
  method TwoLinesFail(x: Context, s: seq<Byte>, granted: bool) returns (t: seq<Byte>, out: seq<Byte>, len: int)
    requires Tables(x) && Separator(x) && x.lineLength == 4 && |s| == 6 && |x.lineSeparator| % 4 != 0
    ensures !(len == |s| && len <= |out| && out[..len] == s)
  {
    t, out, len := EncodeThenDecodeAuto(x, s, granted);
    assert NextPos(x, 0) == NextPos(x, 4) == 4;
    assert SeparatorChars(x, 4, 1) == |x.lineSeparator| + SeparatorChars(x, 4, 0);
  }

  // ---------- the length in advance ----------

  // Division of ints in C.
  function Quotient(a: int, b: int): int
    requires b != 0
  {
    var q := (if a < 0 then -a else a) / (if b < 0 then -b else b);
    if (a < 0) == (b < 0) then q else -q
  }

  // base64_get_encode_length; 0 as line length means no line breaks.
  function EncodeLength(x: Context, n: nat): int
  {
    var outputLength := (n + 2) / 3 * 4;
    if x.lineLength != 0 then
      var lines := Quotient(outputLength + x.lineLength - 1, x.lineLength) - 1;
      if lines > 0 then outputLength + lines * |x.lineSeparator| else outputLength
    else outputLength
  }

  // g is the number of whole or partial groups of n bytes, lines that of the line ends before its last character.
  ghost predicate InLines(lineLength: int, n: nat, g: nat, lines: nat)
  {
    && 3 * g < n + 3 && n <= 3 * g
    && if lineLength > 0 && n > 0 then lines * lineLength < 4 * g <= lines * lineLength + lineLength
       else lines == if lineLength == -1 && n == 0 then 1 else 0
  }

  /** The length given in advance counts four characters a group and one separator a line end; with a line
      length of -1 it counts one for no characters at all. */
  lemma EncodeLengthIs(x: Context, n: nat) returns (g: nat, lines: nat)
    ensures InLines(x.lineLength, n, g, lines)
    ensures EncodeLength(x, n) == 4 * g + lines * |x.lineSeparator|
  {
    g := (n + 2) / 3;
    lines := 0;
    if x.lineLength > 0 && n > 0 {
      lines := LinesOf(4 * g, x.lineLength);
    } else if x.lineLength > 0 {
      SmallQuotient(x.lineLength - 1, x.lineLength);
    } else if x.lineLength < 0 {
      NegativeEnds(4 * g, x.lineLength);
      if x.lineLength == -1 && n == 0 {
        lines := 1;
      }
    }
  }

  lemma SmallQuotient(a: int, b: int)
    requires 0 <= a < b
    ensures Quotient(a, b) == 0
  {
    var q := a / b;
    assert a == q * b + a % b;
    Multiple(q, b);
  }

  lemma Multiple(q: int, b: int)
    requires b > 0
    ensures (q >= 1 ==> q * b >= b) && (q <= -1 ==> q * b <= -b)
  {
    assert q * b == (q - 1) * b + b == (q + 1) * b - b;
  }

  lemma LinesOf(out: nat, k: int) returns (lines: nat)
    requires out > 0 && k > 0
    ensures lines == Quotient(out + k - 1, k) - 1 && lines * k < out <= lines * k + k
  {
    var a := out + k - 1;
    var q := a / k;
    assert a == q * k + a % k;
    AtLeastOne(a, k);
    lines := q - 1;
    assert q * k == lines * k + k;
  }

  lemma AtLeastOne(a: int, k: int)
    requires a >= k > 0
    ensures a / k >= 1
  {
  }

  lemma NegativeEnds(out: nat, k: int)
    requires k < 0 && (out == 0 || out >= 4)
    ensures Quotient(out + k - 1, k) - 1 <= if out == 0 && k == -1 then 1 else 0
    ensures out == 0 && k == -1 ==> Quotient(out + k - 1, k) == 2
  {
    var a := out + k - 1;
    if a < 0 {
      var q := -a / -k;
      assert -a == q * -k + -a % -k;
      if out == 0 && k != -1 {
        assert -a < 2 * -k;
      }
      if out >= 4 {
        assert -a < -k;
      }
    }
  }

  // Line breaks before g more groups, with k groups on a line and p on the current one.
  ghost function Breaks(k: nat, p: nat, g: nat): nat
    decreases g
  {
    if g == 0 then 0 else if p + 1 > k then 1 + Breaks(k, 1, g - 1) else Breaks(k, p + 1, g - 1)
  }

  lemma {:induction false} BreaksCount(k: nat, p: nat, g: nat)
    requires 0 < k && p <= k && g > 0
    ensures Breaks(k, p, g) == (p + g + k - 1) / k - 1
    decreases g
  {
    if g == 1 {
      if p == k {
        DivideBy(2 * k, k, 2, 0);
      } else {
        DivideBy(p + k, k, 1, p);
      }
    } else if p == k {
      BreaksCount(k, 1, g - 1);
      OneMore(g + k - 1, k);
    } else {
      BreaksCount(k, p + 1, g - 1);
    }
  }

  lemma OneMore(y: nat, k: nat)
    requires k > 0
    ensures (y + k) / k == y / k + 1
  {
    DivideBy(y + k, k, y / k + 1, y % k);
  }

  lemma DivideBy(x: nat, d: nat, q: nat, r: nat)
    requires d > 0 && x == q * d + r && r < d
    ensures x / d == q
  {
    var a := x / d;
    if a > q {
      AtLeast(a, q, d);
    } else if a < q {
      AtLeast(q, a, d);
    }
  }

  lemma AtLeast(a: nat, b: nat, d: nat)
    requires a > b
    ensures a * d >= b * d + d
  {
    var n := a - b;
    assert a * d == (b + n) * d == b * d + n * d;
    assert n * d == d + (n - 1) * d;
  }

  lemma {:induction false} SeparatorsAreBreaks(x: Context, k: nat, p: nat, g: nat)
    requires 0 < k && p <= k && 4 * k <= x.lineLength < 4 * k + 4
    ensures SeparatorChars(x, 4 * p, g) == Breaks(k, p, g) * |x.lineSeparator|
    decreases g
  {
    if g > 0 {
      var q := if p + 1 > k then 1 else p + 1;
      assert NextPos(x, 4 * p) == 4 * q;
      SeparatorsAreBreaks(x, k, q, g - 1);
      OneMoreTime(Breaks(k, q, g - 1), |x.lineSeparator|);
    }
  }

  lemma OneMoreTime(b: nat, n: nat)
    ensures (1 + b) * n == n + b * n
  {
  }

  lemma SameBreaks(k: nat, g: nat)
    requires 0 < k
    ensures var lines := (4 * g + 4 * k - 1) / (4 * k) - 1;
      Breaks(k, 0, g) == if lines > 0 then lines else 0
  {
    if g == 0 {
      DivideBy(4 * k - 1, 4 * k, 0, 4 * k - 1);
    } else {
      BreaksCount(k, 0, g);
      Quarters(k, g + k - 1, (g + k - 1) / k, (g + k - 1) % k);
    }
  }

  lemma Quarters(k: nat, y: nat, q: nat, r: nat)
    requires 0 < k && y == q * k + r && r < k
    ensures (4 * y + 3) / (4 * k) == q
  {
    assert 4 * y + 3 == q * (4 * k) + (4 * r + 3);
    DivideBy(4 * y + 3, 4 * k, q, 4 * r + 3);
  }

  // The length given in advance is that of the padded text if whole groups fill the lines ...
  lemma WholeLines(x: Context, s: seq<Byte>)
    requires |x.valueToChar| == 64 && x.lineLength >= 0 && x.lineLength % 4 == 0
    ensures |Text(x, s, 0, true)| == EncodeLength(x, |s|)
  {
    PaddedLength(x, s);
    if x.lineLength == 0 {
      NoSeparators(x, 0, Groups(|s|));
    } else {
      var k := x.lineLength / 4;
      SeparatorsAreBreaks(x, k, 0, Groups(|s|));
      SameBreaks(k, Groups(|s|));
      LengthFormula(x, |s|, k, Breaks(k, 0, Groups(|s|)));
    }
  }

  lemma LengthFormula(x: Context, n: nat, k: nat, b: nat)
    requires x.lineLength == 4 * k > 0
    requires var lines := (4 * Groups(n) + 4 * k - 1) / (4 * k) - 1; b == if lines > 0 then lines else 0
    ensures EncodeLength(x, n) == 4 * Groups(n) + b * |x.lineSeparator|
  {
    assert (n + 2) / 3 * 4 == 4 * Groups(n);
  }

  lemma PaddedLength(x: Context, s: seq<Byte>)
    requires |x.valueToChar| == 64
    ensures |Text(x, s, 0, true)| == 4 * Groups(|s|) + SeparatorChars(x, 0, Groups(|s|))
  {
    TextLength(x, s, 0, true);
    SextetsLength(s);
  }

  // ... or if nothing separates them.
  lemma {:induction false} EmptySeparators(x: Context, pos: int, g: nat)
    requires |x.lineSeparator| == 0
    ensures SeparatorChars(x, pos, g) == 0
    decreases g
  {
    if g > 0 {
      EmptySeparators(x, NextPos(x, pos), g - 1);
    }
  }

  // Lines too short for one group: there is a line break before each, even the first.
  lemma {:induction false} ShortLines(x: Context, pos: nat, g: nat)
    requires x.lineLength < 4 && x.lineLength != 0
    ensures SeparatorChars(x, pos, g) == g * |x.lineSeparator|
    decreases g
  {
    if g > 0 {
      ShortLines(x, 4, g - 1);
      OneMoreTime(g - 1, |x.lineSeparator|);
    }
  }

  // Sources whose text is longer than the length given in advance: one group, if the line length is
  // negative ...
  lemma TooShortNegative(x: Context, s: seq<Byte>)
    requires |x.valueToChar| == 64 && |x.lineSeparator| > 0 && x.lineLength < 0 && |s| == 3
    ensures |Text(x, s, 0, true)| > EncodeLength(x, |s|)
  {
    PaddedLength(x, s);
    ShortLines(x, 0, 1);
    NegativeLines(x.lineLength);
  }

  // ... or one group more than four lines hold, if whole groups do not fill a line.
  lemma TooShort(x: Context, k: nat, s: seq<Byte>)
    requires |x.valueToChar| == 64 && |x.lineSeparator| > 0
    requires 0 < k && 4 * k < x.lineLength < 4 * k + 4 && |s| == 3 * (4 * k + 1)
    ensures |Text(x, s, 0, true)| > EncodeLength(x, |s|)
  {
    var g, b := 4 * k + 1, |x.lineSeparator|;
    PaddedLength(x, s);
    assert Groups(|s|) == g;
    SeparatorsAreBreaks(x, k, 0, g);
    BreaksCount(k, 0, g);
    DivideBy(5 * k, k, 5, 0);
    FewerLines(k, x.lineLength);
    FewerSeparators(x, |s|, g, 3);
  }

  lemma FewerSeparators(x: Context, n: nat, g: nat, most: nat)
    requires x.lineLength > 0 && (n + 2) / 3 == g && (4 * g + x.lineLength - 1) / x.lineLength - 1 <= most
    ensures EncodeLength(x, n) <= 4 * g + most * |x.lineSeparator|
  {
    var lines := (4 * g + x.lineLength - 1) / x.lineLength - 1;
    if 0 < lines < most {
      AtLeast(most, lines, |x.lineSeparator|);
    }
  }

  lemma NegativeLines(l: int)
    requires l < 0
    ensures Quotient(3 + l, l) - 1 <= 0
  {
    if l <= -4 {
      DivideBy(-3 - l, -l, 0, -3 - l);
    } else {
      assert l == -1 || l == -2 || l == -3;
    }
  }

  lemma FewerLines(k: nat, l: int)
    requires 0 < k && 4 * k < l < 4 * k + 4
    ensures (4 * (4 * k + 1) + l - 1) / l - 1 <= 3
  {
    var q := (4 * (4 * k + 1) + l - 1) / l;
    if q >= 5 {
      AtLeast(q, 4, l);
    }
  }

  // ... and sources whose text is shorter: lines of one to three characters, and four groups.
  lemma TooLong(x: Context, s: seq<Byte>)
    requires |x.valueToChar| == 64 && |x.lineSeparator| > 0 && 0 < x.lineLength < 4 && |s| == 12
    ensures |Text(x, s, 0, true)| < EncodeLength(x, |s|)
  {
    PaddedLength(x, s);
    ShortLines(x, 0, 4);
    var lines := (16 + x.lineLength - 1) / x.lineLength - 1;
    assert lines >= 5;
    AtLeast(lines, 4, |x.lineSeparator|);
  }

  ghost predicate ExactFor(x: Context, s: seq<Byte>)
    requires |x.valueToChar| == 64
  {
    |Text(x, s, 0, true)| == EncodeLength(x, |s|)
  }

  /** The length given in advance is that of the padded text, for every source, exactly if the lines
      are made of whole groups or there is no separator; base64_init_ex does not see to that. */
  lemma EncodeLengthIsExact(x: Context)
    requires |x.valueToChar| == 64
    ensures (forall s :: ExactFor(x, s)) <==> |x.lineSeparator| == 0 || (x.lineLength >= 0 && x.lineLength % 4 == 0)
  {
    if |x.lineSeparator| == 0 {
      forall s ensures ExactFor(x, s) {
        PaddedLength(x, s);
        EmptySeparators(x, 0, Groups(|s|));
      }
    } else if x.lineLength >= 0 && x.lineLength % 4 == 0 {
      forall s ensures ExactFor(x, s) {
        WholeLines(x, s);
      }
    } else if x.lineLength < 0 {
      var s := seq(3, _ => 0);
      TooShortNegative(x, s);
      assert !ExactFor(x, s);
    } else if x.lineLength < 4 {
      var s := seq(12, _ => 0);
      TooLong(x, s);
      assert !ExactFor(x, s);
    } else {
      var k := x.lineLength / 4;
      var s := seq(3 * (4 * k + 1), _ => 0);
      TooShort(x, k, s);
      assert !ExactFor(x, s);
    }
  }
}
