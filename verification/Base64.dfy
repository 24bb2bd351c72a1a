/** The base64 codec with a configurable alphabet, padding character and line length. */
module Base64 {
  import opened Base64Spec

  const IGNORE: int := -1
  const PAD: int := -2

  datatype Context = Context(lineLength: int, lineSeparator: seq<Byte>, valueToChar: seq<Byte>,
                             charToValue: seq<int>, padCh: Byte)

  // ---------- the alphabet ----------

  // The character for a value: letters and digits in the order of the alphabet, then the two chosen ones.
  function Letter(v: int, plus: Byte, slash: Byte): (c: Byte)
    requires 0 <= v < 64
    ensures |ALPHABET| == 62 && (v < 62 ==> c == ALPHABET[v] as int)
    ensures (v == 62 ==> c == plus) && (v == 63 ==> c == slash)
  {
    AlphabetCodes();
    if v < 26 then 65 + v else if v < 52 then 71 + v else if v < 62 then v - 4 else if v == 62 then plus else slash
  }

  ghost predicate AlphaNumeric(c: Byte)
  {
    exists v :: 0 <= v < |ALPHABET| && ALPHABET[v] as int == c
  }

  lemma AlphaNumericCodes(c: Byte)
    ensures AlphaNumeric(c) <==> 48 <= c <= 57 || 65 <= c <= 90 || 97 <= c <= 122
  {
    AlphabetCodes();
    if 65 <= c <= 90 {
      assert ALPHABET[c - 65] as int == c;
    } else if 97 <= c <= 122 {
      assert ALPHABET[c - 71] as int == c;
    } else if 48 <= c <= 57 {
      assert ALPHABET[c + 4] as int == c;
    }
  }

  // The three characters a caller chooses differ from the others and from each other.
  ghost predicate GoodChoice(plus: Byte, slash: Byte, pad: Byte)
  {
    && !AlphaNumeric(plus) && !AlphaNumeric(slash) && !AlphaNumeric(pad)
    && plus != slash && plus != pad && slash != pad
  }

  // The two tables are inverse to each other, and only the pad stands for no value.
  ghost predicate Tables(x: Context)
  {
    && |x.valueToChar| == 64 && |x.charToValue| == 256
    && (forall v :: 0 <= v < 64 ==> x.charToValue[x.valueToChar[v]] == v)
    && x.charToValue[x.padCh] == PAD
    && (forall c :: 0 <= c < 256 ==>
          x.charToValue[c] == IGNORE || x.charToValue[c] == PAD || 0 <= x.charToValue[c] < 64)
    && (forall c :: 0 <= c < 256 ==> x.charToValue[c] == PAD ==> c == x.padCh)
  }

  // Separators are made of characters that decode ignores.
  ghost predicate Separator(x: Context)
    requires Tables(x)
  {
    forall i :: 0 <= i < |x.lineSeparator| ==> x.charToValue[x.lineSeparator[i]] == IGNORE
  }

  /** base64_init_ex: the alphabet with the characters chosen, and the table back, which is its inverse
      exactly if the choice is good. */
  method InitEx(lineLength: int, plus: Byte, slash: Byte, pad: Byte) returns (x: Context)
    ensures x.lineLength == lineLength && x.lineSeparator == [10] && x.padCh == pad
    ensures |ALPHABET| == 62 && |x.valueToChar| == 64 && x.valueToChar[62] == plus && x.valueToChar[63] == slash
    ensures forall v :: 0 <= v < 62 ==> x.valueToChar[v] == ALPHABET[v] as int
    ensures GoodChoice(plus, slash, pad) <==> Tables(x)
    ensures |x.charToValue| == 256
    ensures forall c :: 0 <= c < 256 && !AlphaNumeric(c) && c != plus && c != slash && c != pad ==>
      x.charToValue[c] == IGNORE
  {
    var letters: seq<Byte> := [];
    var i := 0;
    while i < 64
      invariant 0 <= i <= 64 && |letters| == i
      invariant forall v :: 0 <= v < i ==> letters[v] == Letter(v, plus, slash)
    {
      letters := letters + [Letter(i, plus, slash)];
      i := i + 1;
    }
    assert forall v :: 0 <= v < 62 ==> letters[v] == Letter(v, plus, slash) == ALPHABET[v] as int;
    var values := seq(256, _ => IGNORE);
    i := 0;
    while i < 64
      invariant 0 <= i <= 64 && |values| == 256
      invariant forall c :: 0 <= c < 256 ==> values[c] == IGNORE || (0 <= values[c] < i && letters[values[c]] == c)
      invariant Different(letters) ==> forall v :: 0 <= v < i ==> values[letters[v]] == v
    {
      values := values[letters[i] := i];
      i := i + 1;
    }
    values := values[pad := PAD];
    x := Context(lineLength, [10], letters, values, pad);
    ChoiceIsGood(letters, plus, slash, pad);
    TablesInverse(x);
  }

  ghost predicate Different(letters: seq<Byte>)
  {
    forall v, w :: 0 <= v < w < |letters| ==> letters[v] != letters[w]
  }

  lemma ChoiceIsGood(letters: seq<Byte>, plus: Byte, slash: Byte, pad: Byte)
    requires |letters| == 64 && |ALPHABET| == 62 && letters[62] == plus && letters[63] == slash
    requires forall v :: 0 <= v < 62 ==> letters[v] == ALPHABET[v] as int
    ensures GoodChoice(plus, slash, pad) <==> Different(letters) && forall v :: 0 <= v < 64 ==> letters[v] != pad
  {
    AlphabetCodes();
  }

  // Only different characters, of which none is the pad, can be told apart.
  lemma TablesInverse(x: Context)
    requires |x.valueToChar| == 64 && |x.charToValue| == 256 && x.charToValue[x.padCh] == PAD
    ensures Tables(x) ==> Different(x.valueToChar) && forall v :: 0 <= v < 64 ==> x.valueToChar[v] != x.padCh
  {
    if Tables(x) {
      forall v, w | 0 <= v < w < 64 ensures x.valueToChar[v] != x.valueToChar[w] {
        assert x.charToValue[x.valueToChar[v]] == v && x.charToValue[x.valueToChar[w]] == w;
      }
      forall v | 0 <= v < 64 ensures x.valueToChar[v] != x.padCh {
        assert x.charToValue[x.valueToChar[v]] == v;
      }
    }
  }

  /** base64_init: the choice of RFC 4648 is good. */
  method Init(lineLength: int) returns (x: Context)
    ensures Tables(x) && x.lineLength == lineLength && x.lineSeparator == [10] && x.padCh == '=' as int
    ensures x.valueToChar == Codes(ALPHABET + "+/")
  {
    AlphaNumericCodes('+' as int);
    AlphaNumericCodes('/' as int);
    AlphaNumericCodes('=' as int);
    x := InitEx(lineLength, '+' as int, '/' as int, '=' as int);
    AlphabetCodes();
  }

  // ---------- what encode must write ----------

  // The separator before a group of four characters, and the position after it.
  ghost function Break(x: Context, pos: int): seq<Byte>
  {
    if pos + 4 > x.lineLength && x.lineLength != 0 then x.lineSeparator else []
  }

  ghost function NextPos(x: Context, pos: int): int { if pos + 4 > x.lineLength then 4 else pos + 4 }

  ghost function Letters(x: Context, v: seq<int>): (t: seq<Byte>)
    requires |x.valueToChar| == 64 && Small(v)
    ensures |t| == |v| && forall i :: 0 <= i < |v| ==> t[i] == x.valueToChar[v[i]]
  {
    seq(|v|, i requires 0 <= i < |v| => x.valueToChar[v[i]])
  }

  ghost function Repeat(c: Byte, n: nat): (t: seq<Byte>)
    ensures |t| == n && forall i :: 0 <= i < n ==> t[i] == c
  {
    seq(n, _ => c)
  }

  // A last group of one or two bytes is padded, or cut off.
  ghost function LastGroup(x: Context, s: seq<Byte>, pad: bool): seq<Byte>
    requires |x.valueToChar| == 64 && |s| <= 2
  {
    Letters(x, Sextets(s)) + Repeat(x.padCh, if pad then Missing(s) else 0)
  }

  ghost function TextFold(x: Context, s: seq<Byte>, pos: int, pad: bool): seq<Byte>
    requires |x.valueToChar| == 64
  {
    if |s| == 0 then []
    else if |s| <= 2 then Break(x, pos) + LastGroup(x, s, pad)
    else Break(x, pos) + Letters(x, Group(s[0], s[1], s[2])) + TextFold(x, s[3..], NextPos(x, pos), pad)
  }

  ghost predicate IsText(x: Context, s: seq<Byte>, pos: int, pad: bool, t: seq<Byte>)
    requires |x.valueToChar| == 64
  {
    forall u: seq<Byte> {:trigger Unfold(u)} :: u == s ==> t == TextFold(x, u, pos, pad)
  }

  // The text of s from position pos of a line on.
  ghost function Text(x: Context, s: seq<Byte>, pos: int, pad: bool): seq<Byte>
    requires |x.valueToChar| == 64
  {
    assert IsText(x, s, pos, pad, TextFold(x, s, pos, pad));
    var t: seq<Byte> :| IsText(x, s, pos, pad, t);
    t
  }

  lemma TextShort(x: Context, s: seq<Byte>, pos: int, pad: bool)
    requires |x.valueToChar| == 64 && |s| <= 2
    ensures Text(x, s, pos, pad) == if |s| == 0 then [] else Break(x, pos) + LastGroup(x, s, pad)
  {
    assert Unfold(s);
  }

  lemma TextStep(x: Context, s: seq<Byte>, pos: int, pad: bool)
    requires |x.valueToChar| == 64 && |s| >= 3
    ensures Text(x, s, pos, pad)
         == Break(x, pos) + Letters(x, Group(s[0], s[1], s[2])) + Text(x, s[3..], NextPos(x, pos), pad)
  {
    assert Unfold(s) && Unfold(s[3..]);
  }

  // One pass of the loop of base64_encode_ex, for the three bytes a, b, c.
  method EncodeGroup(x: Context, linePos: int, a: Byte, b: Byte, c: Byte) returns (out: seq<Byte>, pos: int)
    requires |x.valueToChar| == 64
    ensures out == Break(x, linePos) + Letters(x, Group(a, b, c)) && pos == NextPos(x, linePos)
  {
    out := [];
    pos := linePos + 4;
    if pos > x.lineLength {
      if x.lineLength != 0 {
        out := x.lineSeparator;
      }
      pos := 4;
    }
    var combined := a * 65536 + b * 256 + c;
    TakeApart(a, b, c, combined);
    var c3 := combined % 64;
    combined := combined / 64;
    var c2 := combined % 64;
    combined := combined / 64;
    var c1 := combined % 64;
    combined := combined / 64;
    var c0 := combined % 64;
    assert [c0, c1, c2, c3] == Group(a, b, c);
    out := out + [x.valueToChar[c0], x.valueToChar[c1], x.valueToChar[c2], x.valueToChar[c3]];
  }

  // The complete groups, n bytes of them; the rest of the text is still to come, from the
  // position given back.
  method EncodeComplete(x: Context, src: seq<Byte>, n: nat, ghost groups: nat, ghost pad: bool)
    returns (dest: seq<Byte>, linePos: int)
    requires |x.valueToChar| == 64 && n == 3 * groups && n <= |src|
    ensures dest + Text(x, src[n..], linePos, pad) == Text(x, src, 0, pad)
  {
    dest, linePos := [], 0;
    ghost var whole := Text(x, src, 0, pad);
    assert src[0..] == src;
    var i := 0;
    ghost var left := groups;
    while i < n
      invariant 0 <= i && i + 3 * left == n
      invariant dest + Text(x, src[i..], linePos, pad) == whole
    {
      dest, linePos := EncodeNext(x, src, i, dest, linePos, pad);
      i := i + 3;
      left := left - 1;
    }
    assert i == n;
  }

  method EncodeNext(x: Context, src: seq<Byte>, i: nat, dest: seq<Byte>, linePos: int, ghost pad: bool)
    returns (dest': seq<Byte>, pos: int)
    requires |x.valueToChar| == 64 && i + 3 <= |src|
    ensures dest' + Text(x, src[i+3..], pos, pad) == dest + Text(x, src[i..], linePos, pad)
  {
    assert src[i..][3..] == src[i+3..];
    TextStep(x, src[i..], linePos, pad);
    var out;
    ghost var rest := Text(x, src[i+3..], NextPos(x, linePos), pad);
    out, pos := EncodeGroup(x, linePos, src[i], src[i+1], src[i+2]);
    Reassociate(dest, out, rest);
    dest' := dest + out;
  }

  // One or two leftover bytes are filled up with zero bytes; then what those gave is overwritten
  // with pads or cut off.
  method EncodeLast(x: Context, s: seq<Byte>, linePos: int, pad: bool) returns (out: seq<Byte>)
    requires |x.valueToChar| == 64 && 1 <= |s| <= 2
    ensures out == Text(x, s, linePos, pad)
  {
    var b := if |s| == 2 then s[1] else 0;
    TextShort(x, s, linePos, pad);
    CutGroup(x, s, b, pad);
    var pos;
    out, pos := EncodeGroup(x, linePos, s[0], b, 0);
    if pad {
      out := out[|out|-1 := x.padCh];
      if |s| == 1 {
        out := out[|out|-2 := x.padCh];
      }
    } else {
      out := out[..|out| - (3 - |s|)];
    }
  }

  lemma CutGroup(x: Context, s: seq<Byte>, b: Byte, pad: bool)
    requires |x.valueToChar| == 64 && 1 <= |s| <= 2 && b == (if |s| == 2 then s[1] else 0)
    ensures var q := Letters(x, Group(s[0], b, 0));
      LastGroup(x, s, pad) == if !pad then q[..|s|+1] else if |s| == 2 then q[3 := x.padCh]
        else q[3 := x.padCh][2 := x.padCh]
  {
    SextetsShort(s);
    MissingShort(s);
    var q := Letters(x, Group(s[0], b, 0));
    assert Letters(x, Sextets(s)) == q[..|s|+1];
  }

  method EncodeEx(x: Context, src: seq<Byte>, pad: bool) returns (dest: seq<Byte>)
    requires |x.valueToChar| == 64
    ensures dest == Text(x, src, 0, pad)
  {
    if |src| == 0 {
      TextShort(x, src, 0, pad);
      return [];
    }
    var leftover := |src| % 3;
    var linePos;
    dest, linePos := EncodeComplete(x, src, |src| - leftover, |src| / 3, pad);
    if leftover > 0 {
      var last := EncodeLast(x, src[|src|-leftover..], linePos, pad);
      dest := dest + last;
    } else {
      TextShort(x, src[|src|..], linePos, pad);
    }
  }

  // ---------- what decode must read ----------

  // The values of the characters that are not ignored, pads counting as 0, and the number of pads.
  datatype Data = Data(values: seq<int>, pads: nat)

  ghost function Join(a: Data, b: Data): Data { Data(a.values + b.values, a.pads + b.pads) }

  ghost function OneData(v: int): Data
  {
    if v == IGNORE then Data([], 0) else if v == PAD then Data([0], 1) else Data([v], 0)
  }

  ghost predicate IsOne(x: Context, c: Byte, d: Data)
    requires Tables(x)
  {
    forall u: Byte {:trigger Number(u)} :: u == c ==> d == OneData(x.charToValue[u])
  }

  ghost function One(x: Context, c: Byte): (d: Data)
    requires Tables(x)
    ensures Small(d.values)
  {
    assert IsOne(x, c, OneData(x.charToValue[c]));
    var d: Data :| IsOne(x, c, d) && Small(d.values);
    d
  }

  lemma OpenOne(x: Context, c: Byte)
    requires Tables(x)
    ensures One(x, c) == OneData(x.charToValue[c])
    ensures x.charToValue[c] != IGNORE && x.charToValue[c] != PAD ==> Sextet(x.charToValue[c])
  {
    assert Number(c);
  }

  ghost function ReadFold(x: Context, s: seq<Byte>): (d: Data)
    requires Tables(x)
    ensures Small(d.values)
  {
    if |s| == 0 then Data([], 0) else Join(ReadFold(x, s[..|s|-1]), One(x, s[|s|-1]))
  }

  ghost predicate IsRead(x: Context, s: seq<Byte>, d: Data)
    requires Tables(x)
  {
    forall u: seq<Byte> {:trigger Unfold(u)} :: u == s ==> d == ReadFold(x, u)
  }

  ghost function Read(x: Context, s: seq<Byte>): (d: Data)
    requires Tables(x)
    ensures Small(d.values)
  {
    assert IsRead(x, s, ReadFold(x, s));
    var d: Data :| IsRead(x, s, d) && Small(d.values);
    d
  }

  lemma ReadEmpty(x: Context)
    requires Tables(x)
    ensures Read(x, []) == Data([], 0)
  {
    var s: seq<Byte> := [];
    assert Unfold(s);
  }

  lemma ReadSnoc(x: Context, s: seq<Byte>, c: Byte)
    requires Tables(x)
    ensures Read(x, s + [c]) == Join(Read(x, s), One(x, c))
  {
    assert Unfold(s + [c]) && Unfold(s);
    assert (s + [c])[..|s|] == s;
  }

  // out and len are what decoding the text s gives: with other than a multiple of four data
  // characters nothing; else the complete bytes, from whose number the pads are subtracted. With
  // more pads than bytes the length is negative.
  ghost predicate Decodes(x: Context, s: seq<Byte>, out: seq<Byte>, len: int)
    requires Tables(x)
  {
    var d := Read(x, s);
    if |d.values| % 4 == 0 then out == Bytes(d.values) && len == |out| - d.pads else len == 0
  }

  // base64_decode: its buffer holds `out`, its result is the first `len` bytes of it.
  method Decode(x: Context, src: seq<Byte>) returns (out: seq<Byte>, len: int)
    requires Tables(x)
    ensures Decodes(x, src, out, len)
  {
    var cycle, combined, dummies := 0, 0, 0;
    out := [];
    var i := 0;
    ghost var v: seq<int> := [];
    StartReading(x);
    while i < |src|
      invariant 0 <= i <= |src| && Read(x, src[..i]) == Data(v, dummies)
      invariant Reading(v, cycle, combined, out)
    {
      assert src[..i+1] == src[..i] + [src[i]];
      ReadSnoc(x, src[..i], src[i]);
      ghost var d := One(x, src[i]);
      cycle, combined, out, dummies := DecodeChar(x, src[i], cycle, combined, out, dummies, v);
      v := v + d.values;
      i := i + 1;
    }
    assert src[..i] == src;
    if cycle != 0 {
      return out, 0;
    }
    NothingPending(v, cycle, combined, out);
    len := |out| - dummies;
  }

  // One character of the text.
  method DecodeChar(x: Context, c: Byte, cycle: int, combined: int, out: seq<Byte>, dummies: nat, ghost v: seq<int>)
    returns (cycle': int, combined': int, out': seq<Byte>, dummies': nat)
    requires Tables(x) && Reading(v, cycle, combined, out)
    ensures Reading(v + One(x, c).values, cycle', combined', out') && dummies' == dummies + One(x, c).pads
  {
    OpenOne(x, c);
    cycle', combined', out', dummies' := cycle, combined, out, dummies;
    var value := x.charToValue[c];
    if value == IGNORE {
      assert v + [] == v;
    } else {
      if value == PAD {
        value := 0;
        dummies' := dummies + 1;
      }
      cycle', combined', out' := DecodeValue(cycle, combined, out, value, v);
    }
  }

  // One data character: the fourth of a group completes three bytes.
  method DecodeValue(cycle: int, combined: int, out: seq<Byte>, value: int, ghost v: seq<int>)
    returns (cycle': int, combined': int, out': seq<Byte>)
    requires Reading(v, cycle, combined, out) && Sextet(value)
    ensures Reading(v + [value], cycle', combined', out')
  {
    ReadOne(v, cycle, combined, out, value);
    combined' := if cycle == 0 then value else combined * 64 + value;
    if cycle < 3 {
      cycle', out' := cycle + 1, out;
    } else {
      cycle', out' := 0, out + [combined' / 65536 % 256, combined' % 65536 / 256, combined' % 256];
    }
  }

  // Up to three sextets lined up.
  ghost function LinedUp(q: seq<int>): int
  {
    if |q| == 1 then q[0]
    else if |q| == 2 then q[0] * 64 + q[1]
    else if |q| == 3 then (q[0] * 64 + q[1]) * 64 + q[2]
    else 0
  }

  // The state of decode after the values v: the complete groups g are written, the others, q, are
  // lined up.
  ghost predicate Parts(v: seq<int>, g: seq<int>, q: seq<int>, cycle: int, combined: int, out: seq<Byte>)
  {
    && v == g + q && Small(g) && Small(q) && |g| % 4 == 0 && |q| == cycle < 4
    && out == Bytes(g) && (cycle > 0 ==> combined == LinedUp(q))
  }

  ghost predicate Reading(v: seq<int>, cycle: int, combined: int, out: seq<Byte>)
  {
    exists g, q :: Parts(v, g, q, cycle, combined, out)
  }

  lemma StartReading(x: Context)
    requires Tables(x)
    ensures Read(x, []) == Data([], 0) && Reading([], 0, 0, [])
  {
    ReadEmpty(x);
    BytesShort([]);
    assert Parts([], [], [], 0, 0, []);
  }

  lemma ReadOne(v: seq<int>, cycle: int, combined: int, out: seq<Byte>, value: int)
    requires Reading(v, cycle, combined, out) && Sextet(value)
    ensures 0 <= cycle < 4
    ensures var c := if cycle == 0 then value else combined * 64 + value;
      if cycle < 3 then Reading(v + [value], cycle + 1, c, out)
      else 0 <= c && Reading(v + [value], 0, c, out + [c / 65536 % 256, c % 65536 / 256, c % 256])
  {
    var g, q :| Parts(v, g, q, cycle, combined, out);
    var c := if cycle == 0 then value else combined * 64 + value;
    Reassociate(g, q, [value]);
    if cycle < 3 {
      assert Parts(v + [value], g, q + [value], cycle + 1, c, out);
    } else {
      FourthSextet(g, q, value, c);
      assert Parts(v + [value], g + (q + [value]), [], 0, c, out + [c / 65536 % 256, c % 65536 / 256, c % 256]);
    }
  }

  lemma FourthSextet(g: seq<int>, q: seq<int>, value: int, c: int)
    requires Small(g) && Small(q) && |g| % 4 == 0 && |q| == 3 && Sextet(value) && c == LinedUp(q) * 64 + value
    ensures 0 <= c && Small(g + (q + [value])) && |g + (q + [value])| % 4 == 0
    ensures Bytes(g + (q + [value])) == Bytes(g) + [c / 65536 % 256, c % 65536 / 256, c % 256]
  {
    BytesSnoc(g, q + [value]);
    TakeApartBytes(q[0], q[1], q[2], value, c);
  }

  lemma NothingPending(v: seq<int>, cycle: int, combined: int, out: seq<Byte>)
    requires Reading(v, cycle, combined, out)
    ensures Small(v) && |v| % 4 == cycle && (cycle == 0 ==> out == Bytes(v))
  {
    var g, q :| Parts(v, g, q, cycle, combined, out);
    if cycle == 0 {
      assert v == g;
    }
  }

  /** base64_decode_auto pads a text up to a multiple of four characters first; longer texts need
      memory for that. */
  method DecodeAuto(x: Context, src: seq<Byte>, granted: bool) returns (out: seq<Byte>, len: int)
    requires Tables(x)
    ensures if Affordable(src, granted) then Decodes(x, FilledUp(x, src), out, len) else len == 0
  {
    var remain := |src| % 4;
    if remain == 0 {
      out, len := Decode(x, src);
      assert FilledUp(x, src) == src;
      return;
    }
    var padLen := 4 - remain;
    var newLen := |src| + padLen;
    if newLen > 256 && !granted {
      return [], 0;
    }
    var filled := src + seq(padLen, _ => x.padCh);
    assert filled == FilledUp(x, src);
    out, len := Decode(x, filled);
  }

  // The text needs no padding, or its padded copy fits the buffer on the stack or can be allocated.
  predicate Affordable(src: seq<Byte>, granted: bool) { |src| % 4 == 0 || |src| < 256 || granted }

  ghost function FilledUp(x: Context, src: seq<Byte>): seq<Byte>
  {
    src + Repeat(x.padCh, if |src| % 4 == 0 then 0 else 4 - |src| % 4)
  }
}
