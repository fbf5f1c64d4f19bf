/** The parser accepts exactly the texts of the grammar, and gives them their trees. */
module JsonAccepts {
  import opened Common
  import opened Bytes
  import opened Json
  import opened Utf8
  import opened JsonString
  import E = JsonEscapes
  import opened JsonGrammar
  import P = JsonParser

  // ----- hexadecimal digits -----

  lemma HexByteValue(d: nat, cap: bool)
    requires d < 16
    ensures IsHexDigit(HexByte(d, cap)) && HexValue(HexByte(d, cap)) == d
  {
  }

  /** Four digits, each with a small or a capital letter, are read as the number they stand for. */
  lemma FourDigitsValue(v: nat, caps: seq<bool>)
    requires v <= 0xFFFF && |caps| == 4
    ensures FourHexDigits(FourDigits(v, caps), 0) && Hex4(FourDigits(v, caps), 0) == v
  {
    hide HexByte, HexValue, IsHexDigit;
    Recompose(v);
    HexByteValue(v / 4096, caps[0]);
    HexByteValue(v / 256 % 16, caps[1]);
    HexByteValue(v / 16 % 16, caps[2]);
    HexByteValue(v % 16, caps[3]);
  }

  lemma Recompose(v: nat)
    ensures 4096 * (v / 4096) + 256 * (v / 256 % 16) + 16 * (v / 16 % 16) + v % 16 == v
  {
    assert v / 4096 == v / 256 / 16 && v / 256 == v / 16 / 16;
  }

  lemma HexByteOf(b: Byte) returns (cap: bool)
    requires IsHexDigit(b)
    ensures HexByte(HexValue(b), cap) == b
  {
    cap := b <= 0x46;
  }

  lemma FourDigitsOf(t: Text) returns (caps: seq<bool>)
    requires |t| == 4 && FourHexDigits(t, 0)
    ensures |caps| == 4 && FourDigits(Hex4(t, 0), caps) == t
  {
    hide HexByte, HexValue;
    var a := HexByteOf(t[0]);
    var b := HexByteOf(t[1]);
    var c := HexByteOf(t[2]);
    var d := HexByteOf(t[3]);
    caps := [a, b, c, d];
    var h0, h1, h2, h3 := HexValue(t[0]), HexValue(t[1]), HexValue(t[2]), HexValue(t[3]);
    Places(h0, h1, h2, h3);
  }

  lemma Places(h0: nat, h1: nat, h2: nat, h3: nat)
    requires h0 < 16 && h1 < 16 && h2 < 16 && h3 < 16
    ensures
      var v := 4096 * h0 + 256 * h1 + 16 * h2 + h3;
      v / 4096 == h0 && v / 256 % 16 == h1 && v / 16 % 16 == h2 && v % 16 == h3
  {
    var v := 4096 * h0 + 256 * h1 + 16 * h2 + h3;
    Place(256 * h0 + 16 * h1 + h2, h3, v);
    Place(16 * h0 + h1, h2, v / 16);
    Place(h0, h1, v / 256);
  }

  lemma Place(rest: nat, digit: nat, v: nat)
    requires digit < 16 && v == 16 * rest + digit
    ensures v / 16 == rest && v % 16 == digit
  {
  }

  // ----- characters and tokens -----

  lemma TokenOfChar(ch: Char) returns (t: E.Token)
    requires OkChar(ch)
    ensures t.Ok() && t.Source() == CharText(ch) && t.Meaning() == CharValue(ch)
  {
    hide FourDigits, Hex4;
    match ch
    case Plain(b) => t := E.Raw(b);
    case Short(letter) => t := E.Simple(letter);
    case Escaped(cp, caps) =>
      if cp < 0x10000 {
        FourDigitsValue(cp, caps);
        t := E.Unit(FourDigits(cp, caps));
      } else {
        var high, low := 0xD800 + (cp - 0x10000) / 0x400, 0xDC00 + (cp - 0x10000) % 0x400;
        FourDigitsValue(high, caps[..4]);
        FourDigitsValue(low, caps[4..]);
        t := E.Pair(FourDigits(high, caps[..4]), FourDigits(low, caps[4..]));
      }
  }

  lemma CharOfToken(t: E.Token) returns (ch: Char)
    requires t.Ok()
    ensures OkChar(ch) && t.Source() == CharText(ch) && t.Meaning() == CharValue(ch)
  {
    hide FourDigits, Hex4;
    match t
    case Raw(b) => ch := Plain(b);
    case Simple(letter) => ch := Short(letter);
    case Unit(digits) =>
      var caps := FourDigitsOf(digits);
      ch := Escaped(Hex4(digits, 0), caps);
    case Pair(high, low) =>
      var a := FourDigitsOf(high);
      var b := FourDigitsOf(low);
      ch := Escaped(t.Scalar(), a + b);
      assert (a + b)[..4] == a && (a + b)[4..] == b;
  }

  lemma {:induction false} TokensOfChars(chars: seq<Char>) returns (tokens: seq<E.Token>)
    requires OkChars(chars)
    ensures E.AllOk(tokens) && E.Source(tokens) == CharsText(chars) && E.Meaning(tokens) == CharsValue(chars)
  {
    hide CharText, CharValue, OkChar;
    tokens := [];
    if chars != [] {
      var t := TokenOfChar(chars[0]);
      var rest := TokensOfChars(chars[1..]);
      E.SourceCons(t, rest);
      tokens := [t] + rest;
    }
  }

  lemma {:induction false} CharsOfTokens(tokens: seq<E.Token>) returns (chars: seq<Char>)
    requires E.AllOk(tokens)
    ensures OkChars(chars) && E.Source(tokens) == CharsText(chars) && E.Meaning(tokens) == CharsValue(chars)
  {
    hide CharText, CharValue, OkChar;
    chars := [];
    if tokens != [] {
      var ch := CharOfToken(tokens[0]);
      var rest := CharsOfTokens(tokens[1..]);
      chars := [ch] + rest;
      assert chars[1..] == rest;
    }
  }

  /** The first scan steps over a token. */
  lemma ScanOverToken(t: E.Token, c: Text, at: nat)
    requires t.Ok() && At(c, at, t.Source())
    ensures ScanEnd(c, at) == ScanEnd(c, at + |t.Source()|)
  {
    hide Hex4, IsScalar, SimpleEscape;
    var mark := [BACKSLASH, LETTER_U];
    match t
    case Raw(_) => AtHead(c, at, t.Source());
    case Simple(_) =>
      AtHead(c, at, t.Source());
      AtHead(c, at + 1, t.Source()[1..]);
    case Unit(digits) =>
      AtSplit(c, at, mark, digits);
      E.EscapeHead(c, at);
      E.HexIn(c, at + 2, digits);
      ScanOverUnit(c, at);
    case Pair(high, low) =>
      AtSplit(c, at, mark + high + mark, low);
      AtSplit(c, at, mark + high, mark);
      AtSplit(c, at, mark, high);
      E.EscapeHead(c, at);
      E.EscapeHead(c, at + 6);
      E.HexIn(c, at + 2, high);
      E.HexIn(c, at + 8, low);
      ScanOverUnit(c, at);
      ScanOverUnit(c, at + 6);
  }

  lemma ScanOverUnit(c: Text, at: nat)
    requires at + 6 <= |c| && c[at] == BACKSLASH && c[at + 1] == LETTER_U && FourHexDigits(c, at + 2)
    ensures ScanEnd(c, at) == ScanEnd(c, at + 6)
  {
    assert ScanEnd(c, at) == ScanEnd(c, at + 2);
    assert ScanEnd(c, at + 2) == ScanEnd(c, at + 3);
    assert ScanEnd(c, at + 3) == ScanEnd(c, at + 4);
    assert ScanEnd(c, at + 4) == ScanEnd(c, at + 5);
  }

  lemma {:induction false} ScanOverTokens(tokens: seq<E.Token>, c: Text, at: nat)
    requires E.AllOk(tokens) && At(c, at, E.Source(tokens))
    requires at + |E.Source(tokens)| < |c| && c[at + |E.Source(tokens)|] == QUOTE
    ensures ScanEnd(c, at) == Some(at + |E.Source(tokens)|)
  {
    hide E.Token.Ok, E.Token.Source, At;
    if tokens != [] {
      AtSplit(c, at, tokens[0].Source(), E.Source(tokens[1..]));
      ScanOverToken(tokens[0], c, at);
      ScanOverTokens(tokens[1..], c, at + |tokens[0].Source()|);
    }
  }

  // ----- a string by itself and in a text -----

  lemma Index(c: Text, off: nat, d: Text, i: nat)
    requires At(c, off, d) && i < |d|
    ensures off + i < |c| && c[off + i] == d[i]
  {
    assert c[off..off + |d|][i] == c[off + i];
  }

  lemma {:induction false} ScanShift(c: Text, off: nat, d: Text, i: nat)
    requires At(c, off, d) && d != [] && d[|d| - 1] == QUOTE && i <= |d|
    ensures ScanEnd(d, i) == Some(|d| - 1) <==> ScanEnd(c, off + i) == Some(off + |d| - 1)
    decreases |d| - i
  {
    if i < |d| {
      Index(c, off, d, i);
      if d[i] == BACKSLASH {
        ScanShift(c, off, d, i + 2);
      } else if d[i] != QUOTE {
        ScanShift(c, off, d, i + 1);
      }
    }
  }

  lemma HexShift(c: Text, off: nat, d: Text, i: nat)
    requires At(c, off, d) && i + 4 <= |d|
    ensures off + i + 4 <= |c|
    ensures FourHexDigits(c, off + i) <==> FourHexDigits(d, i)
    ensures Hex4(c, off + i) == Hex4(d, i)
  {
    Index(c, off, d, i);
    Index(c, off, d, i + 1);
    Index(c, off, d, i + 2);
    Index(c, off, d, i + 3);
  }

  lemma UnescapeShift(c: Text, off: nat, d: Text, p: nat)
    requires At(c, off, d) && p + 1 < |d|
    ensures off + |d| <= |c| && Unescape(c, off + p, off + |d| - 1) == Unescape(d, p, |d| - 1)
  {
    hide Hex4, At;
    Index(c, off, d, p);
    Index(c, off, d, p + 1);
    Index(c, off, d, |d| - 1);
    if p + 6 <= |d| - 1 {
      HexShift(c, off, d, p + 2);
    }
    if p + 12 <= |d| - 1 {
      Index(c, off, d, p + 6);
      Index(c, off, d, p + 7);
      HexShift(c, off, d, p + 8);
    }
  }

  lemma {:induction false} DecodeShift(c: Text, off: nat, d: Text, p: nat)
    requires At(c, off, d) && d != []
    ensures Decode(c, off + p, off + |d| - 1) == Decode(d, p, |d| - 1)
    decreases |d| - p
  {
    hide Unescape;
    if p + 1 < |d| {
      UnescapeShift(c, off, d, p);
      var u := Unescape(d, p, |d| - 1);
      if u.Some? {
        DecodeShift(c, off, d, p + u.value.length);
      }
    }
  }

  lemma {:induction false} WellFormedShift(c: Text, off: nat, d: Text, p: nat)
    requires At(c, off, d) && d != []
    ensures E.WellFormedEscapes(c, off + p, off + |d| - 1) <==> E.WellFormedEscapes(d, p, |d| - 1)
    decreases |d| - p
  {
    hide FourHexDigits;
    if p + 1 < |d| {
      Index(c, off, d, p);
      Index(c, off, d, p + 1);
      if d[p] != BACKSLASH {
        WellFormedShift(c, off, d, p + 1);
      } else if d[p + 1] != LETTER_U {
        WellFormedShift(c, off, d, p + 2);
      } else if p + 6 <= |d| - 1 {
        HexShift(c, off, d, p + 2);
        WellFormedShift(c, off, d, p + 6);
      }
    }
  }

  // ----- string literals -----

  lemma StringRead(c: Text, off: nat, end: nat, s: Text)
    requires off < |c| && c[off] == QUOTE && ScanEnd(c, off + 1) == Some(end) && Decode(c, off + 1, end) == Some(s)
    ensures P.ParseString(c, off) == P.Ok(CString(s), end + 1)
  {
    hide ScanEnd, Decode, CString;
  }

  lemma ReadsChars(chars: seq<Char>, c: Text, start: nat)
    requires OkChars(chars) && At(c, start, CharsText(chars) + [0x22])
    ensures
      var end := start + |CharsText(chars)|;
      ScanEnd(c, start) == Some(end) && end < |c| && Decode(c, start, end) == Some(CharsValue(chars))
  {
    hide ScanEnd, Decode, CharsText, CharsValue, At;
    var end := start + |CharsText(chars)|;
    AtSplit(c, start, CharsText(chars), [0x22]);
    AtHead(c, end, [0x22]);
    var tokens := TokensOfChars(chars);
    ScanOverTokens(tokens, c, start);
    E.DecodeTokens(tokens, c, start, end);
  }

  /** Every scalar value decodes to its UTF-8 bytes, written as a \u escape or as a surrogate
      pair, in small and capital letters. */
  lemma EveryScalarDecodes(cp: nat, caps: seq<bool>, c: Text, start: nat)
    requires IsScalar(cp) && |caps| == if cp < 0x10000 then 4 else 8
    requires At(c, start, CharText(Escaped(cp, caps)) + [0x22])
    ensures
      var end := start + if cp < 0x10000 then 6 else 12;
      ScanEnd(c, start) == Some(end) && end < |c| && Decode(c, start, end) == Some(Encode(cp))
  {
    hide ScanEnd, Decode, Encode;
    var chars := [Escaped(cp, caps)];
    assert CharsText(chars) == CharText(chars[0]) + [] && CharsValue(chars) == CharValue(chars[0]) + [];
    assert CharText(chars[0]) + [] == CharText(chars[0]) && Encode(cp) + [] == Encode(cp);
    ReadsChars(chars, c, start);
  }

  lemma ReadsOdd(source: Text, value: Text, c: Text, start: nat)
    requires IsOdd(source, value) && At(c, start, source + [0x22])
    ensures
      var end := start + |source|;
      ScanEnd(c, start) == Some(end) && end < |c| && Decode(c, start, end) == Some(value)
  {
    hide ScanEnd, Decode, E.WellFormedEscapes;
    ScanShift(c, start, source + [0x22], 0);
    DecodeShift(c, start, source + [0x22], 0);
  }

  /** A literal is read wherever it stands. */
  lemma ReadsLiteral(literal: Spelling, c: Text, off: nat)
    requires OkLiteral(literal) && At(c, off, LiteralText(literal))
    ensures P.ParseString(c, off) == P.Ok(LiteralValue(literal), off + |LiteralText(literal)|)
  {
    hide At, ScanEnd, Decode, CString, CharsText, CharsValue, IsOdd, P.ParseString, OkChars;
    var body := if literal.Chars? then CharsText(literal.chars) else literal.source;
    AtSplit(c, off, [0x22], body + [0x22]);
    AtHead(c, off, [0x22]);
    match literal
    case Chars(chars) =>
      ReadsChars(chars, c, off + 1);
      StringRead(c, off, off + 1 + |body|, CharsValue(chars));
    case Odd(source, value) =>
      ReadsOdd(source, value, c, off + 1);
      StringRead(c, off, off + 1 + |body|, value);
  }

  lemma OddAt(c: Text, start: nat, end: nat)
    requires ScanEnd(c, start) == Some(end) && !E.WellFormedEscapes(c, start, end) && Decode(c, start, end).Some?
    ensures IsOdd(c[start..end], Decode(c, start, end).value)
  {
    hide ScanEnd, Decode, E.WellFormedEscapes;
    var d := c[start..end] + [0x22];
    assert c[start..start + |d|] == d;
    ScanShift(c, start, d, 0);
    DecodeShift(c, start, d, 0);
    WellFormedShift(c, start, d, 0);
  }

  lemma StringParts(c: Text, off: nat) returns (end: nat)
    requires P.ParseString(c, off).Ok?
    ensures off < |c| && c[off] == QUOTE && ScanEnd(c, off + 1) == Some(end) && Decode(c, off + 1, end).Some?
    ensures P.ParseString(c, off) == P.Ok(CString(Decode(c, off + 1, end).value), end + 1)
  {
    hide ScanEnd, Decode, CString;
    end := ScanEnd(c, off + 1).value;
  }

  lemma QuotedText(c: Text, off: nat, end: nat)
    requires off < end < |c| && c[off] == 0x22 && c[end] == 0x22
    ensures At(c, off, [0x22] + (c[off + 1..end] + [0x22]))
  {
    assert c[off..end + 1] == [0x22] + (c[off + 1..end] + [0x22]);
  }

  /** Whatever is read as a string is a literal. */
  lemma LiteralAt(c: Text, off: nat) returns (literal: Spelling)
    requires P.ParseString(c, off).Ok?
    ensures OkLiteral(literal) && At(c, off, LiteralText(literal))
    ensures P.ParseString(c, off) == P.Ok(LiteralValue(literal), off + |LiteralText(literal)|)
  {
    hide P.ParseString, ScanEnd, Decode, CString, CharsText, CharsValue, E.WellFormedEscapes, OkChars, IsOdd, At;
    var end := StringParts(c, off);
    var body := c[off + 1..end];
    if E.WellFormedEscapes(c, off + 1, end) {
      var tokens := E.DecodedTokens(c, off + 1, end);
      var chars := CharsOfTokens(tokens);
      literal := Chars(chars);
    } else {
      OddAt(c, off + 1, end);
      literal := Odd(body, Decode(c, off + 1, end).value);
    }
    QuotedText(c, off, end);
  }

  // ----- numbers -----

  lemma {:induction false} PlaceSnoc(t: Text, b: Byte)
    requires Digital(t) && 0x30 <= b <= 0x39
    ensures Digital(t + [b]) && PlaceValue(t + [b]) == 10 * PlaceValue(t) + b - 0x30
  {
    if t == [] {
      assert [] + [b] == [b];
      assert PlaceValue([b][1..]) == 0;
    } else {
      assert (t + [b])[1..] == t[1..] + [b];
      PlaceSnoc(t[1..], b);
      assert Power10(|t|) == 10 * Power10(|t| - 1);
      Distribute(t[0] - 0x30, Power10(|t| - 1), PlaceValue(t[1..]));
    }
  }

  lemma Distribute(d: int, p: int, v: int)
    ensures d * (10 * p) + 10 * v == 10 * (d * p + v)
  {
  }

  lemma {:induction false} PlaceIsDecimal(t: Text)
    requires Digital(t)
    ensures P.DecimalValue(t) == PlaceValue(t)
  {
    if t != [] {
      var last := |t| - 1;
      PlaceIsDecimal(t[..last]);
      PlaceSnoc(t[..last], t[last]);
      assert t[..last] + [t[last]] == t;
    }
  }

  lemma {:induction false} DigitsRun(t: Text, i: nat)
    requires i <= |t|
    ensures
      var r := P.DigitsEnd(t, i);
      Digital(t[i..r]) && (r < |t| ==> !P.IsDigit(t[r]))
    decreases |t| - i
  {
    if i < |t| && P.IsDigit(t[i]) {
      DigitsRun(t, i + 1);
      var r := P.DigitsEnd(t, i);
      assert t[i..r] == [t[i]] + t[i + 1..r];
    }
  }

  lemma {:induction false} DigitsEndAt(t: Text, i: nat, digits: Text)
    requires Digital(digits) && At(t, i, digits)
    requires i + |digits| < |t| ==> !P.IsDigit(t[i + |digits|])
    ensures P.DigitsEnd(t, i) == i + |digits|
    decreases |digits|
  {
    if digits != [] {
      AtHead(t, i, digits);
      DigitsEndAt(t, i + 1, digits[1..]);
    }
  }

  function SignText(n: Numeral): Text { if n.negative then [0x2D] else [] }

  lemma FourParts(t: Text, a: Text, b: Text, c: Text, d: Text)
    requires t == a + (b + (c + d))
    ensures At(t, 0, a) && At(t, |a|, b) && At(t, |a| + |b|, c) && At(t, |a| + |b| + |c|, d)
    ensures |t| == |a| + |b| + |c| + |d|
  {
    assert t[0..0 + |t|] == t;
    AtSplit(t, 0, a, b + (c + d));
    AtSplit(t, |a|, b, c + d);
    AtSplit(t, |a| + |b|, c, d);
  }

  /** Where the parts of a numeral stand. */
  lemma NumeralParts(n: Numeral)
    requires OkNumeral(n)
    ensures
      var t, s, p := NumeralText(n), |SignText(n)|, |SignText(n)| + |n.whole|;
      && At(t, 0, SignText(n)) && At(t, s, n.whole) && At(t, p, FractionText(n))
      && At(t, p + |FractionText(n)|, ExponentText(n)) && p + |FractionText(n)| + |ExponentText(n)| == |t|
  {
    hide At, FractionText, ExponentText, Digital;
    FourParts(NumeralText(n), SignText(n), n.whole, FractionText(n), ExponentText(n));
  }

  /** The digits around the point. */
  lemma FractionEnds(t: Text, p: nat, fraction: Text, exponent: Text)
    requires Digital(fraction) && At(t, p, [0x2E] + fraction) && At(t, p + 1 + |fraction|, exponent)
    requires p + 1 + |fraction| + |exponent| == |t| && (exponent != [] ==> !P.IsDigit(exponent[0]))
    ensures p < |t| && t[p] == P.DOT && P.DigitsEnd(t, p + 1) == p + 1 + |fraction|
  {
    hide P.DigitsEnd;
    AtHead(t, p, [0x2E] + fraction);
    if exponent != [] {
      AtHead(t, p + 1 + |fraction|, exponent);
    }
    DigitsEndAt(t, p + 1, fraction);
  }

  lemma SignSkipped(n: Numeral)
    requires OkNumeral(n)
    ensures P.SkipSign(NumeralText(n), 0) == |SignText(n)|
  {
    NumeralParts(n);
    if n.negative {
      AtHead(NumeralText(n), 0, SignText(n));
    } else {
      AtHead(NumeralText(n), 0, n.whole);
    }
  }

  lemma ExponentStart(n: Numeral)
    requires OkNumeral(n) && n.exponent.Some?
    ensures ExponentText(n) != [] && !P.IsDigit(ExponentText(n)[0]) && ExponentText(n)[0] != P.DOT
  {
  }

  lemma NumeralDigits(n: Numeral)
    requires OkNumeral(n)
    ensures
      var t, s, p := NumeralText(n), |SignText(n)|, |SignText(n)| + |n.whole|;
      && P.SkipSign(t, 0) == s && P.DigitsEnd(t, s) == p <= |t|
      && (n.fraction.None? ==> p == |t| || t[p] != P.DOT)
      && (n.fraction.Some? ==> p < |t| && t[p] == P.DOT && P.DigitsEnd(t, p + 1) == p + |FractionText(n)|)
  {
    hide P.DigitsEnd, P.SkipSign, At, NumeralText, ExponentText, SignText, Digital;
    var t, s, p := NumeralText(n), |SignText(n)|, |SignText(n)| + |n.whole|;
    NumeralParts(n);
    SignSkipped(n);
    if n.exponent.Some? {
      ExponentStart(n);
    } else {
      NoExponentText(n);
    }
    if n.fraction.Some? {
      FractionEnds(t, p, n.fraction.value, ExponentText(n));
    } else if n.exponent.Some? {
      AtHead(t, p, ExponentText(n));
    }
    DigitsEndAt(t, s, n.whole);
  }

  lemma NoExponentText(n: Numeral)
    requires n.exponent.None?
    ensures ExponentText(n) == []
  {
  }

  lemma ExponentAt(t: Text, q: nat, e: Exponent)
    requires OkExponent(e) && At(t, q, [e.mark] + e.sign + e.digits)
    requires q + |[e.mark] + e.sign + e.digits| == |t|
    ensures q < |t| && P.IsExponentMark(t[q])
    ensures P.SkipSign(t, q + 1) < P.DigitsEnd(t, P.SkipSign(t, q + 1)) == |t|
  {
    hide P.DigitsEnd;
    hide At;
    AtSplit(t, q, [e.mark] + e.sign, e.digits);
    AtSplit(t, q, [e.mark], e.sign);
    AtHead(t, q, [e.mark]);
    AtHead(t, q + 1 + |e.sign|, e.digits);
    if e.sign != [] {
      AtHead(t, q + 1, e.sign);
    }
    DigitsEndAt(t, q + 1 + |e.sign|, e.digits);
  }

  lemma NumeralExponent(n: Numeral)
    requires OkNumeral(n) && n.exponent.Some?
    ensures
      var t := NumeralText(n);
      var q := |SignText(n)| + |n.whole| + |FractionText(n)|;
      q < |t| && P.IsExponentMark(t[q]) && P.SkipSign(t, q + 1) < P.DigitsEnd(t, P.SkipSign(t, q + 1)) == |t|
  {
    hide P.DigitsEnd, P.SkipSign, At, NumeralText, FractionText, SignText;
    NumeralParts(n);
    ExponentAt(NumeralText(n), |SignText(n)| + |n.whole| + |FractionText(n)|, n.exponent.value);
  }

  /** strtod reads a numeral whole. */
  lemma NumeralLength(n: Numeral)
    requires OkNumeral(n)
    ensures P.StrtodLength(NumeralText(n)) == |NumeralText(n)|
  {
    hide P.DigitsEnd, P.SkipSign, NumeralText, ExponentText, At, Digital, OkExponent;
    NumeralParts(n);
    NumeralDigits(n);
    if n.exponent.Some? {
      NumeralExponent(n);
    } else {
      NoExponentText(n);
    }
  }

  predicate NumberBytes(t: Text) {
    forall i :: 0 <= i < |t| ==> P.IsNumberByte(t[i])
  }

  lemma NumberBytesConcat(s: Text, t: Text)
    requires NumberBytes(s) && NumberBytes(t)
    ensures NumberBytes(s + t)
  {
  }

  lemma DigitsAreNumberBytes(t: Text)
    requires Digital(t)
    ensures NumberBytes(t)
  {
  }

  lemma ExponentBytes(n: Numeral)
    requires OkNumeral(n)
    ensures NumberBytes(ExponentText(n))
  {
    hide NumberBytes, Digital;
    if n.exponent.Some? {
      var e := n.exponent.value;
      assert NumberBytes([e.mark]) && NumberBytes(e.sign) by {
        MarkAndSign(e);
      }
      DigitsAreNumberBytes(e.digits);
      NumberBytesConcat([e.mark], e.sign);
      NumberBytesConcat([e.mark] + e.sign, e.digits);
    } else {
      DigitsAreNumberBytes([]);
    }
  }

  lemma MarkAndSign(e: Exponent)
    requires OkExponent(e)
    ensures NumberBytes([e.mark]) && NumberBytes(e.sign)
  {
  }

  lemma PointAndSign()
    ensures NumberBytes([0x2E]) && NumberBytes([0x2D]) && NumberBytes([])
  {
  }

  lemma NumeralBytes(n: Numeral)
    requires OkNumeral(n)
    ensures NumberBytes(NumeralText(n))
  {
    hide NumberBytes, Digital, ExponentText;
    PointAndSign();
    ExponentBytes(n);
    DigitsAreNumberBytes(n.whole);
    if n.fraction.Some? {
      DigitsAreNumberBytes(n.fraction.value);
      NumberBytesConcat([0x2E], n.fraction.value);
    }
    NumberBytesConcat(FractionText(n), ExponentText(n));
    NumberBytesConcat(n.whole, FractionText(n) + ExponentText(n));
    NumberBytesConcat(SignText(n), n.whole + (FractionText(n) + ExponentText(n)));
  }

  lemma NumeralStart(n: Numeral)
    requires OkNumeral(n)
    ensures NumeralText(n) != [] && (NumeralText(n)[0] == MINUS || P.IsDigit(NumeralText(n)[0]))
  {
    if !n.negative {
      assert NumeralText(n)[0] == n.whole[0];
    }
  }

  /** A text with something else behind its sign and digits is no integer. */
  lemma NoInteger(t: Text, p: nat)
    requires 0 < p < |t| && !P.IsDigit(t[p])
    ensures P.NumberItem(t) == Double(t)
  {
    hide P.DecimalValue;
    assert t[1..][p - 1] == t[p];
  }

  /** Nor is a number with a fraction or an exponent. */
  lemma NoIntegerNumeral(n: Numeral)
    requires OkNumeral(n) && (n.fraction.Some? || n.exponent.Some?)
    ensures NumeralText(n) != [] && P.NumberItem(NumeralText(n)) == Double(NumeralText(n))
  {
    hide P.NumberItem, At, NumeralText, Digital, FractionText, ExponentText;
    NumeralStart(n);
    NumeralParts(n);
    var p := |SignText(n)| + |n.whole|;
    if n.fraction.Some? {
      PointFirst(n);
      AtHead(NumeralText(n), p, FractionText(n));
    } else {
      ExponentStart(n);
      NoFractionText(n);
      AtHead(NumeralText(n), p, ExponentText(n));
    }
    NoInteger(NumeralText(n), p);
  }

  lemma PointFirst(n: Numeral)
    requires n.fraction.Some?
    ensures FractionText(n) != [] && !P.IsDigit(FractionText(n)[0])
  {
  }

  lemma NoFractionText(n: Numeral)
    requires n.fraction.None?
    ensures FractionText(n) == []
  {
  }

  lemma PlainText(n: Numeral)
    requires OkNumeral(n) && n.fraction.None? && n.exponent.None?
    ensures n.whole != [] && NumeralText(n) == if n.negative then [MINUS] + n.whole else n.whole
  {
  }

  /** The item made of a numeral is its value. */
  lemma NumeralItem(n: Numeral)
    requires OkNumeral(n)
    ensures NumeralText(n) != [] && P.NumberItem(NumeralText(n)) == NumeralValue(n)
  {
    hide P.DecimalValue, PlaceValue, NumeralText, FractionText, ExponentText;
    if n.fraction.Some? || n.exponent.Some? {
      hide P.NumberItem;
      NoIntegerNumeral(n);
    } else {
      PlainText(n);
      PlaceIsDecimal(n.whole);
      if n.negative {
        var t := NumeralText(n);
        assert t[1..] == n.whole && t[0] == MINUS && !P.IsDigit(t[0]);
      }
    }
  }

  // ----- what strtod reads -----

  lemma Slices(t: Text, s: nat, p: nat, q: nat, k: nat)
    requires s <= p <= q <= k <= |t|
    ensures t[..k] == t[..s] + (t[s..p] + (t[p..q] + t[q..k]))
  {
  }

  /** The exponent strtod reads behind the digits that end at `q`, if it reads one. */
  lemma ExponentOf(t: Text, q: nat) returns (exponent: Option<Exponent>, k: nat)
    requires q <= |t|
    ensures q <= k <= |t| && (exponent.Some? ==> OkExponent(exponent.value))
    ensures t[q..k] ==
            if exponent.None? then [] else [exponent.value.mark] + exponent.value.sign + exponent.value.digits
    ensures k == if q < |t| && P.IsExponentMark(t[q]) && P.DigitsEnd(t, P.SkipSign(t, q + 1)) > P.SkipSign(t, q + 1)
                 then P.DigitsEnd(t, P.SkipSign(t, q + 1)) else q
  {
    hide P.DigitsEnd;
    exponent, k := None, q;
    if q < |t| && P.IsExponentMark(t[q]) {
      var x := P.SkipSign(t, q + 1);
      var end := P.DigitsEnd(t, x);
      DigitsRun(t, x);
      if end > x {
        exponent, k := Some(Exponent(t[q], t[q + 1..x], t[x..end])), end;
        assert t[q..end] == [t[q]] + t[q + 1..x] + t[x..end];
      }
    }
  }

  /** The fraction behind the digits that end at `p`. */
  lemma FractionOf(t: Text, p: nat) returns (fraction: Option<Text>, q: nat)
    requires p <= |t|
    ensures p <= q <= |t| && (fraction.Some? ==> Digital(fraction.value))
    ensures t[p..q] == if fraction.None? then [] else [0x2E] + fraction.value
    ensures q == if p < |t| && t[p] == P.DOT then P.DigitsEnd(t, p + 1) else p
    ensures fraction.Some? <==> p < |t| && t[p] == P.DOT
  {
    hide P.DigitsEnd;
    fraction, q := None, p;
    if p < |t| && t[p] == P.DOT {
      q := P.DigitsEnd(t, p + 1);
      DigitsRun(t, p + 1);
      fraction := Some(t[p + 1..q]);
      assert t[p..q] == [t[p]] + t[p + 1..q];
    }
  }

  /** Whatever strtod reads is a numeral. */
  lemma NumeralOf(t: Text) returns (n: Numeral)
    requires 0 < |t| <= 63 && (t[0] == MINUS || P.IsDigit(t[0])) && P.StrtodLength(t) > 0
    ensures OkNumeral(n) && NumeralText(n) == t[..P.StrtodLength(t)]
  {
    hide P.DigitsEnd, P.IsExponentMark, Digital, OkExponent;
    var s := P.SkipSign(t, 0);
    var p := P.DigitsEnd(t, s);
    DigitsRun(t, s);
    var fraction, q := FractionOf(t, p);
    var exponent, k := ExponentOf(t, q);
    Slices(t, s, p, q, k);
    n := Numeral(t[0] == MINUS, t[s..p], fraction, exponent);
    assert t[..s] == SignText(n);
    WholeOrFraction(t);
    assert k == P.StrtodLength(t) by {
      LengthRead(t, p, q, k);
    }
  }

  lemma LengthRead(t: Text, p: nat, q: nat, k: nat)
    requires P.StrtodLength(t) > 0 && p == P.DigitsEnd(t, P.SkipSign(t, 0))
    requires q == if p < |t| && t[p] == P.DOT then P.DigitsEnd(t, p + 1) else p
    requires k == if q < |t| && P.IsExponentMark(t[q]) && P.DigitsEnd(t, P.SkipSign(t, q + 1)) > P.SkipSign(t, q + 1)
                  then P.DigitsEnd(t, P.SkipSign(t, q + 1)) else q
    ensures k == P.StrtodLength(t)
  {
    hide P.DigitsEnd, P.SkipSign, P.IsExponentMark;
  }

  lemma WholeOrFraction(t: Text)
    requires 0 < |t| && (t[0] == MINUS || P.IsDigit(t[0])) && P.StrtodLength(t) > 0
    ensures
      var s := P.SkipSign(t, 0);
      var p := P.DigitsEnd(t, s);
      p > s || (t[0] == MINUS && p < |t| && t[p] == P.DOT && P.DigitsEnd(t, p + 1) > p + 1)
  {
  }

  // ----- whitespace -----

  lemma {:induction false} SkipRunOf(c: Text, off: nat, space: Text)
    requires At(c, off, space) && Blank(space) && off + |space| < |c| && c[off + |space|] > SPACE
    ensures P.SkipRun(c, off) == off + |space|
    decreases |space|
  {
    if space != [] {
      AtHead(c, off, space);
      SkipRunOf(c, off + 1, space[1..]);
    }
  }

  lemma SkipBlank(c: Text, off: nat, space: Text)
    requires At(c, off, space) && Blank(space) && off + |space| < |c| && c[off + |space|] > SPACE
    ensures P.Skip(c, off) == off + |space|
  {
    SkipRunOf(c, off, space);
  }

  lemma SkipTwice(c: Text, off: nat)
    ensures P.Skip(c, P.Skip(c, off)) == P.Skip(c, off)
  {
  }

  lemma {:induction false} SkipRunIsBlank(c: Text, off: nat)
    requires off <= |c|
    ensures Blank(c[off..P.SkipRun(c, off)])
    decreases |c| - off
  {
    if off < |c| && c[off] <= SPACE {
      SkipRunIsBlank(c, off + 1);
      assert c[off..P.SkipRun(c, off)] == [c[off]] + c[off + 1..P.SkipRun(c, off)];
    }
  }

  /** What is skipped is whitespace. */
  lemma BlankSkipped(c: Text, off: nat)
    requires off <= |c|
    ensures off <= P.Skip(c, off) <= |c| && Blank(c[off..P.Skip(c, off)])
  {
    SkipRunIsBlank(c, off);
    if off < |c| && P.SkipRun(c, off) == |c| {
      assert c[off..|c| - 1] == c[off..P.SkipRun(c, off)][..|c| - 1 - off];
    }
  }

  // ----- every text of the grammar is accepted -----

  lemma ElementsFromSpace(c: Text, at: nat, depth: nat)
    requires depth <= NESTING_LIMIT
    ensures P.ParseElements(c, P.Skip(c, at), depth) == P.ParseElements(c, at, depth)
  {
    hide P.ParseValue, P.Skip;
    SkipTwice(c, at);
    assert P.ParseElement(c, P.Skip(c, at), depth) == P.ParseElement(c, at, depth);
  }

  lemma MembersFromSpace(c: Text, at: nat, depth: nat)
    requires depth <= NESTING_LIMIT
    ensures P.ParseMembers(c, P.Skip(c, at), depth) == P.ParseMembers(c, at, depth)
  {
    hide P.ParseElement, P.ParseString, P.Skip;
    SkipTwice(c, at);
    assert P.ParseKey(c, P.Skip(c, at)) == P.ParseKey(c, at);
    assert P.ParseMember(c, P.Skip(c, at), depth) == P.ParseMember(c, at, depth);
  }

  lemma LiteralStart(literal: Spelling)
    requires OkLiteral(literal)
    ensures LiteralText(literal) != [] && LiteralText(literal)[0] == QUOTE
  {
  }

  /** The first byte shows what kind of value it is. */
  lemma DocStart(doc: Doc)
    requires Ok(doc)
    ensures
      var w := Written(doc);
      && w != [] && SPACE < w[0] < 0x80 && w[0] != CLOSE_ARRAY && w[0] != CLOSE_OBJECT
      && (doc.StringDoc? <==> w[0] == QUOTE)
      && (doc.NumberDoc? <==> w[0] == MINUS || P.IsDigit(w[0]))
      && (doc.EmptyArray? || doc.FullArray? <==> w[0] == OPEN_ARRAY)
      && (doc.EmptyObject? || doc.FullObject? <==> w[0] == OPEN_OBJECT)
      && (doc.NullDoc? <==> w[0] == LETTER_N) && (doc.FalseDoc? <==> w[0] == LETTER_F)
      && (doc.TrueDoc? <==> w[0] == LETTER_T)
  {
    hide NumeralText, OkNumeral, LiteralText, OkLiteral, WrittenElements, WrittenMembers;
    if doc.NumberDoc? {
      NumeralStart(doc.numeral);
    } else if doc.StringDoc? {
      LiteralStart(doc.literal);
    }
  }

  lemma WordStart(c: Text, off: nat, word: Text)
    requires word != []
    ensures P.Reads(c, off, word) ==> off < |c| && c[off] == word[0]
  {
    if P.Reads(c, off, word) {
      assert c[off] == c[off..off + |word|][0];
    }
  }

  /** No value but the three names starts with their letters. */
  lemma NoWord(c: Text, off: nat)
    requires off < |c| && c[off] != LETTER_N && c[off] != LETTER_F && c[off] != LETTER_T
    ensures !P.Reads(c, off, NULL_TEXT) && !P.Reads(c, off, FALSE_TEXT) && !P.Reads(c, off, TRUE_TEXT)
  {
    WordStart(c, off, NULL_TEXT);
    WordStart(c, off, FALSE_TEXT);
    WordStart(c, off, TRUE_TEXT);
  }

  lemma ReadsWord(doc: Doc, c: Text, off: nat, depth: nat)
    requires (doc.NullDoc? || doc.FalseDoc? || doc.TrueDoc?) && depth <= NESTING_LIMIT && At(c, off, Written(doc))
    ensures P.ParseValue(c, off, depth) == P.Ok(Tree(doc), off + |Written(doc)|)
  {
    AtHead(c, off, Written(doc));
    WordStart(c, off, NULL_TEXT);
    WordStart(c, off, FALSE_TEXT);
  }

  lemma {:induction false} RunOf(c: Text, off: nat, limit: nat, s: Text)
    requires At(c, off, s) && |s| <= limit && off + |s| < |c| && !P.IsNumberByte(c[off + |s|]) && NumberBytes(s)
    ensures P.NumberRun(c, off, limit) == |s|
    decreases limit
  {
    if s != [] {
      AtHead(c, off, s);
      RunOf(c, off + 1, limit - 1, s[1..]);
    }
  }

  lemma NumeralFits(n: Numeral)
    requires OkNumeral(n)
    ensures |NumeralText(n)| <= P.NUMBER_BUFFER
  {
  }

  lemma ReadsNumeral(n: Numeral, c: Text, off: nat)
    requires OkNumeral(n) && At(c, off, NumeralText(n))
    requires off + |NumeralText(n)| < |c| && !P.IsNumberByte(c[off + |NumeralText(n)|])
    ensures P.ParseNumber(c, off) == P.Ok(NumeralValue(n), off + |NumeralText(n)|)
  {
    hide P.StrtodLength, P.NumberItem, P.IsNumberByte, NumeralValue, NumeralText, OkNumeral, NumberBytes;
    var t := NumeralText(n);
    NumeralFits(n);
    NumeralBytes(n);
    NumeralLength(n);
    NumeralItem(n);
    RunOf(c, off, P.NUMBER_BUFFER, t);
    assert t[..|t|] == t;
  }

  /** What stands behind a value does not go on with a number. */
  predicate Ends(c: Text, off: nat) {
    off < |c| && !P.IsNumberByte(c[off])
  }

  /** A value is read wherever it stands, unless a number goes on behind it. */
  lemma {:induction false} ReadsDoc(doc: Doc, c: Text, off: nat, depth: nat)
    requires Ok(doc) && At(c, off, Written(doc)) && Ends(c, off + |Written(doc)|)
    requires depth + Nesting(Tree(doc)) <= NESTING_LIMIT
    ensures P.ParseValue(c, off, depth) == P.Ok(Tree(doc), off + |Written(doc)|)
    decreases doc, 0
  {
    hide P.ParseArrayAt, P.ParseObjectAt, P.ParseNumber, P.ParseString, P.Reads, At, OkNumeral, OkLiteral;
    hide OkElements, OkMembers, NumeralValue, LiteralValue, NumeralText, LiteralText;
    DocStart(doc);
    AtHead(c, off, Written(doc));
    match doc
    case NullDoc => ReadsWord(doc, c, off, depth);
    case FalseDoc => ReadsWord(doc, c, off, depth);
    case TrueDoc => ReadsWord(doc, c, off, depth);
    case NumberDoc(n) =>
      NoWord(c, off);
      ReadsNumeral(n, c, off);
    case StringDoc(literal) =>
      NoWord(c, off);
      ReadsLiteral(literal, c, off);
    case EmptyArray(space) =>
      NoWord(c, off);
      ReadsEmpty(c, off, space, depth);
    case FullArray(elements) =>
      NoWord(c, off);
      ReadsFullArray(elements, c, off, depth);
    case EmptyObject(space) =>
      NoWord(c, off);
      ReadsEmpty(c, off, space, depth);
    case FullObject(members) =>
      NoWord(c, off);
      ReadsFullObject(members, c, off, depth);
  }

  lemma ReadsEmpty(c: Text, off: nat, space: Text, depth: nat)
    requires Blank(space) && depth < NESTING_LIMIT
    ensures At(c, off, [0x5B] + (space + [0x5D])) ==>
              off < |c| && P.ParseArrayAt(c, off, depth) == P.Ok(Array(NoElement), off + 2 + |space|)
    ensures At(c, off, [0x7B] + (space + [0x7D])) ==>
              off < |c| && P.ParseObjectAt(c, off, depth) == P.Ok(Object(NoMember), off + 2 + |space|)
  {
    hide P.ParseElements, P.ParseMembers, P.Skip, At;
    if At(c, off, [0x5B] + (space + [0x5D])) {
      AtSplit(c, off, [0x5B], space + [0x5D]);
      AtSplit(c, off + 1, space, [0x5D]);
      AtHead(c, off + 1 + |space|, [0x5D]);
      SkipBlank(c, off + 1, space);
    }
    if At(c, off, [0x7B] + (space + [0x7D])) {
      AtSplit(c, off, [0x7B], space + [0x7D]);
      AtSplit(c, off + 1, space, [0x7D]);
      AtHead(c, off + 1 + |space|, [0x7D]);
      SkipBlank(c, off + 1, space);
    }
  }

  /** Where the value of a slot stands, and what is behind it. */
  lemma SlotParts(slot: Slot, c: Text, at: nat) returns (off: nat, next: nat)
    requires OkSlot(slot) && At(c, at, WrittenSlot(slot))
    ensures off == at + |slot.before| && next == off + |Written(slot.doc)|
    ensures next + |slot.after| == at + |WrittenSlot(slot)|
    ensures Ok(slot.doc) && At(c, off, Written(slot.doc)) && At(c, next, slot.after) && next <= |c|
    ensures P.Skip(c, at) == off && off < |c| && c[off] > SPACE && c[off] != CLOSE_ARRAY && c[off] != CLOSE_OBJECT
  {
    hide P.Skip, At, Written, Ok;
    off := at + |slot.before|;
    next := off + |Written(slot.doc)|;
    AtSplit(c, at, slot.before, Written(slot.doc) + slot.after);
    AtSplit(c, off, Written(slot.doc), slot.after);
    DocStart(slot.doc);
    AtHead(c, off, Written(slot.doc));
    SkipBlank(c, at, slot.before);
  }

  /** A value with the whitespace around it. */
  lemma {:induction false} ReadsSlot(slot: Slot, c: Text, at: nat, depth: nat)
    requires OkSlot(slot) && At(c, at, WrittenSlot(slot)) && depth + Nesting(SlotTree(slot)) <= NESTING_LIMIT
    requires Ends(c, at + |WrittenSlot(slot)|) && c[at + |WrittenSlot(slot)|] > SPACE
    ensures P.ParseElement(c, at, depth) == P.Ok(SlotTree(slot), at + |WrittenSlot(slot)|)
    decreases slot, 0
  {
    hide P.ParseValue, P.Skip, At, Written, Nesting, WrittenSlot, Ok;
    var off, next := SlotParts(slot, c, at);
    if slot.after != [] {
      AtHead(c, next, slot.after);
    }
    SkipBlank(c, next, slot.after);
    ReadsDoc(slot.doc, c, off, depth);
  }

  lemma {:induction false} ReadsFullArray(es: ElementDocs, c: Text, off: nat, depth: nat)
    requires OkElements(es) && At(c, off, [0x5B] + WrittenElements(es)) && off < |c|
    requires depth + 1 + ElementsNesting(ElementTrees(es)) <= NESTING_LIMIT
    ensures P.ParseArrayAt(c, off, depth) == P.Ok(Array(ElementTrees(es)), off + 1 + |WrittenElements(es)|)
    decreases es, 1
  {
    hide P.ParseElements, P.Skip, At, WrittenElements, ElementTrees, ElementsNesting, OkElements;
    AtSplit(c, off, [0x5B], WrittenElements(es));
    ReadsElements(es, c, off + 1, depth + 1);
    ElementsFromSpace(c, off + 1, depth + 1);
  }

  lemma ElementsParts(es: ElementDocs)
    requires OkElements(es)
    ensures OkSlot(es.slot)
    ensures Nesting(SlotTree(es.slot)) <= ElementsNesting(ElementTrees(es))
    ensures es.LastElement? ==>
              WrittenElements(es) == WrittenSlot(es.slot) + [0x5D]
              && ElementTrees(es) == Element(SlotTree(es.slot), NoElement)
    ensures es.MoreElements? ==>
              && OkElements(es.next)
              && WrittenElements(es) == WrittenSlot(es.slot) + ([0x2C] + WrittenElements(es.next))
              && ElementTrees(es) == Element(SlotTree(es.slot), ElementTrees(es.next))
              && ElementsNesting(ElementTrees(es.next)) <= ElementsNesting(ElementTrees(es))
  {
  }

  lemma StepElements(c: Text, at: nat, depth: nat, item: Json, mark: nat)
    requires depth <= NESTING_LIMIT && P.ParseElement(c, at, depth) == P.Ok(item, mark) && mark < |c|
    ensures c[mark] == CLOSE_ARRAY ==> P.ParseElements(c, at, depth) == P.Ok(Element(item, NoElement), mark + 1)
    ensures c[mark] == COMMA && P.ParseElements(c, mark + 1, depth).Ok? ==>
              var rest := P.ParseElements(c, mark + 1, depth);
              P.ParseElements(c, at, depth) == P.Ok(Element(item, rest.value), rest.next)
  {
    hide P.ParseElement;
  }

  lemma {:induction false} ReadsElements(es: ElementDocs, c: Text, at: nat, depth: nat)
    requires OkElements(es) && At(c, at, WrittenElements(es))
    requires depth + ElementsNesting(ElementTrees(es)) <= NESTING_LIMIT
    ensures P.ParseElements(c, at, depth) == P.Ok(ElementTrees(es), at + |WrittenElements(es)|)
    ensures P.Skip(c, at) < |c| && c[P.Skip(c, at)] != CLOSE_ARRAY
    decreases es, 0
  {
    hide P.ParseElements, P.ParseElement, P.Skip, At, WrittenElements, WrittenSlot, ElementTrees, OkElements, OkSlot;
    hide SlotTree, Nesting, ElementsNesting;
    ElementsParts(es);
    var mark := at + |WrittenSlot(es.slot)|;
    if es.LastElement? {
      AtSplit(c, at, WrittenSlot(es.slot), [0x5D]);
      AtHead(c, mark, [0x5D]);
      ReadsSlot(es.slot, c, at, depth);
    } else {
      AtSplit(c, at, WrittenSlot(es.slot), [0x2C] + WrittenElements(es.next));
      AtSplit(c, mark, [0x2C], WrittenElements(es.next));
      AtHead(c, mark, [0x2C]);
      ReadsSlot(es.slot, c, at, depth);
      ReadsElements(es.next, c, mark + 1, depth);
    }
    StepElements(c, at, depth, SlotTree(es.slot), mark);
    var off, next := SlotParts(es.slot, c, at);
  }

  lemma {:induction false} ReadsFullObject(ms: MemberDocs, c: Text, off: nat, depth: nat)
    requires OkMembers(ms) && At(c, off, [0x7B] + WrittenMembers(ms)) && off < |c|
    requires depth + 1 + MembersNesting(MemberTrees(ms)) <= NESTING_LIMIT
    ensures P.ParseObjectAt(c, off, depth) == P.Ok(Object(MemberTrees(ms)), off + 1 + |WrittenMembers(ms)|)
    decreases ms, 1
  {
    hide P.ParseMembers, P.Skip, At, WrittenMembers, MemberTrees, MembersNesting, OkMembers;
    AtSplit(c, off, [0x7B], WrittenMembers(ms));
    ReadsMembers(ms, c, off + 1, depth + 1);
    MembersFromSpace(c, off + 1, depth + 1);
  }

  lemma ReadsKey(name: Spelling, before: Text, after: Text, c: Text, at: nat, rest: Text)
    requires OkLiteral(name) && Blank(before) && Blank(after)
    requires At(c, at, before + (LiteralText(name) + (after + ([0x3A] + rest))))
    ensures
      var end := at + |before| + |LiteralText(name)| + |after| + 1;
      P.ParseKey(c, at) == P.Ok(LiteralValue(name), end) && At(c, end, rest)
    ensures P.Skip(c, at) < |c| && c[P.Skip(c, at)] != CLOSE_OBJECT
  {
    hide P.ParseString, P.Skip, At, LiteralText, LiteralValue, OkLiteral, Blank;
    var off := at + |before|;
    var next := off + |LiteralText(name)|;
    AtSplit(c, at, before, LiteralText(name) + (after + ([0x3A] + rest)));
    AtSplit(c, off, LiteralText(name), after + ([0x3A] + rest));
    AtSplit(c, next, after, [0x3A] + rest);
    AtSplit(c, next + |after|, [0x3A], rest);
    AtHead(c, next + |after|, [0x3A]);
    LiteralStart(name);
    AtHead(c, off, LiteralText(name));
    SkipBlank(c, at, before);
    SkipBlank(c, next, after);
    ReadsLiteral(name, c, off);
  }

  /** A member with the whitespace in it. */
  lemma {:induction false} ReadsPair(pair: NamedSlot, c: Text, at: nat, depth: nat)
    requires OkPair(pair) && At(c, at, WrittenPair(pair)) && depth + Nesting(PairTree(pair).item) <= NESTING_LIMIT
    requires Ends(c, at + |WrittenPair(pair)|) && c[at + |WrittenPair(pair)|] > SPACE
    ensures P.ParseMember(c, at, depth) == P.Ok(PairTree(pair), at + |WrittenPair(pair)|)
    ensures P.Skip(c, at) < |c| && c[P.Skip(c, at)] != CLOSE_OBJECT
    decreases pair, 0
  {
    hide P.ParseElement, P.ParseKey, P.Skip, At, WrittenSlot, LiteralText, LiteralValue, SlotTree, Nesting;
    hide OkSlot, OkLiteral;
    ReadsKey(pair.name, pair.before, pair.after, c, at, WrittenSlot(pair.slot));
    ReadsSlot(pair.slot, c, at + |pair.before| + |LiteralText(pair.name)| + |pair.after| + 1, depth);
  }

  lemma MembersParts(ms: MemberDocs)
    requires OkMembers(ms)
    ensures OkPair(ms.pair)
    ensures Nesting(PairTree(ms.pair).item) <= MembersNesting(MemberTrees(ms))
    ensures ms.LastMember? ==>
              WrittenMembers(ms) == WrittenPair(ms.pair) + [0x7D]
              && MemberTrees(ms) == Member(PairTree(ms.pair).key, PairTree(ms.pair).item, NoMember)
    ensures ms.MoreMembers? ==>
              && OkMembers(ms.next) && WrittenMembers(ms) == WrittenPair(ms.pair) + ([0x2C] + WrittenMembers(ms.next))
              && MemberTrees(ms) == Member(PairTree(ms.pair).key, PairTree(ms.pair).item, MemberTrees(ms.next))
              && MembersNesting(MemberTrees(ms.next)) <= MembersNesting(MemberTrees(ms))
  {
  }

  lemma StepMembers(c: Text, at: nat, depth: nat, m: Named, mark: nat)
    requires depth <= NESTING_LIMIT && P.ParseMember(c, at, depth) == P.Ok(m, mark) && mark < |c|
    ensures c[mark] == CLOSE_OBJECT ==> P.ParseMembers(c, at, depth) == P.Ok(Member(m.key, m.item, NoMember), mark + 1)
    ensures c[mark] == COMMA && P.ParseMembers(c, mark + 1, depth).Ok? ==>
              var rest := P.ParseMembers(c, mark + 1, depth);
              P.ParseMembers(c, at, depth) == P.Ok(Member(m.key, m.item, rest.value), rest.next)
  {
    hide P.ParseMember;
  }

  lemma {:induction false} ReadsMembers(ms: MemberDocs, c: Text, at: nat, depth: nat)
    requires OkMembers(ms) && At(c, at, WrittenMembers(ms)) && depth + MembersNesting(MemberTrees(ms)) <= NESTING_LIMIT
    ensures P.ParseMembers(c, at, depth) == P.Ok(MemberTrees(ms), at + |WrittenMembers(ms)|)
    ensures P.Skip(c, at) < |c| && c[P.Skip(c, at)] != CLOSE_OBJECT
    decreases ms, 0
  {
    hide P.ParseMembers, P.ParseMember, P.Skip, At, WrittenMembers, WrittenPair, MemberTrees, OkMembers, OkPair;
    hide PairTree, Nesting, MembersNesting;
    MembersParts(ms);
    var mark := at + |WrittenPair(ms.pair)|;
    if ms.LastMember? {
      AtSplit(c, at, WrittenPair(ms.pair), [0x7D]);
      AtHead(c, mark, [0x7D]);
      ReadsPair(ms.pair, c, at, depth);
    } else {
      AtSplit(c, at, WrittenPair(ms.pair), [0x2C] + WrittenMembers(ms.next));
      AtSplit(c, mark, [0x2C], WrittenMembers(ms.next));
      AtHead(c, mark, [0x2C]);
      ReadsPair(ms.pair, c, at, depth);
      ReadsMembers(ms.next, c, mark + 1, depth);
    }
    StepMembers(c, at, depth, PairTree(ms.pair), mark);
  }

  // ----- every accepted text is one of the grammar -----

  /** The text of `doc` stands at `off` and ends at `next`. */
  ghost predicate StandsAt(doc: Doc, c: Text, off: nat, next: nat) {
    Ok(doc) && At(c, off, Written(doc)) && next == off + |Written(doc)|
  }

  lemma WordAt(c: Text, off: nat, depth: nat) returns (doc: Doc)
    requires depth <= NESTING_LIMIT
    requires P.Reads(c, off, NULL_TEXT) || P.Reads(c, off, FALSE_TEXT) || P.Reads(c, off, TRUE_TEXT)
    ensures StandsAt(doc, c, off, P.ParseValue(c, off, depth).next)
    ensures P.ParseValue(c, off, depth) == P.Ok(Tree(doc), off + |Written(doc)|) && Nesting(Tree(doc)) == 0
  {
    doc := if P.Reads(c, off, NULL_TEXT) then NullDoc else if P.Reads(c, off, FALSE_TEXT) then FalseDoc else TrueDoc;
  }

  lemma NumeralAt(c: Text, off: nat) returns (n: Numeral)
    requires off < |c| && (c[off] == MINUS || P.IsDigit(c[off])) && P.ParseNumber(c, off).Ok?
    ensures StandsAt(NumberDoc(n), c, off, P.ParseNumber(c, off).next)
    ensures P.ParseNumber(c, off).value == Tree(NumberDoc(n)) && Nesting(Tree(NumberDoc(n))) == 0
  {
    hide P.StrtodLength, P.NumberItem, NumeralText, OkNumeral;
    var t := c[off..off + P.NumberRun(c, off, P.NUMBER_BUFFER)];
    var k := P.StrtodLength(t);
    n := NumeralOf(t);
    NumeralItem(n);
    assert t[..k] == c[off..off + k];
    NumeralNesting(n);
  }

  lemma NumeralNesting(n: Numeral)
    requires OkNumeral(n)
    ensures Nesting(Tree(NumberDoc(n))) == 0
  {
  }

  /** Whatever is read as a value is one of the grammar. */
  lemma {:induction false} DocAt(c: Text, off: nat, depth: nat) returns (doc: Doc)
    requires depth <= NESTING_LIMIT && P.ParseValue(c, off, depth).Ok?
    ensures StandsAt(doc, c, off, P.ParseValue(c, off, depth).next)
    ensures P.ParseValue(c, off, depth).value == Tree(doc) && depth + Nesting(Tree(doc)) <= NESTING_LIMIT
    decreases NESTING_LIMIT - depth, P.Rest(c, off), 1
  {
    hide P.ParseArrayAt, P.ParseObjectAt, P.ParseNumber, P.ParseString, P.Reads, At;
    hide LiteralText, LiteralValue, OkLiteral;
    if P.Reads(c, off, NULL_TEXT) || P.Reads(c, off, FALSE_TEXT) || P.Reads(c, off, TRUE_TEXT) {
      doc := WordAt(c, off, depth);
    } else if c[off] == QUOTE {
      var literal := LiteralAt(c, off);
      doc := StringDoc(literal);
    } else if c[off] == MINUS || P.IsDigit(c[off]) {
      var n := NumeralAt(c, off);
      doc := NumberDoc(n);
    } else if c[off] == OPEN_ARRAY {
      doc := ArrayAt(c, off, depth);
    } else {
      doc := ObjectAt(c, off, depth);
    }
  }

  lemma Joined(c: Text, off: nat, mid: nat, s: Text, t: Text)
    requires At(c, off, s) && mid == off + |s| && At(c, mid, t)
    ensures At(c, off, s + t)
  {
    assert c[off..off + |s + t|] == s + t;
  }

  lemma OneByte(c: Text, off: nat)
    requires off < |c|
    ensures At(c, off, [c[off]])
  {
  }

  lemma Slice(c: Text, off: nat, mid: nat)
    requires off <= mid <= |c|
    ensures At(c, off, c[off..mid])
  {
  }

  lemma EmptyAt(c: Text, off: nat, close: nat) returns (space: Text)
    requires off < close < |c| && close == P.Skip(c, off + 1)
    ensures Blank(space) && At(c, off, [c[off]] + (space + [c[close]])) && close == off + 1 + |space|
  {
    hide At;
    BlankSkipped(c, off + 1);
    space := c[off + 1..close];
    OneByte(c, off);
    OneByte(c, close);
    Slice(c, off + 1, close);
    Joined(c, off + 1, close, space, [c[close]]);
    Joined(c, off, off + 1, [c[off]], space + [c[close]]);
  }

  lemma {:induction false} ArrayAt(c: Text, off: nat, depth: nat) returns (doc: Doc)
    requires depth <= NESTING_LIMIT && off < |c| && c[off] == OPEN_ARRAY && P.ParseArrayAt(c, off, depth).Ok?
    ensures StandsAt(doc, c, off, P.ParseArrayAt(c, off, depth).next)
    ensures P.ParseArrayAt(c, off, depth).value == Tree(doc) && depth + Nesting(Tree(doc)) <= NESTING_LIMIT
    decreases NESTING_LIMIT - depth, P.Rest(c, off), 0
  {
    hide P.ParseElements, P.Skip, At, Blank, OkElements, WrittenElements, ElementTrees;
    var first := P.Skip(c, off + 1);
    if c[first] == CLOSE_ARRAY {
      var space := EmptyAt(c, off, first);
      doc := EmptyArray(space);
    } else {
      ElementsFromSpace(c, off + 1, depth + 1);
      var es := ElementsAt(c, off + 1, depth + 1);
      OneByte(c, off);
      Joined(c, off, off + 1, [c[off]], WrittenElements(es));
      doc := FullArray(es);
    }
  }

  /** A value with the whitespace around it. */
  lemma {:induction false} SlotAt(c: Text, at: nat, depth: nat) returns (slot: Slot)
    requires depth <= NESTING_LIMIT && P.ParseElement(c, at, depth).Ok?
    ensures OkSlot(slot) && At(c, at, WrittenSlot(slot))
    ensures P.ParseElement(c, at, depth) == P.Ok(SlotTree(slot), at + |WrittenSlot(slot)|)
    ensures depth + Nesting(SlotTree(slot)) <= NESTING_LIMIT
    decreases NESTING_LIMIT - depth, P.Rest(c, at), 2
  {
    hide P.ParseValue, P.Skip, At, Blank, Ok, Written, Nesting;
    var off := P.Skip(c, at);
    var next := P.ParseValue(c, off, depth).next;
    var doc := DocAt(c, off, depth);
    BlankSkipped(c, at);
    BlankSkipped(c, next);
    slot := Slot(c[at..off], doc, c[next..P.Skip(c, next)]);
    Slice(c, at, off);
    Slice(c, next, P.Skip(c, next));
    Joined(c, off, next, Written(doc), slot.after);
    Joined(c, at, off, slot.before, Written(doc) + slot.after);
  }

  lemma {:induction false} ElementsAt(c: Text, at: nat, depth: nat) returns (es: ElementDocs)
    requires depth <= NESTING_LIMIT && P.ParseElements(c, at, depth).Ok?
    ensures OkElements(es) && At(c, at, WrittenElements(es))
    ensures P.ParseElements(c, at, depth) == P.Ok(ElementTrees(es), at + |WrittenElements(es)|)
    ensures depth + ElementsNesting(ElementTrees(es)) <= NESTING_LIMIT
    decreases NESTING_LIMIT - depth, P.Rest(c, at), 3
  {
    hide P.ParseElement, At, WrittenSlot, OkSlot, SlotTree, Nesting;
    var slot := SlotAt(c, at, depth);
    var mark := P.ParseElement(c, at, depth).next;
    OneByte(c, mark);
    if c[mark] == COMMA {
      var next := ElementsAt(c, mark + 1, depth);
      Joined(c, mark, mark + 1, [c[mark]], WrittenElements(next));
      Joined(c, at, mark, WrittenSlot(slot), [0x2C] + WrittenElements(next));
      es := MoreElements(slot, next);
    } else {
      Joined(c, at, mark, WrittenSlot(slot), [0x5D]);
      es := LastElement(slot);
    }
  }

  lemma {:induction false} ObjectAt(c: Text, off: nat, depth: nat) returns (doc: Doc)
    requires depth <= NESTING_LIMIT && off < |c| && c[off] == OPEN_OBJECT && P.ParseObjectAt(c, off, depth).Ok?
    ensures StandsAt(doc, c, off, P.ParseObjectAt(c, off, depth).next)
    ensures P.ParseObjectAt(c, off, depth).value == Tree(doc) && depth + Nesting(Tree(doc)) <= NESTING_LIMIT
    decreases NESTING_LIMIT - depth, P.Rest(c, off), 0
  {
    hide P.ParseMembers, P.Skip, At, Blank, OkMembers, WrittenMembers, MemberTrees;
    var first := P.Skip(c, off + 1);
    if c[first] == CLOSE_OBJECT {
      var space := EmptyAt(c, off, first);
      doc := EmptyObject(space);
    } else {
      MembersFromSpace(c, off + 1, depth + 1);
      var ms := MembersAt(c, off + 1, depth + 1);
      OneByte(c, off);
      Joined(c, off, off + 1, [c[off]], WrittenMembers(ms));
      doc := FullObject(ms);
    }
  }

  /** A name, its colon, and the whitespace around them. */
  lemma KeyAt(c: Text, at: nat) returns (before: Text, name: Spelling, after: Text)
    requires P.ParseKey(c, at).Ok?
    ensures OkLiteral(name) && Blank(before) && Blank(after)
    ensures
      var head := before + (LiteralText(name) + (after + [0x3A]));
      At(c, at, head) && P.ParseKey(c, at) == P.Ok(LiteralValue(name), at + |head|)
  {
    hide P.ParseString, P.Skip, At, Blank, OkLiteral, LiteralText, LiteralValue;
    var off := P.Skip(c, at);
    var next := P.ParseString(c, off).next;
    var colon := P.Skip(c, next);
    name := LiteralAt(c, off);
    BlankSkipped(c, at);
    BlankSkipped(c, next);
    before, after := c[at..off], c[next..colon];
    Slice(c, at, off);
    Slice(c, next, colon);
    OneByte(c, colon);
    Joined(c, next, colon, after, [0x3A]);
    Joined(c, off, next, LiteralText(name), after + [0x3A]);
    Joined(c, at, off, before, LiteralText(name) + (after + [0x3A]));
  }

  lemma HeadAndRest(a: Text, b: Text, c: Text, d: Text, e: Text)
    ensures (a + (b + (c + d))) + e == a + (b + (c + (d + e)))
  {
  }

  /** A member with the whitespace in it. */
  lemma {:induction false} PairAt(c: Text, at: nat, depth: nat) returns (pair: NamedSlot)
    requires depth <= NESTING_LIMIT && P.ParseMember(c, at, depth).Ok?
    ensures OkPair(pair) && At(c, at, WrittenPair(pair))
    ensures P.ParseMember(c, at, depth) == P.Ok(PairTree(pair), at + |WrittenPair(pair)|)
    ensures depth + Nesting(PairTree(pair).item) <= NESTING_LIMIT
    decreases NESTING_LIMIT - depth, P.Rest(c, at), 3
  {
    hide P.ParseElement, P.ParseKey, At, Blank, OkLiteral, LiteralText, LiteralValue, WrittenSlot, OkSlot;
    hide SlotTree, Nesting;
    var before, name, after := KeyAt(c, at);
    var next := P.ParseKey(c, at).next;
    var slot := SlotAt(c, next, depth);
    pair := NamedSlot(before, name, after, slot);
    Joined(c, at, next, before + (LiteralText(name) + (after + [0x3A])), WrittenSlot(slot));
    HeadAndRest(before, LiteralText(name), after, [0x3A], WrittenSlot(slot));
  }

  lemma {:induction false} MembersAt(c: Text, at: nat, depth: nat) returns (ms: MemberDocs)
    requires depth <= NESTING_LIMIT && P.ParseMembers(c, at, depth).Ok?
    ensures OkMembers(ms) && At(c, at, WrittenMembers(ms))
    ensures P.ParseMembers(c, at, depth) == P.Ok(MemberTrees(ms), at + |WrittenMembers(ms)|)
    ensures depth + MembersNesting(MemberTrees(ms)) <= NESTING_LIMIT
    decreases NESTING_LIMIT - depth, P.Rest(c, at), 4
  {
    hide P.ParseMember, At, WrittenPair, OkPair, PairTree, Nesting;
    var pair := PairAt(c, at, depth);
    var mark := P.ParseMember(c, at, depth).next;
    OneByte(c, mark);
    if c[mark] == COMMA {
      var next := MembersAt(c, mark + 1, depth);
      Joined(c, mark, mark + 1, [c[mark]], WrittenMembers(next));
      Joined(c, at, mark, WrittenPair(pair), [0x2C] + WrittenMembers(next));
      ms := MoreMembers(pair, next);
    } else {
      Joined(c, at, mark, WrittenPair(pair), [0x7D]);
      ms := LastMember(pair);
    }
  }

  // ----- whole texts -----

  /** Where the value of a file ends. */
  function ValueEnd(file: File): nat
    requires OkSlot(file.slot)
  {
    (if file.mark then 3 else 0) + |file.slot.before| + |Written(file.slot.doc)|
  }

  lemma MarkOf(file: File, c: Text)
    requires OkSlot(file.slot) && At(c, 0, FileText(file)) && ValueEnd(file) < |c|
    ensures P.SkipMark(c) == if file.mark then 3 else 0
    ensures At(c, if file.mark then 3 else 0, WrittenSlot(file.slot))
  {
    hide Written, Ok;
    var m: Text := if file.mark then [0xEF, 0xBB, 0xBF] else [];
    AtSplit(c, 0, m, WrittenSlot(file.slot));
    var off, next := SlotParts(file.slot, c, |m|);
    DocStart(file.slot.doc);
    AtHead(c, off, Written(file.slot.doc));
    if file.slot.before != [] {
      AtSplit(c, |m|, file.slot.before, Written(file.slot.doc) + file.slot.after);
      AtHead(c, |m|, file.slot.before);
    }
    if file.mark {
      assert c[..3] == c[0..0 + |m|];
    } else if 4 < |c| {
      assert c[..3][0] == c[0];
    }
  }

  /** The value of a file is read. */
  lemma ReadsFile(file: File, c: Text)
    requires OkSlot(file.slot) && At(c, 0, FileText(file)) && Ends(c, ValueEnd(file))
    requires Nesting(SlotTree(file.slot)) <= NESTING_LIMIT
    ensures P.ParseValue(c, P.Skip(c, P.SkipMark(c)), 0) == P.Ok(SlotTree(file.slot), ValueEnd(file))
  {
    hide P.ParseValue, P.Skip, P.SkipMark, At, Written, Ok, Nesting;
    MarkOf(file, c);
    var off, next := SlotParts(file.slot, c, if file.mark then 3 else 0);
    ReadsDoc(file.slot.doc, c, off, 0);
  }

  /** What is read at the start of a text is a file. */
  lemma FileAt(c: Text) returns (file: File)
    requires P.ParseValue(c, P.Skip(c, P.SkipMark(c)), 0).Ok?
    ensures OkSlot(file.slot) && file.slot.after == [] && At(c, 0, FileText(file)) && |FileText(file)| == ValueEnd(file)
    ensures P.ParseValue(c, P.Skip(c, P.SkipMark(c)), 0) == P.Ok(SlotTree(file.slot), ValueEnd(file))
    ensures Nesting(SlotTree(file.slot)) <= NESTING_LIMIT
  {
    hide P.ParseValue, P.Skip, At, Written, Ok, Nesting, Blank;
    var m := P.SkipMark(c);
    var off := P.Skip(c, m);
    var doc := DocAt(c, off, 0);
    BlankSkipped(c, m);
    assert Blank([]) by {
      NothingIsBlank();
    }
    file := File(m == 3, Slot(c[m..off], doc, []));
    Slice(c, m, off);
    assert Written(doc) + [] == Written(doc);
    Joined(c, m, off, c[m..off], Written(doc) + []);
    MarkAt(c);
    Joined(c, 0, m, if file.mark then [0xEF, 0xBB, 0xBF] else [], WrittenSlot(file.slot));
  }

  lemma NothingIsBlank()
    ensures Blank([])
  {
  }

  lemma MarkAt(c: Text)
    ensures At(c, 0, if P.SkipMark(c) == 3 then [0xEF, 0xBB, 0xBF] else [])
  {
    assert c[0..0] == [];
    assert 3 <= |c| ==> c[0..3] == c[..3];
  }

  lemma {:induction false} SkipRunToEnd(c: Text, off: nat)
    requires off <= |c| && Blank(c[off..])
    ensures P.SkipRun(c, off) == |c|
    decreases |c| - off
  {
    if off < |c| {
      assert c[off] == c[off..][0] && c[off + 1..] == c[off..][1..];
      SkipRunToEnd(c, off + 1);
    }
  }

  /** cJSON_ParseWithOpts with require_null_terminated: the C string is accepted and has this
      tree exactly when it is a file of the grammar with this tree, nested at most 1000 deep. */
  ghost predicate Denotes(c: Text, j: Json) {
    exists file: File :: IsFile(file, c, j)
  }

  ghost predicate IsFile(file: File, c: Text, j: Json) {
    OkSlot(file.slot) && c == FileText(file) + [0] && SlotTree(file.slot) == j && Nesting(j) <= 1000
  }

  lemma Accepts(c: Text, j: Json)
    requires NulTerminated(c)
    ensures P.Parse(c, true) == P.Ok(j, |c| - 1) <==> Denotes(c, j)
    ensures P.Parse(c, true).Ok? ==> P.Parse(c, true).next == |c| - 1
  {
    hide P.ParseValue, P.Skip, P.SkipMark, Nesting, FileText, SlotTree;
    if P.Parse(c, true).Ok? {
      var file := FileAtEnd(c);
      assert P.Parse(c, true) == P.Ok(j, |c| - 1) ==> IsFile(file, c, j);
    }
    if Denotes(c, j) {
      var file: File :| IsFile(file, c, j);
      ReadsWholeFile(file, c);
    }
  }

  lemma BlankEnds(c: Text, off: nat)
    requires off < |c| && Blank(c[off..])
    ensures Ends(c, off)
  {
    assert c[off] == c[off..][0];
  }

  lemma ReadsWholeFile(file: File, c: Text)
    requires OkSlot(file.slot) && c == FileText(file) + [0] && Nesting(SlotTree(file.slot)) <= 1000
    ensures P.Parse(c, true) == P.Ok(SlotTree(file.slot), |c| - 1)
  {
    hide P.ParseValue, P.SkipMark, At, Written, Ok, OkSlot, Nesting, SlotTree, FileText, ValueEnd, Blank, Ends;
    FileIsAtStart(file, c);
    TailIsBlank(file, c);
    BlankEnds(c, ValueEnd(file));
    ReadsFile(file, c);
    SkipRunToEnd(c, ValueEnd(file));
  }

  lemma FileIsAtStart(file: File, c: Text)
    requires OkSlot(file.slot) && c == FileText(file) + [0]
    ensures At(c, 0, FileText(file)) && ValueEnd(file) + |file.slot.after| == |c| - 1
  {
    assert c[0..0 + |FileText(file)|] == FileText(file);
  }

  lemma TailIsBlank(file: File, c: Text)
    requires OkSlot(file.slot) && c == FileText(file) + [0]
    ensures ValueEnd(file) < |c| && Blank(c[ValueEnd(file)..])
  {
    assert c[ValueEnd(file)..] == file.slot.after + [0];
  }

  lemma FileAtEnd(c: Text) returns (file: File)
    requires NulTerminated(c) && P.Parse(c, true).Ok?
    ensures OkSlot(file.slot) && c == FileText(file) + [0] && Nesting(SlotTree(file.slot)) <= 1000
    ensures P.Parse(c, true) == P.Ok(SlotTree(file.slot), |c| - 1)
  {
    hide P.ParseValue, P.SkipMark, P.Skip, Nesting, Written, Ok;
    var start := FileAt(c);
    var end := ValueEnd(start);
    LastIsNul(c, end);
    BlankSkipped(c, end);
    var after := c[end..|c| - 1];
    file := File(start.mark, Slot(start.slot.before, start.slot.doc, after));
    assert FileText(start) == c[..end];
    assert FileText(file) == FileText(start) + after by {
      WithAfter(start, after);
    }
    assert c == c[..end] + after + [0];
  }

  lemma WithAfter(file: File, after: Text)
    requires OkSlot(file.slot) && file.slot.after == [] && Blank(after)
    ensures
      var longer := File(file.mark, Slot(file.slot.before, file.slot.doc, after));
      OkSlot(longer.slot) && FileText(longer) == FileText(file) + after
  {
    var w := Written(file.slot.doc);
    assert w + [] == w;
  }

  lemma InnerByte(c: Text, k: nat)
    requires NulTerminated(c) && k < |c| - 1
    ensures c[k] != NUL
  {
    assert c[..|c| - 1][k] == c[k];
  }

  /** In a C string only the end is a NUL. */
  lemma LastIsNul(c: Text, off: nat)
    requires NulTerminated(c) && off <= |c|
    requires P.Skip(c, off) < |c| && c[P.Skip(c, off)] == NUL
    ensures P.Skip(c, off) == |c| - 1 && off <= |c| - 1
  {
    if P.Skip(c, off) < |c| - 1 {
      InnerByte(c, P.Skip(c, off));
    }
  }

  /** cJSON_Parse: a text that starts with a value is accepted, whatever stands behind the value,
      unless that goes on with a number. */
  lemma AcceptsStart(file: File, c: Text)
    requires OkSlot(file.slot) && file.slot.after == [] && At(c, 0, FileText(file))
    requires Ends(c, |FileText(file)|) && Nesting(SlotTree(file.slot)) <= 1000
    ensures P.Parse(c, false) == P.Ok(SlotTree(file.slot), |FileText(file)|)
  {
    hide P.ParseValue, P.Skip, P.SkipMark, At, Nesting;
    ReadsFile(file, c);
  }

  /** And a text that is accepted starts with a value. */
  lemma StartsAccepted(c: Text) returns (file: File)
    requires P.Parse(c, false).Ok?
    ensures OkSlot(file.slot) && file.slot.after == [] && At(c, 0, FileText(file))
    ensures P.Parse(c, false) == P.Ok(SlotTree(file.slot), |FileText(file)|) && Nesting(SlotTree(file.slot)) <= 1000
  {
    hide P.ParseValue, P.Skip, P.SkipMark, At, Nesting;
    file := FileAt(c);
  }
}
