/** What the string decoder means: a string literal as a sequence of raw bytes and escapes,
    each with the bytes it stands for, and which of them section 7 of RFC 8259 allows. */
module JsonEscapes {
  import opened Common
  import opened Bytes
  import opened Utf8
  import opened JsonString

  datatype Token =
    | Raw(b: Byte)                    // an unescaped byte, control characters included
    | Simple(letter: Byte)            // \" \\ \/ \b \f \n \r \t
    | Unit(digits: Text)              // \uXXXX naming a scalar value by itself
    | Pair(high: Text, low: Text)     // \uXXXX\uXXXX, a surrogate pair
  {
    predicate Ok() {
      match this
      case Raw(b) => b != QUOTE && b != BACKSLASH
      case Simple(letter) => SimpleEscape(letter).Some?
      case Unit(digits) => |digits| == 4 && FourHexDigits(digits, 0) && IsScalar(Hex4(digits, 0))
      case Pair(high, low) =>
        && |high| == 4 && FourHexDigits(high, 0) && IsHighSurrogate(Hex4(high, 0))
        && |low| == 4 && FourHexDigits(low, 0) && IsLowSurrogate(Hex4(low, 0))
    }

    function Source(): Text {
      match this
      case Raw(b) => [b]
      case Simple(letter) => [BACKSLASH, letter]
      case Unit(digits) => [BACKSLASH, LETTER_U] + digits
      case Pair(high, low) => [BACKSLASH, LETTER_U] + high + [BACKSLASH, LETTER_U] + low
    }

    /** The scalar value named by an escape. */
    function Scalar(): (cp: nat)
      requires Ok() && !Raw?
      ensures IsScalar(cp)
    {
      match this
      case Simple(letter) => SimpleEscape(letter).value
      case Unit(digits) => Hex4(digits, 0)
      case Pair(high, low) => 0x10000 + (Hex4(high, 0) - 0xD800) * 1024 + (Hex4(low, 0) - 0xDC00)
    }

    function Meaning(): Text
      requires Ok()
    {
      if Raw? then [b] else Encode(Scalar())
    }
  }

  ghost predicate AllOk(tokens: seq<Token>) {
    forall i :: 0 <= i < |tokens| ==> tokens[i].Ok()
  }

  function Source(tokens: seq<Token>): Text {
    if tokens == [] then [] else tokens[0].Source() + Source(tokens[1..])
  }

  function Meaning(tokens: seq<Token>): Text
    requires AllOk(tokens)
  {
    if tokens == [] then [] else tokens[0].Meaning() + Meaning(tokens[1..])
  }

  /** Every \u reached by the decoder is followed by four hexadecimal digits. */
  predicate WellFormedEscapes(c: Text, p: nat, end: nat)
    requires end < |c|
    decreases end - p
  {
    p < end ==>
      if c[p] != BACKSLASH then WellFormedEscapes(c, p + 1, end)
      else if c[p + 1] == LETTER_U then p + 6 <= end && FourHexDigits(c, p + 2) && WellFormedEscapes(c, p + 6, end)
      else WellFormedEscapes(c, p + 2, end)
  }

  // ----- one token -----

  lemma HexIn(c: Text, at: nat, digits: Text)
    requires |digits| == 4 && At(c, at, digits)
    ensures FourHexDigits(c, at) <==> FourHexDigits(digits, 0)
    ensures Hex4(c, at) == Hex4(digits, 0)
  {
    assert c[at..at + 4] == digits;
    assert c[at] == digits[0] && c[at + 1] == digits[1] && c[at + 2] == digits[2] && c[at + 3] == digits[3];
  }

  /** The decoder reads a token where its source text stands. */
  lemma DecodesToken(t: Token, c: Text, p: nat, end: nat)
    requires t.Ok() && p + |t.Source()| <= end < |c| && At(c, p, t.Source())
    ensures Unescape(c, p, end) == Some(Unescaped(t.Meaning(), |t.Source()|))
  {
    match t
    case Raw(_) => AtHead(c, p, t.Source());
    case Simple(_) =>
      AtHead(c, p, t.Source());
      AtHead(c, p + 1, t.Source()[1..]);
    case Unit(digits) => DecodesUnit(digits, c, p, end);
    case Pair(high, low) => DecodesPair(high, low, c, p, end);
  }

  /** The backslash and the u of an escape. */
  lemma EscapeHead(c: Text, p: nat)
    requires At(c, p, [BACKSLASH, LETTER_U])
    ensures c[p] == BACKSLASH && c[p + 1] == LETTER_U
  {
    assert c[p] == c[p..p + 2][0] && c[p + 1] == c[p..p + 2][1];
  }

  lemma DecodesUnit(digits: Text, c: Text, p: nat, end: nat)
    requires Unit(digits).Ok() && p + 6 <= end < |c| && At(c, p, Unit(digits).Source())
    ensures Unescape(c, p, end) == Some(Unescaped(Unit(digits).Meaning(), 6))
  {
    AtSplit(c, p, [BACKSLASH, LETTER_U], digits);
    EscapeHead(c, p);
    HexIn(c, p + 2, digits);
  }

  lemma DecodesPair(high: Text, low: Text, c: Text, p: nat, end: nat)
    requires Pair(high, low).Ok() && p + 12 <= end < |c| && At(c, p, Pair(high, low).Source())
    ensures Unescape(c, p, end) == Some(Unescaped(Pair(high, low).Meaning(), 12))
  {
    var mark := [BACKSLASH, LETTER_U];
    AtSplit(c, p, mark + high + mark, low);
    AtSplit(c, p, mark + high, mark);
    AtSplit(c, p, mark, high);
    EscapeHead(c, p);
    EscapeHead(c, p + 6);
    HexIn(c, p + 2, high);
    HexIn(c, p + 8, low);
  }

  /** The token `t` is what the decoder reads at `p`. */
  ghost predicate Reads(t: Token, c: Text, p: nat, end: nat)
    requires p < end < |c|
  {
    && t.Ok() && At(c, p, t.Source()) && p + |t.Source()| <= end
    && Unescape(c, p, end) == Some(Unescaped(t.Meaning(), |t.Source()|))
    && ScanEnd(c, p + |t.Source()|) == Some(end) && WellFormedEscapes(c, p + |t.Source()|, end)
  }

  lemma TokenReadPair(c: Text, p: nat, end: nat) returns (t: Token)
    requires p + 12 <= end < |c| && WellFormedEscapes(c, p, end)
    requires c[p] == BACKSLASH && c[p + 1] == LETTER_U && c[p + 6] == BACKSLASH && c[p + 7] == LETTER_U
    requires IsHighSurrogate(Hex4(c, p + 2)) && IsLowSurrogate(Hex4(c, p + 8))
    ensures t.Pair? && t.Ok() && At(c, p, t.Source())
    ensures WellFormedEscapes(c, p + 12, end) && FourHexDigits(c, p + 2) && FourHexDigits(c, p + 8)
  {
    var high, low := c[p + 2..p + 6], c[p + 8..p + 12];
    HexIn(c, p + 2, high);
    HexIn(c, p + 8, low);
    t := Pair(high, low);
    assert WellFormedEscapes(c, p + 6, end);
    assert c[p..p + 12] == t.Source();
  }

  lemma TokenReadUnit(c: Text, p: nat, end: nat) returns (t: Token)
    requires p + 6 <= end < |c| && WellFormedEscapes(c, p, end)
    requires c[p] == BACKSLASH && c[p + 1] == LETTER_U && IsScalar(Hex4(c, p + 2))
    ensures t.Unit? && t.Ok() && At(c, p, t.Source())
    ensures WellFormedEscapes(c, p + 6, end) && FourHexDigits(c, p + 2)
  {
    HexIn(c, p + 2, c[p + 2..p + 6]);
    t := Unit(c[p + 2..p + 6]);
    assert c[p..p + 6] == t.Source();
  }

  /** The token the decoder reads, when it reads one from well-formed text. */
  lemma TokenRead(c: Text, p: nat, end: nat) returns (t: Token)
    requires p < end < |c| && ScanEnd(c, p) == Some(end) && WellFormedEscapes(c, p, end)
    requires Unescape(c, p, end).Some?
    ensures Reads(t, c, p, end)
  {
    if c[p] != BACKSLASH {
      t := Raw(c[p]);
      assert c[p..p + 1] == t.Source();
    } else if c[p + 1] != LETTER_U {
      t := Simple(c[p + 1]);
      assert c[p..p + 2] == t.Source();
    } else if Utf16Literal(c, p, end).value.length == 6 {
      t := TokenReadUnit(c, p, end);
      ScanOverHex(c, p, end);
    } else {
      t := TokenReadPair(c, p, end);
      ScanOverHex(c, p, end);
      ScanOverHex(c, p + 6, end);
    }
    DecodesToken(t, c, p, end);
  }

  lemma ScanOverHex(c: Text, p: nat, end: nat)
    requires p + 6 <= end < |c| && ScanEnd(c, p) == Some(end)
    requires c[p] == BACKSLASH && c[p + 1] == LETTER_U && FourHexDigits(c, p + 2)
    ensures ScanEnd(c, p + 6) == Some(end)
  {
    assert ScanEnd(c, p) == ScanEnd(c, p + 2);
    assert ScanEnd(c, p + 2) == ScanEnd(c, p + 3);
    assert ScanEnd(c, p + 3) == ScanEnd(c, p + 4);
    assert ScanEnd(c, p + 4) == ScanEnd(c, p + 5);
  }

  // ----- whole literals -----

  lemma SourceCons(t: Token, rest: seq<Token>)
    requires t.Ok() && AllOk(rest)
    ensures AllOk([t] + rest) && Source([t] + rest) == t.Source() + Source(rest)
    ensures Meaning([t] + rest) == t.Meaning() + Meaning(rest)
  {
    assert ([t] + rest)[1..] == rest;
  }

  /** Every sequence of tokens decodes to the concatenation of what its tokens mean. */
  lemma {:induction false} DecodeTokens(tokens: seq<Token>, c: Text, p: nat, end: nat)
    requires AllOk(tokens) && end < |c| && p + |Source(tokens)| == end && At(c, p, Source(tokens))
    ensures Decode(c, p, end) == Some(Meaning(tokens))
  {
    if tokens != [] {
      var t := tokens[0];
      AtSplit(c, p, t.Source(), Source(tokens[1..]));
      DecodesToken(t, c, p, end);
      DecodeTokens(tokens[1..], c, p + |t.Source()|, end);
    }
  }

  lemma SliceJoin(c: Text, p: nat, q: nat, end: nat)
    requires p <= q <= end <= |c|
    ensures c[p..end] == c[p..q] + c[q..end]
  {
  }

  lemma DecodedStep(c: Text, p: nat, q: nat, end: nat, t: Token, rest: seq<Token>)
    requires p < end < |c| && Reads(t, c, p, end) && AllOk(rest) && q == p + |t.Source()|
    requires Source(rest) == c[q..end] && Decode(c, q, end) == Some(Meaning(rest))
    ensures AllOk([t] + rest) && Source([t] + rest) == c[p..end]
    ensures Decode(c, p, end) == Some(Meaning([t] + rest))
  {
    hide Unescape, ScanEnd, WellFormedEscapes, Source, Meaning;
    SourceCons(t, rest);
    SliceJoin(c, p, q, end);
  }

  /** Whatever decodes, from a literal whose \u escapes have four digits, is a sequence
      of tokens: in particular no lone surrogate decodes. */
  lemma {:induction false} DecodedTokens(c: Text, p: nat, end: nat) returns (tokens: seq<Token>)
    requires p <= end < |c| && ScanEnd(c, p) == Some(end) && WellFormedEscapes(c, p, end)
    requires Decode(c, p, end).Some?
    ensures AllOk(tokens) && Source(tokens) == c[p..end]
    ensures Decode(c, p, end) == Some(Meaning(tokens))
    decreases end - p
  {
    hide Unescape;
    if p == end {
      tokens := [];
    } else {
      var t := TokenRead(c, p, end);
      var rest := DecodedTokens(c, p + |t.Source()|, end);
      DecodedStep(c, p, p + |t.Source()|, end, t, rest);
      tokens := [t] + rest;
    }
  }

  /** The literal between `p` and its closing quote is these tokens. */
  ghost predicate Tokenizes(c: Text, p: nat, end: nat, tokens: seq<Token>)
    requires p <= end < |c|
  {
    AllOk(tokens) && Source(tokens) == c[p..end]
  }

  /** parse_string accepts exactly the literals made of raw bytes other than the quote and the
      backslash, simple escapes and \u escapes that name scalar values, and decodes them to
      what those mean. Raw control characters, which RFC 8259 forbids, are among them. */
  lemma EscapeDecoding(c: Text, p: nat, end: nat)
    requires p <= end < |c| && ScanEnd(c, p) == Some(end) && WellFormedEscapes(c, p, end)
    ensures Decode(c, p, end).Some? <==> exists tokens :: Tokenizes(c, p, end, tokens)
    ensures forall tokens :: Tokenizes(c, p, end, tokens) ==> Decode(c, p, end) == Some(Meaning(tokens))
  {
    forall tokens | Tokenizes(c, p, end, tokens)
      ensures Decode(c, p, end) == Some(Meaning(tokens))
    {
      DecodeTokens(tokens, c, p, end);
    }
    if Decode(c, p, end).Some? {
      var tokens := DecodedTokens(c, p, end);
      assert Tokenizes(c, p, end, tokens);
    }
  }

  /** RFC 8259, section 7: control characters must be escaped. */
  ghost predicate Conforms(tokens: seq<Token>) {
    AllOk(tokens) && forall i :: 0 <= i < |tokens| ==> (tokens[i].Raw? ==> tokens[i].b >= SPACE)
  }

  ghost predicate NoControls(s: Text) {
    forall i :: 0 <= i < |s| ==> s[i] >= SPACE
  }

  lemma ConformingSource(t: Token)
    requires t.Ok()
    ensures NoControls(t.Source()) <==> (t.Raw? ==> t.b >= SPACE)
  {
    hide Hex4;
    match t
    case Raw(b) => assert t.Source()[0] == b;
    case Simple(_) =>
    case Unit(digits) => NoControlsConcat([BACKSLASH, LETTER_U], digits);
    case Pair(high, low) =>
      NoControlsConcat([BACKSLASH, LETTER_U], high);
      NoControlsConcat([BACKSLASH, LETTER_U] + high, [BACKSLASH, LETTER_U]);
      NoControlsConcat([BACKSLASH, LETTER_U] + high + [BACKSLASH, LETTER_U], low);
  }

  lemma NoControlsConcat(s: Text, t: Text)
    ensures NoControls(s + t) <==> NoControls(s) && NoControls(t)
  {
    forall i | 0 <= i < |t|
      ensures t[i] == (s + t)[|s| + i]
    {
    }
    forall i | 0 <= i < |s|
      ensures s[i] == (s + t)[i]
    {
    }
  }

  lemma {:induction false} ConformingTokens(tokens: seq<Token>)
    requires AllOk(tokens)
    ensures Conforms(tokens) <==> NoControls(Source(tokens))
  {
    if tokens != [] {
      ConformingTokens(tokens[1..]);
      ConformingSource(tokens[0]);
      NoControlsConcat(tokens[0].Source(), Source(tokens[1..]));
      assert forall i :: 0 < i < |tokens| ==> tokens[i] == tokens[1..][i - 1];
      assert Conforms(tokens) <==> (tokens[0].Raw? ==> tokens[0].b >= SPACE) && Conforms(tokens[1..]);
    }
  }

  /** The accepted literals that conform are those without a raw control character. */
  lemma ConformingLiterals(c: Text, p: nat, end: nat)
    requires p <= end < |c| && ScanEnd(c, p) == Some(end) && WellFormedEscapes(c, p, end)
    ensures (exists tokens :: Tokenizes(c, p, end, tokens) && Conforms(tokens))
            <==> Decode(c, p, end).Some? && NoControls(c[p..end])
  {
    hide Decode, WellFormedEscapes, ScanEnd;
    EscapeDecoding(c, p, end);
    forall tokens | Tokenizes(c, p, end, tokens)
      ensures Conforms(tokens) <==> NoControls(c[p..end])
    {
      ConformingTokens(tokens);
    }
  }

  /** A raw control character is accepted although no conforming literal has it. */
  lemma ControlCharacterAccepted(b: Byte)
    requires 0 < b < SPACE
    ensures ScanEnd([b, QUOTE], 0) == Some(1) && Decode([b, QUOTE], 0, 1) == Some([b])
    ensures forall tokens :: Tokenizes([b, QUOTE], 0, 1, tokens) ==> !Conforms(tokens)
  {
    var c := [b, QUOTE];
    assert Decode(c, 1, 1) == Some([]) && [b] + [] == [b];
    assert ScanEnd(c, 1) == Some(1);
    forall tokens | Tokenizes(c, 0, 1, tokens)
      ensures !Conforms(tokens)
    {
      ConformingTokens(tokens);
      assert Source(tokens)[0] == b;
    }
  }

  /** The \u escape at `q` names a surrogate that is not half of a pair. */
  ghost predicate LoneSurrogate(c: Text, q: nat, end: nat)
    requires q + 6 <= end < |c|
  {
    && c[q] == BACKSLASH && c[q + 1] == LETTER_U
    && (IsHighSurrogate(Hex4(c, q + 2)) || IsLowSurrogate(Hex4(c, q + 2)))
    && !(IsHighSurrogate(Hex4(c, q + 2)) && q + 12 <= end
         && c[q + 6] == BACKSLASH && c[q + 7] == LETTER_U && IsLowSurrogate(Hex4(c, q + 8)))
  }

  lemma LoneSurrogateFails(c: Text, q: nat, end: nat)
    requires q + 6 <= end < |c| && LoneSurrogate(c, q, end)
    ensures Unescape(c, q, end) == None
  {
  }

  /** A surrogate that is not half of a pair makes the whole literal fail, wherever it stands. */
  lemma {:induction false} LoneSurrogateRejected(before: seq<Token>, c: Text, p: nat, q: nat, end: nat)
    requires AllOk(before) && q == p + |Source(before)| && q + 6 <= end < |c|
    requires At(c, p, Source(before)) && LoneSurrogate(c, q, end)
    ensures Decode(c, p, end) == None
  {
    hide Unescape, LoneSurrogate;
    if before == [] {
      LoneSurrogateFails(c, p, end);
    } else {
      AtSplit(c, p, before[0].Source(), Source(before[1..]));
      DecodesToken(before[0], c, p, end);
      LoneSurrogateRejected(before[1..], c, p + |before[0].Source()|, q, end);
    }
  }

  // ----- UTF-8 in, UTF-8 out -----

  /** The first byte of two splittings of one text, and what follows it. */
  lemma SameHead(a: Text, b: Text, x: Text, y: Text)
    requires a + b == x + y && a != [] && x != []
    ensures a[0] == x[0]
    ensures |a| == 1 ==> b == x[1..] + y
  {
    assert (a + b)[0] == a[0] && (x + y)[0] == x[0];
    assert (a + b)[1..] == a[1..] + b && (x + y)[1..] == x[1..] + y;
    assert |a| == 1 ==> a[1..] + b == b;
  }

  lemma DropDrop<T>(s: seq<T>, k: nat)
    requires 0 < k <= |s|
    ensures s[1..][k - 1..] == s[k..]
  {
  }

  /** Reading ASCII bytes off an encoding takes off as many scalars. */
  lemma {:induction false} DropAscii(scalars: seq<nat>, ascii: Text, rest: Text)
    requires AllScalars(scalars) && EncodeAll(scalars) == ascii + rest
    requires forall i :: 0 <= i < |ascii| ==> ascii[i] < 0x80
    ensures |ascii| <= |scalars| && EncodeAll(scalars[|ascii|..]) == rest
  {
    if ascii == [] {
      assert scalars[0..] == scalars;
      assert ascii + rest == rest;
    } else {
      SameHead(Encode(scalars[0]), EncodeAll(scalars[1..]), ascii, rest);
      DropAscii(scalars[1..], ascii[1..], rest);
      DropDrop(scalars, |ascii|);
    }
  }

  /** Bytes from 0x80 on can only be raw tokens. */
  lemma {:induction false} DropHighBytes(tokens: seq<Token>, high: Text, rest: Text)
    requires AllOk(tokens) && Source(tokens) == high + rest
    requires forall i :: 0 <= i < |high| ==> high[i] >= 0x80
    ensures |high| <= |tokens| && Source(tokens[|high|..]) == rest
    ensures Meaning(tokens) == high + Meaning(tokens[|high|..])
  {
    if high == [] {
      assert tokens[0..] == tokens;
      assert high + rest == rest;
      assert high + Meaning(tokens) == Meaning(tokens);
    } else {
      SameHead(tokens[0].Source(), Source(tokens[1..]), high, rest);
      assert tokens[0] == Raw(high[0]);
      DropHighBytes(tokens[1..], high[1..], rest);
      DropDrop(tokens, |high|);
      ConsConcat(high, Meaning(tokens[|high|..]));
    }
  }

  lemma ConsConcat(s: Text, t: Text)
    requires s != []
    ensures s + t == [s[0]] + (s[1..] + t)
  {
  }

  /** The scalar a token stands for, when it stands for one. */
  lemma TokenScalar(t: Token) returns (cp: nat)
    requires t.Ok() && (t.Raw? ==> t.b < 0x80)
    ensures IsScalar(cp) && Encode(cp) == t.Meaning()
    ensures forall i :: 0 <= i < |t.Source()| ==> t.Source()[i] < 0x80
  {
    cp := if t.Raw? then t.b else t.Scalar();
  }

  lemma EncodeCons(cp: nat, scalars: seq<nat>)
    requires IsScalar(cp) && AllScalars(scalars)
    ensures AllScalars([cp] + scalars) && EncodeAll([cp] + scalars) == Encode(cp) + EncodeAll(scalars)
  {
    assert ([cp] + scalars)[1..] == scalars;
  }

  lemma {:induction false} KeepsUtf8(tokens: seq<Token>, scalars: seq<nat>) returns (decoded: seq<nat>)
    requires AllOk(tokens) && AllScalars(scalars) && Source(tokens) == EncodeAll(scalars)
    ensures AllScalars(decoded) && EncodeAll(decoded) == Meaning(tokens)
    decreases |tokens|
  {
    hide Token.Ok, Token.Meaning, Hex4;
    if tokens == [] {
      return [];
    }
    var t := tokens[0];
    if t.Raw? && t.b >= 0x80 {
      SameHead(t.Source(), Source(tokens[1..]), Encode(scalars[0]), EncodeAll(scalars[1..]));
      DropHighBytes(tokens, Encode(scalars[0]), EncodeAll(scalars[1..]));
      var rest := KeepsUtf8(tokens[|Encode(scalars[0])|..], scalars[1..]);
      EncodeCons(scalars[0], rest);
      decoded := [scalars[0]] + rest;
    } else {
      var cp := TokenScalar(t);
      DropAscii(scalars, t.Source(), Source(tokens[1..]));
      var rest := KeepsUtf8(tokens[1..], scalars[|t.Source()|..]);
      EncodeCons(cp, rest);
      decoded := [cp] + rest;
    }
  }

  /** Decoding a literal that is valid UTF-8 gives valid UTF-8. */
  lemma DecodedIsUtf8(c: Text, p: nat, end: nat)
    requires p <= end < |c| && ScanEnd(c, p) == Some(end) && WellFormedEscapes(c, p, end)
    requires Decode(c, p, end).Some? && ValidUtf8(c[p..end])
    ensures ValidUtf8(Decode(c, p, end).value)
  {
    var tokens := DecodedTokens(c, p, end);
    var scalars: seq<nat> :| AllScalars(scalars) && EncodeAll(scalars) == c[p..end];
    var decoded := KeepsUtf8(tokens, scalars);
  }
}
