/** One line of a CSV file (_CSV_parse_line in src/file/csv.c) and the fields it stands
    for (section 2 of RFC 4180). */
module Csv {
  import opened Common
  import opened Strings

  const QUOTE: char := '"'
  const NEWLINE: char := '\n'

  /** The size of the token buffer. */
  const TOKEN_SIZE: nat := 1024

  // ----- the automaton -----

  /** strlen of the characters of a token and a NUL. */
  function Strlen(token: string): (n: nat)
    ensures n <= |token| && (n < |token| ==> token[n] == NUL)
  {
    if token == "" || token[0] == NUL then 0 else 1 + Strlen(token[1..])
  }

  lemma {:induction false} StrlenOfNulFree(token: string)
    requires NulFree(token)
    ensures Strlen(token) == |token|
  {
    if token != "" {
      StrlenOfNulFree(token[1..]);
    }
  }

  /** A stored value: nothing for an empty string. */
  function Stored(s: string): Option<string> {
    if s == "" then None else Some(s)
  }

  /** The stored value of a token. */
  function Value(token: string): Option<string> {
    Stored(token[..Strlen(token)])
  }

  predicate EndsToken(c: char, delimiter: char, inQuotes: bool) {
    !inQuotes && (c == delimiter || c == NEWLINE)
  }

  /** Two quotes stand at `i`: they are read as one. */
  predicate TwoQuotes(line: string, i: nat)
    requires i < |line|
  {
    line[i] == QUOTE && i + 1 < |line| && line[i + 1] == QUOTE
  }

  /** The line ends at its end, or at a NUL behind its first character. */
  predicate AtEnd(line: string, i: nat) {
    i >= |line| || (i > 0 && line[i] == NUL)
  }

  /** The values of the tokens from position `i` on, when `token` was read so far; nothing
      when a token does not fit the token buffer. */
  function Run(line: string, delimiter: char, i: nat, token: string, inQuotes: bool): Option<seq<Option<string>>>
    requires delimiter != QUOTE
    decreases |line| - i
  {
    if AtEnd(line, i) then Some([])
    else if |token| >= TOKEN_SIZE then None
    else if EndsToken(line[i], delimiter, inQuotes) then
      match Run(line, delimiter, i + 1, "", inQuotes)
      case None => None
      case Some(rest) => Some([Value(token)] + rest)
    else if TwoQuotes(line, i) then Run(line, delimiter, i + 2, token + [QUOTE], inQuotes)
    else if line[i] == QUOTE then Run(line, delimiter, i + 1, token, !inQuotes)
    else Run(line, delimiter, i + 1, token + [line[i]], inQuotes)
  }

  function After(values: seq<Option<string>>, r: Option<seq<Option<string>>>): Option<seq<Option<string>>> {
    match r
    case None => None
    case Some(rest) => Some(values + rest)
  }

  lemma AfterNothing(r: Option<seq<Option<string>>>)
    ensures After([], r) == r
  {
    if r.Some? {
      assert [] + r.value == r.value;
    }
  }

  lemma AfterTwice(values: seq<Option<string>>, more: seq<Option<string>>, r: Option<seq<Option<string>>>)
    ensures After(values, After(more, r)) == After(values + more, r)
  {
    if r.Some? {
      assert values + (more + r.value) == values + more + r.value;
    }
  }

  /** _CSV_parse_line, on a line whose tokens fit the buffer. The first character is looked at
      before the first test for a NUL. */
  method ParseLine(line: string, delimiter: char) returns (values: seq<Option<string>>)
    requires line != "" && delimiter != QUOTE
    requires Run(line, delimiter, 0, "", false).Some?
    ensures Some(values) == Run(line, delimiter, 0, "", false)
  {
    var token := new char[TOKEN_SIZE];
    var i: nat, pos: nat := 0, 0;
    var inQuotes := false;
    var more := true;
    values := [];
    ghost var all := Run(line, delimiter, 0, "", false);
    AfterNothing(all);
    ghost var was := "";
    while more
      invariant more == !AtEnd(line, i)
      invariant pos <= TOKEN_SIZE && token[..pos] == was
      invariant all == After(values, Run(line, delimiter, i, was, inQuotes))
      decreases |line| - i
    {
      var c := line[i];
      token[pos] := c;
      pos := pos + 1;
      assert token[..pos] == was + [c];
      if EndsToken(c, delimiter, inQuotes) {
        AfterTwice(values, [Value(was)], Run(line, delimiter, i + 1, "", inQuotes));
        values := values + [Value(token[..pos - 1])];
        pos := 0;
      }
      if c == QUOTE && !(i + 1 < |line| && line[i + 1] == QUOTE) {
        pos := pos - 1;
        inQuotes := !inQuotes;
      }
      if c == QUOTE && i + 1 < |line| && line[i + 1] == QUOTE {
        i := i + 1;
      }
      was := token[..pos];
      i := i + 1;
      more := i < |line| && line[i] != NUL;
    }
    assert values + [] == values;
  }

  // ----- fields -----

  datatype Field =
    | Bare(text: string)      // written as it is
    | Quoted(text: string)    // written in quotes, with its quotes doubled

  predicate Writable(f: Field, delimiter: char) {
    f.Bare? ==> forall i :: 0 <= i < |f.text| ==> f.text[i] != delimiter && f.text[i] != QUOTE && f.text[i] != NEWLINE
  }

  function Doubled(s: string): string {
    if s == "" then "" else (if s[0] == QUOTE then [QUOTE, QUOTE] else [s[0]]) + Doubled(s[1..])
  }

  function Written(f: Field): string {
    match f
    case Bare(text) => text
    case Quoted(text) => [QUOTE] + (Doubled(text) + [QUOTE])
  }

  function Line(fields: seq<Field>, delimiter: char): string
    requires fields != []
  {
    if |fields| == 1 then Written(fields[0]) + [NEWLINE]
    else Written(fields[0]) + ([delimiter] + Line(fields[1..], delimiter))
  }

  ghost predicate HasNonQuote(s: string) {
    exists i :: 0 <= i < |s| && s[i] != QUOTE
  }

  /** What the automaton reads for a field: a quoted field of quotes only gains one. */
  ghost function Read(f: Field): string {
    match f
    case Bare(text) => text
    case Quoted(text) => if HasNonQuote(text) then text else text + [QUOTE]
  }

  ghost function ReadAll(fields: seq<Field>): seq<Option<string>> {
    seq(|fields|, i requires 0 <= i < |fields| => Value(Read(fields[i])))
  }

  /** The fields themselves, as they are stored. */
  function Texts(fields: seq<Field>): seq<Option<string>> {
    seq(|fields|, i requires 0 <= i < |fields| => Stored(fields[i].text))
  }

  // ----- reading one field -----

  lemma ReadsToggle(line: string, delimiter: char, i: nat, token: string, inQuotes: bool)
    requires delimiter != QUOTE && i < |line| && line[i] == QUOTE && !TwoQuotes(line, i) && |token| < TOKEN_SIZE
    ensures Run(line, delimiter, i, token, inQuotes) == Run(line, delimiter, i + 1, token, !inQuotes)
  {
  }

  lemma ReadsPair(line: string, delimiter: char, i: nat, token: string, inQuotes: bool)
    requires delimiter != QUOTE && i < |line| && TwoQuotes(line, i) && |token| < TOKEN_SIZE
    ensures Run(line, delimiter, i, token, inQuotes) == Run(line, delimiter, i + 2, token + [QUOTE], inQuotes)
  {
  }

  lemma ReadsChar(line: string, delimiter: char, i: nat, token: string, inQuotes: bool)
    requires delimiter != QUOTE && i < |line| && line[i] != QUOTE && line[i] != NUL && |token| < TOKEN_SIZE
    requires !EndsToken(line[i], delimiter, inQuotes)
    ensures Run(line, delimiter, i, token, inQuotes) == Run(line, delimiter, i + 1, token + [line[i]], inQuotes)
  {
  }

  /** The doubled text of a nonempty string, split after its first character. */
  lemma DoubledHead(s: string)
    requires s != ""
    ensures s[0] == QUOTE ==> Doubled(s) + [QUOTE] == [QUOTE] + ([QUOTE] + (Doubled(s[1..]) + [QUOTE]))
    ensures s[0] != QUOTE ==> Doubled(s) + [QUOTE] == [s[0]] + (Doubled(s[1..]) + [QUOTE])
    ensures |Doubled(s)| == |Doubled(s[1..])| + if s[0] == QUOTE then 2 else 1
  {
    hide Doubled;
    DoubledStep(s);
    Regroup(Doubled(s[1..]));
    assert [s[0]] + Doubled(s[1..]) + [QUOTE] == [s[0]] + (Doubled(s[1..]) + [QUOTE]);
  }

  lemma DoubledStep(s: string)
    requires s != ""
    ensures Doubled(s) == (if s[0] == QUOTE then [QUOTE, QUOTE] else [s[0]]) + Doubled(s[1..])
  {
  }

  lemma Regroup(s: string)
    ensures [QUOTE, QUOTE] + s + [QUOTE] == [QUOTE] + ([QUOTE] + (s + [QUOTE]))
  {
  }

  lemma ConsToken(token: string, s: string)
    requires s != ""
    ensures token + s == token + [s[0]] + s[1..]
  {
  }

  /** Two quotes and a text stand at `i`. */
  lemma TwoQuotesAt(line: string, i: nat, rest: string)
    requires At(line, i, [QUOTE] + ([QUOTE] + rest))
    ensures i < |line| && TwoQuotes(line, i) && At(line, i + 1, [QUOTE] + rest) && At(line, i + 2, rest)
  {
    AtSplit(line, i, [QUOTE], [QUOTE] + rest);
    AtSplit(line, i + 1, [QUOTE], rest);
    AtHead(line, i, [QUOTE]);
    AtHead(line, i + 1, [QUOTE]);
  }

  /** Inside the quotes: pairs of quotes are read as one, and the closing one ends them. */
  lemma {:induction false} InsideQuotes(line: string, delimiter: char, i: nat, token: string, s: string)
    requires delimiter != QUOTE && At(line, i, Doubled(s) + [QUOTE])
    requires i + |Doubled(s)| + 1 < |line| ==> line[i + |Doubled(s)| + 1] != QUOTE
    requires |token| + |s| < TOKEN_SIZE && NulFree(s)
    ensures Run(line, delimiter, i, token, true) == Run(line, delimiter, i + |Doubled(s)| + 1, token + s, false)
    decreases |s|
  {
    hide Run, At;
    AtHead(line, i, Doubled(s) + [QUOTE]);
    if s == "" {
      ReadsToggle(line, delimiter, i, token, true);
      assert token + s == token;
    } else {
      DoubledHead(s);
      ConsToken(token, s);
      var rest := Doubled(s[1..]) + [QUOTE];
      if s[0] == QUOTE {
        TwoQuotesAt(line, i, rest);
        ReadsPair(line, delimiter, i, token, true);
        InsideQuotes(line, delimiter, i + 2, token + [QUOTE], s[1..]);
      } else {
        AtSplit(line, i, [s[0]], rest);
        ReadsChar(line, delimiter, i, token, true);
        InsideQuotes(line, delimiter, i + 1, token + [s[0]], s[1..]);
      }
    }
  }

  /** From the opening quote: quotes at the start of the text pair up with it one by one, so
      that the last of them, or the closing quote, is left over. */
  lemma {:induction false} FromOpeningQuote(line: string, delimiter: char, i: nat, token: string, s: string)
    requires delimiter != QUOTE && At(line, i, [QUOTE] + (Doubled(s) + [QUOTE]))
    requires i + |Doubled(s)| + 2 < |line| ==> line[i + |Doubled(s)| + 2] != QUOTE
    requires |token| + |Read(Quoted(s))| < TOKEN_SIZE && NulFree(s)
    ensures Run(line, delimiter, i, token, false)
         == Run(line, delimiter, i + |Doubled(s)| + 2, token + Read(Quoted(s)), false)
    decreases |s|
  {
    hide Run, At, Read;
    ReadFirst(s);
    if s == "" {
      assert Doubled(s) + [QUOTE] == [QUOTE] + "";
      TwoQuotesAt(line, i, "");
      ReadsPair(line, delimiter, i, token, false);
    } else {
      DoubledHead(s);
      var rest := Doubled(s[1..]) + [QUOTE];
      if s[0] != QUOTE {
        AtSplit(line, i, [QUOTE], [s[0]] + rest);
        AtHead(line, i, [QUOTE]);
        AtHead(line, i + 1, [s[0]] + rest);
        ReadsToggle(line, delimiter, i, token, false);
        InsideQuotes(line, delimiter, i + 1, token, s);
      } else {
        TwoQuotesAt(line, i, [QUOTE] + rest);
        ReadsPair(line, delimiter, i, token, false);
        ConsToken(token, [QUOTE] + Read(Quoted(s[1..])));
        FromOpeningQuote(line, delimiter, i + 2, token + [QUOTE], s[1..]);
      }
    }
  }

  lemma ReadFirst(s: string)
    ensures s == "" ==> Read(Quoted(s)) == [QUOTE]
    ensures s != "" && s[0] != QUOTE ==> Read(Quoted(s)) == s
    ensures s != "" && s[0] == QUOTE ==> Read(Quoted(s)) == [QUOTE] + Read(Quoted(s[1..]))
  {
    if s != "" {
      assert HasNonQuote(s) <==> s[0] != QUOTE || HasNonQuote(s[1..]) by {
        if HasNonQuote(s) {
          var k :| 0 <= k < |s| && s[k] != QUOTE;
          assert k > 0 ==> s[1..][k - 1] != QUOTE;
        }
        if HasNonQuote(s[1..]) {
          var k :| 0 <= k < |s[1..]| && s[1..][k] != QUOTE;
          assert s[k + 1] != QUOTE;
        }
      }
    }
  }

  lemma {:induction false} BareField(line: string, delimiter: char, i: nat, token: string, s: string)
    requires delimiter != QUOTE && At(line, i, s)
    requires Writable(Bare(s), delimiter) && |token| + |s| < TOKEN_SIZE && NulFree(s)
    ensures Run(line, delimiter, i, token, false) == Run(line, delimiter, i + |s|, token + s, false)
    decreases |s|
  {
    hide Run, At;
    if s == "" {
      assert token + s == token;
    } else {
      AtHead(line, i, s);
      ConsToken(token, s);
      ReadsChar(line, delimiter, i, token, false);
      BareField(line, delimiter, i + 1, token + [s[0]], s[1..]);
    }
  }

  /** A field is read up to the character after it. */
  lemma ReadsField(line: string, delimiter: char, i: nat, f: Field)
    requires delimiter != QUOTE && At(line, i, Written(f)) && Writable(f, delimiter)
    requires i + |Written(f)| < |line| ==> line[i + |Written(f)|] != QUOTE
    requires |Read(f)| < TOKEN_SIZE && NulFree(f.text)
    ensures Run(line, delimiter, i, "", false) == Run(line, delimiter, i + |Written(f)|, Read(f), false)
  {
    hide Run, At, HasNonQuote, Doubled;
    assert "" + Read(f) == Read(f);
    match f
    case Bare(text) => BareField(line, delimiter, i, "", text);
    case Quoted(text) => FromOpeningQuote(line, delimiter, i, "", text);
  }

  // ----- reading a field with a NUL -----

  lemma {:induction false} InsideQuotesToNul(line: string, delimiter: char, i: nat, token: string, s: string)
    requires delimiter != QUOTE && i > 0 && At(line, i, Doubled(s) + [QUOTE])
    requires |token| + |s| < TOKEN_SIZE && !NulFree(s)
    ensures Run(line, delimiter, i, token, true) == Some([])
    decreases |s|
  {
    hide Run, At;
    AtHead(line, i, Doubled(s) + [QUOTE]);
    DoubledHead(s);
    var rest := Doubled(s[1..]) + [QUOTE];
    if s[0] == NUL {
      StopsAt(line, delimiter, i, token, true);
    } else if s[0] == QUOTE {
      TwoQuotesAt(line, i, rest);
      ReadsPair(line, delimiter, i, token, true);
      InsideQuotesToNul(line, delimiter, i + 2, token + [QUOTE], s[1..]);
    } else {
      AtSplit(line, i, [s[0]], rest);
      ReadsChar(line, delimiter, i, token, true);
      InsideQuotesToNul(line, delimiter, i + 1, token + [s[0]], s[1..]);
    }
  }

  lemma StopsAt(line: string, delimiter: char, i: nat, token: string, inQuotes: bool)
    requires delimiter != QUOTE && 0 < i < |line| && line[i] == NUL
    ensures Run(line, delimiter, i, token, inQuotes) == Some([])
  {
  }

  lemma {:induction false} FromOpeningQuoteToNul(line: string, delimiter: char, i: nat, token: string, s: string)
    requires delimiter != QUOTE && At(line, i, [QUOTE] + (Doubled(s) + [QUOTE]))
    requires |token| + |s| < TOKEN_SIZE && !NulFree(s)
    ensures Run(line, delimiter, i, token, false) == Some([])
    decreases |s|
  {
    hide Run, At;
    DoubledHead(s);
    var rest := Doubled(s[1..]) + [QUOTE];
    if s[0] != QUOTE {
      AtSplit(line, i, [QUOTE], [s[0]] + rest);
      AtHead(line, i, [QUOTE]);
      AtHead(line, i + 1, [s[0]] + rest);
      ReadsToggle(line, delimiter, i, token, false);
      InsideQuotesToNul(line, delimiter, i + 1, token, s);
    } else {
      TwoQuotesAt(line, i, [QUOTE] + rest);
      ReadsPair(line, delimiter, i, token, false);
      FromOpeningQuoteToNul(line, delimiter, i + 2, token + [QUOTE], s[1..]);
    }
  }

  lemma {:induction false} BareFieldToNul(line: string, delimiter: char, i: nat, token: string, s: string)
    requires delimiter != QUOTE && At(line, i, s) && !NulFree(s) && (i > 0 || s[0] != NUL)
    requires Writable(Bare(s), delimiter) && |token| + |s| < TOKEN_SIZE
    ensures Run(line, delimiter, i, token, false) == Some([])
    decreases |s|
  {
    hide Run, At;
    AtHead(line, i, s);
    if s[0] == NUL {
      StopsAt(line, delimiter, i, token, false);
    } else {
      ReadsChar(line, delimiter, i, token, false);
      BareFieldToNul(line, delimiter, i + 1, token + [s[0]], s[1..]);
    }
  }

  /** A field with a NUL is the end of the line, and not one of its values. */
  lemma ReadsFieldToNul(line: string, delimiter: char, i: nat, f: Field)
    requires delimiter != QUOTE && At(line, i, Written(f)) && Writable(f, delimiter) && |Read(f)| < TOKEN_SIZE
    requires !NulFree(f.text) && (i > 0 || f.Quoted? || f.text[0] != NUL)
    ensures Run(line, delimiter, i, "", false) == Some([])
  {
    hide Run, At, HasNonQuote, Doubled;
    match f
    case Bare(text) => BareFieldToNul(line, delimiter, i, "", text);
    case Quoted(text) => FromOpeningQuoteToNul(line, delimiter, i, "", text);
  }

  // ----- reading a line -----

  ghost predicate Fits(fields: seq<Field>, delimiter: char) {
    forall i :: 0 <= i < |fields| ==> Writable(fields[i], delimiter) && |Read(fields[i])| < TOKEN_SIZE
  }

  /** A field and the delimiter or newline after it. */
  lemma ReadsToken(line: string, delimiter: char, i: nat, f: Field, end: char)
    requires delimiter != QUOTE && At(line, i, Written(f)) && Writable(f, delimiter) && |Read(f)| < TOKEN_SIZE
    requires NulFree(f.text) && delimiter != NUL
    requires i + |Written(f)| < |line| && line[i + |Written(f)|] == end && (end == delimiter || end == NEWLINE)
    ensures Run(line, delimiter, i, "", false)
         == After([Value(Read(f))], Run(line, delimiter, i + |Written(f)| + 1, "", false))
  {
    hide At, Written, Read, Writable;
    ReadsField(line, delimiter, i, f);
  }

  lemma {:induction false} ReadsLine(line: string, delimiter: char, i: nat, fields: seq<Field>)
    requires fields != [] && delimiter != QUOTE && delimiter != NUL && Fits(fields, delimiter) && NoNul(fields)
    requires At(line, i, Line(fields, delimiter)) && i + |Line(fields, delimiter)| == |line|
    ensures Run(line, delimiter, i, "", false) == Some(ReadAll(fields))
    decreases |fields|
  {
    hide At, Written, Read, Writable, AtEnd;
    var f := fields[0];
    var mark := i + |Written(f)|;
    if |fields| == 1 {
      AtSplit(line, i, Written(f), [NEWLINE]);
      AtHead(line, mark, [NEWLINE]);
      ReadsToken(line, delimiter, i, f, NEWLINE);
      EndOfLine(line, delimiter);
      assert ReadAll(fields) == [Value(Read(f))] + [];
    } else {
      var rest := Line(fields[1..], delimiter);
      AtSplit(line, i, Written(f), [delimiter] + rest);
      AtSplit(line, mark, [delimiter], rest);
      AtHead(line, mark, [delimiter]);
      ReadsToken(line, delimiter, i, f, delimiter);
      ReadsLine(line, delimiter, mark + 1, fields[1..]);
      assert ReadAll(fields) == [Value(Read(f))] + ReadAll(fields[1..]);
    }
  }

  lemma EndOfLine(line: string, delimiter: char)
    requires delimiter != QUOTE
    ensures Run(line, delimiter, |line|, "", false) == Some([])
  {
  }

  ghost predicate NoNul(fields: seq<Field>) {
    forall i :: 0 <= i < |fields| ==> NulFree(fields[i].text)
  }

  /** A written line with a NUL, other than at its start, has fewer values than fields. */
  lemma {:induction false} StopsInLine(line: string, delimiter: char, i: nat, fields: seq<Field>)
    requires fields != [] && delimiter != QUOTE && delimiter != NUL && Fits(fields, delimiter) && !NoNul(fields)
    requires At(line, i, Line(fields, delimiter)) && i + |Line(fields, delimiter)| == |line|
    requires i > 0 || fields[0].Quoted? || fields[0].text == "" || fields[0].text[0] != NUL
    ensures
      var r := Run(line, delimiter, i, "", false);
      r.Some? && |r.value| < |fields|
    decreases |fields|
  {
    hide At, Written, Read, Writable, Run;
    var f := fields[0];
    var mark := i + |Written(f)|;
    if |fields| == 1 {
      AtSplit(line, i, Written(f), [NEWLINE]);
    } else {
      var rest := Line(fields[1..], delimiter);
      AtSplit(line, i, Written(f), [delimiter] + rest);
      AtSplit(line, mark, [delimiter], rest);
      AtHead(line, mark, [delimiter]);
    }
    if !NulFree(f.text) {
      ReadsFieldToNul(line, delimiter, i, f);
    } else {
      ReadsToken(line, delimiter, i, f, delimiter);
      StopsInLine(line, delimiter, mark + 1, fields[1..]);
    }
  }

  /** The first field starts with a NUL: it is read on, but its value is lost. */
  lemma NulAtStart(line: string, delimiter: char, f: Field)
    requires delimiter != QUOTE && delimiter != NUL && At(line, 0, Written(f)) && Writable(f, delimiter)
    requires |Read(f)| < TOKEN_SIZE && f.Bare? && f.text != "" && f.text[0] == NUL
    requires |f.text| < |line| && (line[|f.text|] == delimiter || line[|f.text|] == NEWLINE)
    ensures Run(line, delimiter, 0, "", false)
         == if NulFree(f.text[1..]) then After([None], Run(line, delimiter, |f.text| + 1, "", false)) else Some([])
  {
    var token := f.text[..1];
    AtHead(line, 0, f.text);
    assert Run(line, delimiter, 0, "", false) == Run(line, delimiter, 1, token, false) by {
      assert "" + [NUL] == token;
    }
    if NulFree(f.text[1..]) {
      BareField(line, delimiter, 1, token, f.text[1..]);
      assert token + f.text[1..] == f.text;
    } else {
      BareFieldToNul(line, delimiter, 1, token, f.text[1..]);
    }
  }

  lemma AtStart(line: string)
    ensures At(line, 0, line)
  {
    assert line[0..0 + |line|] == line;
  }

  /** A written line with a NUL does not read back as its fields. */
  lemma NulIsLost(fields: seq<Field>, delimiter: char)
    requires fields != [] && delimiter != QUOTE && delimiter != NUL && Fits(fields, delimiter) && !NoNul(fields)
    ensures
      var r := Run(Line(fields, delimiter), delimiter, 0, "", false);
      r.Some? && r.value != Texts(fields)
  {
    hide At, Written, Run, NulFree;
    var line, f := Line(fields, delimiter), fields[0];
    AtStart(line);
    if f.Bare? && f.text != "" && f.text[0] == NUL {
      var mark := |f.text|;
      WrittenBare(f);
      if |fields| == 1 {
        AtSplit(line, 0, Written(f), [NEWLINE]);
        AtHead(line, mark, [NEWLINE]);
        EndOfLine(line, delimiter);
      } else {
        var rest := Line(fields[1..], delimiter);
        AtSplit(line, 0, Written(f), [delimiter] + rest);
        AtSplit(line, mark, [delimiter], rest);
        AtHead(line, mark, [delimiter]);
        if NoNul(fields[1..]) {
          ReadsLine(line, delimiter, mark + 1, fields[1..]);
        } else {
          StopsInLine(line, delimiter, mark + 1, fields[1..]);
        }
      }
      NulAtStart(line, delimiter, f);
      assert Texts(fields)[0] == Some(f.text);
    } else {
      StopsInLine(line, delimiter, 0, fields);
    }
  }

  lemma WrittenBare(f: Field)
    requires f.Bare?
    ensures Written(f) == f.text
  {
  }

  ghost predicate SurviveQuoting(fields: seq<Field>) {
    forall i :: 0 <= i < |fields| && fields[i].Quoted? ==> HasNonQuote(fields[i].text)
  }

  /** Round trip: a written line reads back as its fields exactly when no field has a NUL and
      every quoted field has a character other than the quote. */
  lemma RoundTrip(fields: seq<Field>, delimiter: char)
    requires fields != [] && delimiter != QUOTE && delimiter != NUL && Fits(fields, delimiter)
    ensures Run(Line(fields, delimiter), delimiter, 0, "", false).Some?
    ensures NoNul(fields) ==> Run(Line(fields, delimiter), delimiter, 0, "", false) == Some(ReadAll(fields))
    ensures Run(Line(fields, delimiter), delimiter, 0, "", false) == Some(Texts(fields))
            <==> NoNul(fields) && SurviveQuoting(fields)
  {
    hide Run, Line, Stored;
    if NoNul(fields) {
      var line := Line(fields, delimiter);
      AtStart(line);
      ReadsLine(line, delimiter, 0, fields);
      ReadTexts(fields);
    } else {
      NulIsLost(fields, delimiter);
    }
  }

  /** What is read for fields without a NUL are the fields, unless a quoted one gains a quote. */
  lemma ReadTexts(fields: seq<Field>)
    requires NoNul(fields)
    ensures ReadAll(fields) == Texts(fields) <==> SurviveQuoting(fields)
  {
    hide HasNonQuote;
    forall i | 0 <= i < |fields|
      ensures ReadAll(fields)[i] == Texts(fields)[i] <==> (fields[i].Quoted? ==> HasNonQuote(fields[i].text))
    {
      ReadText(fields[i]);
    }
    if SurviveQuoting(fields) {
      assert ReadAll(fields) == Texts(fields);
    }
  }

  lemma ReadText(f: Field)
    requires NulFree(f.text)
    ensures Value(Read(f)) == Stored(f.text) <==> (f.Quoted? ==> HasNonQuote(f.text))
  {
    hide HasNonQuote;
    StrlenOfNulFree(Read(f));
    assert Read(f)[..Strlen(Read(f))] == Read(f);
    assert Read(f) != f.text ==> |Read(f)| == |f.text| + 1;
  }

  /** Reading a written line back. */
  method WriteAndParse(fields: seq<Field>, delimiter: char) returns (values: seq<Option<string>>)
    requires fields != [] && delimiter != QUOTE && delimiter != NUL && Fits(fields, delimiter)
    ensures values == Texts(fields) <==> NoNul(fields) && SurviveQuoting(fields)
  {
    RoundTrip(fields, delimiter);
    values := ParseLine(Line(fields, delimiter), delimiter);
  }

  // ----- what is not written by the rules -----

  /** Text in quotes may have text beside it: the quotes go, and the parts are joined. */
  lemma ReadsMixed(line: string, delimiter: char, i: nat, before: string, s: string, after: string)
    requires delimiter != '"' && delimiter != '\0' && s != "" && s[0] != '"'
    requires NulFree(before) && NulFree(s) && NulFree(after) && |before| + |s| + |after| < 1024
    requires Writable(Bare(before), delimiter) && Writable(Bare(after), delimiter)
    requires At(line, i, before + (("\"" + (Doubled(s) + "\"")) + after))
    requires
      var end := i + |before + (("\"" + (Doubled(s) + "\"")) + after)|;
      end < |line| && (line[end] == delimiter || line[end] == '\n')
    ensures
      var end := i + |before + (("\"" + (Doubled(s) + "\"")) + after)|;
      Run(line, delimiter, i, "", false)
      == After([Stored(before + s + after)], Run(line, delimiter, end + 1, "", false))
  {
    hide Run, At, Doubled, Writable, NulFree;
    var quoted := "\"" + (Doubled(s) + "\"");
    var open, close := i + |before|, i + |before| + |quoted|;
    var end := close + |after|;
    AtSplit(line, i, before, quoted + after);
    AtSplit(line, open, quoted, after);
    QuotedAt(line, open, s);
    if after != "" {
      AtHead(line, close, after);
      NotQuote(after, delimiter);
    }
    assert "" + before == before;
    BareField(line, delimiter, i, "", before);
    ReadsToggle(line, delimiter, open, before, false);
    InsideQuotes(line, delimiter, open + 1, before, s);
    BareField(line, delimiter, close, before + s, after);
    ThreeNulFree(before, s, after);
    EndsField(line, delimiter, end, before + s + after);
  }

  lemma QuotedAt(line: string, i: nat, s: string)
    requires s != "" && s[0] != '"' && At(line, i, "\"" + (Doubled(s) + "\""))
    ensures i + 1 < |line| && line[i] == '"' && line[i + 1] != '"' && At(line, i + 1, Doubled(s) + "\"")
  {
    hide At, Doubled;
    AtHead(line, i, "\"" + (Doubled(s) + "\""));
    AtSplit(line, i, "\"", Doubled(s) + "\"");
    DoubledHead(s);
    AtHead(line, i + 1, Doubled(s) + "\"");
  }

  lemma ThreeNulFree(a: string, b: string, c: string)
    requires NulFree(a) && NulFree(b) && NulFree(c)
    ensures NulFree(a + b + c)
  {
  }

  lemma NotQuote(s: string, delimiter: char)
    requires Writable(Bare(s), delimiter) && s != ""
    ensures s[0] != '"'
  {
  }

  lemma EndsField(line: string, delimiter: char, end: nat, token: string)
    requires delimiter != '"' && delimiter != '\0' && end < |line| && (line[end] == delimiter || line[end] == '\n')
    requires NulFree(token) && |token| < 1024
    ensures Run(line, delimiter, end, token, false) == After([Stored(token)], Run(line, delimiter, end + 1, "", false))
  {
    StrlenOfNulFree(token);
    assert token[..|token|] == token;
  }

  lemma StopsAtEnd(line: string, delimiter: char, token: string)
    requires delimiter != '"'
    ensures Run(line, delimiter, |line|, token, false) == Some([])
  {
  }

  /** Without the new line at its end, a line loses its last field. */
  lemma {:induction false} UnterminatedIsLost(line: string, delimiter: char, i: nat, fields: seq<Field>)
    requires fields != [] && delimiter != '"' && delimiter != '\0' && Fits(fields, delimiter) && NoNul(fields)
    requires At(line, i, Line(fields, delimiter)[..|Line(fields, delimiter)| - 1])
    requires i + |Line(fields, delimiter)| - 1 == |line|
    ensures Run(line, delimiter, i, "", false) == Some(ReadAll(fields[..|fields| - 1]))
    decreases |fields|
  {
    hide Run, At, Written, Read, Writable, NulFree;
    var f := fields[0];
    var mark := i + |Written(f)|;
    if |fields| == 1 {
      assert Line(fields, delimiter)[..|Line(fields, delimiter)| - 1] == Written(f);
      ReadsField(line, delimiter, i, f);
      StopsAtEnd(line, delimiter, Read(f));
      assert ReadAll(fields[..0]) == [];
    } else {
      var rest := Line(fields[1..], delimiter);
      var cut := rest[..|rest| - 1];
      assert Line(fields, delimiter)[..|Line(fields, delimiter)| - 1] == Written(f) + ([delimiter] + cut);
      AtSplit(line, i, Written(f), [delimiter] + cut);
      AtSplit(line, mark, [delimiter], cut);
      AtHead(line, mark, [delimiter]);
      ReadsToken(line, delimiter, i, f, delimiter);
      UnterminatedIsLost(line, delimiter, mark + 1, fields[1..]);
      assert ReadAll(fields[..|fields| - 1]) == [Value(Read(f))] + ReadAll(fields[1..][..|fields| - 2]);
    }
  }
}
