/** Parsing what was printed gives back the tree (RFC 8259). */
module JsonRoundTrip {
  import opened Bytes
  import opened Common
  import opened Json
  import opened JsonAccepts
  import opened JsonGrammar
  import opened JsonTree
  import opened SiblingList
  import P = JsonParser
  import W = JsonPrinter

  // ----- what is printed, as a text of the grammar -----

  /** Control characters are printed as escapes, and so are the quote and the backslash. */
  function PrintedChar(b: Byte): Char {
    if b == 0x22 || b == 0x5C then Short(b)
    else if b == 0x08 then Short(0x62)
    else if b == 0x0C then Short(0x66)
    else if b == 0x0A then Short(0x6E)
    else if b == 0x0D then Short(0x72)
    else if b == 0x09 then Short(0x74)
    else if b < 0x20 then Escaped(b, [false, false, false, false])
    else Plain(b)
  }

  function PrintedChars(s: Text): seq<Char> {
    if s == [] then [] else [PrintedChar(s[0])] + PrintedChars(s[1..])
  }

  function PrintedNumeral(n: int): Numeral {
    Numeral(n < 0, Digits(if n < 0 then -n else n), None, None)
  }

  /** A new line, and a tab for every level. */
  function NewLine(format: bool, depth: nat): Text {
    if format then [0x0A] + seq(depth, _ => 0x09) else []
  }

  /** The text of a value that stands inside `depth` arrays and objects: compact, or with a space
      behind the commas of arrays, every member on a line of its own, and a tab behind colons. */
  function PrintedDoc(j: Json, format: bool, depth: nat): Doc
    requires Printable(j)
    decreases j
  {
    match j
    case Null => NullDoc
    case False => FalseDoc
    case True => TrueDoc
    case Number(n) => NumberDoc(PrintedNumeral(n))
    case String(s) => StringDoc(Chars(PrintedChars(s)))
    case Array(es) => if es.NoElement? then EmptyArray([]) else FullArray(PrintedElements(es, [], format, depth + 1))
    case Object(ms) =>
      if ms.NoMember? then EmptyObject(NewLine(format, depth)) else FullObject(PrintedMembers(ms, format, depth + 1))
  }

  function PrintedElements(es: Elements, before: Text, format: bool, depth: nat): ElementDocs
    requires es.Element? && PrintableElements(es)
    decreases es
  {
    var slot := Slot(before, PrintedDoc(es.item, format, depth), []);
    if es.next.NoElement? then LastElement(slot)
    else MoreElements(slot, PrintedElements(es.next, if format then [0x20] else [], format, depth))
  }

  function PrintedMembers(ms: Members, format: bool, depth: nat): MemberDocs
    requires ms.Member? && PrintableMembers(ms) && depth > 0
    decreases ms
  {
    var after := if ms.next.NoMember? then NewLine(format, depth - 1) else [];
    var slot := Slot(if format then [0x09] else [], PrintedDoc(ms.item, format, depth), after);
    var pair := NamedSlot(NewLine(format, depth), Chars(PrintedChars(ms.key)), [], slot);
    if ms.next.NoMember? then LastMember(pair) else MoreMembers(pair, PrintedMembers(ms.next, format, depth))
  }

  // ----- strings and numbers -----

  lemma PrintedByte(b: Byte)
    ensures
      var ch := PrintedChar(b);
      OkChar(ch) && CharText(ch) == RenderByte(b) && CharValue(ch) == [b]
  {
  }

  lemma {:induction false} PrintedBytes(s: Text)
    ensures
      var chars := PrintedChars(s);
      OkChars(chars) && CharsText(chars) == RenderBytes(s) && CharsValue(chars) == s
  {
    hide PrintedChar, OkChar, CharText, CharValue, RenderByte;
    if s != [] {
      PrintedByte(s[0]);
      PrintedBytes(s[1..]);
      assert PrintedChars(s)[1..] == PrintedChars(s[1..]);
    }
  }

  lemma PrintedString(s: Text)
    requires NulFree(s)
    ensures
      var literal := Chars(PrintedChars(s));
      OkLiteral(literal) && LiteralText(literal) == RenderString(s) && LiteralValue(literal) == s
  {
    hide PrintedChars, OkChars, CharsText, CharsValue, RenderBytes, CString;
    PrintedBytes(s);
    CStringOfNulFree(s);
  }

  lemma {:induction false} DigitsPlaces(n: nat, k: nat)
    requires k > 0 && n < Power10(k)
    ensures Digital(Digits(n)) && 0 < |Digits(n)| <= k && PlaceValue(Digits(n)) == n
  {
    if n >= 10 {
      DigitsPlaces(n / 10, k - 1);
      PlaceSnoc(Digits(n / 10), 0x30 + n % 10);
    } else {
      assert Digits(n)[1..] == [] && Power10(0) == 1;
    }
  }

  lemma PowerOfFifteen()
    ensures Power10(15) == 1_000_000_000_000_000
  {
    assert Power10(3) == 1000;
    assert Power10(6) == 1_000_000;
    assert Power10(9) == 1_000_000_000;
    assert Power10(12) == 1_000_000_000_000;
  }

  lemma PrintedNumber(n: int)
    requires IsInteger(n)
    ensures
      var numeral := PrintedNumeral(n);
      OkNumeral(numeral) && NumeralText(numeral) == RenderNumber(n) && NumeralValue(numeral) == Number(n)
  {
    hide PlaceValue, Digits;
    PowerOfFifteen();
    DigitsPlaces(if n < 0 then -n else n, 15);
  }

  // ----- values -----

  lemma NewLineIsBlank(format: bool, depth: nat)
    ensures Blank(NewLine(format, depth))
    ensures NewLine(format, depth) == (if format then [NEWLINE] else []) + (if format then Tabs(depth) else [])
  {
  }

  /** The printed text of a tree is a text of the grammar with this tree. */
  lemma {:induction false} PrintedIsWritten(j: Json, format: bool, depth: nat)
    requires Printable(j)
    ensures
      var doc := PrintedDoc(j, format, depth);
      Ok(doc) && Written(doc) == Render(j, format, depth) && Tree(doc) == j
    decreases j, 0
  {
    hide OkNumeral, OkLiteral, NumeralText, LiteralText, NumeralValue, LiteralValue, RenderNumber, RenderString;
    hide OkElements, OkMembers, WrittenElements, WrittenMembers, ElementTrees, MemberTrees;
    hide RenderMembers, RenderMoreElements;
    match j
    case Number(n) => PrintedNumber(n);
    case String(s) => PrintedString(s);
    case Array(es) =>
      if es.Element? {
        PrintedElementsAreWritten(es, [], format, depth + 1);
      }
    case Object(ms) =>
      NewLineIsBlank(format, depth);
      ObjectParts(ms, format, depth);
      if ms.Member? {
        PrintedMembersAreWritten(ms, format, depth + 1);
        ObjectOpens(ms, format, depth);
      }
    case _ =>
  }

  lemma ObjectOpens(ms: Members, format: bool, depth: nat)
    ensures Render(Object(ms), format, depth)
         == [0x7B] + ((if format then [NEWLINE] else []) + RenderMembers(ms, format, depth + 1))
  {
  }

  lemma SlotIsWritten(before: Text, doc: Doc, after: Text)
    requires Blank(before) && Ok(doc) && Blank(after)
    ensures
      var slot := Slot(before, doc, after);
      OkSlot(slot) && WrittenSlot(slot) == before + (Written(doc) + after) && SlotTree(slot) == Tree(doc)
  {
  }

  lemma ElementsJoined(before: Text, r: Text, format: bool, rest: Text)
    ensures (before + (r + [])) + [0x5D] == before + (r + ([] + [0x5D]))
    ensures (before + (r + [])) + ([0x2C] + ((if format then [0x20] else []) + rest))
         == before + (r + (Separator(format) + rest))
  {
  }

  lemma SpaceIsBlank()
    ensures Blank([]) && Blank([0x20]) && Blank([0x09])
  {
  }

  lemma {:induction false} PrintedElementsAreWritten(es: Elements, before: Text, format: bool, depth: nat)
    requires es.Element? && PrintableElements(es) && Blank(before)
    ensures
      var docs := PrintedElements(es, before, format, depth);
      && OkElements(docs) && WrittenElements(docs) == before + RenderElements(es, format, depth)
      && ElementTrees(docs) == es
    decreases es, 0
  {
    hide Ok, OkSlot, Written, WrittenSlot, Tree, SlotTree, Render, PrintedDoc, Blank;
    var doc := PrintedDoc(es.item, format, depth);
    var r := Render(es.item, format, depth);
    var docs := PrintedElements(es, before, format, depth);
    SpaceIsBlank();
    PrintedIsWritten(es.item, format, depth);
    SlotIsWritten(before, doc, []);
    if es.next.Element? {
      PrintedElementsAreWritten(es.next, if format then [0x20] else [], format, depth);
      ElementsJoined(before, r, format, RenderElements(es.next, format, depth));
    } else {
      ElementsJoined(before, r, format, []);
    }
    ElementsParts(docs);
  }

  lemma PairIsWritten(before: Text, key: Text, slot: Slot)
    requires Blank(before) && NulFree(key) && OkSlot(slot)
    ensures
      var pair := NamedSlot(before, Chars(PrintedChars(key)), [], slot);
      && OkPair(pair) && PairTree(pair) == Named(key, SlotTree(slot))
      && WrittenPair(pair) == before + (RenderString(key) + ([0x3A] + WrittenSlot(slot)))
  {
    hide OkSlot, WrittenSlot, SlotTree, RenderString, LiteralText, LiteralValue, PrintedChars, OkChars;
    PrintedString(key);
    SpaceIsBlank();
    assert [] + ([0x3A] + WrittenSlot(slot)) == [0x3A] + WrittenSlot(slot);
  }

  /** The text of a member, its parts put together as they are printed and as they are written. */
  lemma MemberJoined(line: Text, tabs: Text, name: Text, tab: Text, r: Text, after: Text, rest: Text)
    ensures ((line + tabs) + (name + ([0x3A] + (tab + (r + after))))) + rest
         == line + ((tabs + name + ([0x3A] + tab)) + (r + (after + rest)))
  {
  }

  lemma TailJoined(line: Text, tabs: Text, rest: Text)
    ensures (line + tabs) + [0x7D] == ([] + line) + (tabs + [0x7D])
    ensures [] + ([0x2C] + (line + rest)) == ([0x2C] + line) + rest
  {
  }

  lemma MemberRendered(ms: Members, format: bool, depth: nat, after: Text)
    requires ms.Member? && depth > 0
    requires after == if ms.next.NoMember? then NewLine(format, depth - 1) else []
    ensures
      var line: Text := if format then [NEWLINE] else [];
      var r, tab := Render(ms.item, format, depth), if format then [0x09] else [];
      var rest := if ms.next.NoMember? then [0x7D] else [0x2C] + (line + RenderMembers(ms.next, format, depth));
      (NewLine(format, depth) + (RenderString(ms.key) + ([0x3A] + (tab + (r + after))))) + rest
      == line + RenderMembers(ms, format, depth)
  {
    hide Render, RenderString;
    var line: Text := if format then [NEWLINE] else [];
    var r, tab: Text := Render(ms.item, format, depth), if format then [0x09] else [];
    var tabs: Text := if format then Tabs(depth) else [];
    NewLineIsBlank(format, depth);
    NewLineIsBlank(format, depth - 1);
    MemberText(ms, format, depth);
    assert [0x3A] + tab == NameSeparator(format);
    if ms.next.NoMember? {
      TailJoined(line, if format then Tabs(depth - 1) else [], []);
      MemberJoined(line, tabs, RenderString(ms.key), tab, r, after, [0x7D]);
    } else {
      var rest := RenderMembers(ms.next, format, depth);
      TailJoined(line, [], rest);
      MemberJoined(line, tabs, RenderString(ms.key), tab, r, after, [0x2C] + (line + rest));
    }
  }

  lemma {:induction false} PrintedMembersAreWritten(ms: Members, format: bool, depth: nat)
    requires ms.Member? && PrintableMembers(ms) && depth > 0
    ensures
      var docs := PrintedMembers(ms, format, depth);
      && OkMembers(docs) && MemberTrees(docs) == ms
      && WrittenMembers(docs) == (if format then [NEWLINE] else []) + RenderMembers(ms, format, depth)
    decreases ms, 0
  {
    hide Ok, OkSlot, Written, WrittenSlot, Tree, SlotTree, Render, PrintedDoc, Blank;
    hide OkPair, WrittenPair, PairTree, RenderString;
    var doc := PrintedDoc(ms.item, format, depth);
    var docs := PrintedMembers(ms, format, depth);
    var slot := docs.pair.slot;
    SpaceIsBlank();
    NewLineIsBlank(format, depth);
    NewLineIsBlank(format, depth - 1);
    PrintedIsWritten(ms.item, format, depth);
    SlotIsWritten(slot.before, doc, slot.after);
    PairIsWritten(NewLine(format, depth), ms.key, slot);
    if ms.next.Member? {
      PrintedMembersAreWritten(ms.next, format, depth);
    }
    MembersParts(docs);
    MemberRendered(ms, format, depth, slot.after);
  }

  // ----- what is accepted -----

  lemma {:induction false} CStringIsNulFree(s: Text)
    ensures NulFree(CString(s))
  {
    if s != [] && s[0] != NUL {
      CStringIsNulFree(s[1..]);
    }
  }

  lemma LiteralIsNulFree(literal: Spelling)
    requires OkLiteral(literal)
    ensures NulFree(LiteralValue(literal))
  {
    hide CString, CharsValue, OkChars;
    CStringIsNulFree(if literal.Chars? then CharsValue(literal.chars) else literal.value);
  }

  lemma {:induction false} TreeIsNulFree(doc: Doc)
    requires Ok(doc)
    ensures NulFreeTree(Tree(doc))
    decreases doc
  {
    hide LiteralValue, OkLiteral, OkNumeral, PlaceValue, NumeralText;
    match doc
    case StringDoc(literal) => LiteralIsNulFree(literal);
    case FullArray(elements) => ElementsAreNulFree(elements);
    case FullObject(members) => MembersAreNulFree(members);
    case _ =>
  }

  lemma {:induction false} ElementsAreNulFree(es: ElementDocs)
    requires OkElements(es)
    ensures NulFreeElements(ElementTrees(es))
    decreases es
  {
    hide Ok, Tree;
    ElementsParts(es);
    SlotIsNulFree(es.slot);
    if es.MoreElements? {
      ElementsAreNulFree(es.next);
    }
  }

  lemma {:induction false} SlotIsNulFree(slot: Slot)
    requires OkSlot(slot)
    ensures NulFreeTree(SlotTree(slot))
    decreases slot
  {
    TreeIsNulFree(slot.doc);
  }

  lemma {:induction false} MembersAreNulFree(ms: MemberDocs)
    requires OkMembers(ms)
    ensures NulFreeMembers(MemberTrees(ms))
    decreases ms
  {
    hide Ok, Tree, LiteralValue;
    MembersParts(ms);
    LiteralIsNulFree(ms.pair.name);
    SlotIsNulFree(ms.pair.slot);
    if ms.MoreMembers? {
      MembersAreNulFree(ms.next);
    }
  }

  lemma WithoutEnd(c: Text)
    ensures P.Parse(c, true).Ok? ==> P.Parse(c, false).Ok? && P.Parse(c, false).value == P.Parse(c, true).value
  {
    hide P.ParseValue, P.Skip;
  }

  /** No accepted text holds a tree nested deeper than CJSON_NESTING_LIMIT, or one with a NUL in
      a string or name. */
  lemma ParsedWithinLimit(c: Text, requireNullTerminated: bool)
    ensures
      var r := P.Parse(c, requireNullTerminated);
      r.Ok? ==> Nesting(r.value) <= NESTING_LIMIT && NulFreeTree(r.value)
  {
    hide P.Parse, Nesting, NulFreeTree, SlotTree;
    WithoutEnd(c);
    if P.Parse(c, requireNullTerminated).Ok? {
      var file := StartsAccepted(c);
      SlotIsNulFree(file.slot);
    }
  }

  // ----- whole texts -----

  /** The printed text of a tree, with its NUL, denotes the tree. */
  lemma PrintedDenotes(j: Json, format: bool) returns (file: File)
    requires Printable(j)
    ensures OkSlot(file.slot) && file.slot.after == []
    ensures FileText(file) == Render(j, format, 0) && SlotTree(file.slot) == j
  {
    hide Render, PrintedDoc, Ok, Written, Tree;
    var doc := PrintedDoc(j, format, 0);
    file := File(false, Slot([], doc, []));
    PrintedIsWritten(j, format, 0);
    SpaceIsBlank();
    SlotIsWritten([], doc, []);
    assert [] + ([] + (Written(doc) + [])) == Written(doc);
  }

  /** Round trip: the text printed for a tree, compact or formatted, parses back to that
      tree with nothing of the text left over, exactly when the tree is nested no deeper
      than the parser allows. */
  lemma RoundTrip(j: Json, format: bool, requireNullTerminated: bool)
    requires Printable(j)
    ensures P.Parse(Render(j, format, 0) + [NUL], requireNullTerminated) == P.Ok(j, |Render(j, format, 0)|)
            <==> Nesting(j) <= 1000
  {
    hide P.Parse, Render, Nesting, FileText, SlotTree;
    var c := Render(j, format, 0) + [NUL];
    ParsedWithinLimit(c, requireNullTerminated);
    if Nesting(j) <= 1000 {
      var file := PrintedDenotes(j, format);
      assert c[0..0 + |FileText(file)|] == FileText(file);
      ReadsWholeFile(file, c);
      AcceptsStart(file, c);
    }
  }

  /** Every accepted text with integers for numbers has the same tree as its printed form, in
      either style. */
  lemma PrintedFormMeansTheSame(c: Text, format: bool, requireNullTerminated: bool)
    requires P.Parse(c, requireNullTerminated).Ok? && Integral(P.Parse(c, requireNullTerminated).value)
    ensures
      var printed := Render(P.Parse(c, requireNullTerminated).value, format, 0) + [NUL];
      P.Parse(printed, true).Ok? && P.Parse(printed, true).value == P.Parse(c, requireNullTerminated).value
  {
    hide P.Parse, Render;
    ParsedWithinLimit(c, requireNullTerminated);
    WhatIsPrintable(P.Parse(c, requireNullTerminated).value);
    RoundTrip(P.Parse(c, requireNullTerminated).value, format, true);
  }

  lemma PrintedIsCString(j: Json, format: bool)
    requires Printable(j)
    ensures NulTerminated(Render(j, format, 0) + [NUL])
  {
    RenderNulFree(j, format, 0);
    assert (Render(j, format, 0) + [NUL])[..|Render(j, format, 0)|] == Render(j, format, 0);
  }

  /** cJSON_Parse after cJSON_Print or cJSON_PrintUnformatted: whenever there was memory to
      print in, new items stand for the same tree, unless it is nested too deep. */
  method PrintAndParse(item: Item, ghost j: Json, ghost tails: bool, format: bool, largest: nat)
    returns (printed: bool, r: Item?)
    requires Printable(j) && Represents(item, j, tails)
    ensures
      var most := if largest < 0x7FFF_FFFF then largest / 2 else 0x7FFF_FFFF;
      256 <= largest && |Render(j, format, 0)| + 2 <= most ==> printed
    ensures printed ==> (r != null && Represents(r, j, true) <==> Nesting(j) <= 1000)
    ensures r != null ==> printed && fresh(r) && fresh(r.below)
  {
    hide Represents, P.Parse, Render, Nesting, Printable;
    var text := W.Print(item, j, tails, format, largest);
    if text == null {
      return false, null;
    }
    PrintedIsCString(j, format);
    RoundTrip(j, format, true);
    ParsedWithinLimit(text[..], true);
    var end;
    r, end := P.ParseWithOpts(text[..], true);
    printed := true;
    if r != null && Represents(r, j, true) {
      OneTree(r, j, P.Parse(text[..], true).value, true);
    }
  }
}
