/** The recursive-descent parser (parse_* and cJSON_ParseWithLengthOpts in
    src/third-party/cJSON.c): what it accepts, as functions of the text and a position,
    and the cursor that does it and links the items. */
module JsonParser {
  import opened Common
  import opened Bytes
  import opened Json
  import opened JsonString
  import opened JsonTree
  import opened SiblingList

  datatype Parsed<+T> = Fail | Ok(value: T, next: nat)

  // ----- whitespace -----

  /** The first byte above 32 from `off` on, or the end. A NUL counts as whitespace. */
  function SkipRun(c: Text, off: nat): (r: nat)
    requires off <= |c|
    ensures off <= r <= |c|
    ensures r < |c| ==> c[r] > SPACE
    decreases |c| - off
  {
    if off < |c| && c[off] <= SPACE then SkipRun(c, off + 1) else off
  }

  /** buffer_skip_whitespace: it steps back one byte when it reached the end. */
  function Skip(c: Text, off: nat): (r: nat)
    ensures off <= r
    ensures off < |c| ==> r < |c|
  {
    if off >= |c| then off
    else if SkipRun(c, off) == |c| then |c| - 1
    else SkipRun(c, off)
  }

  // ----- numbers -----

  predicate IsDigit(b: Byte) { 0x30 <= b <= 0x39 }

  function DigitValue(b: Byte): nat
    requires IsDigit(b)
  {
    b - 0x30
  }

  const PLUS: Byte := 0x2B
  const DOT: Byte := 0x2E

  predicate IsExponentMark(b: Byte) { b == 0x65 || b == 0x45 }

  /** The bytes parse_number copies for strtod. */
  predicate IsNumberByte(b: Byte) {
    IsDigit(b) || b == PLUS || b == MINUS || b == DOT || IsExponentMark(b)
  }

  /** At most this many bytes of a number are copied. */
  const NUMBER_BUFFER: nat := 63

  function NumberRun(c: Text, off: nat, limit: nat): (n: nat)
    ensures n <= limit && (n > 0 ==> off + n <= |c|)
    decreases limit
  {
    if limit == 0 || off >= |c| || !IsNumberByte(c[off]) then 0
    else 1 + NumberRun(c, off + 1, limit - 1)
  }

  function DigitsEnd(t: Text, i: nat): (r: nat)
    requires i <= |t|
    ensures i <= r <= |t|
    decreases |t| - i
  {
    if i < |t| && IsDigit(t[i]) then DigitsEnd(t, i + 1) else i
  }

  function SkipSign(t: Text, i: nat): (r: nat)
    requires i <= |t|
    ensures i <= r <= |t|
  {
    if i < |t| && (t[i] == MINUS || t[i] == PLUS) then i + 1 else i
  }

  /** How much of `t` strtod reads: a sign, digits with an optional point, and an exponent
      if it has digits. Nothing when there is no digit. */
  function StrtodLength(t: Text): (n: nat)
    ensures n <= |t|
  {
    var whole := SkipSign(t, 0);
    var point := DigitsEnd(t, whole);
    var end := if point < |t| && t[point] == DOT then DigitsEnd(t, point + 1) else point;
    var digits := (point - whole) + (if end > point then end - point - 1 else 0);
    if digits == 0 then 0
    else if end < |t| && IsExponentMark(t[end]) then
      var exponent := SkipSign(t, end + 1);
      if DigitsEnd(t, exponent) > exponent then DigitsEnd(t, exponent) else end
    else end
  }

  /** The value of a run of decimal digits. */
  function DecimalValue(t: Text): nat
    requires forall i :: 0 <= i < |t| ==> IsDigit(t[i])
  {
    if t == [] then 0 else DecimalValue(t[..|t| - 1]) * 10 + DigitValue(t[|t| - 1])
  }

  predicate AllDigits(t: Text) {
    |t| > 0 && forall i :: 0 <= i < |t| ==> IsDigit(t[i])
  }

  /** The item made of the text strtod read. Negative zero is not an integer: it stays
      negative, and is printed with its sign. */
  function NumberItem(t: Text): Json
    requires |t| > 0
  {
    if AllDigits(t) && IsInteger(DecimalValue(t)) then Number(DecimalValue(t))
    else if t[0] == MINUS && AllDigits(t[1..]) && 0 < DecimalValue(t[1..]) < INTEGER_BOUND then
      Number(0 - DecimalValue(t[1..]))
    else Double(t)
  }

  function ParseNumber(c: Text, off: nat): (r: Parsed<Json>)
    requires off <= |c|
    ensures r.Ok? ==> off < r.next <= |c|
  {
    var t := c[off..off + NumberRun(c, off, NUMBER_BUFFER)];
    var n := StrtodLength(t);
    if n == 0 then Fail else Ok(NumberItem(t[..n]), off + n)
  }

  // ----- strings -----

  /** The string item, read up to its first NUL: an escaped NUL cuts it short. */
  function ParseString(c: Text, off: nat): (r: Parsed<Text>)
    ensures r.Ok? ==> off < r.next <= |c|
  {
    if off >= |c| || c[off] != QUOTE then Fail
    else
      match ScanEnd(c, off + 1)
      case None => Fail
      case Some(end) =>
        match Decode(c, off + 1, end)
        case None => Fail
        case Some(s) => Ok(CString(s), end + 1)
  }

  // ----- values -----

  function Rest(c: Text, off: nat): nat { if off < |c| then |c| - off else 0 }

  predicate Reads(c: Text, off: nat, word: Text) {
    off + |word| <= |c| && c[off..off + |word|] == word
  }

  function ParseValue(c: Text, off: nat, depth: nat): (r: Parsed<Json>)
    requires depth <= NESTING_LIMIT
    ensures r.Ok? ==> off < r.next <= |c|
    decreases NESTING_LIMIT - depth, Rest(c, off), 1
  {
    if Reads(c, off, NULL_TEXT) then Ok(Null, off + 4)
    else if Reads(c, off, FALSE_TEXT) then Ok(False, off + 5)
    else if Reads(c, off, TRUE_TEXT) then Ok(True, off + 4)
    else if off >= |c| then Fail
    else if c[off] == QUOTE then
      match ParseString(c, off)
      case Fail => Fail
      case Ok(s, next) => Ok(String(s), next)
    else if c[off] == MINUS || IsDigit(c[off]) then ParseNumber(c, off)
    else if c[off] == OPEN_ARRAY then ParseArrayAt(c, off, depth)
    else if c[off] == OPEN_OBJECT then ParseObjectAt(c, off, depth)
    else Fail
  }

  function ParseArrayAt(c: Text, off: nat, depth: nat): (r: Parsed<Json>)
    requires depth <= NESTING_LIMIT && off < |c|
    ensures r.Ok? ==> off < r.next <= |c|
    decreases NESTING_LIMIT - depth, Rest(c, off), 0
  {
    if depth == NESTING_LIMIT then Fail
    else
      var first := Skip(c, off + 1);
      if first >= |c| then Fail
      else if c[first] == CLOSE_ARRAY then Ok(Array(NoElement), first + 1)
      else
        match ParseElements(c, first, depth + 1)
        case Fail => Fail
        case Ok(elements, next) => Ok(Array(elements), next)
  }

  function ParseObjectAt(c: Text, off: nat, depth: nat): (r: Parsed<Json>)
    requires depth <= NESTING_LIMIT && off < |c|
    ensures r.Ok? ==> off < r.next <= |c|
    decreases NESTING_LIMIT - depth, Rest(c, off), 0
  {
    if depth == NESTING_LIMIT then Fail
    else
      var first := Skip(c, off + 1);
      if first >= |c| then Fail
      else if c[first] == CLOSE_OBJECT then Ok(Object(NoMember), first + 1)
      else
        match ParseMembers(c, first, depth + 1)
        case Fail => Fail
        case Ok(members, next) => Ok(Object(members), next)
  }

  /** An element and the whitespace around it. */
  function ParseElement(c: Text, off: nat, depth: nat): (r: Parsed<Json>)
    requires depth <= NESTING_LIMIT
    ensures r.Ok? ==> off < r.next <= |c|
    decreases NESTING_LIMIT - depth, Rest(c, off), 2
  {
    match ParseValue(c, Skip(c, off), depth)
    case Fail => Fail
    case Ok(item, next) => Ok(item, Skip(c, next))
  }

  /** The elements from `off` to the closing bracket, and past it. */
  function ParseElements(c: Text, off: nat, depth: nat): (r: Parsed<Elements>)
    requires depth <= NESTING_LIMIT
    ensures r.Ok? ==> off < r.next <= |c|
    decreases NESTING_LIMIT - depth, Rest(c, off), 3
  {
    match ParseElement(c, off, depth)
    case Fail => Fail
    case Ok(item, mark) =>
      if mark < |c| && c[mark] == COMMA then
        match ParseElements(c, mark + 1, depth)
        case Fail => Fail
        case Ok(rest, end) => Ok(Element(item, rest), end)
      else if mark < |c| && c[mark] == CLOSE_ARRAY then Ok(Element(item, NoElement), mark + 1)
      else Fail
  }

  /** A name with the whitespace around it, and its colon. */
  function ParseKey(c: Text, off: nat): (r: Parsed<Text>)
    ensures r.Ok? ==> off < r.next <= |c|
  {
    match ParseString(c, Skip(c, off))
    case Fail => Fail
    case Ok(key, next) =>
      var colon := Skip(c, next);
      if colon >= |c| || c[colon] != COLON then Fail else Ok(key, colon + 1)
  }

  /** A name, a colon and a value, and the whitespace around them. */
  function ParseMember(c: Text, off: nat, depth: nat): (r: Parsed<Named>)
    requires depth <= NESTING_LIMIT
    ensures r.Ok? ==> off < r.next <= |c|
    decreases NESTING_LIMIT - depth, Rest(c, off), 3
  {
    match ParseKey(c, off)
    case Fail => Fail
    case Ok(key, next) =>
      match ParseElement(c, next, depth)
      case Fail => Fail
      case Ok(item, mark) => Ok(Named(key, item), mark)
  }

  /** The members from `off` to the closing brace, and past it. */
  function ParseMembers(c: Text, off: nat, depth: nat): (r: Parsed<Members>)
    requires depth <= NESTING_LIMIT
    ensures r.Ok? ==> off < r.next <= |c|
    decreases NESTING_LIMIT - depth, Rest(c, off), 4
  {
    match ParseMember(c, off, depth)
    case Fail => Fail
    case Ok(named, mark) =>
      if mark < |c| && c[mark] == COMMA then
        match ParseMembers(c, mark + 1, depth)
        case Fail => Fail
        case Ok(rest, end) => Ok(Member(named.key, named.item, rest), end)
      else if mark < |c| && c[mark] == CLOSE_OBJECT then Ok(Member(named.key, named.item, NoMember), mark + 1)
      else Fail
  }

  // ----- whole texts -----

  const BYTE_ORDER_MARK: Text := [0xEF, 0xBB, 0xBF]

  /** skip_utf8_bom: only when more than four bytes can be read. */
  function SkipMark(c: Text): nat {
    if 4 < |c| && c[..3] == BYTE_ORDER_MARK then 3 else 0
  }

  /** cJSON_ParseWithOpts on the C string `c`, terminating NUL included. */
  function Parse(c: Text, requireNullTerminated: bool): Parsed<Json> {
    match ParseValue(c, Skip(c, SkipMark(c)), 0)
    case Fail => Fail
    case Ok(item, next) =>
      if !requireNullTerminated then Ok(item, next)
      else
        var end := Skip(c, next);
        if end >= |c| || c[end] != NUL then Fail else Ok(item, end)
  }

  // ----- the cursor -----

  function Append(es: seq<Json>, r: Parsed<Elements>): Parsed<Elements> {
    if es == [] then r
    else
      match Append(es[1..], r)
      case Fail => Fail
      case Ok(rest, end) => Ok(Element(es[0], rest), end)
  }

  lemma {:induction false} AppendOne(es: seq<Json>, item: Json, r: Parsed<Elements>)
    ensures Append(es + [item], r) == Append(es, if r.Ok? then Ok(Element(item, r.value), r.next) else Fail)
  {
    if es == [] {
      assert ([] + [item])[1..] == [];
    } else {
      assert (es + [item])[1..] == es[1..] + [item];
      AppendOne(es[1..], item, r);
    }
  }

  function AppendMembers(ms: seq<Named>, r: Parsed<Members>): Parsed<Members> {
    if ms == [] then r
    else
      match AppendMembers(ms[1..], r)
      case Fail => Fail
      case Ok(rest, end) => Ok(Member(ms[0].key, ms[0].item, rest), end)
  }

  lemma {:induction false} AppendOneMember(ms: seq<Named>, m: Named, r: Parsed<Members>)
    ensures AppendMembers(ms + [m], r)
         == AppendMembers(ms, if r.Ok? then Ok(Member(m.key, m.item, r.value), r.next) else Fail)
  {
    if ms == [] {
      assert ([] + [m])[1..] == [];
    } else {
      assert (ms + [m])[1..] == ms[1..] + [m];
      AppendOneMember(ms[1..], m, r);
    }
  }

  lemma {:induction false} AppendLast(es: seq<Json>, end: nat)
    ensures Append(es, Ok(NoElement, end)) == Ok(Chain(es), end)
  {
    if es != [] {
      AppendLast(es[1..], end);
    }
  }

  lemma {:induction false} AppendLastMember(ms: seq<Named>, end: nat)
    ensures AppendMembers(ms, Ok(NoMember, end)) == Ok(MemberChain(ms), end)
  {
    if ms != [] {
      AppendLastMember(ms[1..], end);
    }
  }

  lemma {:induction false} AppendFail(es: seq<Json>)
    ensures Append(es, Fail) == Fail
  {
    if es != [] {
      AppendFail(es[1..]);
    }
  }

  lemma {:induction false} AppendFailMembers(ms: seq<Named>)
    ensures AppendMembers(ms, Fail) == Fail
  {
    if ms != [] {
      AppendFailMembers(ms[1..]);
    }
  }

  function ItemOf<T>(r: Parsed<T>): Option<T> {
    match r
    case Fail => None
    case Ok(value, _) => Some(value)
  }

  lemma ElementsFail(c: Text, off: nat, depth: nat, items: seq<Json>)
    requires depth <= NESTING_LIMIT && ParseElement(c, off, depth) == Fail
    ensures Append(items, ParseElements(c, off, depth)) == Fail
  {
    AppendFail(items);
  }

  lemma MembersFail(c: Text, off: nat, depth: nat, items: seq<Named>)
    requires depth <= NESTING_LIMIT && ParseMember(c, off, depth) == Fail
    ensures AppendMembers(items, ParseMembers(c, off, depth)) == Fail
  {
    AppendFailMembers(items);
  }

  /** A turn of the loop of parse_array, after the children `items`, followed by another. */
  lemma ElementsMore(c: Text, off: nat, depth: nat, items: seq<Json>, item: Json, mark: nat)
    requires depth <= NESTING_LIMIT && ParseElement(c, off, depth) == Ok(item, mark)
    requires mark < |c| && c[mark] == COMMA
    ensures Append(items, ParseElements(c, off, depth)) == Append(items + [item], ParseElements(c, mark + 1, depth))
  {
    AppendOne(items, item, ParseElements(c, mark + 1, depth));
  }

  /** The last turn of the loop. */
  lemma ElementsLast(c: Text, off: nat, depth: nat, items: seq<Json>, item: Json, mark: nat)
    requires depth <= NESTING_LIMIT && ParseElement(c, off, depth) == Ok(item, mark)
    requires mark >= |c| || c[mark] != COMMA
    ensures Append(items, ParseElements(c, off, depth)) ==
            if mark < |c| && c[mark] == CLOSE_ARRAY then Ok(Chain(items + [item]), mark + 1) else Fail
  {
    AppendOne(items, item, Ok(NoElement, mark + 1));
    AppendLast(items + [item], mark + 1);
    AppendFail(items);
  }

  /** A turn of the loop of parse_object, after the members `items`, followed by another. */
  lemma MembersMore(c: Text, off: nat, depth: nat, items: seq<Named>, m: Named, mark: nat)
    requires depth <= NESTING_LIMIT && ParseMember(c, off, depth) == Ok(m, mark)
    requires mark < |c| && c[mark] == COMMA
    ensures AppendMembers(items, ParseMembers(c, off, depth))
         == AppendMembers(items + [m], ParseMembers(c, mark + 1, depth))
  {
    AppendOneMember(items, m, ParseMembers(c, mark + 1, depth));
  }

  /** The last turn of the loop. */
  lemma MembersLast(c: Text, off: nat, depth: nat, items: seq<Named>, m: Named, mark: nat)
    requires depth <= NESTING_LIMIT && ParseMember(c, off, depth) == Ok(m, mark)
    requires mark >= |c| || c[mark] != COMMA
    ensures AppendMembers(items, ParseMembers(c, off, depth)) ==
            if mark < |c| && c[mark] == CLOSE_OBJECT then Ok(MemberChain(items + [m]), mark + 1) else Fail
  {
    AppendOneMember(items, m, Ok(NoMember, mark + 1));
    AppendLastMember(items + [m], mark + 1);
    AppendFailMembers(items);
  }

  /** In a C string, a readable byte other than the NUL has a byte after it. */
  lemma NulIsLast(c: Text, off: nat)
    requires NulTerminated(c) && off < |c| && c[off] != NUL
    ensures off + 1 < |c|
  {
  }

  /** A new item, which has nothing below it. */
  ghost predicate Blank(item: Item)
    reads item`child, item`children, item`below
  {
    item.child == null && item.children == [] && item.below == {}
  }

  /** A parsing method succeeds when there is something to parse, and then the item stands for it. */
  ghost predicate Fills(item: Item, ok: bool, r: Parsed<Json>)
    reads item`value, item`child, item`children, item`below, item.below
  {
    && (ok <==> r.Ok?)
    && (ok ==> Represents(item, r.value, true) && item !in item.below)
  }

  lemma NumberIsScalar(t: Text)
    requires |t| > 0
    ensures NumberItem(t).Number? || NumberItem(t).Double?
  {
  }

  /** parse_buffer. `content` is a whole C string, its NUL included. Every index into it is
      checked to be inside it, and every loop and recursion to end. */
  class ParseBuffer {
    const content: Text
    var offset: nat
    var depth: nat

    constructor (content: Text)
      ensures this.content == content && offset == 0 && depth == 0
    {
      this.content := content;
      offset, depth := 0, 0;
    }

    ghost predicate Valid()
      reads this
    {
      NulTerminated(content) && depth <= NESTING_LIMIT
    }

    /** What a successful parse does to the cursor; a failed one may leave it anywhere. */
    twostate predicate Moved<T>(r: Parsed<T>)
      reads this
    {
      r.Ok? ==> offset == r.next && depth == old(depth)
    }

    method SkipWhitespace()
      modifies this`offset
      ensures offset == Skip(content, old(offset))
    {
      if offset >= |content| {
        return;
      }
      while offset < |content| && content[offset] <= 32
        invariant old(offset) <= offset <= |content|
        invariant SkipRun(content, offset) == SkipRun(content, old(offset))
        decreases |content| - offset
      {
        offset := offset + 1;
      }
      if offset == |content| {
        offset := offset - 1;
      }
    }

    /** The text of a number, copied until a byte that no number has. */
    method CopyNumber() returns (number: Text)
      requires offset <= |content|
      ensures number == content[offset..offset + NumberRun(content, offset, NUMBER_BUFFER)]
    {
      var i := 0;
      while i < NUMBER_BUFFER && offset + i < |content| && IsNumberByte(content[offset + i])
        invariant 0 <= i <= NUMBER_BUFFER && offset + i <= |content|
        invariant NumberRun(content, offset, NUMBER_BUFFER) == i + NumberRun(content, offset + i, NUMBER_BUFFER - i)
      {
        i := i + 1;
      }
      number := content[offset..offset + i];
    }

    /** parse_number; strtod reads the copied text. */
    method ParseNumberItem(item: Item) returns (ok: bool)
      requires offset <= |content| && Blank(item)
      modifies this`offset, item`value
      ensures Fills(item, ok, ParseNumber(content, old(offset))) && Moved(ParseNumber(content, old(offset)))
      ensures ok ==> item.below == {}
    {
      hide StrtodLength, NumberItem;
      var number := CopyNumber();
      var n := StrtodLength(number);
      if n == 0 {
        return false;
      }
      item.value := NumberItem(number[..n]);
      NumberIsScalar(number[..n]);
      offset := offset + n;
      ok := true;
    }

    /** parse_string */
    method ParseStringItem() returns (r: Option<Text>)
      requires offset < |content|
      modifies this`offset
      ensures r == ItemOf(ParseString(content, old(offset))) && Moved(ParseString(content, old(offset)))
    {
      if content[offset] != QUOTE {
        return None;
      }
      var end, skipped := ScanString(content, offset + 1);
      if end.None? {
        return None;
      }
      var s, stop := DecodeString(content, offset + 1, end.value, skipped);
      if s.None? {
        offset := stop;
        return None;
      }
      r := Some(CString(s.value));
      offset := end.value + 1;
    }

    /** parse_value: fills a new item. */
    method ParseItem(item: Item) returns (ok: bool)
      requires Valid() && Blank(item)
      modifies this, item`value, item`child, item`children, item`below
      ensures Fills(item, ok, ParseValue(content, old(offset), old(depth)))
      ensures Moved(ParseValue(content, old(offset), old(depth))) && (ok ==> fresh(item.below))
      decreases NESTING_LIMIT - depth, 1
    {
      if Reads(content, offset, NULL_TEXT) {
        item.value := Null;
        offset := offset + 4;
        return true;
      }
      if Reads(content, offset, FALSE_TEXT) {
        item.value := False;
        offset := offset + 5;
        return true;
      }
      if Reads(content, offset, TRUE_TEXT) {
        item.value := True;
        offset := offset + 4;
        return true;
      }
      if offset < |content| && content[offset] == QUOTE {
        var s := ParseStringItem();
        if s.Some? {
          item.value := String(s.value);
        }
        return s.Some?;
      }
      if offset < |content| && (content[offset] == MINUS || IsDigit(content[offset])) {
        ok := ParseNumberItem(item);
        return;
      }
      if offset < |content| && content[offset] == OPEN_ARRAY {
        ok := ParseArray(item);
        return;
      }
      if offset < |content| && content[offset] == OPEN_OBJECT {
        ok := ParseObject(item);
        return;
      }
      ok := false;
    }

    /** parse_array; the cursor steps back before the first element and forward again. */
    method ParseArray(item: Item) returns (ok: bool)
      requires Valid() && offset < |content| && content[offset] == OPEN_ARRAY && Blank(item)
      modifies this, item`value, item`child, item`children, item`below
      ensures Fills(item, ok, ParseArrayAt(content, old(offset), old(depth)))
      ensures Moved(ParseArrayAt(content, old(offset), old(depth))) && (ok ==> fresh(item.below))
      decreases NESTING_LIMIT - depth, 0
    {
      hide ParseElements, Represents, Forest, Branches.Linked;
      if depth >= NESTING_LIMIT {
        return false;
      }
      depth := depth + 1;
      NulIsLast(content, offset);
      offset := offset + 1;
      SkipWhitespace();
      if offset < |content| && content[offset] == CLOSE_ARRAY {
        depth := depth - 1;
        item.value := Array(NoElement);
        EmptyList(item, true);
        offset := offset + 1;
        return true;
      }
      offset := offset - 1;
      var head, current;
      ghost var b;
      ok, head, current, b := ParseArrayItems();
      if !ok {
        return false;
      }
      depth := depth - 1;
      Ends(b, head, current, true);
      HangArray(item, head, current, b);
      offset := offset + 1;
    }

    /** An element and the whitespace around it. */
    method ParseElementItem(item: Item) returns (ok: bool)
      requires Valid() && Blank(item)
      modifies this, item`value, item`child, item`children, item`below
      ensures Fills(item, ok, ParseElement(content, old(offset), old(depth)))
      ensures Moved(ParseElement(content, old(offset), old(depth))) && (ok ==> fresh(item.below))
      decreases NESTING_LIMIT - depth, 2
    {
      hide ParseValue, Represents;
      SkipWhitespace();
      ok := ParseItem(item);
      if ok {
        SkipWhitespace();
      }
    }

    /** The loop of parse_array. On success the cursor stands at the closing bracket. */
    method ParseArrayItems() returns (ok: bool, head: Item?, current: Item?, ghost b: Branches)
      requires Valid() && offset + 1 < |content|
      modifies this
      ensures ok <==> ParseElements(content, old(offset) + 1, old(depth)).Ok?
      ensures ok ==> ParseElements(content, old(offset) + 1, old(depth)) == Ok(Chain(b.items), offset + 1)
      ensures ok ==> depth == old(depth) && fresh(b.all) && b.nodes != [] && b.Linked(head, current, true)
      decreases NESTING_LIMIT - depth, 4
    {
      hide ParseElements, ParseElement, Represents, Forest, Branches.Linked;
      head, current, b := null, null, Branches([], [], {});
      ghost var d, at := depth, offset + 1;
      ghost var all := ParseElements(content, at, d);
      EmptyBranches(true);
      while true
        invariant depth == d && at == offset + 1 < |content|
        invariant fresh(b.all) && b.Linked(head, current, true)
        invariant Append(b.items, ParseElements(content, at, d)) == all
        decreases |content| - offset
      {
        ghost var j := ParseElement(content, at, d);
        ghost var items := b.items;
        ok, head, current, b := ParseNextElement(head, current, b);
        if !ok {
          ElementsFail(content, at, d, items);
          return;
        }
        if offset >= |content| || content[offset] != COMMA {
          ElementsLast(content, at, d, items, j.value, offset);
          break;
        }
        ElementsMore(content, at, d, items, j.value, offset);
        NulIsLast(content, offset);
        at := offset + 1;
      }
      ok := offset < |content| && content[offset] == CLOSE_ARRAY;
    }

    /** One turn of it: a new item behind the others, and its value. */
    method ParseNextElement(head: Item?, current: Item?, ghost b: Branches)
      returns (ok: bool, newHead: Item?, item: Item?, ghost more: Branches)
      requires Valid() && offset + 1 < |content| && b.Linked(head, current, true)
      modifies this, b.all`next
      ensures ok <==> ParseElement(content, old(offset) + 1, old(depth)).Ok?
      ensures Moved(ParseElement(content, old(offset) + 1, old(depth)))
      ensures ok ==> more.items == b.items + [ParseElement(content, old(offset) + 1, old(depth)).value]
      ensures ok ==> more.Linked(newHead, item, true) && more.nodes != []
      ensures ok ==> b.all <= more.all && fresh(more.all - b.all)
      decreases NESTING_LIMIT - depth, 3
    {
      hide ParseElement, Represents, Forest, Chained;
      var newItem := new Item();
      Ends(b, head, current, true);
      newHead := Grow(head, current, newItem, b, true);
      item := newItem;
      offset := offset + 1;
      ok := ParseElementItem(newItem);
      if !ok {
        return false, null, null, b;
      }
      ghost var j := ParseElement(content, old(offset) + 1, old(depth)).value;
      Grown(b, newHead, newItem, j, true);
      more := b.With(newItem, j);
    }

    /** parse_object */
    method ParseObject(item: Item) returns (ok: bool)
      requires Valid() && offset < |content| && content[offset] == OPEN_OBJECT && Blank(item)
      modifies this, item`value, item`child, item`children, item`below
      ensures Fills(item, ok, ParseObjectAt(content, old(offset), old(depth)))
      ensures Moved(ParseObjectAt(content, old(offset), old(depth))) && (ok ==> fresh(item.below))
      decreases NESTING_LIMIT - depth, 0
    {
      hide ParseMembers, Represents, Forest, Branches.Linked, Branches.Named;
      if depth >= NESTING_LIMIT {
        return false;
      }
      depth := depth + 1;
      NulIsLast(content, offset);
      offset := offset + 1;
      SkipWhitespace();
      if offset < |content| && content[offset] == CLOSE_OBJECT {
        depth := depth - 1;
        item.value := Object(NoMember);
        EmptyList(item, true);
        offset := offset + 1;
        return true;
      }
      offset := offset - 1;
      var head, current;
      ghost var b, names;
      ok, head, current, b, names := ParseObjectItems();
      if !ok {
        return false;
      }
      depth := depth - 1;
      Ends(b, head, current, true);
      HangObject(item, head, current, b, names);
      offset := offset + 1;
    }

    /** A name with the whitespace around it, and its colon. */
    method ParseKeyItem() returns (r: Option<Text>)
      requires Valid() && offset < |content|
      modifies this`offset
      ensures r == ItemOf(ParseKey(content, old(offset))) && Moved(ParseKey(content, old(offset)))
    {
      SkipWhitespace();
      var key := ParseStringItem();
      if key.None? {
        return None;
      }
      SkipWhitespace();
      if offset >= |content| || content[offset] != COLON {
        return None;
      }
      offset := offset + 1;
      r := key;
    }

    /** A name, a colon and a value, and the whitespace around them. */
    method ParseNamed(item: Item) returns (ok: bool)
      requires Valid() && offset < |content| && Blank(item)
      modifies this, item`name, item`value, item`child, item`children, item`below
      ensures ok <==> ParseMember(content, old(offset), old(depth)).Ok?
      ensures ok ==>
                var m := ParseMember(content, old(offset), old(depth)).value;
                item.name == m.key && Represents(item, m.item, true) && item !in item.below && fresh(item.below)
      ensures Moved(ParseMember(content, old(offset), old(depth)))
      decreases NESTING_LIMIT - depth, 3
    {
      hide ParseElement, ParseKey, Represents;
      var key := ParseKeyItem();
      if key.None? {
        return false;
      }
      item.name := key.value;
      ok := ParseElementItem(item);
    }

    /** The loop of parse_object. On success the cursor stands at the closing brace. */
    method ParseObjectItems() returns (ok: bool, head: Item?, current: Item?, ghost b: Branches, ghost names: seq<Text>)
      requires Valid() && offset + 1 < |content|
      modifies this
      ensures ok <==> ParseMembers(content, old(offset) + 1, old(depth)).Ok?
      ensures ok ==> |names| == |b.items|
      ensures ok ==>
                ParseMembers(content, old(offset) + 1, old(depth)) == Ok(MemberChain(Zip(names, b.items)), offset + 1)
      ensures ok ==> depth == old(depth) && fresh(b.all) && b.nodes != []
      ensures ok ==> b.Linked(head, current, true) && b.Named(names)
      decreases NESTING_LIMIT - depth, 5
    {
      hide ParseMembers, ParseMember, Represents, Forest, Branches.Linked, Branches.Named;
      head, current, b, names := null, null, Branches([], [], {}), [];
      ghost var d, at := depth, offset + 1;
      ghost var all := ParseMembers(content, at, d);
      EmptyBranches(true);
      while true
        invariant depth == d && at == offset + 1 < |content| && |names| == |b.items|
        invariant fresh(b.all) && b.Linked(head, current, true) && b.Named(names)
        invariant AppendMembers(Zip(names, b.items), ParseMembers(content, at, d)) == all
        decreases |content| - offset
      {
        ghost var m := ParseMember(content, at, d);
        ghost var members := Zip(names, b.items);
        ok, head, current, b, names := ParseNextMember(head, current, b, names);
        if !ok {
          MembersFail(content, at, d, members);
          return;
        }
        if offset >= |content| || content[offset] != COMMA {
          MembersLast(content, at, d, members, m.value, offset);
          break;
        }
        MembersMore(content, at, d, members, m.value, offset);
        NulIsLast(content, offset);
        at := offset + 1;
      }
      ok := offset < |content| && content[offset] == CLOSE_OBJECT;
    }

    /** One turn of it: a new item behind the others, its name and its value. */
    method ParseNextMember(head: Item?, current: Item?, ghost b: Branches, ghost names: seq<Text>)
      returns (ok: bool, newHead: Item?, item: Item?, ghost more: Branches, ghost moreNames: seq<Text>)
      requires Valid() && offset + 1 < |content| && b.Linked(head, current, true) && b.Named(names)
      requires |names| == |b.items|
      modifies this, b.all`next
      ensures ok <==> ParseMember(content, old(offset) + 1, old(depth)).Ok?
      ensures Moved(ParseMember(content, old(offset) + 1, old(depth)))
      ensures ok ==>
                && |moreNames| == |more.items|
                && Zip(moreNames, more.items)
                   == Zip(names, b.items) + [ParseMember(content, old(offset) + 1, old(depth)).value]
      ensures ok ==> more.Linked(newHead, item, true) && more.Named(moreNames) && more.nodes != []
      ensures ok ==> b.all <= more.all && fresh(more.all - b.all)
      decreases NESTING_LIMIT - depth, 4
    {
      hide ParseMember, Represents, Forest, Chained;
      var newItem := new Item();
      Ends(b, head, current, true);
      newHead := Grow(head, current, newItem, b, true);
      item := newItem;
      offset := offset + 1;
      ok := ParseNamed(newItem);
      if !ok {
        return false, null, null, b, names;
      }
      ghost var m := ParseMember(content, old(offset) + 1, old(depth)).value;
      Grown(b, newHead, newItem, m.item, true);
      ZipSnoc(names, b.items, m);
      more, moreNames := b.With(newItem, m.item), names + [m.key];
    }
  }

  /** cJSON_ParseWithOpts: the item, and where parsing ended. A failure is reported at a byte of
      the text, at the last one if the cursor has left it. */
  method ParseWithOpts(value: Text, requireNullTerminated: bool) returns (item: Item?, end: nat)
    requires NulTerminated(value)
    ensures item != null <==> Parse(value, requireNullTerminated).Ok?
    ensures item != null ==> Represents(item, Parse(value, requireNullTerminated).value, true)
    ensures item != null ==> fresh(item) && fresh(item.below)
    ensures item != null ==> end == Parse(value, requireNullTerminated).next <= |value|
    ensures item == null ==> end < |value|
  {
    hide ParseValue, Represents;
    var buffer := new ParseBuffer(value);
    if 4 < |value| && value[..3] == BYTE_ORDER_MARK {
      buffer.offset := 3;
    }
    buffer.SkipWhitespace();
    item := new Item();
    var ok := buffer.ParseItem(item);
    if ok && requireNullTerminated {
      buffer.SkipWhitespace();
      ok := buffer.offset < |value| && value[buffer.offset] == NUL;
    }
    end := buffer.offset;
    if !ok {
      item := null;
      if end >= |value| {
        end := |value| - 1;
      }
    }
  }
}
