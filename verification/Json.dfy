/** JSON trees as cJSON builds them, and the text cJSON prints for them. */
module Json {
  import opened Common
  import opened Bytes

  /** A cJSON item: its type and value. The children of an array or object are a chain,
      from `child` along `next`; each member of an object carries its name. */
  datatype Json =
    | Null
    | False
    | True
    | Number(n: int)          // an integer of at most 15 digits
    | Double(text: Text)      // any other number, kept as the text it was read from
    | String(s: Text)
    | Array(elements: Elements)
    | Object(members: Members)

  datatype Elements = NoElement | Element(item: Json, next: Elements)

  datatype Members = NoMember | Member(key: Text, item: Json, next: Members)

  /** CJSON_NESTING_LIMIT */
  const NESTING_LIMIT: nat := 1000

  /** One more than the largest integer of 15 digits. */
  const INTEGER_BOUND: int := 1_000_000_000_000_000

  predicate IsInteger(n: int) { -INTEGER_BOUND < n < INTEGER_BOUND }

  function Max(a: nat, b: nat): nat { if a < b then b else a }

  /** How many arrays and objects stand inside one another. */
  function Nesting(j: Json): nat {
    match j
    case Array(elements) => 1 + ElementsNesting(elements)
    case Object(members) => 1 + MembersNesting(members)
    case _ => 0
  }

  function ElementsNesting(es: Elements): nat {
    match es
    case NoElement => 0
    case Element(item, next) => Max(Nesting(item), ElementsNesting(next))
  }

  function MembersNesting(ms: Members): nat {
    match ms
    case NoMember => 0
    case Member(_, item, next) => Max(Nesting(item), MembersNesting(next))
  }

  // ----- children as sequences -----

  datatype Named = Named(key: Text, item: Json)

  function Chain(items: seq<Json>): Elements {
    if items == [] then NoElement else Element(items[0], Chain(items[1..]))
  }

  function MemberChain(items: seq<Named>): Members {
    if items == [] then NoMember else Member(items[0].key, items[0].item, MemberChain(items[1..]))
  }

  function Listed(es: Elements): (items: seq<Json>)
    ensures forall k :: 0 <= k < |items| ==> Nesting(items[k]) <= ElementsNesting(es)
  {
    if es.NoElement? then [] else [es.item] + Listed(es.next)
  }

  function ListedMembers(ms: Members): (items: seq<Named>)
    ensures forall k :: 0 <= k < |items| ==> Nesting(items[k].item) <= MembersNesting(ms)
  {
    if ms.NoMember? then [] else [Named(ms.key, ms.item)] + ListedMembers(ms.next)
  }

  lemma {:induction false} ListedChain(items: seq<Json>)
    ensures Listed(Chain(items)) == items
  {
    if items != [] {
      ListedChain(items[1..]);
    }
  }

  lemma {:induction false} ListedMemberChain(items: seq<Named>)
    ensures ListedMembers(MemberChain(items)) == items
  {
    if items != [] {
      ListedMemberChain(items[1..]);
    }
  }

  lemma {:induction false} ChainListed(es: Elements)
    ensures Chain(Listed(es)) == es
  {
    if es.Element? {
      ChainListed(es.next);
    }
  }

  lemma {:induction false} MemberChainListed(ms: Members)
    ensures MemberChain(ListedMembers(ms)) == ms
  {
    if ms.Member? {
      MemberChainListed(ms.next);
    }
  }

  // ----- what can be printed and compared -----

  /** The trees the printer is modelled on: integers of at most 15 digits, and strings
      and names without a NUL. */
  ghost predicate Printable(j: Json) {
    match j
    case Number(n) => IsInteger(n)
    case Double(_) => false
    case String(s) => NulFree(s)
    case Array(elements) => PrintableElements(elements)
    case Object(members) => PrintableMembers(members)
    case _ => true
  }

  ghost predicate PrintableElements(es: Elements) {
    es.Element? ==> Printable(es.item) && PrintableElements(es.next)
  }

  ghost predicate PrintableMembers(ms: Members) {
    ms.Member? ==> NulFree(ms.key) && Printable(ms.item) && PrintableMembers(ms.next)
  }

  /** Trees whose numbers are integers, on which compare_double is equality. */
  ghost predicate Integral(j: Json) {
    match j
    case Number(n) => IsInteger(n)
    case Double(_) => false
    case Array(elements) => IntegralElements(elements)
    case Object(members) => IntegralMembers(members)
    case _ => true
  }

  ghost predicate IntegralElements(es: Elements) {
    es.Element? ==> Integral(es.item) && IntegralElements(es.next)
  }

  ghost predicate IntegralMembers(ms: Members) {
    ms.Member? ==> Integral(ms.item) && IntegralMembers(ms.next)
  }

  /** Trees whose strings and names have no NUL inside. */
  ghost predicate NulFreeTree(j: Json) {
    match j
    case String(s) => NulFree(s)
    case Array(elements) => NulFreeElements(elements)
    case Object(members) => NulFreeMembers(members)
    case _ => true
  }

  ghost predicate NulFreeElements(es: Elements) {
    es.Element? ==> NulFreeTree(es.item) && NulFreeElements(es.next)
  }

  ghost predicate NulFreeMembers(ms: Members) {
    ms.Member? ==> NulFree(ms.key) && NulFreeTree(ms.item) && NulFreeMembers(ms.next)
  }

  lemma {:induction false} WhatIsPrintable(j: Json)
    ensures Printable(j) <==> Integral(j) && NulFreeTree(j)
    decreases j, 0
  {
    match j
    case Array(elements) => WhatElementsArePrintable(elements);
    case Object(members) => WhatMembersArePrintable(members);
    case _ =>
  }

  lemma {:induction false} WhatElementsArePrintable(es: Elements)
    ensures PrintableElements(es) <==> IntegralElements(es) && NulFreeElements(es)
    decreases es, 0
  {
    if es.Element? {
      WhatIsPrintable(es.item);
      WhatElementsArePrintable(es.next);
    }
  }

  lemma {:induction false} WhatMembersArePrintable(ms: Members)
    ensures PrintableMembers(ms) <==> IntegralMembers(ms) && NulFreeMembers(ms)
    decreases ms, 0
  {
    if ms.Member? {
      WhatIsPrintable(ms.item);
      WhatMembersArePrintable(ms.next);
    }
  }

  // ----- numbers -----

  /** The decimal digits of a number, without leading zeros. */
  function Digits(n: nat): Text {
    if n < 10 then [0x30 + n] else Digits(n / 10) + [0x30 + n % 10]
  }

  /** What `%1.15g` prints for an integer of at most 15 digits. */
  function RenderNumber(n: int): Text {
    if n < 0 then [MINUS] + Digits(-n) else Digits(n)
  }

  // ----- strings -----

  function HexDigit(v: nat): Byte
    requires v < 16
  {
    if v < 10 then 0x30 + v else 0x61 + (v - 10)
  }

  /** The letter of a two-character escape the printer uses, if it uses one. */
  function EscapeLetter(b: Byte): Option<Byte> {
    if b == QUOTE || b == BACKSLASH then Some(b)
    else if b == BACKSPACE then Some(LETTER_B)
    else if b == FORM_FEED then Some(LETTER_F)
    else if b == NEWLINE then Some(LETTER_N)
    else if b == RETURN then Some(LETTER_R)
    else if b == TAB then Some(LETTER_T)
    else None
  }

  function RenderByte(b: Byte): Text {
    match EscapeLetter(b)
    case Some(letter) => [BACKSLASH, letter]
    case None =>
      if b < SPACE then [BACKSLASH, LETTER_U, 0x30, 0x30, HexDigit(b / 16), HexDigit(b % 16)] else [b]
  }

  function RenderBytes(s: Text): Text {
    if s == [] then [] else RenderByte(s[0]) + RenderBytes(s[1..])
  }

  function RenderString(s: Text): Text {
    [QUOTE] + RenderBytes(s) + [QUOTE]
  }

  // ----- values -----

  const NULL_TEXT: Text := [LETTER_N, LETTER_U, 0x6C, 0x6C]
  const FALSE_TEXT: Text := [LETTER_F, 0x61, 0x6C, 0x73, 0x65]
  const TRUE_TEXT: Text := [LETTER_T, LETTER_R, LETTER_U, 0x65]

  function Tabs(n: nat): Text { seq(n, _ => TAB) }

  /** Between two elements of an array. */
  function Separator(format: bool): Text { if format then [COMMA, SPACE] else [COMMA] }

  /** Between a member's name and its value. */
  function NameSeparator(format: bool): Text { if format then [COLON, TAB] else [COLON] }

  /** The text of a value standing inside `depth` arrays and objects. */
  function Render(j: Json, format: bool, depth: nat): Text
    decreases j
  {
    match j
    case Null => NULL_TEXT
    case False => FALSE_TEXT
    case True => TRUE_TEXT
    case Number(n) => RenderNumber(n)
    case Double(text) => text
    case String(s) => RenderString(s)
    case Array(elements) => [OPEN_ARRAY] + RenderElements(elements, format, depth + 1)
    case Object(members) =>
      (if format then [OPEN_OBJECT, NEWLINE] else [OPEN_OBJECT]) + RenderMembers(members, format, depth + 1)
  }

  /** The elements from here on, and the closing bracket. */
  function RenderElements(es: Elements, format: bool, depth: nat): Text
    decreases es, 0
  {
    match es
    case NoElement => [CLOSE_ARRAY]
    case Element(item, next) => Render(item, format, depth) + RenderMoreElements(next, format, depth)
  }

  /** The same, standing after an element. */
  function RenderMoreElements(es: Elements, format: bool, depth: nat): Text
    decreases es, 1
  {
    (if es.Element? then Separator(format) else []) + RenderElements(es, format, depth)
  }

  /** The members from here on, and the closing brace; members are indented by `depth`
      tabs, the brace by one less. */
  function RenderMembers(ms: Members, format: bool, depth: nat): Text
    requires depth > 0
    decreases ms
  {
    match ms
    case NoMember => (if format then Tabs(depth - 1) else []) + [CLOSE_OBJECT]
    case Member(key, item, next) =>
      MemberHead(key, format, depth) + Render(item, format, depth)
      + MemberTail(next, format) + RenderMembers(next, format, depth)
  }

  function MemberHead(key: Text, format: bool, depth: nat): Text {
    (if format then Tabs(depth) else []) + RenderString(key) + NameSeparator(format)
  }

  function MemberTail(next: Members, format: bool): Text {
    (if next.Member? then [COMMA] else []) + (if format then [NEWLINE] else [])
  }

  lemma ArrayText(es: Elements, format: bool, depth: nat)
    ensures Render(Array(es), format, depth) == [OPEN_ARRAY] + RenderElements(es, format, depth + 1)
    ensures RenderElements(NoElement, format, depth + 1) == [CLOSE_ARRAY]
    ensures RenderElements(es, format, depth + 1) != []
  {
  }

  lemma NoElementText(format: bool, depth: nat)
    ensures RenderElements(NoElement, format, depth) == [CLOSE_ARRAY]
  {
  }

  lemma MemberText(ms: Members, format: bool, depth: nat)
    requires depth > 0 && ms.Member?
    ensures RenderMembers(ms, format, depth) == MemberHead(ms.key, format, depth)
            + (Render(ms.item, format, depth) + (MemberTail(ms.next, format) + RenderMembers(ms.next, format, depth)))
  {
  }

  lemma ObjectParts(ms: Members, format: bool, depth: nat)
    ensures Render(Object(ms), format, depth)
         == (if format then [OPEN_OBJECT, NEWLINE] else [OPEN_OBJECT]) + RenderMembers(ms, format, depth + 1)
    ensures RenderMembers(NoMember, format, depth + 1) == (if format then Tabs(depth) else []) + [CLOSE_OBJECT]
  {
  }

  // ----- the rendering has no NUL and is not empty -----

  lemma NulFreeConcat(s: Text, t: Text)
    requires NulFree(s) && NulFree(t)
    ensures NulFree(s + t)
  {
  }

  lemma {:induction false} DigitsAreDigits(n: nat)
    ensures Digits(n) != [] && forall i :: 0 <= i < |Digits(n)| ==> 0x30 <= Digits(n)[i] <= 0x39
  {
    if n >= 10 {
      DigitsAreDigits(n / 10);
    }
  }

  lemma {:induction false} RenderBytesNulFree(s: Text)
    ensures NulFree(RenderBytes(s))
  {
    if s != [] {
      RenderBytesNulFree(s[1..]);
      NulFreeConcat(RenderByte(s[0]), RenderBytes(s[1..]));
    }
  }

  lemma RenderStringNulFree(s: Text)
    ensures NulFree(RenderString(s))
  {
    RenderBytesNulFree(s);
  }

  lemma {:induction false} RenderNulFree(j: Json, format: bool, depth: nat)
    requires Printable(j)
    ensures NulFree(Render(j, format, depth)) && Render(j, format, depth) != []
    decreases j
  {
    match j
    case Number(n) => DigitsAreDigits(if n < 0 then -n else n);
    case String(s) => RenderStringNulFree(s);
    case Array(elements) => RenderElementsNulFree(elements, format, depth + 1);
    case Object(members) => RenderMembersNulFree(members, format, depth + 1);
    case _ =>
  }

  lemma {:induction false} RenderElementsNulFree(es: Elements, format: bool, depth: nat)
    requires PrintableElements(es)
    ensures NulFree(RenderElements(es, format, depth))
    decreases es
  {
    if es.Element? {
      RenderNulFree(es.item, format, depth);
      RenderElementsNulFree(es.next, format, depth);
      NulFreeConcat(Separator(format), RenderElements(es.next, format, depth));
      NulFreeConcat(Render(es.item, format, depth), RenderMoreElements(es.next, format, depth));
    }
  }

  lemma {:induction false} RenderMembersNulFree(ms: Members, format: bool, depth: nat)
    requires PrintableMembers(ms) && depth > 0
    ensures NulFree(RenderMembers(ms, format, depth))
    decreases ms
  {
    if ms.Member? {
      RenderStringNulFree(ms.key);
      RenderNulFree(ms.item, format, depth);
      RenderMembersNulFree(ms.next, format, depth);
      var head, tail := MemberHead(ms.key, format, depth), MemberTail(ms.next, format);
      NulFreeConcat(if format then Tabs(depth) else [], RenderString(ms.key));
      NulFreeConcat((if format then Tabs(depth) else []) + RenderString(ms.key), NameSeparator(format));
      NulFreeConcat(head, Render(ms.item, format, depth));
      NulFreeConcat(head + Render(ms.item, format, depth), tail);
      NulFreeConcat(head + Render(ms.item, format, depth) + tail, RenderMembers(ms.next, format, depth));
    }
  }
}
