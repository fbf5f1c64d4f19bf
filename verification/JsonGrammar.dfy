/** The JSON texts cJSON accepts and what they mean, after the grammar of RFC 8259, sections 2
    to 7: a text is written from its parts, with any whitespace where the grammar has some. */
module JsonGrammar {
  import opened Common
  import opened Bytes
  import opened Json
  import opened JsonEscapes
  import opened JsonString
  import opened Utf8

  /** Whitespace: cJSON takes every byte up to the space for it. */
  predicate Blank(t: Text) {
    forall i :: 0 <= i < |t| ==> t[i] <= 0x20
  }

  // ----- strings -----

  /** A character of a string: a byte that stands for itself, a two-character escape, or a
      scalar value in hexadecimal digits, each digit with a small or a capital letter. */
  datatype Char =
    | Plain(b: Byte)
    | Short(letter: Byte)
    | Escaped(cp: nat, caps: seq<bool>)

  function HexByte(digit: nat, cap: bool): Byte
    requires digit < 16
  {
    if digit < 10 then 0x30 + digit else if cap then 0x41 + digit - 10 else 0x61 + digit - 10
  }

  function FourDigits(v: nat, caps: seq<bool>): (t: Text)
    requires v <= 0xFFFF && |caps| == 4
    ensures |t| == 4
  {
    [HexByte(v / 4096, caps[0]), HexByte(v / 256 % 16, caps[1]),
     HexByte(v / 16 % 16, caps[2]), HexByte(v % 16, caps[3])]
  }

  /** What the letter of a two-character escape stands for. */
  function ShortValue(letter: Byte): Option<Byte> {
    if letter == 0x22 then Some(0x22)
    else if letter == 0x5C then Some(0x5C)
    else if letter == 0x2F then Some(0x2F)
    else if letter == 0x62 then Some(0x08)
    else if letter == 0x66 then Some(0x0C)
    else if letter == 0x6E then Some(0x0A)
    else if letter == 0x72 then Some(0x0D)
    else if letter == 0x74 then Some(0x09)
    else None
  }

  predicate OkChar(ch: Char) {
    match ch
    case Plain(b) => b != 0x22 && b != 0x5C
    case Short(letter) => ShortValue(letter).Some?
    case Escaped(cp, caps) => IsScalar(cp) && |caps| == if cp < 0x10000 then 4 else 8
  }

  /** A scalar value above 0xFFFF is written as a surrogate pair. */
  function CharText(ch: Char): Text
    requires OkChar(ch)
  {
    match ch
    case Plain(b) => [b]
    case Short(letter) => [0x5C, letter]
    case Escaped(cp, caps) =>
      if cp < 0x10000 then [0x5C, 0x75] + FourDigits(cp, caps)
      else
        [0x5C, 0x75] + FourDigits(0xD800 + (cp - 0x10000) / 0x400, caps[..4])
        + [0x5C, 0x75] + FourDigits(0xDC00 + (cp - 0x10000) % 0x400, caps[4..])
  }

  function CharValue(ch: Char): Text
    requires OkChar(ch)
  {
    match ch
    case Plain(b) => [b]
    case Short(letter) => [ShortValue(letter).value]
    case Escaped(cp, _) => Encode(cp)
  }

  predicate OkChars(chars: seq<Char>) {
    forall i :: 0 <= i < |chars| ==> OkChar(chars[i])
  }

  function CharsText(chars: seq<Char>): Text
    requires OkChars(chars)
  {
    if chars == [] then [] else CharText(chars[0]) + CharsText(chars[1..])
  }

  function CharsValue(chars: seq<Char>): Text
    requires OkChars(chars)
  {
    if chars == [] then [] else CharValue(chars[0]) + CharsValue(chars[1..])
  }

  // ----- numbers -----

  predicate Digital(t: Text) {
    forall i :: 0 <= i < |t| ==> 0x30 <= t[i] <= 0x39
  }

  function Power10(k: nat): nat { if k == 0 then 1 else 10 * Power10(k - 1) }

  /** The number decimal digits denote. */
  function PlaceValue(t: Text): nat
    requires Digital(t)
  {
    if t == [] then 0 else (t[0] - 0x30) * Power10(|t| - 1) + PlaceValue(t[1..])
  }

  datatype Exponent = Exponent(mark: Byte, sign: Text, digits: Text)

  /** A number as it is written. cJSON also takes leading zeros, and one of the parts around
      the point may be empty. */
  datatype Numeral = Numeral(negative: bool, whole: Text, fraction: Option<Text>, exponent: Option<Exponent>)

  function FractionText(n: Numeral): Text {
    if n.fraction.Some? then [0x2E] + n.fraction.value else []
  }

  function ExponentText(n: Numeral): Text {
    if n.exponent.Some? then [n.exponent.value.mark] + n.exponent.value.sign + n.exponent.value.digits else []
  }

  function NumeralText(n: Numeral): Text {
    (if n.negative then [0x2D] else []) + (n.whole + (FractionText(n) + ExponentText(n)))
  }

  predicate OkExponent(e: Exponent) {
    && (e.mark == 0x65 || e.mark == 0x45) && (e.sign == [] || e.sign == [0x2B] || e.sign == [0x2D])
    && Digital(e.digits) && e.digits != []
  }

  predicate OkNumeral(n: Numeral) {
    && Digital(n.whole) && (n.fraction.Some? ==> Digital(n.fraction.value))
    && (n.whole != [] || (n.negative && n.fraction.Some? && n.fraction.value != []))
    && (n.exponent.Some? ==> OkExponent(n.exponent.value))
    && |NumeralText(n)| <= 63
  }

  /** Integers of at most 15 digits are numbers; -0 and all others keep their text. */
  function NumeralValue(n: Numeral): Json
    requires OkNumeral(n)
  {
    var v := PlaceValue(n.whole);
    if n.fraction.None? && n.exponent.None? && v < 1_000_000_000_000_000 && !(n.negative && v == 0) then
      Number(if n.negative then 0 - v else v)
    else Double(NumeralText(n))
  }

  // ----- values -----

  datatype Doc =
    | NullDoc
    | FalseDoc
    | TrueDoc
    | NumberDoc(numeral: Numeral)
    | StringDoc(literal: Spelling)
    | EmptyArray(space: Text)
    | FullArray(elements: ElementDocs)
    | EmptyObject(space: Text)
    | FullObject(members: MemberDocs)

  /** A string: characters of the grammar or, where a \u lacks four hexadecimal digits,
      whatever cJSON makes of it. */
  datatype Spelling = Chars(chars: seq<Char>) | Odd(source: Text, value: Text)

  /** A value and the whitespace around it. */
  datatype Slot = Slot(before: Text, doc: Doc, after: Text)

  datatype ElementDocs = LastElement(slot: Slot) | MoreElements(slot: Slot, next: ElementDocs)

  /** A name, the whitespace around it, and the value behind the colon. */
  datatype NamedSlot = NamedSlot(before: Text, name: Spelling, after: Text, slot: Slot)

  datatype MemberDocs = LastMember(pair: NamedSlot) | MoreMembers(pair: NamedSlot, next: MemberDocs)

  /** A string outside the grammar, and what cJSON makes of it. */
  predicate IsOdd(source: Text, value: Text) {
    var c := source + [0x22];
    ScanEnd(c, 0) == Some(|source|) && !WellFormedEscapes(c, 0, |source|) && Decode(c, 0, |source|) == Some(value)
  }

  predicate OkLiteral(literal: Spelling) {
    match literal
    case Chars(chars) => OkChars(chars)
    case Odd(source, value) => IsOdd(source, value)
  }

  predicate Ok(doc: Doc)
    decreases doc
  {
    match doc
    case NumberDoc(numeral) => OkNumeral(numeral)
    case StringDoc(literal) => OkLiteral(literal)
    case EmptyArray(space) => Blank(space)
    case FullArray(elements) => OkElements(elements)
    case EmptyObject(space) => Blank(space)
    case FullObject(members) => OkMembers(members)
    case _ => true
  }

  predicate OkSlot(slot: Slot)
    decreases slot
  {
    Blank(slot.before) && Ok(slot.doc) && Blank(slot.after)
  }

  predicate OkElements(es: ElementDocs)
    decreases es
  {
    OkSlot(es.slot) && (es.MoreElements? ==> OkElements(es.next))
  }

  predicate OkPair(pair: NamedSlot)
    decreases pair
  {
    Blank(pair.before) && OkLiteral(pair.name) && Blank(pair.after) && OkSlot(pair.slot)
  }

  predicate OkMembers(ms: MemberDocs)
    decreases ms
  {
    OkPair(ms.pair) && (ms.MoreMembers? ==> OkMembers(ms.next))
  }

  // ----- their texts -----

  function LiteralText(literal: Spelling): Text
    requires OkLiteral(literal)
  {
    [0x22] + ((if literal.Chars? then CharsText(literal.chars) else literal.source) + [0x22])
  }

  function Written(doc: Doc): Text
    requires Ok(doc)
    decreases doc
  {
    match doc
    case NullDoc => [0x6E, 0x75, 0x6C, 0x6C]
    case FalseDoc => [0x66, 0x61, 0x6C, 0x73, 0x65]
    case TrueDoc => [0x74, 0x72, 0x75, 0x65]
    case NumberDoc(numeral) => NumeralText(numeral)
    case StringDoc(literal) => LiteralText(literal)
    case EmptyArray(space) => [0x5B] + (space + [0x5D])
    case FullArray(elements) => [0x5B] + WrittenElements(elements)
    case EmptyObject(space) => [0x7B] + (space + [0x7D])
    case FullObject(members) => [0x7B] + WrittenMembers(members)
  }

  function WrittenSlot(slot: Slot): Text
    requires OkSlot(slot)
    decreases slot
  {
    slot.before + (Written(slot.doc) + slot.after)
  }

  function WrittenElements(es: ElementDocs): Text
    requires OkElements(es)
    decreases es
  {
    WrittenSlot(es.slot) + if es.MoreElements? then [0x2C] + WrittenElements(es.next) else [0x5D]
  }

  function WrittenPair(pair: NamedSlot): Text
    requires OkPair(pair)
    decreases pair
  {
    pair.before + (LiteralText(pair.name) + (pair.after + ([0x3A] + WrittenSlot(pair.slot))))
  }

  function WrittenMembers(ms: MemberDocs): Text
    requires OkMembers(ms)
    decreases ms
  {
    WrittenPair(ms.pair) + if ms.MoreMembers? then [0x2C] + WrittenMembers(ms.next) else [0x7D]
  }

  // ----- their trees -----

  /** Strings are C strings: an escaped NUL ends them. */
  function LiteralValue(literal: Spelling): Text
    requires OkLiteral(literal)
  {
    CString(if literal.Chars? then CharsValue(literal.chars) else literal.value)
  }

  function Tree(doc: Doc): Json
    requires Ok(doc)
    decreases doc
  {
    match doc
    case NullDoc => Null
    case FalseDoc => False
    case TrueDoc => True
    case NumberDoc(numeral) => NumeralValue(numeral)
    case StringDoc(literal) => String(LiteralValue(literal))
    case EmptyArray(_) => Array(NoElement)
    case FullArray(elements) => Array(ElementTrees(elements))
    case EmptyObject(_) => Object(NoMember)
    case FullObject(members) => Object(MemberTrees(members))
  }

  function SlotTree(slot: Slot): Json
    requires OkSlot(slot)
    decreases slot
  {
    Tree(slot.doc)
  }

  function ElementTrees(es: ElementDocs): Elements
    requires OkElements(es)
    decreases es
  {
    Element(SlotTree(es.slot), if es.MoreElements? then ElementTrees(es.next) else NoElement)
  }

  function PairTree(pair: NamedSlot): Named
    requires OkPair(pair)
    decreases pair
  {
    Named(LiteralValue(pair.name), SlotTree(pair.slot))
  }

  function MemberTrees(ms: MemberDocs): Members
    requires OkMembers(ms)
    decreases ms
  {
    var m := PairTree(ms.pair);
    Member(m.key, m.item, if ms.MoreMembers? then MemberTrees(ms.next) else NoMember)
  }

  // ----- whole texts -----

  /** A whole text: a byte order mark or none, and a value. */
  datatype File = File(mark: bool, slot: Slot)

  function FileText(file: File): Text
    requires OkSlot(file.slot)
  {
    (if file.mark then [0xEF, 0xBB, 0xBF] else []) + WrittenSlot(file.slot)
  }
}
