# DCPAM: verified models

DCPAM moves data from source systems into a warehouse (ETL or ELT) and serves it over the
web. This project models the parts of it that are easiest to get wrong, in Dafny, and
proves what they do:

- **JSON** (`Json*.dfy`, `Utf8.dfy`, `SiblingList.dfy`): the cJSON parser, printer, sibling
  lists, comparison and duplication that every component uses. `Json.Render` and
  `JsonParser.Parse` are the meaning; the classes `PrintBuffer` and `ParseBuffer` are the
  buffer and the cursor that compute them, and `JsonTree.Represents` says when linked items
  stand for a tree; parser, printer, changes, comparison and duplication all work on such
  items. `JsonGrammar.dfy` says in literal bytes which texts denote which trees; only for
  strings with a malformed \u it refers to the decoder. Main results: the parser accepts
  exactly the texts of that grammar nested at most 1000 deep, with the trees they denote; every
  text printed is one of them, and where its whitespace stands is written out; print and parse
  is the identity on trees up to the nesting limit and only on those; the parser builds new
  items whose lists are linked correctly at every level; printing into a caller's buffer
  succeeds exactly when the text is at least two bytes shorter than the buffer; the string
  decoder never writes past the size its first scan computed, although its two scans can pair
  backslashes differently; escapes mean what RFC 8259, RFC 2781 and RFC 3629 say; any sequence
  of list changes keeps the `head->prev` chain intact and does to an array's tree what it does
  to a sequence of trees; comparison decides equality of objects taken as maps, which for
  distinct names is equality up to the order of members, with either treatment of upper and
  lower case; a duplicate is made of new items and stands for the same tree.
- **Query cache** (`CacheTables.dfy`, `QueryCache.dfy`, `CacheRequests.dfy`): the result cache
  and sub-cache of the web data service, over an arbitrary database. Main results: in every
  sequence of requests each answer comes from the database or from the first cached text that
  occurs in the request, and it is right exactly when the rows of that text answer the request
  (`Servable`); a request with a LIMIT is answered rightly whatever the database holds if and
  only if it is the cached text plus the limit; the byte count is the true one and within the
  limit between requests.
- **Scheduler** (`Scheduler.dfy`, `PhaseBarrier.dfy`, `SchedulerProgress.dfy`,
  `WorkflowTrace.dfy`): the coordinator and worker threads as a transition system in which
  any thread may step at any time. Main results: phases never overlap, a system has one live
  worker, nothing deadlocks and no interleaving keeps a cycle from ending, and in a cycle
  without failure each operation of a query, nine if it has a transform and six otherwise, is
  done exactly once in the order of its mode, while a failure stops everything later for that system. A flat file is
  loaded once and before any operation, and a failure to load it stops all of them.
- **SQL statements** (`Strings.dfy`, `SqlBuilder.dfy`, `EtlBinding.dfy`): placeholder
  formatting with the repository's own `strlcpy`, and the choice of the values to bind. Main
  results: formatting is simultaneous substitution exactly when there is room for it; a null
  value stands in the statement as NULL without the quotes of the template, and every other
  value as itself; and a record is never bound with its values shifted.
- **CSV lines** (`Csv.dfy`): the line automaton. Main result: a written line reads back as its
  fields exactly when no field has a NUL and every quoted field has a character other than
  the quote.

Functions that say what the code computes are themselves pinned by statements in literal bytes,
characters and numbers (`JsonAccepts.Accepts`, `JsonRoundTrip.PrintedIsWritten`,
`Utf8.EncodedBits`, `JsonCompare.EqualIsAlike`, `CacheRequests.ReadsLimit`,
`CacheTables.RowIsItsFields`, `SqlBuilder.FormatsNulls`, `EtlBinding.FirstWithLabel`,
`WorkflowTrace.EveryKindOnce`, `Csv.ReadsMixed`).

Bytes are integers from 0 to 255 and texts are sequences of them (`char` in the SQL and CSV
parts). A C string in memory is a sequence or array with a NUL. The printer's allocator is
known only to grant blocks of up to some size, and may grant larger ones or not. The verifier
checks the array bounds and the termination of every method, so the printer, the parser and
the formatter read and write only inside their buffers.

Where the code and what is said about it differ, the model follows the code:

- A cached base result may not serve every request whose rows it contains.
  `CacheRequests.AskOrdered` is a run in which a request with ORDER BY and LIMIT is answered
  with the first rows of the unordered result, and `CacheRequests.AskCounted` one in which a
  request that counts the rows of a cached query is answered with none.
  `QueryCache.AnswerIsRight` and `QueryCache.Server.ServeAll` give the exact condition,
  `CacheRequests.LimitOfBaseOnly` the only requests with a LIMIT that every database answers
  rightly from the cache, and `CacheRequests.PlainTextsAreAdmissible` a check on the request
  texts.
- Section 7 of RFC 8259 forbids unescaped control characters in strings; the decoder accepts
  them (`JsonEscapes.ControlCharacterAccepted`). The accepted literals that conform are
  exactly those without one (`JsonEscapes.ConformingLiterals`).
- Against RFC 8259 the parser takes every byte up to the space for whitespace, leading zeros,
  numbers without digits behind the point or, after a minus, before it, and a \u without four
  hexadecimal digits. `JsonGrammar.dfy` has all of these; numbers are at most 63 bytes long.
- `cJSON_Compare` is not reflexive on objects with two different values under one name, so
  a duplicate does not always compare equal to its source
  (`JsonCompare.NotEqualToCopy`); it does exactly when the tree is `Consistent`
  (`JsonCompare.CompareWithCopy`). Ignoring case, names that differ in case only are one name
  (`JsonCompare.CaseDecides`).
- A quoted CSV field of quotes only gains one, and a NUL in a field ends its line
  (`Csv.RoundTrip`).
- A placeholder at the start of a statement template, or next to another one, is not replaced
  where it stands (`SqlBuilder.LeadingMark`, `SqlBuilder.ValuesGoBehind`).
- Empty values can lose the end of a statement template (`SqlBuilder.EmptyValuesLoseText`);
  the exact condition is `SqlBuilder.Room`.
- The header of cJSON advises five spare bytes for `cJSON_PrintPreallocated`; two are needed
  and enough (`JsonPrinter.PrintPreallocated`).

## Model

| member | source | states |
|---|---|---|
| `Utf8.Hex4` | src/third-party/cJSON.c:609-643 | four digits denote at most 0xFFFF; `JsonAccepts.FourDigitsValue` says which number, `Utf8.MalformedDigits` what becomes of other bytes |
| `Utf8.ParseHex4` | src/third-party/cJSON.c:609-643 | the digit loop computes that number, or 0 as soon as a digit is malformed |
| `Utf8.Utf16Literal` | src/third-party/cJSON.c:646-707 | an accepted escape names a scalar value, 6 characters for one below 0x10000 and 12 for one above, and lies inside the literal |
| `Utf8.MalformedDigits` | src/third-party/cJSON.c:609-643 | an escape with a byte that is no hexadecimal digit is read as U+0000 |
| `Utf8.ReadUtf16Literal` | src/third-party/cJSON.c:646-707 | the code reads exactly that escape, with the surrogate arithmetic of RFC 2781 section 2.2 |
| `Utf8.WriteContinuation` | src/third-party/cJSON.c:742-747 | the backward loop writes the continuation bytes of RFC 3629 section 3 and touches no other byte |
| `Utf8.WriteUtf8` | src/third-party/cJSON.c:709-760 | exactly the RFC 3629 encoding of the code point is written behind the earlier bytes, and the rest is untouched |
| `Utf8.EncodedBits` | src/third-party/cJSON.c:709-760 | an encoding has the length and the marker bits of RFC 3629 section 3, and its bytes put together give the code point back |
| `JsonString.ScanString` | src/third-party/cJSON.c:780-803 | the sizing scan finds the first quote not stepped over and counts the backslash pairs |
| `JsonString.AdvanceScan` | src/third-party/cJSON.c:784-797 | the first scan passes every position of the second one or the one after it, with at most one skipped byte for two scanned |
| `JsonString.StepForward` | src/third-party/cJSON.c:813-868 | decoding one character keeps the bound on the bytes written, even where both scans pair backslashes differently |
| `JsonString.DecodeTurn` | src/third-party/cJSON.c:813-868 | one turn of the loop keeps the bound and what is left to decode |
| `JsonString.DecodeNext` | src/third-party/cJSON.c:815-867 | one character or escape appends the bytes it stands for, or fails |
| `JsonString.DecodeString` | src/third-party/cJSON.c:767-894 | for every literal, malformed ones included, all writes are inside the buffer of the computed size, and the result is the decoded literal |
| `JsonEscapes.DecodeTokens` | src/third-party/cJSON.c:813-868 | any sequence of raw bytes, simple escapes, \u escapes and surrogate pairs decodes to the concatenation of their meanings |
| `JsonEscapes.DecodedTokens` | src/third-party/cJSON.c:813-868 | whatever decodes, from escapes with four digits, is such a sequence |
| `JsonEscapes.EscapeDecoding` | src/third-party/cJSON.c:646-868 | a literal whose \u escapes have four hexadecimal digits is accepted if and only if it is made of raw bytes other than the quote and the backslash, simple escapes, and \u escapes that name scalar values; it decodes to what they mean |
| `JsonEscapes.ConformingLiterals` | src/third-party/cJSON.c:813-868 | the accepted ones that are made of RFC 8259 characters are exactly those without a raw control character |
| `JsonEscapes.ControlCharacterAccepted` | src/third-party/cJSON.c:815-819 | a raw control character is accepted although no conforming literal has it |
| `JsonEscapes.LoneSurrogateRejected` | src/third-party/cJSON.c:663-698 | a surrogate that is not half of a pair makes the literal fail wherever it stands |
| `JsonEscapes.KeepsUtf8` | src/third-party/cJSON.c:813-868 | tokens whose source is the encoding of scalars have a meaning that is one too |
| `JsonEscapes.DecodedIsUtf8` | src/third-party/cJSON.c:767-894 | valid UTF-8 decodes to valid UTF-8 |
| `Json.RenderNulFree` | src/third-party/cJSON.c:1361-1432 | no printed value contains a NUL or is empty, which is what lets the printer recover its position with strlen |
| `JsonPrinter.CountEscapeCharacters` | src/third-party/cJSON.c:923-947 | the sizing loop counts the additional bytes escaping needs |
| `JsonPrinter.RenderedLength` | src/third-party/cJSON.c:923-1012 | the escaped text is exactly that much longer, and equal to the input when the count is 0 |
| `JsonPrinter.PrintBuffer.constructor` | src/third-party/cJSON.c:1286-1303 | a fresh print buffer has printed nothing |
| `JsonPrinter.PrintBuffer.Ensure` | src/third-party/cJSON.c:435-520 | on success the asked bytes and one more fit and what was printed is kept, in a new buffer of twice that size only if the old one is too short; it succeeds whenever the allocator grants twice that, and a caller's buffer is never replaced and succeeds exactly when they fit |
| `JsonPrinter.PrintBuffer.Store` | src/third-party/cJSON.c:583-594 | bytes go behind the earlier ones and inside the reserved space |
| `JsonPrinter.PrintBuffer.StoreString` | src/third-party/cJSON.c:1372-1397 | a string and its NUL are stored at the offset |
| `JsonPrinter.PrintBuffer.UpdateOffset` | src/third-party/cJSON.c:523-533 | strlen from the old offset finds the end of the text printed since |
| `JsonPrinter.PrintBuffer.PrintName` | src/third-party/cJSON.c:1372-1397 | null, true and false are printed at the offset; on a caller's buffer exactly when they fit with two bytes to spare |
| `JsonPrinter.PrintBuffer.PrintNumber` | src/third-party/cJSON.c:543-597 | an integer of at most 15 digits is printed in decimal |
| `JsonPrinter.PrintBuffer.StoreEscaped` | src/third-party/cJSON.c:969-1010 | one character is stored escaped as RFC 8259 section 7 asks, with the NUL of sprintf inside the reserved space |
| `JsonPrinter.PrintBuffer.PrintString` | src/third-party/cJSON.c:896-1015 | the quoted, escaped string is printed, in exactly the space that was reserved |
| `JsonPrinter.PrintBuffer.StoreLoop` | src/third-party/cJSON.c:966-1012 | the copying loop stores the escaped string |
| `JsonPrinter.PrintBuffer.PrintValue` | src/third-party/cJSON.c:1361-1432 | for an item that stands for a tree, on success the buffer holds the earlier bytes, then exactly the rendering of the tree, then a NUL, with offset and depth as the source leaves them; on a caller's buffer exactly when it fits with two bytes to spare |
| `JsonPrinter.PrintBuffer.PrintItem` | src/third-party/cJSON.c:1558-1562 | printing and moving on appends the rendering of a child |
| `JsonPrinter.PrintBuffer.Append` | src/third-party/cJSON.c:1563-1578 | a separator is appended in the space asked for, with or without its NUL |
| `JsonPrinter.PrintBuffer.PrintElement` | src/third-party/cJSON.c:1556-1580 | one turn of the array loop prints the item and what follows it, a separator if it has a next item, or the whole text did not fit |
| `JsonPrinter.PrintBuffer.PrintElements` | src/third-party/cJSON.c:1556-1580 | the loop along next prints all elements |
| `JsonPrinter.PrintBuffer.Open` | src/third-party/cJSON.c:1544-1554 | the opening bracket or brace is printed and the depth goes up |
| `JsonPrinter.PrintBuffer.Close` | src/third-party/cJSON.c:1582-1591 | the closing bracket completes the text and the depth goes back |
| `JsonPrinter.PrintBuffer.PrintArray` | src/third-party/cJSON.c:1533-1592 | an item that stands for an array is printed as its rendering |
| `JsonPrinter.PrintBuffer.PrintRestOfArray` | src/third-party/cJSON.c:1556-1592 | elements and closing bracket complete the text |
| `JsonPrinter.PrintBuffer.PrintMemberHead` | src/third-party/cJSON.c:1737-1770 | indentation, name and colon of a member |
| `JsonPrinter.PrintBuffer.PrintKey` | src/third-party/cJSON.c:1753-1757 | a name is printed as a string |
| `JsonPrinter.PrintBuffer.PrintNamed` | src/third-party/cJSON.c:1737-1780 | indentation, name, colon and value of a member |
| `JsonPrinter.PrintBuffer.PrintMember` | src/third-party/cJSON.c:1735-1799 | one turn of the object loop prints an item with its name and what follows it, a comma if it has a next item, or the whole text did not fit |
| `JsonPrinter.PrintBuffer.PrintMembers` | src/third-party/cJSON.c:1735-1799 | the loop along next prints all members |
| `JsonPrinter.PrintBuffer.PrintObject` | src/third-party/cJSON.c:1708-1819 | an item that stands for an object is printed as its rendering |
| `JsonPrinter.PrintBuffer.PrintRestOfObject` | src/third-party/cJSON.c:1735-1819 | members and closing brace complete the text |
| `JsonPrinter.PrintPreallocated` | src/third-party/cJSON.c:1286-1303 | printing an item into the caller's buffer succeeds if and only if the text of its tree is at least two bytes shorter than the buffer, and leaves text and NUL in it |
| `JsonPrinter.Print` | src/third-party/cJSON.c:1181-1254 | the result is exactly the rendering and a NUL, and there is one whenever the allocator grants 256 bytes and twice the space of the text |
| `JsonPrinter.PrintBuffered` | src/third-party/cJSON.c:1256-1284 | the result holds the rendering and a NUL, whatever size the buffer started with, and there is one under the same condition on the allocator |
| `JsonParser.ParseValue` | src/third-party/cJSON.c:1306-1358 | terminates on every text and depth, and success ends strictly later and inside the text |
| `JsonParser.ParseArrayAt` | src/third-party/cJSON.c:1435-1530 | the same for arrays, failing at the nesting limit |
| `JsonParser.ParseObjectAt` | src/third-party/cJSON.c:1595-1705 | the same for objects |
| `JsonParser.ParseBuffer.SkipWhitespace` | src/third-party/cJSON.c:1032-1055 | the cursor stops at the first byte above 32, or one byte before the end |
| `JsonParser.ParseBuffer.CopyNumber` | src/third-party/cJSON.c:314-347 | the bytes handed to strtod are the longest run of number bytes, at most 63 |
| `JsonParser.ParseBuffer.ParseNumberItem` | src/third-party/cJSON.c:301-375 | the item is the number strtod reads, and the cursor moves by what it read; integers of at most 15 digits as integers, negative zero and all others as their text |
| `JsonParser.ParseBuffer.ParseStringItem` | src/third-party/cJSON.c:767-894 | both scans together refine ParseString, and the cursor stops behind the closing quote |
| `JsonParser.ParseBuffer.ParseItem` | src/third-party/cJSON.c:1306-1358 | on every C string the cursor parser accepts exactly what ParseValue accepts, and then the item and the new items below it stand for that value, with the links of every list; it restores depth on success, reads only inside the text and terminates |
| `JsonParser.ParseBuffer.ParseArray` | src/third-party/cJSON.c:1435-1530 | the same for arrays, despite the step back of the offset; the first item of the list gets the link to the last |
| `JsonParser.ParseBuffer.ParseElementItem` | src/third-party/cJSON.c:1493-1500 | an element and the whitespace around it |
| `JsonParser.ParseBuffer.ParseArrayItems` | src/third-party/cJSON.c:1467-1507 | the loop links new items for exactly the elements up to the closing bracket, in order |
| `JsonParser.ParseBuffer.ParseNextElement` | src/third-party/cJSON.c:1472-1500 | one turn links a new item behind the others before it is parsed, and then it stands for the next element |
| `JsonParser.ParseBuffer.ParseObject` | src/third-party/cJSON.c:1595-1705 | the same for objects, with the names of the members |
| `JsonParser.ParseBuffer.ParseKeyItem` | src/third-party/cJSON.c:1651-1670 | a name, its colon and the whitespace around them |
| `JsonParser.ParseBuffer.ParseNamed` | src/third-party/cJSON.c:1651-1676 | a whole member, its name and value in the item |
| `JsonParser.ParseBuffer.ParseObjectItems` | src/third-party/cJSON.c:1625-1683 | the loop links new items for exactly the members up to the closing brace, in order |
| `JsonParser.ParseBuffer.ParseNextMember` | src/third-party/cJSON.c:1630-1676 | one turn links a new item behind the others before it is parsed, and then it has the name and stands for the value of the next member |
| `JsonParser.ParseWithOpts` | src/third-party/cJSON.c:1073-1166 | the whole parser returns an item for exactly the texts Parse accepts, the item stands for the tree Parse gives and is all new, and parsing ended where Parse says; a failure is reported inside the text |
| `JsonAccepts.FourDigitsValue` | src/third-party/cJSON.c:609-643 | the four hexadecimal digits of a number, each with a small or a capital letter, are read as that number |
| `JsonAccepts.FourDigitsOf` | src/third-party/cJSON.c:609-643 | and whatever four digits are read are those of the number read |
| `JsonAccepts.TokenOfChar` | src/third-party/cJSON.c:813-868 | every character of the grammar, its two-character escapes listed letter by letter, is a token with that text and meaning |
| `JsonAccepts.EveryScalarDecodes` | src/third-party/cJSON.c:646-868 | every scalar value, written as a \u escape or a surrogate pair in small or capital letters, decodes to its UTF-8 bytes |
| `JsonAccepts.ReadsLiteral` | src/third-party/cJSON.c:767-894 | a string of the grammar is read wherever it stands, with its value |
| `JsonAccepts.LiteralAt` | src/third-party/cJSON.c:767-894 | whatever is read as a string is one of the grammar |
| `JsonAccepts.NumeralLength` | src/third-party/cJSON.c:350-354 | strtod reads a number of the grammar whole: sign, digits, fraction, exponent |
| `JsonAccepts.NumeralItem` | src/third-party/cJSON.c:350-371 | the item of a number holds what its decimal digits denote by place value, or its text if it is no integer of at most 15 digits or is negative zero |
| `JsonAccepts.NumeralOf` | src/third-party/cJSON.c:301-354 | whatever strtod reads of the copied bytes is a number of the grammar |
| `JsonAccepts.ReadsDoc` | src/third-party/cJSON.c:1306-1358 | a value of the grammar is read wherever it stands, unless a number goes on behind it, with the tree it denotes |
| `JsonAccepts.DocAt` | src/third-party/cJSON.c:1306-1358 | whatever is read as a value is one of the grammar, with that tree, within the limit |
| `JsonAccepts.ReadsElements` | src/third-party/cJSON.c:1467-1507 | elements with any whitespace around them, separated by commas and closed by a bracket, are read in order |
| `JsonAccepts.ElementsAt` | src/third-party/cJSON.c:1467-1507 | nothing else is read as the rest of an array: no missing comma and no other closing byte |
| `JsonAccepts.ReadsKey` | src/third-party/cJSON.c:1651-1670 | a name is read with any whitespace before it, and between it and its colon |
| `JsonAccepts.KeyAt` | src/third-party/cJSON.c:1651-1670 | whatever is read as a name is a string of the grammar with whitespace and a colon |
| `JsonAccepts.ReadsMembers` | src/third-party/cJSON.c:1625-1683 | members with whitespace at every place, separated by commas and closed by a brace, are read in order, equal names included |
| `JsonAccepts.MembersAt` | src/third-party/cJSON.c:1625-1683 | nothing else is read as the rest of an object |
| `JsonAccepts.Accepts` | src/third-party/cJSON.c:1089-1166 | a C string is accepted to its end with a tree if and only if it is a text of the grammar, with or without a byte order mark, that denotes the tree, nested at most 1000 deep |
| `JsonAccepts.AcceptsStart` | src/third-party/cJSON.c:1169-1172 | without the check of the end, a text that starts with a value of the grammar is accepted with its tree, whatever stands behind it but the rest of a number |
| `JsonAccepts.StartsAccepted` | src/third-party/cJSON.c:1169-1172 | and every accepted text starts with a value of the grammar |
| `JsonRoundTrip.PrintedString` | src/third-party/cJSON.c:896-1015 | a printed string is made of the short escapes, \u escapes in small letters for other control characters, and the bytes themselves, and means the string |
| `JsonRoundTrip.PrintedNumber` | src/third-party/cJSON.c:543-597 | a printed integer is a sign or none and its digits, which denote it by place value |
| `JsonRoundTrip.PrintedIsWritten` | src/third-party/cJSON.c:1361-1819 | what is printed is the text of the grammar with this tree whose whitespace is written out: none if compact, else a space behind commas of arrays, a tab behind colons, and a line with as many tabs as the depth for each member |
| `JsonRoundTrip.ParsedWithinLimit` | src/third-party/cJSON.c:1089-1166 | no accepted text holds a tree nested deeper than the limit, or one with a NUL in a string or name |
| `JsonRoundTrip.RoundTrip` | src/third-party/cJSON.c:1181-1819 | the text printed for a tree, compact or formatted, parses back to it if and only if it is nested at most 1000 deep |
| `JsonRoundTrip.PrintedFormMeansTheSame` | src/third-party/cJSON.c:1089-1254 | every accepted text with integers for numbers has the same tree as its printed form |
| `JsonRoundTrip.PrintAndParse` | src/third-party/cJSON.c:1169-1254 | printing an item and parsing the text gives new items that stand for the same tree, if and only if it is nested at most 1000 deep, whenever there is memory to print in |
| `SiblingList.Item.constructor` | src/third-party/cJSON.c:237-246 | a new item has no links |
| `SiblingList.Item.GetItem` | src/third-party/cJSON.c:1845-1862 | the item at the index, or none behind the end |
| `SiblingList.Item.AddItem` | src/third-party/cJSON.c:1950-1990 | adding appends to the sequence and restores the link to the tail, also when it was missing; an item is not added to itself |
| `SiblingList.Item.SuffixObject` | src/third-party/cJSON.c:1922-1926 | two items are linked both ways |
| `SiblingList.Item.LastByNext` | src/third-party/cJSON.c:1978-1984 | following next finds the last item |
| `SiblingList.AppendItem` | src/third-party/cJSON.c:1479-1491 | linking a new item behind the last one, as parsing and duplicating do, keeps a chain that has no link from its first item to its last |
| `SiblingList.Item.InsertItem` | src/third-party/cJSON.c:2266-2293 | insertion before a position, whatever links the new item had, or at the end; a negative position changes nothing |
| `SiblingList.Item.InsertBefore` | src/third-party/cJSON.c:2281-2292 | the item stands in front of the given one, at the head and elsewhere |
| `SiblingList.Item.DetachItem` | src/third-party/cJSON.c:2190-2224 | exactly that item leaves the sequence and has no links left, at the head, the tail and between |
| `SiblingList.Item.ReplaceItem` | src/third-party/cJSON.c:2295-2342 | exactly that position changes, also for a list of one item |
| `SiblingList.Item.TakeLinks` | src/third-party/cJSON.c:2307-2313 | the replacement has the links of the item, and only the item behind it was changed |
| `SiblingList.Item.DetachAt` | src/third-party/cJSON.c:2226-2234 | the same by position, and nothing happens outside the list, negative positions included |
| `SiblingList.Item.ReplaceAt` | src/third-party/cJSON.c:2344-2352 | the same by position, and nothing happens outside the list, negative positions included |
| `SiblingList.Apply` | src/third-party/cJSON.c:1950-2352 | one change at any position, negative ones included, keeps the chain and does to its contents what it does to a sequence |
| `SiblingList.ApplyAll` | src/third-party/cJSON.c:1950-2352 | so does any sequence of changes, detached items coming back included |
| `JsonTree.Grow` | src/third-party/cJSON.c:1473-1491 | a list of items that stand for trees keeps standing for them while a new item is linked behind it |
| `JsonTree.Grown` | src/third-party/cJSON.c:1493-1500 | once the new item stands for a tree, the list has grown by it |
| `JsonTree.LinkTail` | src/third-party/cJSON.c:1512-1514 | the finished list gets the link from its first item to its last and still stands for its trees |
| `JsonTree.HangArray` | src/third-party/cJSON.c:1509-1521 | the item with the finished list stands for the array of what the list stands for |
| `JsonTree.HangObject` | src/third-party/cJSON.c:1685-1696 | the item with the finished list stands for the object of the names and values |
| `JsonTree.OneTree` | src/include/third-party/cJSON.h:103-123 | an item stands for one tree only, so Represents determines what was parsed or copied |
| `JsonChanges.AllChangedAreTrees` | src/third-party/cJSON.c:1950-2352 | changing a sequence of items and taking their trees is taking the trees and changing those |
| `JsonChanges.StandsForTrees` | src/third-party/cJSON.c:1950-2352 | a well-formed list of items in play stands for the array of their trees |
| `JsonChanges.ChangeArray` | src/third-party/cJSON.c:1950-2352 | any sequence of changes to an array does to its tree what it does to a sequence of trees, and every item in play, detached ones included, goes on standing for its tree |
| `JsonCompare.Found` | src/third-party/cJSON.c:1874-1904 | looking a name up, with either treatment of case, finds what the object, taken as a map, has under it |
| `JsonCompare.SameIgnoringCase` | src/third-party/cJSON.c:129-151 | the loop finds two names the same exactly when they are after tolower |
| `JsonCompare.GetObjectItem` | src/third-party/cJSON.c:1874-1904 | the item of the first member of that name, case sensitive or not, or none |
| `JsonCompare.MatchBothWays` | src/third-party/cJSON.c:3045-3081 | matching members in both directions is equality of the maps, for consistent objects only |
| `JsonCompare.Compare` | src/third-party/cJSON.c:2963-3086 | true if and only if the items are the same, or both trees are consistent and mean the same with objects as maps, in either treatment of case |
| `JsonCompare.CompareArrays` | src/third-party/cJSON.c:3021-3043 | element by element, and equally long |
| `JsonCompare.CompareMembers` | src/third-party/cJSON.c:3049-3078 | one loop checks every member of one object against the other |
| `JsonCompare.FoldedBytes` | src/third-party/cJSON.c:129-151 | two names are the same after tolower if and only if they differ in the case of letters only |
| `JsonCompare.EqualIsAlike` | src/third-party/cJSON.c:2963-3086 | for trees with distinct names, comparison decides equality up to the order of members, as a relation on the trees |
| `JsonCompare.DistinctIsConsistent` | src/third-party/cJSON.c:3045-3081 | distinct names make a tree consistent |
| `JsonCompare.CompareIsEquivalence` | src/third-party/cJSON.c:2963-3086 | what comparison decides is symmetric and transitive, reflexive exactly on consistent trees, and equality of meaning where names are distinct |
| `JsonCompare.CompareThree` | src/third-party/cJSON.c:2963-3086 | each answer of the comparing code is equality of consistent meanings, the answers do not depend on the order of the two items and carry over from one to the next |
| `JsonCompare.Duplicate` | src/third-party/cJSON.c:2687-2764 | a recursive duplicate is made of new items only, has the value and name of the item and no siblings, and stands for the same tree with no list having the link from its first item to its last; a flat one has no children |
| `JsonCompare.DuplicateChildren` | src/third-party/cJSON.c:2730-2753 | its loop links copies of all children, in order and with their names |
| `JsonCompare.LinkCopy` | src/third-party/cJSON.c:2739-2751 | a copied child is linked behind the others |
| `JsonCompare.CompareWithCopy` | src/third-party/cJSON.c:2687-3086 | a copy compares equal to its source if and only if the source is consistent |
| `JsonCompare.NotEqualToCopy` | src/third-party/cJSON.c:3045-3081 | an item with two values under one name compares unequal to its copy, in either treatment of case |
| `JsonCompare.CaseDecides` | src/third-party/cJSON.c:1883-1897 | one object is consistent when case counts and inconsistent when it does not |
| `Csv.ParseLine` | src/file/csv.c:25-73 | the do loop computes the values of the line, up to a NUL behind its first character |
| `Csv.InsideQuotes` | src/file/csv.c:35-66 | inside quotes, pairs are read as one quote and the closing quote ends them |
| `Csv.FromOpeningQuote` | src/file/csv.c:35-66 | quotes at the start of a text pair up with the opening quote one by one, and the parity still works out |
| `Csv.ReadsField` | src/file/csv.c:34-66 | a written field is read up to the character after it |
| `Csv.ReadsFieldToNul` | src/file/csv.c:34-66 | a field with a NUL ends the line and is not one of its values |
| `Csv.ReadsLine` | src/file/csv.c:25-73 | a written line is read field by field |
| `Csv.ReadsMixed` | src/file/csv.c:34-66 | text before and behind quotes joins what stands in them, and the quotes go |
| `Csv.UnterminatedIsLost` | src/file/csv.c:25-73 | a last field without a newline behind it is not one of the values |
| `Csv.StopsInLine` | src/file/csv.c:25-73 | a line with a NUL has fewer values than fields, unless the NUL is its first character |
| `Csv.NulAtStart` | src/file/csv.c:34-66 | a NUL at the start of a line is read on, but the value of the first field is lost |
| `Csv.RoundTrip` | src/file/csv.c:25-73 | a written line reads back as its fields if and only if no field has a NUL and every quoted field has a character other than the quote |
| `Csv.WriteAndParse` | src/file/csv.c:25-73 | the same for the parsing code |
| `Strings.Strlcpy` | src/utils/strings.c:79-97 | copies up to `size` characters and a NUL after them, and nothing for a size of 0 |
| `Strings.ReplacedLength` | src/db/db.c:177-194 | every replacement changes the length by the same amount |
| `SqlBuilder.Split` | src/db/db.c:100-114 | strtok yields the maximal runs without a placeholder |
| `SqlBuilder.CountPlaceholders` | src/db/db.c:264-270 | the strstr loop counts the placeholders |
| `SqlBuilder.AddLengths` | src/db/db.c:256-263 | the first estimate of the length is template and values together |
| `SqlBuilder.Concatenate` | src/db/db.c:116-135 | tokens and values fill a buffer of the computed length and never pass its end |
| `SqlBuilder.ReplaceParams` | src/db/db.c:91-152 | the destination holds the interleaving of tokens and values |
| `SqlBuilder.ReplaceStep` | src/db/db.c:182-190 | one replacement keeps what replacing everything gives, with the search going on one character behind the start of the replacement |
| `SqlBuilder.ReplaceOne` | src/db/db.c:183-187 | one occurrence is replaced in place through the temporary buffer |
| `SqlBuilder.ReplaceInPlace` | src/db/db.c:177-194 | the shrinking pass in place equals replacing all occurrences from left to right |
| `SqlBuilder.ReplaceMarkers` | src/db/db.c:284-291 | both NULL passes and the length bookkeeping after each |
| `SqlBuilder.DbQueryFormat` | src/db/db.c:233-296 | the code computes Format for every template and values, inside its buffer |
| `SqlBuilder.BoundFits` | src/db/db.c:116-144 | the text always fits the computed length |
| `SqlBuilder.InterleaveSubstitutes` | src/db/db.c:91-152 | for templates without a leading or an adjacent placeholder, interleaving is simultaneous substitution |
| `SqlBuilder.BoundSubstitutes` | src/db/db.c:256-283 | the buffer holds the simultaneous substitution if and only if there is room, and then is exactly filled |
| `SqlBuilder.LengthIsTrue` | src/db/db.c:284-293 | the reported length is the true one if and only if the buffer was exactly filled |
| `SqlBuilder.FormatSubstitutes` | src/db/db.c:233-296 | with as many nonempty values as placeholders the statement is the substitution followed by the NULL passes, and the length is true |
| `SqlBuilder.FormatsNulls` | src/db/db.c:233-296 | for any pieces of template and values: a null value, its placeholder in single quotes or not, stands in the statement as NULL without quotes, and every other value as itself, unless texts and values bring in markers of their own |
| `SqlBuilder.NullStands` | src/db/db.c:284-291 | one null value between two texts, in quotes or not, in literals |
| `SqlBuilder.ValuesGoBehind` | src/db/db.c:91-152 | for any template, with values to spare or not: strtok merges adjacent placeholders, so every text gets the next value behind it, however many placeholders stand before it; a template of placeholders only stays as it is |
| `SqlBuilder.LeadingMark` | src/db/db.c:91-152 | the value of a placeholder at the start of a template ends up behind the text that follows |
| `SqlBuilder.EmptyValuesLoseText` | src/db/db.c:277-283 | with empty values the end of the template can be lost |
| `EtlBinding.FindColumn` | src/core/db/etl/load.c:50-69 | the inner loop takes the first field with the label |
| `EtlBinding.SelectValues` | src/core/db/etl/load.c:48-70 | the outer loop appends the values of the columns that were found |
| `EtlBinding.ExecuteForRecord` | src/core/db/etl/load.c:30-93 | a record runs at most one statement |
| `EtlBinding.ExecuteForTargets` | src/core/db/etl/load.c:122-129 | each target runs its own statement |
| `EtlBinding.FirstWithLabel` | src/core/db/etl/load.c:50-69 | the value of a column is that of the first field whose label agrees with it in at most 256 characters, or the literal null marker if that field is empty; without such a field it has none |
| `EtlBinding.NoShiftedValues` | src/core/db/etl/stage.c:47-86 | a record either runs the template with the i-th placeholder holding the i-th column's value, or runs nothing, and the latter exactly when a column is missing or none is configured |
| `EtlBinding.RecordInStatement` | src/core/db/etl/load.c:30-93 | the statement a complete record runs has each value at the placeholder of its column, and an unquoted NULL for each empty column |
| `CacheTables.CalcSize` | src/core/cache.c:58-70 | the size is the bytes of all fields and labels |
| `CacheTables.RowIsItsFields` | src/core/cache.c:58-70 | the bytes of a row are the sum over its fields of value and label |
| `CacheTables.TableIsItsRows` | src/core/cache.c:58-70 | the bytes of a result are the sum over its rows |
| `CacheTables.RecordMatches` | src/core/cache.c:104-128 | a cached row matches exactly when it has a column and the record starts with it |
| `CacheTables.OnDbRecord` | src/core/cache.c:97-144 | the callback adds the index of the first cached row the record starts with, if there is one |
| `CacheTables.StreamRows` | src/core/cache.c:97-144 | over a whole result, of any width the comparison can read, it collects those indices in order |
| `CacheTables.RowMatching` | src/core/cache.c:97-144 | mapping the collected indices back gives exactly the streamed rows, cut to the cached columns, that occur in the cache, in order and with multiplicity |
| `CacheTables.OccurringAll` | src/core/cache.c:97-144 | no row is lost if and only if every streamed row is a cached one |
| `CacheTables.CollectData` | src/DCPAM_WDS/sql_parser.c:46-91 | if a limit can be read, the indices of that many first rows; a negative limit is stored as a huge count without indices |
| `CacheTables.StreamedIsFaithful` | src/core/cache.c:97-144 | whatever the widths, streaming selects the whole result from the cached rows if and only if each of its rows is one of them, and rows have columns or there are none |
| `QueryCache.AnswerIsRight` | src/core/cache.c:146-193 | what a sub-cache selects is the database's answer if and only if the rows of its base answer the request |
| `QueryCache.SumUpdate` | src/core/cache.c:46-56 | changing one entry's size changes the total by the difference |
| `QueryCache.Server.constructor` | src/DCPAM_WDS/dcpam-wds.c:677-688 | all slots empty, nothing counted |
| `QueryCache.Server.CacheGet` | src/core/cache.c:305-329 | an entry and a sub-cache with exactly this text, or none |
| `QueryCache.Server.SubsetSearch` | src/core/cache.c:72-83 | the first entry whose text occurs in the request, or none at all |
| `QueryCache.Server.SubExists` | src/core/cache.c:85-95 | whether a sub-cache has exactly this text |
| `QueryCache.Server.SubCacheInit` | src/core/cache.c:146-193 | the sub-cache selects the first cached rows for a limit that is read, and the cached rows that streamed ones start with otherwise, admissible or not |
| `QueryCache.Server.AddSubCache` | src/core/cache.c:217-247 | a request that contains a cached text gets a sub-cache on the first such text, unless it has one |
| `QueryCache.Server.CacheInit` | src/core/cache.c:213-303 | sub-cached exactly when a cached text occurs in the request, otherwise cached, cached beyond the limit or failed, with the total moving by exactly the entry's bytes |
| `QueryCache.Server.CacheFree` | src/core/cache.c:331-346 | the entry's bytes leave the total |
| `QueryCache.Server.CacheStatic` | src/DCPAM_WDS/dcpam-wds.c:716-731 | a configured query goes into the next slot, the sub-cache, or nowhere, and the total grows by exactly what is stored; a result beyond the limit stays in a slot that is used again |
| `QueryCache.Server.InitCache` | src/DCPAM_WDS/dcpam-wds.c:677-743 | startup leaves a valid cache whose total is exactly the bytes of the stored results, if those fit the limit |
| `QueryCache.Server.SubsetOfItself` | src/DCPAM_WDS/dcpam-wds.c:865-903 | when both lookups hit, the entry is the sub-cache's own source, so its indices are read against the right rows |
| `QueryCache.Server.SubCacheAnswers` | src/DCPAM_WDS/dcpam-wds.c:865-903 | every sub-cache selects from the result of the first cached text that occurs in its request |
| `QueryCache.AllRows` | src/DCPAM_WDS/dcpam-wds.c:882-892 | the loop answers with all rows |
| `QueryCache.SelectRows` | src/DCPAM_WDS/dcpam-wds.c:893-904 | the loop answers with the selected rows |
| `QueryCache.Server.Serve` | src/DCPAM_WDS/dcpam-wds.c:867-907 | a hit is answered with the rows of its entry or the rows its sub-cache selects, and their number |
| `QueryCache.Server.CacheRequest` | src/DCPAM_WDS/dcpam-wds.c:923-976 | a miss becomes a hit unless the database fails, and no entry is disturbed |
| `QueryCache.Server.Withdraw` | src/DCPAM_WDS/dcpam-wds.c:970-972 | the last entry leaves, its bytes are given back, and every sub-cache still points into the cache |
| `QueryCache.Server.GetDbData` | src/DCPAM_WDS/dcpam-wds.c:845-985 | the answer is the database's own or what a sub-cache on the first cached text in the request selects, for admissible and other requests; the invariant and the limit are kept, and a miss makes at most one nested call |
| `QueryCache.Server.ServeAll` | src/DCPAM_WDS/dcpam-wds.c:845-985 | in every sequence of requests an answer is right if and only if it came from the database or the rows of its base answer the request, all answers are right if the texts are admissible, and the total is true and within the limit after each |
| `CacheRequests.FirstLimit` | src/DCPAM_WDS/sql_parser.c:57-58 | a LIMIT added to a text without one is the first one found |
| `CacheRequests.ScansNumber` | src/DCPAM_WDS/sql_parser.c:24-44 | behind any spaces, a sign or none and digits are read as the number they denote by place value, whatever follows but another digit; nothing is read without a digit |
| `CacheRequests.ReadsLimit` | src/DCPAM_WDS/sql_parser.c:46-59 | the limit of a request is that number behind its first LIMIT, unless the text has a WHERE |
| `CacheRequests.LimitWithSemicolon` | src/DCPAM_WDS/sql_parser.c:57-75 | a limit of 10 followed by a semicolon is 10 |
| `CacheRequests.LimitIsRead` | src/DCPAM_WDS/sql_parser.c:24-59 | its number is read exactly, unless the text has a WHERE |
| `CacheRequests.LimitedAnswer` | src/DCPAM_WDS/sql_parser.c:46-83 | a request with a limit is answered rightly from another text if and only if both texts without limits have the same first rows |
| `CacheRequests.LimitOfBaseOnly` | src/DCPAM_WDS/sql_parser.c:46-83 | whatever the database, that is so if and only if the request is the cached text plus the limit |
| `CacheRequests.PlainIsServable` | src/core/cache.c:146-193 | a base with an added LIMIT, or contained rows without one, may be served from the base |
| `CacheRequests.PlainTextsAreAdmissible` | src/core/cache.c:146-193 | checking that for all pairs of request texts makes them admissible |
| `CacheRequests.BaseThen` | src/DCPAM_WDS/dcpam-wds.c:845-985 | an empty server asked a text and then one that contains it answers the second rightly if and only if the rows of the first answer it |
| `CacheRequests.OrderedLimitIsWrong` | src/DCPAM_WDS/sql_parser.c:46-83 | the rows of a request with ORDER BY and LIMIT are cached rows, yet the cached text does not answer it |
| `CacheRequests.AskOrdered` | src/DCPAM_WDS/dcpam-wds.c:845-985 | the run in which the server answers it with another row |
| `CacheRequests.CountIsWrong` | src/core/cache.c:97-144 | counting the rows of a cached query collects no index, and the cached rows do not answer it |
| `CacheRequests.AskCounted` | src/DCPAM_WDS/dcpam-wds.c:845-985 | the run in which the server answers it with no row |
| `Scheduler.InitLive` | src/core/db/worker.c:96-135 | the invariant holds at the start |
| `Scheduler.CoordinatorKeepsLive` | src/core/db/worker.c:132-237 | every check, join and phase change of the coordinator keeps it |
| `Scheduler.CreateKeepsLive` | src/core/db/worker.c:138-152 | so does spawning |
| `Scheduler.WorkerKeepsLive` | src/core/db/worker.c:254-817 | so does every step of a worker, the loading of a flat file included |
| `PhaseBarrier.LockFindsPhaseOver` | src/core/db/worker.c:261-268 | whoever gets the mutex finds no worker of an earlier phase waiting or inside |
| `PhaseBarrier.StepKeepsBarrier` | src/core/db/worker.c:132-237 | every step keeps the phases apart |
| `PhaseBarrier.RunIsSafe` | src/core/db/worker.c:132-237 | every state of every run satisfies the invariants |
| `PhaseBarrier.PhasesDoNotOverlap` | src/core/db/worker.c:136-226 | no worker has entered its critical section while one of an earlier phase is still to enter or leave its own, although joins are skipped for failed systems |
| `PhaseBarrier.OneLiveWorker` | src/core/db/worker.c:136-154 | when a worker is spawned, no worker of its system is alive |
| `PhaseBarrier.JoinsOwnPhaseOnce` | src/core/db/worker.c:159-163 | only the thread spawned for the system in this phase is joined, and none twice |
| `PhaseBarrier.FlagNeedsMutex` | src/core/db/worker.c:411-514 | a failure flag only goes up, and only by the system's own worker while it holds the mutex |
| `PhaseBarrier.NeverStuck` | src/core/db/worker.c:268-273 | the exit that would keep the mutex locked is never taken |
| `SchedulerProgress.LiveThreadMeansWork` | src/core/db/worker.c:254-817 | while a thread has not ended, some worker can step |
| `SchedulerProgress.NoDeadlock` | src/core/db/worker.c:132-237 | until the coordinator rests, somebody can step |
| `SchedulerProgress.CoordinatorProgress` | src/core/db/worker.c:132-237 | every step of the coordinator brings its rest nearer |
| `SchedulerProgress.WorkerProgress` | src/core/db/worker.c:408-817 | every step of a worker leaves less work |
| `SchedulerProgress.SchedulesExist` | src/core/db/worker.c:132-237 | there is always a schedule to follow |
| `SchedulerProgress.RunToRest` | src/core/db/worker.c:132-237 | following any schedule, however unfair, gives a run of exactly its steps that ends at rest |
| `SchedulerProgress.RestsFrom` | src/core/db/worker.c:132-237 | from every live state of a run without end, whatever the interleaving, the coordinator comes to rest |
| `SchedulerProgress.CyclesEnd` | src/core/db/worker.c:132-237 | in every run without end from the start, each cycle ends |
| `WorkflowTrace.RunOpExpected` | src/core/db/worker.c:411-737 | an operation extends what was done to its query by the next one of the phase |
| `WorkflowTrace.ExitedIsComplete` | src/core/db/worker.c:411-737 | a worker that ended without failure has done all of every query |
| `WorkflowTrace.EndJoinsCompletes` | src/core/db/worker.c:159-226 | when the joins end, the phase is complete for every system that has not failed |
| `WorkflowTrace.RunIsTraced` | src/core/db/worker.c:132-237 | every state of every run satisfies the trace invariants |
| `WorkflowTrace.TraceFollowsPhases` | src/core/db/worker.c:136-226 | operations come in phase order, after a failed one only later queries of the same worker touch the system, after a failed load of the flat file nothing does, and no later phase or cycle does |
| `WorkflowTrace.CycleIsThreePhases` | src/core/db/worker.c:132-226 | what a cycle does to a query is its three phases one after the other |
| `WorkflowTrace.WorkflowInOrder` | src/core/db/worker.c:411-737 | in every finished cycle of a system without failure, each query was extracted, transformed and loaded exactly once, Transform before Load in ETL mode and after it in ELT mode |
| `WorkflowTrace.EveryKindOnce` | src/core/db/worker.c:411-737 | the operations of a finished cycle without failure are, one by one, the three extractions, the three transformations if the query has a transform, and the three loads, inserted, deleted, modified, in the order of the mode |
| `WorkflowTrace.FlagIsAFailure` | src/core/db/worker.c:361-514 | in every state of every run the failure flag of a system is up if and only if an operation on it or the loading of its flat file has failed |
| `WorkflowTrace.FailureSkipsRestOfQuery` | src/core/db/worker.c:361-514 | a worker does the operations of its phase in order and skips the rest of a query after the first failure; if the flat file could not be loaded it does nothing to any query |
| `WorkflowTrace.FileIsLoadedOnceAndFirst` | src/core/db/worker.c:361-406 | the Extract worker of a system with a flat file loads it exactly once and successfully before any operation; no other worker loads it |

## Left out

JSON:

- Floating-point formatting and parsing, NaN, infinities and locale decimal points: numbers are integers of at most 15 digits; other numeric text is kept as read, and neither printed nor compared.
- JsonParser.ParseBuffer.ParseNumberItem: does not model `valueint`, which saturates at the range of int, nor the double a non-integer denotes; the item keeps the text strtod reads.
- JsonParser.ParseWithOpts: on failure the position reported is only known to be inside the text, since where the cursor stops in malformed text is not part of Parse.
- JsonEscapes.EscapeDecoding: literals with a \u that lacks four hexadecimal digits are only covered by `JsonString.DecodeString`; the source reads such an escape as U+0000, and then its two scans can disagree on where characters start. `JsonAccepts.Accepts` has them as literals of their own kind, whose value is what the decoder makes of them.
- `cJSON_Minify`, raw and reference items, items without a value string, allocator hooks, `cJSON_ParseWithLength` on buffers without a NUL, and changing lists whose `head->prev` stays null (copies, CreateIntArray and similar), except that adding to such a list is modelled.
- Allocation failure in the parser and in duplication, and the deletion of what was built before a failure. A replaced item is not deleted but left without links.
- Changing the members of an object: `JsonChanges.ChangeArray` is about arrays, and items brought in have no `next`.
- JsonCompare.Compare: compares items that are the same or have nothing in common; tolower is that of the C locale.
- Bit operations of the UTF-8 and UTF-16 code are written as arithmetic on powers of two.

Query cache:

- QueryCache.Server.SubCacheInit: creates sub-caches whose limit is not negative, and of results no row of which is a proper start of a cached row. Comparing such a row reads fields that are not there; a negative limit is stored as a huge count (`CacheTables.CollectData`), and the loop that serves it runs past the indices.
- QueryCache.Server.InitCache: startups that fit the limit. Beyond it the slot of a result is used again while its bytes stay in the total and sub-caches may point to it; `QueryCache.Server.CacheStatic` says what the first such result leaves.
- TTL is stored by the source and never read. There is one database, field values are never NULL, and the answer is the rows, not their JSON text. Failing to create a sub-cache is not modelled.

Scheduler:

- Connections that fail to open (workers then return without unlocking), the flat-file preprocessor, which can raise the failure flag until loading the file sets it again, PreETL and PostETL actions, shutdown signals and progress reports.
- An operation or the loading of a file and the raising of the failure flag after it are one step; both happen under the mutex.

SQL statements:

- SqlBuilder.BoundSubstitutes: templates with a leading "?" or with "??" are not substitutions, since strtok merges their tokens; with nonempty values `SqlBuilder.ValuesGoBehind` says what they become, and with empty ones only `SqlBuilder.DbQueryFormat`.
- `REGEX_replace`, query types, and the execution of statements.

CSV:

- Csv.RoundTrip: a delimiter other than the quote and NUL.
- Csv.ParseLine: a quote as the delimiter, and lines with a token that does not fit the token buffer are excluded; opening files and line splitting are not modelled.

Elsewhere: database drivers, sockets, HTTP, configuration, logging, memory accounting helpers, the transform step, the RDP and LCS daemons and the Python scripts.
