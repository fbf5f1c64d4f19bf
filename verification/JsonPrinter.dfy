/** The buffered printer (ensure, update_offset and print_* in src/third-party/cJSON.c). */
module JsonPrinter {
  import opened Common
  import opened Bytes
  import opened Json
  import opened JsonTree
  import opened SiblingList

  const INT_MAX: nat := 0x7FFF_FFFF

  lemma RenderMembersEnds(ms: Members, format: bool, depth: nat)
    requires depth > 0
    ensures |RenderMembers(ms, format, depth)| >= 1
  {
  }

  lemma TailText(next: Members, format: bool)
    ensures MemberTail(next, format) == (if next.Member? then [COMMA] else []) + (if format then [NEWLINE] else [])
  {
  }

  /** The escaped text from one character on. */
  lemma EscapedText(s: Text, i: nat)
    requires i < |s|
    ensures RenderBytes(s[i..]) + [QUOTE] == RenderByte(s[i]) + (RenderBytes(s[i + 1..]) + [QUOTE])
  {
    assert s[i..][1..] == s[i + 1..];
  }

  lemma Assoc(a: Text, b: Text, c: Text)
    ensures a + (b + c) == (a + b) + c
  {
  }

  // ----- escaping -----

  /** The additional characters escaping needs. */
  function EscapeCharacters(s: Text): nat {
    if s == [] then 0 else |RenderByte(s[0])| - 1 + EscapeCharacters(s[1..])
  }

  lemma {:induction false} RenderedLength(s: Text)
    ensures |RenderBytes(s)| == |s| + EscapeCharacters(s)
    ensures EscapeCharacters(s) == 0 ==> RenderBytes(s) == s
  {
    if s != [] {
      RenderedLength(s[1..]);
      if EscapeCharacters(s) == 0 {
        assert RenderByte(s[0]) == [s[0]];
        assert [s[0]] + s[1..] == s;
      }
    }
  }

  method CountEscapeCharacters(input: Text) returns (n: nat)
    ensures n == EscapeCharacters(input)
  {
    n := 0;
    var i := 0;
    while i < |input|
      invariant 0 <= i <= |input|
      invariant n + EscapeCharacters(input[i..]) == EscapeCharacters(input)
    {
      var b := input[i];
      assert input[i..][1..] == input[i + 1..];
      if b == QUOTE || b == BACKSLASH || b == BACKSPACE || b == FORM_FEED || b == NEWLINE || b == RETURN || b == TAB {
        n := n + 1;
      } else if b < 32 {
        n := n + 5;
      }
      i := i + 1;
    }
  }

  /** The space that is sure to be granted, one byte beyond the bytes asked for included, by
      an allocator that grants all blocks of up to `largest` bytes: blocks are asked for
      twice as large as needed, up to INT_MAX. */
  function Grantable(largest: nat): nat {
    if largest < INT_MAX then largest / 2 else INT_MAX
  }

  /** printbuffer */
  class PrintBuffer {
    var buffer: array?<Byte>   // null once an allocation has failed
    var offset: nat
    var depth: nat
    const noalloc: bool
    const format: bool
    const largest: nat         // the allocator grants at least all blocks of this size
    ghost const capacity: nat  // the space that is sure to be had
    ghost var reserved: nat    // the end of the space the last `Ensure` reserved

    ghost predicate Valid()
      reads this
    {
      && buffer != null && buffer.Length <= INT_MAX
      && (offset < buffer.Length || (offset == 0 && buffer.Length == 0))
      && capacity == if noalloc then buffer.Length else Grantable(largest)
    }

    /** The buffer holds the string `t`, with its NUL. */
    ghost predicate Holds(t: Text)
      reads this, buffer
    {
      buffer != null && |t| < buffer.Length && buffer[..|t|] == t && buffer[|t|] == NUL
    }

    /** What was printed so far. */
    ghost function Printed(): Text
      requires Valid()
      reads this, buffer
    {
      buffer[..offset]
    }

    constructor (buffer: array<Byte>, noalloc: bool, format: bool, largest: nat)
      requires buffer.Length <= INT_MAX
      ensures Valid() && this.buffer == buffer && offset == 0 && depth == 0
      ensures this.noalloc == noalloc && this.format == format && this.largest == largest
    {
      this.buffer, this.noalloc, this.format := buffer, noalloc, format;
      this.largest := largest;
      capacity := if noalloc then buffer.Length else Grantable(largest);
      offset, depth, reserved := 0, 0, 0;
    }

    /** Makes room for `needed` bytes more, and always asks for one byte beyond them. */
    method Ensure(needed: nat) returns (ok: bool)
      requires Valid()
      modifies this`buffer, this`reserved
      ensures ok ==> Valid() && reserved == offset + needed < buffer.Length && Printed() == old(Printed())
      ensures ok ==> buffer == old(buffer) || fresh(buffer)
      ensures ok ==> (buffer == old(buffer) <==> offset + needed < old(buffer.Length))
      ensures ok && buffer != old(buffer) ==>
                var wanted := offset + needed + 1;
                buffer.Length == if wanted <= 0x3FFF_FFFF then 2 * wanted else 0x7FFF_FFFF
      ensures offset + needed + 1 <= capacity ==> ok
      ensures noalloc ==> buffer == old(buffer) && (ok ==> offset + needed + 1 <= capacity)
    {
      if buffer.Length > 0 && offset >= buffer.Length {
        return false;
      }
      if needed > INT_MAX {
        return false;
      }
      var wanted := needed + offset + 1;
      if wanted <= buffer.Length {
        reserved := offset + needed;
        return true;
      }
      if noalloc {
        return false;
      }
      var newSize;
      if wanted > INT_MAX / 2 {
        if wanted <= INT_MAX {
          newSize := INT_MAX;
        } else {
          return false;
        }
      } else {
        newSize := wanted * 2;
      }
      var granted: bool :| newSize <= largest ==> granted;
      if !granted {
        buffer := null;
        return false;
      }
      var newBuffer := new Byte[newSize];
      forall i | 0 <= i < offset {
        newBuffer[i] := buffer[i];
      }
      buffer := newBuffer;
      reserved := offset + needed;
      ok := true;
    }

    /** Stores bytes inside the reserved space. */
    method Store(at: nat, s: Text)
      requires buffer != null && at + |s| <= reserved <= buffer.Length
      modifies buffer
      ensures buffer[..at + |s|] == old(buffer[..at]) + s
    {
      var i := 0;
      while i < |s|
        invariant 0 <= i <= |s|
        invariant buffer[..at] == old(buffer[..at])
        invariant buffer[at..at + i] == s[..i]
      {
        buffer[at + i] := s[i];
        i := i + 1;
      }
      assert buffer[..at + |s|] == buffer[..at] + buffer[at..at + |s|];
    }

    /** Stores a string and its NUL at the current offset. */
    method StoreString(s: Text)
      requires Valid() && offset + |s| + 1 <= reserved <= buffer.Length
      modifies buffer
      ensures Holds(old(Printed()) + s)
    {
      Store(offset, s + [NUL]);
      ghost var t := old(Printed()) + s;
      assert old(Printed()) + (s + [NUL]) == t + [NUL];
      HoldsText(t);
    }

    lemma HoldsText(t: Text)
      requires buffer != null && |t| < buffer.Length && buffer[..|t| + 1] == t + [NUL]
      ensures Holds(t)
    {
      assert buffer[|t|] == buffer[..|t| + 1][|t|];
      assert buffer[..|t|] == buffer[..|t| + 1][..|t|];
    }

    /** Moves the offset to the NUL of the string that starts at it. */
    method UpdateOffset(ghost t: Text)
      requires Valid() && Holds(t) && offset <= |t| && NulFree(t[offset..])
      modifies this`offset
      ensures Valid() && offset == |t| && Printed() == t
    {
      ghost var from := offset;
      forall k | from <= k < |t|
        ensures buffer[k] != NUL
      {
        assert t[from..][k - from] == t[k] == buffer[..|t|][k];
      }
      while buffer[offset] != NUL
        invariant from <= offset <= |t|
        decreases |t| - offset
      {
        offset := offset + 1;
      }
    }

    /** The promise every printing method makes: on success the buffer holds what it held,
        then the text `r`, then a NUL; it succeeds when the text fits with two bytes to
        spare, and on a caller's buffer only then. */
    twostate predicate Prints(r: Text, ok: bool)
      requires old(Valid())
      reads this, buffer
    {
      && (ok ==> Valid() && Holds(old(Printed()) + r) && old(offset) <= offset <= old(offset) + |r|)
      && (ok ==> depth == old(depth) && (buffer == old(buffer) || fresh(buffer)))
      && (old(offset) + |r| + 2 <= capacity ==> ok)
      && (noalloc ==> buffer == old(buffer) && (ok ==> old(offset) + |r| + 2 <= capacity))
    }

    /** Prints a literal name. */
    method PrintName(name: Text) returns (ok: bool)
      requires Valid() && name != []
      modifies this, buffer
      ensures Prints(name, ok)
    {
      ok := Ensure(|name| + 1);
      if ok {
        StoreString(name);
      }
    }

    method PrintNumber(n: int) returns (ok: bool)
      requires Valid() && IsInteger(n)
      modifies this, buffer
      ensures Prints(RenderNumber(n), ok)
    {
      var number := RenderNumber(n);
      ok := Ensure(|number| + 1);
      if ok {
        StoreString(number);
        offset := offset + |number|;
      }
    }

    /** Stores one character of a string at `at`, escaped if it must be. The \u form is
        written by sprintf, which also stores a NUL after it. */
    method StoreEscaped(at: nat, b: Byte) returns (next: nat)
      requires buffer != null && at + |RenderByte(b)| + 1 <= reserved <= buffer.Length
      modifies buffer
      ensures next == at + |RenderByte(b)|
      ensures buffer[..next] == old(buffer[..at]) + RenderByte(b)
    {
      if b > 31 && b != QUOTE && b != BACKSLASH {
        Store(at, [b]);
        return at + 1;
      }
      var letter := EscapeLetter(b);
      if letter.Some? {
        Store(at, [BACKSLASH, letter.value]);
        return at + 2;
      }
      Store(at, RenderByte(b) + [NUL]);
      assert buffer[..at + 6] == buffer[..at + 7][..at + 6];
      next := at + 6;
    }

    /** print_string_ptr */
    method PrintString(input: Text) returns (ok: bool)
      requires Valid()
      modifies this, buffer
      ensures Prints(RenderString(input), ok)
    {
      var escapeCharacters := CountEscapeCharacters(input);
      var outputLength := |input| + escapeCharacters;
      RenderedLength(input);
      ok := Ensure(outputLength + 3);
      if !ok {
        return;
      }
      if escapeCharacters == 0 {
        StoreString([QUOTE] + input + [QUOTE]);
        return;
      }
      StoreLoop(input);
    }

    /** Copies a string that needs escaping. */
    method StoreLoop(input: Text)
      requires Valid() && offset + |RenderString(input)| + 1 == reserved <= buffer.Length
      modifies buffer
      ensures Holds(old(Printed()) + RenderString(input))
    {
      hide RenderByte;
      ghost var total := Printed() + RenderString(input);
      Store(offset, [QUOTE]);
      var w := offset + 1;
      ghost var done := old(Printed()) + [QUOTE];
      assert done + (RenderBytes(input) + [QUOTE]) == total;
      var i := 0;
      while i < |input|
        invariant 0 <= i <= |input|
        invariant |done| == w <= buffer.Length && buffer[..w] == done
        invariant done + (RenderBytes(input[i..]) + [QUOTE]) == total
      {
        EscapedText(input, i);
        Assoc(done, RenderByte(input[i]), RenderBytes(input[i + 1..]) + [QUOTE]);
        w := StoreEscaped(w, input[i]);
        done := done + RenderByte(input[i]);
        i := i + 1;
      }
      assert RenderBytes(input[i..]) + [QUOTE] == [QUOTE];
      assert done + [QUOTE, NUL] == total + [NUL];
      Store(w, [QUOTE, NUL]);
      HoldsText(total);
    }

    /** print_value, of an item that stands for the tree `j`. */
    method PrintValue(item: Item, ghost j: Json, ghost tails: bool) returns (ok: bool)
      requires Valid() && Printable(j) && Represents(item, j, tails)
      modifies this, buffer
      ensures Prints(Render(j, format, old(depth)), ok)
      decreases j, 0
    {
      hide Children, HaveNames, PrintableElements, PrintableMembers;
      match item.value
      case Null => ok := PrintName(NULL_TEXT);
      case False => ok := PrintName(FALSE_TEXT);
      case True => ok := PrintName(TRUE_TEXT);
      case Number(n) => ok := PrintNumber(n);
      case Double(_) => assert false;
      case String(s) => ok := PrintString(s);
      case Array(_) => ok := PrintArray(item, j.elements, tails);
      case Object(_) => ok := PrintObject(item, j.members, tails);
    }

    /** Prints a value and moves past it. */
    method PrintItem(item: Item, ghost j: Json, ghost tails: bool) returns (ok: bool)
      requires Valid() && Printable(j) && Represents(item, j, tails)
      modifies this, buffer
      ensures ok ==> Valid() && depth == old(depth) && (buffer == old(buffer) || fresh(buffer))
      ensures ok ==> Printed() == old(Printed()) + Render(j, format, old(depth))
      ensures old(offset) + |Render(j, format, old(depth))| + 2 <= capacity ==> ok
      ensures noalloc ==> buffer == old(buffer)
      ensures noalloc && ok ==> old(offset) + |Render(j, format, old(depth))| + 2 <= capacity
      decreases j, 1
    {
      hide Represents;
      ghost var r := Render(j, format, depth);
      ghost var t := Printed() + r;
      ghost var from := offset;
      ok := PrintValue(item, j, tails);
      if ok {
        RenderNulFree(j, format, depth);
        assert t[offset..] == r[offset - from..];
        UpdateOffset(t);
      }
    }

    /** Reserves room for `s` and `extra` bytes more, stores `s`, with a NUL where the source
        stores one, and moves past it. */
    method Append(s: Text, extra: nat, terminate: bool) returns (ok: bool)
      requires Valid() && (terminate ==> extra == 1)
      modifies this, buffer
      ensures ok ==> Valid() && depth == old(depth) && (buffer == old(buffer) || fresh(buffer))
      ensures ok ==> Printed() == old(Printed()) + s
      ensures old(offset) + |s| + extra + 1 <= capacity ==> ok
      ensures noalloc ==> buffer == old(buffer) && (ok ==> old(offset) + |s| + extra + 1 <= capacity)
    {
      ok := Ensure(|s| + extra);
      if ok {
        if terminate {
          StoreString(s);
        } else {
          Store(offset, s);
        }
        offset := offset + |s|;
      }
    }

    /** What the printing of one child keeps: failing means that the whole text `total` does
        not fit with two bytes to spare. */
    twostate predicate Proceeds(total: Text, ok: bool)
      reads this
    {
      && (ok ==> Valid() && depth == old(depth) && old(offset) <= offset && (buffer == old(buffer) || fresh(buffer)))
      && (!ok ==> capacity < |total| + 2)
      && (noalloc ==> buffer == old(buffer))
    }

    /** One turn of the loop of print_array. */
    method PrintElement(current: Item, ghost es: Elements, ghost tails: bool, ghost total: Text) returns (ok: bool)
      requires Valid() && es.Element? && PrintableElements(es)
      requires Represents(current, es.item, tails) && (current.next == null <==> es.next.NoElement?)
      requires Printed() + RenderElements(es, format, depth) == total
      modifies this, buffer
      ensures Proceeds(total, ok)
      ensures ok ==> Printed() + RenderElements(es.next, format, depth) == total
      decreases es, 0
    {
      hide Represents;
      ghost var r, more := Render(es.item, format, depth), RenderMoreElements(es.next, format, depth);
      Assoc(Printed(), r, more);
      ok := PrintItem(current, es.item, tails);
      if !ok {
        return;
      }
      assert Printed() + more == total;
      if current.next != null {
        Assoc(Printed(), Separator(format), RenderElements(es.next, format, depth));
        ok := Append(Separator(format), 1, true);
      } else {
        assert more == RenderElements(es.next, format, depth);
      }
    }

    /** The opening bracket or brace. */
    method Open(opening: Text, extra: nat, ghost rest: Text, ghost total: Text) returns (ok: bool)
      requires Valid() && Printed() + (opening + rest) == total && extra + 1 <= |rest| + 2
      modifies this, buffer
      ensures ok ==> Valid() && Printed() + rest == total && depth == old(depth) + 1
      ensures ok ==> old(offset) <= offset && (buffer == old(buffer) || fresh(buffer))
      ensures |total| + 2 <= capacity ==> ok
      ensures noalloc ==> buffer == old(buffer)
    {
      Assoc(Printed(), opening, rest);
      ok := Append(opening, extra, false);
      if ok {
        depth := depth + 1;
      }
    }

    /** The closing bracket or brace. */
    method Close(closing: Text, ghost total: Text) returns (ok: bool)
      requires Valid() && depth > 0 && Printed() + closing == total && closing != []
      modifies this, buffer
      ensures ok ==> Valid() && Holds(total) && offset == old(offset) && depth == old(depth) - 1
      ensures ok ==> buffer == old(buffer) || fresh(buffer)
      ensures |total| + 2 <= capacity ==> ok
      ensures noalloc ==> buffer == old(buffer) && (ok ==> |total| + 2 <= capacity)
    {
      ok := Ensure(|closing| + 1);
      if ok {
        StoreString(closing);
        depth := depth - 1;
      }
    }

    /** The loop of print_array. */
    method PrintElements(item: Item, ghost elements: Elements, ghost tails: bool, ghost total: Text) returns (ok: bool)
      requires Valid() && PrintableElements(elements) && Represents(item, Array(elements), tails)
      requires Printed() + RenderElements(elements, format, depth) == total
      modifies this, buffer
      ensures Proceeds(total, ok)
      ensures ok ==> Printed() + [CLOSE_ARRAY] == total
      decreases elements, 1
    {
      hide RenderElements, RenderMoreElements, Represents, IsRestElements;
      ArrayStarts(item, elements, tails);
      var current := item.child;
      ghost var rest, at := elements, 0;
      while current != null
        invariant Valid() && depth == old(depth) && old(offset) <= offset
        invariant buffer == old(buffer) || (!noalloc && fresh(buffer))
        invariant StandsAt(item, at, current) && IsRestElements(elements, at, rest) && PrintableElements(rest)
        invariant Printed() + RenderElements(rest, format, depth) == total
        invariant rest == elements || rest < elements
        decreases |item.children| - at
      {
        ElementStands(item, elements, tails, at, current, rest);
        ArrayEnds(item, elements, tails, at + 1, current.next, rest.next);
        ok := PrintElement(current, rest, tails, total);
        if !ok {
          return;
        }
        current, rest, at := current.next, rest.next, at + 1;
      }
      ArrayEnds(item, elements, tails, at, current, rest);
      NoElementText(format, depth);
      ok := true;
    }

    /** print_array */
    method PrintArray(item: Item, ghost elements: Elements, ghost tails: bool) returns (ok: bool)
      requires Valid() && PrintableElements(elements) && Represents(item, Array(elements), tails)
      modifies this, buffer
      ensures Prints(Render(Array(elements), format, old(depth)), ok)
      decreases elements, 3
    {
      hide Render, RenderElements, RenderMoreElements, Represents, PrintableElements;
      var opening := [OPEN_ARRAY];
      ghost var rest := RenderElements(elements, format, depth + 1);
      ghost var total := Printed() + (opening + rest);
      ArrayText(elements, format, depth);
      ok := Open(opening, 0, rest, total);
      if ok {
        ok := PrintRestOfArray(item, elements, tails, total);
      }
    }

    /** The elements and the closing bracket. */
    method PrintRestOfArray(item: Item, ghost elements: Elements, ghost tails: bool, ghost total: Text)
      returns (ok: bool)
      requires Valid() && depth > 0 && PrintableElements(elements) && Represents(item, Array(elements), tails)
      requires Printed() + RenderElements(elements, format, depth) == total
      modifies this, buffer
      ensures ok ==> Valid() && Holds(total) && old(offset) <= offset <= |total| && depth == old(depth) - 1
      ensures ok ==> buffer == old(buffer) || fresh(buffer)
      ensures |total| + 2 <= capacity ==> ok
      ensures noalloc ==> buffer == old(buffer) && (ok ==> |total| + 2 <= capacity)
      decreases elements, 2
    {
      hide RenderElements, Represents, PrintableElements;
      ok := PrintElements(item, elements, tails, total);
      if ok {
        ok := Close([CLOSE_ARRAY], total);
      }
    }

    /** The indentation, name and colon of a member. */
    method PrintMemberHead(key: Text, ghost rest: Text, ghost total: Text) returns (ok: bool)
      requires Valid() && NulFree(key)
      requires Printed() + (MemberHead(key, format, depth) + rest) == total && |rest| >= 2
      modifies this, buffer
      ensures Proceeds(total, ok)
      ensures ok ==> Printed() + rest == total
    {
      ghost var tabs, name, colon := if format then Tabs(depth) else [], RenderString(key), NameSeparator(format);
      assert MemberHead(key, format, depth) + rest == tabs + (name + (colon + rest));
      Assoc(Printed(), tabs, name + (colon + rest));
      if format {
        ok := Append(Tabs(depth), 0, false);
        if !ok {
          return;
        }
      } else {
        assert Printed() + [] == Printed();
      }
      Assoc(Printed(), name, colon + rest);
      ok := PrintKey(key);
      if !ok {
        return;
      }
      Assoc(Printed(), colon, rest);
      ok := Append(NameSeparator(format), 0, false);
    }

    /** Prints a name and moves past it. */
    method PrintKey(key: Text) returns (ok: bool)
      requires Valid() && NulFree(key)
      modifies this, buffer
      ensures ok ==> Valid() && depth == old(depth) && (buffer == old(buffer) || fresh(buffer))
      ensures ok ==> Printed() == old(Printed()) + RenderString(key)
      ensures old(offset) + |RenderString(key)| + 2 <= capacity ==> ok
      ensures noalloc ==> buffer == old(buffer) && (ok ==> old(offset) + |RenderString(key)| + 2 <= capacity)
    {
      ghost var r := RenderString(key);
      ghost var t := Printed() + r;
      ghost var from := offset;
      ok := PrintString(key);
      if ok {
        RenderStringNulFree(key);
        assert t[offset..] == r[offset - from..];
        UpdateOffset(t);
      }
    }

    /** The value of a member. */
    method PrintMemberValue(item: Item, ghost j: Json, ghost tails: bool, ghost rest: Text, ghost total: Text)
      returns (ok: bool)
      requires Valid() && Printable(j) && Represents(item, j, tails)
      requires Printed() + (Render(j, format, depth) + rest) == total
      modifies this, buffer
      ensures Proceeds(total, ok)
      ensures ok ==> Printed() + rest == total
      decreases j, 2
    {
      hide Render, Represents, Printable;
      Assoc(Printed(), Render(j, format, depth), rest);
      ok := PrintItem(item, j, tails);
    }

    /** A member without what follows it. */
    method PrintNamed(current: Item, ghost key: Text, ghost j: Json, ghost tails: bool,
          ghost rest: Text, ghost total: Text)
      returns (ok: bool)
      requires Valid() && NulFree(key) && Printable(j) && Represents(current, j, tails) && current.name == key
      requires Printed() + (MemberHead(key, format, depth) + (Render(j, format, depth) + rest)) == total && rest != []
      modifies this, buffer
      ensures Proceeds(total, ok)
      ensures ok ==> Printed() + rest == total
      decreases j, 3
    {
      hide Render, Represents, Printable, MemberHead, NulFree;
      RenderNulFree(j, format, depth);
      ok := PrintMemberHead(current.name, Render(j, format, depth) + rest, total);
      if ok {
        ok := PrintMemberValue(current, j, tails, rest, total);
      }
    }

    /** One turn of the loop of print_object. */
    method PrintMember(current: Item, ghost ms: Members, ghost tails: bool, ghost total: Text) returns (ok: bool)
      requires Valid() && ms.Member? && PrintableMembers(ms) && depth > 0
      requires Represents(current, ms.item, tails) && current.name == ms.key
      requires current.next == null <==> ms.next.NoMember?
      requires Printed() + RenderMembers(ms, format, depth) == total
      modifies this, buffer
      ensures Proceeds(total, ok)
      ensures ok ==> Printed() + RenderMembers(ms.next, format, depth) == total
      decreases ms, 0
    {
      ghost var tail, rest := MemberTail(ms.next, format), RenderMembers(ms.next, format, depth);
      hide Render, RenderMembers, MemberHead, MemberTail, Represents;
      MemberText(ms, format, depth);
      RenderMembersEnds(ms.next, format, depth);
      ok := PrintNamed(current, ms.key, ms.item, tails, tail + rest, total);
      if !ok {
        return;
      }
      Assoc(Printed(), tail, rest);
      TailText(ms.next, format);
      ok := Append((if current.next != null then [COMMA] else []) + (if format then [NEWLINE] else []), 1, true);
    }

    /** The loop of print_object. */
    method PrintMembers(item: Item, ghost members: Members, ghost tails: bool, ghost total: Text) returns (ok: bool)
      requires Valid() && PrintableMembers(members) && depth > 0 && Represents(item, Object(members), tails)
      requires Printed() + RenderMembers(members, format, depth) == total
      modifies this, buffer
      ensures Proceeds(total, ok)
      ensures ok ==> Printed() + RenderMembers(NoMember, format, depth) == total
      decreases members, 1
    {
      hide RenderMembers, Represents, IsRest;
      ObjectStarts(item, members, tails);
      var current := item.child;
      ghost var rest, at := members, 0;
      while current != null
        invariant Valid() && depth == old(depth) && old(offset) <= offset
        invariant buffer == old(buffer) || (!noalloc && fresh(buffer))
        invariant StandsAt(item, at, current) && IsRest(members, at, rest) && PrintableMembers(rest)
        invariant Printed() + RenderMembers(rest, format, depth) == total
        invariant rest == members || rest < members
        decreases |item.children| - at
      {
        MemberStands(item, members, tails, at, current, rest);
        ObjectEnds(item, members, tails, at + 1, current.next, rest.next);
        ok := PrintMember(current, rest, tails, total);
        if !ok {
          return;
        }
        current, rest, at := current.next, rest.next, at + 1;
      }
      ObjectEnds(item, members, tails, at, current, rest);
      ok := true;
    }

    /** print_object */
    method PrintObject(item: Item, ghost members: Members, ghost tails: bool) returns (ok: bool)
      requires Valid() && PrintableMembers(members) && Represents(item, Object(members), tails)
      modifies this, buffer
      ensures Prints(Render(Object(members), format, old(depth)), ok)
      decreases members, 3
    {
      var opening := if format then [OPEN_OBJECT, NEWLINE] else [OPEN_OBJECT];
      hide Render, RenderMembers, Represents, PrintableMembers;
      ghost var rest := RenderMembers(members, format, depth + 1);
      ghost var total := Printed() + (opening + rest);
      ObjectParts(members, format, depth);
      RenderMembersEnds(members, format, depth + 1);
      ok := Open(opening, 1, rest, total);
      if ok {
        ok := PrintRestOfObject(item, members, tails, total);
      }
    }

    /** The members and the closing brace. */
    method PrintRestOfObject(item: Item, ghost members: Members, ghost tails: bool, ghost total: Text)
      returns (ok: bool)
      requires Valid() && depth > 0 && PrintableMembers(members) && Represents(item, Object(members), tails)
      requires Printed() + RenderMembers(members, format, depth) == total
      modifies this, buffer
      ensures ok ==> Valid() && Holds(total) && old(offset) <= offset <= |total| && depth == old(depth) - 1
      ensures ok ==> buffer == old(buffer) || fresh(buffer)
      ensures |total| + 2 <= capacity ==> ok
      ensures noalloc ==> buffer == old(buffer) && (ok ==> |total| + 2 <= capacity)
      decreases members, 2
    {
      hide RenderMembers, Represents, PrintableMembers;
      ok := PrintMembers(item, members, tails, total);
      if ok {
        ObjectParts(members, format, depth - 1);
        var closing := (if format then Tabs(depth - 1) else []) + [CLOSE_OBJECT];
        ok := Close(closing, total);
      }
    }
  }

  /** cJSON_PrintPreallocated: prints into the caller's buffer, and succeeds exactly when
      the buffer is at least two bytes longer than the text. */
  method PrintPreallocated(item: Item, ghost j: Json, ghost tails: bool,
        buffer: array<Byte>, format: bool)
    returns (ok: bool)
    requires Printable(j) && Represents(item, j, tails) && buffer.Length <= 0x7FFF_FFFF
    modifies buffer
    ensures ok <==> |Render(j, format, 0)| + 2 <= buffer.Length
    ensures ok ==> buffer[..|Render(j, format, 0)| + 1] == Render(j, format, 0) + [NUL]
  {
    hide Represents;
    var p := new PrintBuffer(buffer, true, format, 0);
    ghost var r := Render(j, format, 0);
    assert p.Printed() + r == r;
    ok := p.PrintValue(item, j, tails);
    assert ok ==> buffer[..|r| + 1] == buffer[..|r|] + [buffer[|r|]];
  }

  /** print: cJSON_Print and cJSON_PrintUnformatted, from a buffer of 256 bytes. The result
      is exactly as long as the text and its NUL. There is one whenever the allocator grants
      blocks of 256 bytes and of twice the space of the text, two bytes more included. */
  method Print(item: Item, ghost j: Json, ghost tails: bool,
        format: bool, largest: nat)
    returns (printed: array?<Byte>)
    requires Printable(j) && Represents(item, j, tails)
    ensures printed != null ==> printed[..] == Render(j, format, 0) + [NUL]
    ensures printed == null ==>
              var most := if largest < 0x7FFF_FFFF then largest / 2 else 0x7FFF_FFFF;
              largest < 256 || most < |Render(j, format, 0)| + 2
  {
    hide Represents;
    var granted: bool :| 256 <= largest ==> granted;
    if !granted {
      return null;
    }
    var buffer := new Byte[256];
    var p := new PrintBuffer(buffer, false, format, largest);
    ghost var r := Render(j, format, 0);
    assert p.Printed() + r == r;
    var ok := p.PrintValue(item, j, tails);
    if !ok {
      return null;
    }
    RenderNulFree(j, format, 0);
    p.UpdateOffset(r);
    granted :| p.offset + 1 <= largest ==> granted;
    if !granted {
      return null;
    }
    printed := CopyText(p.buffer, r, p.offset);
  }

  /** Copies a text and its NUL to a block of their size. */
  method CopyText(buffer: array<Byte>, ghost text: Text, length: nat) returns (copy: array<Byte>)
    requires length == |text| < buffer.Length && buffer[..length] == text && buffer[length] == NUL
    ensures copy[..] == text + [NUL]
  {
    copy := new Byte[length + 1];
    forall i | 0 <= i < length + 1 {
      copy[i] := buffer[i];
    }
    assert copy[..length] == buffer[..length];
    assert copy[..] == copy[..length] + [copy[length]];
  }

  /** cJSON_PrintBuffered: the text in a buffer that starts at the caller's size, which may
      be zero. */
  method PrintBuffered(item: Item, ghost j: Json, ghost tails: bool,
        prebuffer: nat, format: bool, largest: nat)
    returns (printed: array?<Byte>)
    requires Printable(j) && Represents(item, j, tails) && prebuffer <= 0x7FFF_FFFF
    ensures printed != null ==>
              var r := Render(j, format, 0);
              |r| < printed.Length && printed[..|r|] == r && printed[|r|] == NUL
    ensures printed == null ==>
              var most := if largest < 0x7FFF_FFFF then largest / 2 else 0x7FFF_FFFF;
              largest < prebuffer || most < |Render(j, format, 0)| + 2
  {
    hide Represents;
    var granted: bool :| prebuffer <= largest ==> granted;
    if !granted {
      return null;
    }
    var buffer := new Byte[prebuffer];
    var p := new PrintBuffer(buffer, false, format, largest);
    ghost var r := Render(j, format, 0);
    assert p.Printed() + r == r;
    var ok := p.PrintValue(item, j, tails);
    printed := if ok then p.buffer else null;
  }
}
