/** String literals: the sizing scan, the decoding scan, and what they compute
    (parse_string in src/third-party/cJSON.c). */
module JsonString {
  import opened Common
  import opened Bytes
  import opened Utf8

  // ----- the first scan: where the literal ends, and how many bytes escapes save -----

  /** The closing quote found from `i`, stepping over two bytes at every backslash. */
  function ScanEnd(c: Text, i: nat): (r: Option<nat>)
    ensures r.Some? ==> i <= r.value < |c| && c[r.value] == QUOTE
    decreases |c| - i
  {
    if i >= |c| then None
    else if c[i] == QUOTE then Some(i)
    else if c[i] == BACKSLASH then if i + 1 >= |c| then None else ScanEnd(c, i + 2)
    else ScanEnd(c, i + 1)
  }

  /** How many backslash pairs the scan steps over on its way from `i` to `end`. */
  function Pairs(c: Text, i: nat, end: nat): (n: nat)
    requires end <= |c|
    ensures 2 * n <= if i <= end then end - i + 1 else 0
    decreases end - i
  {
    if i >= end then 0
    else if c[i] == BACKSLASH then 1 + Pairs(c, i + 2, end)
    else Pairs(c, i + 1, end)
  }

  method ScanString(c: Text, start: nat) returns (end: Option<nat>, skipped: nat)
    requires start <= |c|
    ensures end == ScanEnd(c, start)
    ensures end.Some? ==> skipped == Pairs(c, start, end.value)
  {
    var i := start;
    skipped := 0;
    ghost var target := ScanEnd(c, start);
    while i < |c| && c[i] != QUOTE
      invariant start <= i <= |c|
      invariant ScanEnd(c, i) == target
      invariant target.Some? ==>
                  i <= target.value && skipped + Pairs(c, i, target.value) == Pairs(c, start, target.value)
      decreases |c| - i
    {
      if c[i] == BACKSLASH {
        if i + 1 >= |c| {
          return None, skipped;
        }
        skipped := skipped + 1;
        i := i + 1;
      }
      i := i + 1;
    }
    if i >= |c| {
      return None, skipped;
    }
    end := Some(i);
  }

  // ----- the second scan: the decoded bytes -----

  /** The byte a two-character escape stands for. */
  function SimpleEscape(letter: Byte): Option<Byte> {
    if letter == LETTER_B then Some(BACKSPACE)
    else if letter == LETTER_F then Some(FORM_FEED)
    else if letter == LETTER_N then Some(NEWLINE)
    else if letter == LETTER_R then Some(RETURN)
    else if letter == LETTER_T then Some(TAB)
    else if letter == QUOTE || letter == BACKSLASH || letter == SLASH then Some(letter)
    else None
  }

  function Prepend(s: Text, r: Option<Text>): Option<Text> {
    match r
    case None => None
    case Some(t) => Some(s + t)
  }

  lemma PrependEmpty(r: Option<Text>)
    ensures Prepend([], r) == r
  {
    if r.Some? {
      assert [] + r.value == r.value;
    }
  }

  lemma PrependTwice(s: Text, t: Text, r: Option<Text>)
    ensures Prepend(s, Prepend(t, r)) == Prepend(s + t, r)
  {
    if r.Some? {
      assert s + (t + r.value) == s + t + r.value;
    }
  }

  datatype Unescaped = Unescaped(bytes: Text, length: nat)

  /** The bytes the character or escape at `p` stands for, and its length in the literal. */
  function Unescape(c: Text, p: nat, end: nat): (r: Option<Unescaped>)
    requires p < end < |c|
    ensures r.Some? ==> IsStep(c, p, end, r.value.length, |r.value.bytes|)
  {
    if c[p] != BACKSLASH then Some(Unescaped([c[p]], 1))
    else if c[p + 1] == LETTER_U then
      match Utf16Literal(c, p, end)
      case None => None
      case Some(literal) => Some(Unescaped(Encode(literal.codepoint), literal.length))
    else
      match SimpleEscape(c[p + 1])
      case None => None
      case Some(b) => Some(Unescaped([b], 2))
  }

  /** `k` characters of the literal are read at `p` and `out` bytes written for them. */
  ghost predicate IsStep(c: Text, p: nat, end: nat, k: nat, out: nat)
    requires p < end < |c|
  {
    || (k == 1 && out == 1 && c[p] != BACKSLASH)
    || (k == 2 && out == 1 && c[p] == BACKSLASH)
    || (k == 6 && out <= 3 && p + 6 <= end)
    || (k == 12 && out <= 4 && p + 12 <= end)
  }

  /** The bytes decoded from `p` up to the closing quote at `end`; the scan can overshoot
      `end` by one, when a malformed escape makes it read the closing quote as escaped. */
  function Decode(c: Text, p: nat, end: nat): Option<Text>
    requires end < |c|
    decreases end - p
  {
    if p >= end then Some([])
    else
      match Unescape(c, p, end)
      case None => None
      case Some(u) => Prepend(u.bytes, Decode(c, p + u.length, end))
  }

  /** A position `b` of the first scan at `q` or one past it, and a bound on the pairs
      the first scan stepped over between `a` and `b`. */
  lemma {:induction false} AdvanceScan(c: Text, a: nat, q: nat, end: nat) returns (b: nat)
    requires end < |c| && ScanEnd(c, a) == Some(end) && a <= q + 1 && q <= end
    ensures b <= end && ScanEnd(c, b) == Some(end) && (a <= q ==> b == q || b == q + 1) && (a > q ==> b == a)
    ensures 2 * (Pairs(c, a, end) - Pairs(c, b, end)) <= b - a
    decreases q + 1 - a
  {
    if a >= q {
      b := a;
    } else if c[a] == BACKSLASH {
      b := AdvanceScan(c, a + 2, q, end);
    } else {
      b := AdvanceScan(c, a + 1, q, end);
    }
  }

  /** The room the first scan reserves before the terminating NUL. */
  function AllocationLength(c: Text, start: nat, end: nat): nat
    requires start <= end <= |c|
  {
    end - start + 1 - Pairs(c, start, end)
  }

  /** Two scans at once: the decoder stands at `p`, `a` is the next position of the first
      scan, and `pos` bytes were written. This is what keeps the writes inside the buffer. */
  ghost predicate InStep(c: Text, start: nat, end: nat, p: nat, a: nat, pos: nat)
    requires end < |c|
  {
    && start <= p <= end + 1
    && a <= end && ScanEnd(c, a) == Some(end)
    && (if p <= end then a == p || a == p + 1 else a == end)
    && pos + Pairs(c, start, end) - Pairs(c, a, end) <= p - start
  }

  lemma StepForward(c: Text, start: nat, end: nat, p: nat, a: nat, pos: nat, k: nat, out: nat) returns (b: nat)
    requires end < |c| && InStep(c, start, end, p, a, pos) && p < end
    requires IsStep(c, p, end, k, out)
    ensures InStep(c, start, end, p + k, b, pos + out)
    ensures pos + out <= AllocationLength(c, start, end)
  {
    if p + k == end + 1 {
      b := end;
      assert c[p] == BACKSLASH;
      assert a != p;
    } else if a == p && k == 1 {
      b := p + 1;
    } else if a == p && k == 2 {
      b := p + 2;
    } else {
      b := AdvanceScan(c, a, p + k, end);
    }
  }

  /** One turn of the decoding loop. A length of 0 is failure. */
  method DecodeNext(c: Text, p: nat, end: nat, output: array<Byte>, pos: nat) returns (length: nat, written: nat)
    requires p < end < |c|
    requires Unescape(c, p, end).Some? ==> pos + |Unescape(c, p, end).value.bytes| <= output.Length
    modifies output
    ensures Unescape(c, p, end).None? ==> length == 0
    ensures Unescape(c, p, end).Some? ==>
              && length == Unescape(c, p, end).value.length > 0
              && written == |Unescape(c, p, end).value.bytes|
              && output[..pos + written] == old(output[..pos]) + Unescape(c, p, end).value.bytes
  {
    length, written := 0, 0;
    if c[p] != BACKSLASH {
      output[pos] := c[p];
      length, written := 1, 1;
    } else if c[p + 1] == LETTER_U {
      var literal := ReadUtf16Literal(c, p, end);
      if literal.Some? {
        written := WriteUtf8(literal.value.codepoint, output, pos);
        length := literal.value.length;
      }
    } else {
      var b := SimpleEscape(c[p + 1]);
      if b.Some? {
        output[pos] := b.value;
        length, written := 2, 1;
      }
    }
  }

  /** What one turn of the decoding loop keeps. */
  lemma DecodeTurn(c: Text, start: nat, end: nat, p: nat, a: nat, decoded: Text) returns (b: nat)
    requires end < |c| && p < end && InStep(c, start, end, p, a, |decoded|)
    requires Decode(c, start, end) == Prepend(decoded, Decode(c, p, end))
    ensures Unescape(c, p, end).None? ==> Decode(c, start, end).None?
    ensures Unescape(c, p, end).Some? ==>
              var u := Unescape(c, p, end).value;
              && InStep(c, start, end, p + u.length, b, |decoded + u.bytes|)
              && Decode(c, start, end) == Prepend(decoded + u.bytes, Decode(c, p + u.length, end))
              && |decoded + u.bytes| <= AllocationLength(c, start, end)
  {
    b := a;
    if Unescape(c, p, end).Some? {
      var u := Unescape(c, p, end).value;
      PrependTwice(decoded, u.bytes, Decode(c, p + u.length, end));
      b := StepForward(c, start, end, p, a, |decoded|, u.length, |u.bytes|);
    }
  }

  lemma DecodeStarts(c: Text, start: nat, end: nat)
    requires end < |c| && ScanEnd(c, start) == Some(end)
    ensures start <= end && InStep(c, start, end, start, start, 0)
  {
  }

  /** Where the decoder stands, and what is left when it is done. */
  lemma DecodeStands(c: Text, start: nat, end: nat, p: nat, a: nat, decoded: Text)
    requires end < |c| && InStep(c, start, end, p, a, |decoded|)
    requires ScanEnd(c, start) == Some(end)
    ensures start <= p <= end + 1
    ensures p >= end ==> Prepend(decoded, Decode(c, p, end)) == Some(decoded)
  {
    hide Unescape;
    assert decoded + [] == decoded;
  }

  /** Decodes into a buffer of exactly the size the first scan computed, plus the NUL. Every
      write is inside that buffer, for well-formed and malformed literals alike. */
  method DecodeString(c: Text, start: nat, end: nat, skipped: nat) returns (r: Option<Text>, stop: nat)
    requires end < |c| && ScanEnd(c, start) == Some(end) && skipped == Pairs(c, start, end)
    ensures r == Decode(c, start, end)
    ensures r.Some? ==> |r.value| + 1 <= AllocationLength(c, start, end) + 1
    ensures start <= stop <= end + 1
  {
    hide Unescape, Pairs, ScanEnd, Decode, InStep;
    var allocationLength := end - start + 1 - skipped;
    var output := new Byte[allocationLength + 1](_ => NUL);
    var p: nat, pos: nat := start, 0;
    ghost var a, decoded := start, [];
    PrependEmpty(Decode(c, start, end));
    DecodeStarts(c, start, end);
    while p < end
      invariant InStep(c, start, end, p, a, |decoded|)
      invariant |decoded| == pos <= allocationLength && output[..pos] == decoded
      invariant Decode(c, start, end) == Prepend(decoded, Decode(c, p, end))
      decreases end - p
    {
      DecodeStands(c, start, end, p, a, decoded);
      a := DecodeTurn(c, start, end, p, a, decoded);
      var length, written := DecodeNext(c, p, end, output, pos);
      if length == 0 {
        return None, p;
      }
      decoded := decoded + Unescape(c, p, end).value.bytes;
      pos, p := pos + written, p + length;
    }
    DecodeStands(c, start, end, p, a, decoded);
    output[pos] := NUL;
    r, stop := Some(output[..pos]), p;
  }
}
