/** Code points and their UTF-8 bytes (RFC 3629, section 3), and the UTF-16
    escapes that name them (RFC 2781, section 2.2; src/third-party/cJSON.c). */
module Utf8 {
  import opened Common
  import opened Bytes

  // ----- scalar values and their encoding -----

  predicate IsHighSurrogate(u: nat) { 0xD800 <= u <= 0xDBFF }

  predicate IsLowSurrogate(u: nat) { 0xDC00 <= u <= 0xDFFF }

  predicate IsScalar(cp: nat) {
    cp <= 0x10FFFF && !IsHighSurrogate(cp) && !IsLowSurrogate(cp)
  }

  /** The table of RFC 3629, section 3. */
  function Encode(cp: nat): Text
    requires cp <= 0x10FFFF
  {
    if cp < 0x80 then [cp]
    else if cp < 0x800 then [0xC0 + cp / 64, 0x80 + cp % 64]
    else if cp < 0x10000 then [0xE0 + cp / 64 / 64, 0x80 + cp / 64 % 64, 0x80 + cp % 64]
    else [0xF0 + cp / 64 / 64 / 64, 0x80 + cp / 64 / 64 % 64, 0x80 + cp / 64 % 64, 0x80 + cp % 64]
  }

  predicate IsContinuation(b: Byte) { 0x80 <= b <= 0xBF }

  /** The bytes hold the bits of the code point, six in each byte behind the first, in the
      shortest form. */
  lemma EncodedBits(cp: nat)
    requires cp <= 0x10FFFF
    ensures cp <= 0x7F ==> Encode(cp) == [cp]
    ensures 0x80 <= cp <= 0x7FF ==>
              var e := Encode(cp);
              && |e| == 2 && 0xC2 <= e[0] <= 0xDF && IsContinuation(e[1])
              && cp == Bits(e[0] - 0xC0, e[1])
    ensures 0x800 <= cp <= 0xFFFF ==>
              var e := Encode(cp);
              && |e| == 3 && 0xE0 <= e[0] <= 0xEF && IsContinuation(e[1]) && IsContinuation(e[2])
              && cp == Bits(Bits(e[0] - 0xE0, e[1]), e[2])
    ensures 0x10000 <= cp ==>
              var e := Encode(cp);
              && |e| == 4 && 0xF0 <= e[0] <= 0xF4
              && IsContinuation(e[1]) && IsContinuation(e[2]) && IsContinuation(e[3])
              && cp == Bits(Bits(Bits(e[0] - 0xF0, e[1]), e[2]), e[3])
  {
  }

  /** Six more bits. */
  function Bits(high: int, b: Byte): int { high * 64 + (b - 0x80) }

  ghost predicate AllScalars(scalars: seq<nat>) {
    forall i :: 0 <= i < |scalars| ==> IsScalar(scalars[i])
  }

  function EncodeAll(scalars: seq<nat>): Text
    requires AllScalars(scalars)
  {
    if scalars == [] then [] else Encode(scalars[0]) + EncodeAll(scalars[1..])
  }

  /** Valid UTF-8: the encoding of some sequence of scalar values. */
  ghost predicate ValidUtf8(s: Text) {
    exists scalars: seq<nat> :: AllScalars(scalars) && EncodeAll(scalars) == s
  }

  // ----- hexadecimal digits and UTF-16 escapes -----

  predicate IsHexDigit(b: Byte) {
    0x30 <= b <= 0x39 || 0x41 <= b <= 0x46 || 0x61 <= b <= 0x66
  }

  function HexValue(b: Byte): (v: nat)
    requires IsHexDigit(b)
    ensures v < 16
  {
    if b <= 0x39 then b - 0x30 else if b <= 0x46 then b - 0x41 + 10 else b - 0x61 + 10
  }

  predicate FourHexDigits(c: Text, at: nat)
    requires at + 4 <= |c|
  {
    IsHexDigit(c[at]) && IsHexDigit(c[at + 1]) && IsHexDigit(c[at + 2]) && IsHexDigit(c[at + 3])
  }

  /** The number four hexadecimal digits denote, or 0 when one of them is not a digit. */
  function Hex4(c: Text, at: nat): (h: nat)
    requires at + 4 <= |c|
    ensures h <= 0xFFFF
  {
    if FourHexDigits(c, at) then
      4096 * HexValue(c[at]) + 256 * HexValue(c[at + 1]) + 16 * HexValue(c[at + 2]) + HexValue(c[at + 3])
    else 0
  }

  method ParseHex4(c: Text, at: nat) returns (h: nat)
    requires at + 4 <= |c|
    ensures h == Hex4(c, at)
  {
    h := 0;
    var i := 0;
    while i < 4
      invariant 0 <= i <= 4
      invariant i >= 1 ==> IsHexDigit(c[at])
      invariant i >= 2 ==> IsHexDigit(c[at + 1])
      invariant i >= 3 ==> IsHexDigit(c[at + 2])
      invariant i == 0 ==> h == 0
      invariant i == 1 ==> h == 16 * HexValue(c[at])
      invariant i == 2 ==> h == 256 * HexValue(c[at]) + 16 * HexValue(c[at + 1])
      invariant i == 3 ==> h == 4096 * HexValue(c[at]) + 256 * HexValue(c[at + 1]) + 16 * HexValue(c[at + 2])
      invariant i == 4 ==> h == Hex4(c, at)
    {
      var digit := c[at + i];
      if 0x30 <= digit <= 0x39 {
        h := h + (digit - 0x30);
      } else if 0x41 <= digit <= 0x46 {
        h := h + 10 + (digit - 0x41);
      } else if 0x61 <= digit <= 0x66 {
        h := h + 10 + (digit - 0x61);
      } else {
        return 0;
      }
      if i < 3 {
        h := h * 16;
      }
      i := i + 1;
    }
  }

  datatype Literal = Literal(codepoint: nat, length: nat)

  /** The code point named by the escape starting at `p` in a string whose closing
      quote is at `end`, and how many characters name it: 6, or 12 for a pair. */
  function Utf16Literal(c: Text, p: nat, end: nat): (r: Option<Literal>)
    requires end <= |c|
    ensures r.Some? ==> IsScalar(r.value.codepoint) && p + r.value.length <= end
    ensures r.Some? ==> (r.value.length == 6 && r.value.codepoint < 0x10000)
                        || (r.value.length == 12 && r.value.codepoint >= 0x10000)
  {
    if end < p + 6 then None
    else
      var first := Hex4(c, p + 2);
      if IsLowSurrogate(first) then None
      else if IsHighSurrogate(first) then
        if end < p + 12 then None
        else if c[p + 6] != BACKSLASH || c[p + 7] != LETTER_U then None
        else
          var second := Hex4(c, p + 8);
          if !IsLowSurrogate(second) then None
          else Some(Literal(0x10000 + (first - 0xD800) * 1024 + (second - 0xDC00), 12))
      else Some(Literal(first, 6))
  }

  /** An escape with a byte that is no hexadecimal digit is read as U+0000. */
  lemma MalformedDigits(c: Text, p: nat, end: nat, k: nat)
    requires 2 <= k < 6 && p + 6 <= end <= |c|
    requires c[p + k] < 0x30 || 0x39 < c[p + k] < 0x41 || 0x46 < c[p + k] < 0x61 || 0x66 < c[p + k]
    ensures Hex4(c, p + 2) == 0 && Utf16Literal(c, p, end) == Some(Literal(0, 6))
  {
    assert c[p + k] in [c[p + 2], c[p + 3], c[p + 4], c[p + 5]];
  }

  lemma SurrogateBits(u: nat)
    ensures IsHighSurrogate(u) ==> u % 1024 == u - 0xD800
    ensures IsLowSurrogate(u) ==> u % 1024 == u - 0xDC00
  {
  }

  /** The first half of utf16_literal_to_utf8: reads the escape. */
  method ReadUtf16Literal(c: Text, p: nat, end: nat) returns (r: Option<Literal>)
    requires end <= |c|
    ensures r == Utf16Literal(c, p, end)
  {
    if end < p + 6 {
      return None;
    }
    var first := ParseHex4(c, p + 2);
    if 0xDC00 <= first <= 0xDFFF {
      return None;
    }
    if 0xD800 <= first <= 0xDBFF {
      if end < p + 12 {
        return None;
      }
      if c[p + 6] != BACKSLASH || c[p + 7] != LETTER_U {
        return None;
      }
      var second := ParseHex4(c, p + 8);
      if second < 0xDC00 || second > 0xDFFF {
        return None;
      }
      SurrogateBits(first);
      SurrogateBits(second);
      return Some(Literal(0x10000 + (first % 1024 * 1024 + second % 1024), 12));
    }
    return Some(Literal(first, 6));
  }

  /** The bytes after the first: six bits each, the last one first. */
  method WriteContinuation(codepoint: nat, written: nat, output: array<Byte>, at: nat) returns (rest: nat)
    requires codepoint <= 0x10FFFF && written == |Encode(codepoint)|
    requires at + written <= output.Length
    modifies output
    ensures rest == (if written == 1 then codepoint else if written == 2 then codepoint / 64
                     else if written == 3 then codepoint / 64 / 64 else codepoint / 64 / 64 / 64)
    ensures forall k :: 0 < k < written ==> output[at + k] == Encode(codepoint)[k]
    ensures forall k :: 0 <= k < output.Length && !(at < k < at + written) ==> output[k] == old(output[k])
  {
    ghost var e := Encode(codepoint);
    rest := codepoint;
    var position := written - 1;
    while position > 0
      invariant 0 <= position < written
      invariant position == written - 1 ==> rest == codepoint
      invariant position == written - 2 ==> rest == codepoint / 64
      invariant position == written - 3 ==> rest == codepoint / 64 / 64
      invariant position == written - 4 ==> rest == codepoint / 64 / 64 / 64
      invariant forall k :: position < k < written ==> output[at + k] == e[k]
      invariant forall k :: 0 <= k < output.Length && !(at + position < k < at + written) ==>
                  output[k] == old(output[k])
    {
      output[at + position] := 0x80 + rest % 64;
      rest := rest / 64;
      position := position - 1;
    }
  }

  /** The second half of utf16_literal_to_utf8: writes the bytes of the code point. */
  method WriteUtf8(codepoint: nat, output: array<Byte>, at: nat) returns (written: nat)
    requires codepoint <= 0x10FFFF
    requires at + |Encode(codepoint)| <= output.Length
    modifies output
    ensures written == |Encode(codepoint)|
    ensures output[..at + written] == old(output[..at]) + Encode(codepoint)
    ensures output[at + written..] == old(output[at + written..])
  {
    var mark := 0;
    if codepoint < 0x80 {
      written := 1;
    } else if codepoint < 0x800 {
      written, mark := 2, 0xC0;
    } else if codepoint < 0x10000 {
      written, mark := 3, 0xE0;
    } else {
      written, mark := 4, 0xF0;
    }
    var rest := WriteContinuation(codepoint, written, output, at);
    output[at] := rest + mark;
  }
}
