/** Bytes and NUL-terminated strings, as the C sources see them. */
module Bytes {

  type Byte = b: int | 0 <= b < 256

  type Text = seq<Byte>

  const NUL: Byte := 0
  const BACKSPACE: Byte := 8
  const TAB: Byte := 9
  const NEWLINE: Byte := 10
  const FORM_FEED: Byte := 12
  const RETURN: Byte := 13
  const SPACE: Byte := 32
  const QUOTE: Byte := 34
  const COMMA: Byte := 44
  const MINUS: Byte := 45
  const SLASH: Byte := 47
  const COLON: Byte := 58
  const OPEN_ARRAY: Byte := 91
  const BACKSLASH: Byte := 92
  const CLOSE_ARRAY: Byte := 93
  const LETTER_B: Byte := 98
  const LETTER_F: Byte := 102
  const LETTER_N: Byte := 110
  const LETTER_R: Byte := 114
  const LETTER_T: Byte := 116
  const LETTER_U: Byte := 117
  const OPEN_OBJECT: Byte := 123
  const CLOSE_OBJECT: Byte := 125

  /** No NUL inside: the text is what `strlen` would measure. */
  ghost predicate NulFree(s: Text) {
    forall i :: 0 <= i < |s| ==> s[i] != NUL
  }

  /** A C string in memory: exactly one NUL, at the end. */
  ghost predicate NulTerminated(c: Text) {
    |c| > 0 && c[|c| - 1] == NUL && NulFree(c[..|c| - 1])
  }

  /** What a reader of the C string stored in `s` followed by a NUL sees. */
  function CString(s: Text): Text {
    if s == [] || s[0] == NUL then [] else [s[0]] + CString(s[1..])
  }

  lemma {:induction false} CStringOfNulFree(s: Text)
    requires NulFree(s)
    ensures CString(s) == s
  {
    if s != [] {
      CStringOfNulFree(s[1..]);
    }
  }

  /** It sees everything before the first NUL. */
  lemma {:induction false} CStringStops(s: Text)
    ensures
      var seen := CString(s);
      && seen <= s && (forall i :: 0 <= i < |seen| ==> seen[i] != 0)
      && (seen != s ==> s[|seen|] == 0)
  {
    if s != [] && s[0] != 0 {
      CStringStops(s[1..]);
    }
  }
}
