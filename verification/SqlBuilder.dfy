/** Statement formatting (DB_QUERY_format and its helpers in src/db/db.c): placeholders are
    replaced by splitting and interleaving in an exactly sized buffer, then NULL markers are
    replaced in place. */
module SqlBuilder {
  import opened Common
  import opened Strings

  const MARK: char := '?'
  const QUOTED_MARKER: string := "'dcpamNULL'"
  const MARKER: string := "dcpamNULL"
  const SQL_NULL: string := "NULL"

  // ----- what formatting is for -----

  /** The template with its placeholders replaced by the values, all at once: what a value
      brings in is not looked at again. */
  function Substitute(t: string, values: seq<string>): string {
    if t == "" then ""
    else if t[0] == MARK && values != [] then values[0] + Substitute(t[1..], values[1..])
    else [t[0]] + Substitute(t[1..], values)
  }

  /** The two NULL passes. */
  function NullPasses(s: string): string {
    ReplaceAll(ReplaceAll(s, QUOTED_MARKER, SQL_NULL), MARKER, SQL_NULL)
  }

  function Placeholders(t: string): (n: nat)
    ensures n <= |t|
  {
    if t == "" then 0 else (if t[0] == MARK then 1 else 0) + Placeholders(t[1..])
  }

  function TotalLength(values: seq<string>): nat {
    if values == [] then 0 else |values[0]| + TotalLength(values[1..])
  }

  /** The computed length of the destination: template and values, less the placeholders. */
  function DstLength(t: string, values: seq<string>): nat {
    |t| - Placeholders(t) + TotalLength(values)
  }

  ghost predicate AllNulFree(values: seq<string>) {
    forall i :: 0 <= i < |values| ==> NulFree(values[i])
  }

  // ----- splitting -----

  function TokenEnd(t: string, i: nat): (r: nat)
    requires i <= |t|
    ensures i <= r <= |t| && (r < |t| ==> t[r] == MARK)
    ensures forall k :: i <= k < r ==> t[k] != MARK
    decreases |t| - i
  {
    if i < |t| && t[i] != MARK then TokenEnd(t, i + 1) else i
  }

  /** The tokens strtok yields: maximal runs without a placeholder, none of them empty. */
  function Tokens(t: string): seq<string>
    decreases |t|
  {
    if t == "" then []
    else if t[0] == MARK then Tokens(t[1..])
    else [t[..TokenEnd(t, 0)]] + Tokens(t[TokenEnd(t, 0)..])
  }

  /** The strtok loop. */
  method Split(t: string) returns (tokens: seq<string>)
    ensures tokens == Tokens(t)
  {
    tokens := [];
    var i := 0;
    assert t[0..] == t;
    while i < |t|
      invariant 0 <= i <= |t|
      invariant tokens + Tokens(t[i..]) == Tokens(t)
      decreases |t| - i
    {
      var rest := t[i..];
      if rest[0] == MARK {
        assert rest[1..] == t[i + 1..];
        i := i + 1;
      } else {
        var end := TokenEnd(rest, 0);
        assert rest[end..] == t[i + end..];
        assert tokens + ([rest[..end]] + Tokens(rest[end..])) == tokens + [rest[..end]] + Tokens(rest[end..]);
        tokens := tokens + [rest[..end]];
        i := i + end;
      }
    }
  }

  /** A value behind every token, as long as there are values. */
  function Interleave(tokens: seq<string>, values: seq<string>): string {
    if tokens == [] then ""
    else if values == [] then tokens[0] + Interleave(tokens[1..], [])
    else tokens[0] + values[0] + Interleave(tokens[1..], values[1..])
  }

  lemma {:induction false} InterleaveLength(tokens: seq<string>, values: seq<string>)
    ensures |Interleave(tokens, values)| <= TotalLength(tokens) + TotalLength(values)
  {
    if tokens != [] {
      InterleaveLength(tokens[1..], if values == [] then [] else values[1..]);
    }
  }

  lemma {:induction false} TokensLength(t: string)
    ensures TotalLength(Tokens(t)) + Placeholders(t) == |t|
    decreases |t|
  {
    if t != "" {
      if t[0] == MARK {
        TokensLength(t[1..]);
      } else {
        var end := TokenEnd(t, 0);
        TokensLength(t[end..]);
        NoPlaceholders(t, end);
        assert Tokens(t)[1..] == Tokens(t[end..]);
      }
    }
  }

  lemma {:induction false} NoPlaceholders(t: string, end: nat)
    requires end <= |t| && forall k :: 0 <= k < end ==> t[k] != MARK
    ensures Placeholders(t) == Placeholders(t[end..])
  {
    if end == 0 {
      assert t[0..] == t;
    } else {
      NoPlaceholders(t[1..], end - 1);
      assert t[1..][end - 1..] == t[end..];
    }
  }

  /** A prefix has no more characters that are not placeholders. */
  lemma {:induction false} PrefixLength(t: string, n: nat)
    requires n <= |t|
    ensures n - Placeholders(t[..n]) <= |t| - Placeholders(t)
  {
    if n > 0 {
      PrefixLength(t[1..], n - 1);
      assert t[..n][1..] == t[1..][..n - 1];
    }
  }

  // ----- the buffer after placeholders -----

  /** What strlcpy leaves of the template in the destination. */
  function Kept(t: string, values: seq<string>): string {
    if |t| <= DstLength(t, values) then t else t[..DstLength(t, values)]
  }

  /** The text after the placeholders were replaced; nothing is replaced if nothing but
      placeholders is left of the template. */
  function Bound(t: string, values: seq<string>): string {
    if Tokens(Kept(t, values)) == [] then Kept(t, values) else Interleave(Tokens(Kept(t, values)), values)
  }

  lemma BoundFits(t: string, values: seq<string>)
    ensures |Bound(t, values)| <= DstLength(t, values)
  {
    var kept := Kept(t, values);
    TokensLength(kept);
    InterleaveLength(Tokens(kept), values);
    PrefixLength(t, |kept|);
    assert kept == t[..|kept|];
  }

  lemma {:induction false} TokensNulFree(t: string)
    requires NulFree(t)
    ensures AllNulFree(Tokens(t))
    decreases |t|
  {
    if t != "" {
      TokensNulFree(if t[0] == MARK then t[1..] else t[TokenEnd(t, 0)..]);
    }
  }

  lemma {:induction false} InterleaveNulFree(tokens: seq<string>, values: seq<string>)
    requires AllNulFree(tokens) && AllNulFree(values)
    ensures NulFree(Interleave(tokens, values))
  {
    if tokens != [] {
      InterleaveNulFree(tokens[1..], if values == [] then [] else values[1..]);
    }
  }

  // ----- the methods -----

  /** From `i` to the next placeholder, or to the end. */
  lemma NextPlaceholder(t: string, i: nat)
    requires i <= |t|
    ensures Strstr(t, [MARK], i).None? ==> Placeholders(t[i..]) == 0
    ensures Strstr(t, [MARK], i).Some? ==>
              Placeholders(t[i..]) == 1 + Placeholders(t[Strstr(t, [MARK], i).value + 1..])
  {
    hide Strstr;
    var next := Strstr(t, [MARK], i);
    var at := if next.Some? then next.value else |t|;
    forall k | 0 <= k < at - i
      ensures t[i..][k] != MARK
    {
      assert !OccursAt(t, [MARK], i + k);
      assert t[i + k..i + k + 1] == [t[i + k]];
    }
    NoPlaceholders(t[i..], at - i);
    assert t[i..][at - i..] == t[at..];
    if next.Some? {
      assert t[at..at + 1] == [t[at]] && t[at..][1..] == t[at + 1..];
    }
  }

  /** The strstr loop that takes the placeholders off the length and counts them. */
  method CountPlaceholders(t: string) returns (n: nat)
    ensures n == Placeholders(t)
  {
    hide Strstr, Placeholders, OccursAt;
    n := 0;
    var i := 0;
    assert t[0..] == t;
    while true
      invariant 0 <= i <= |t|
      invariant n + Placeholders(t[i..]) == Placeholders(t)
      decreases |t| - i
    {
      NextPlaceholder(t, i);
      var next := Strstr(t, [MARK], i);
      if next.None? {
        return;
      }
      FoundInside(t, i);
      n := n + 1;
      i := next.value + 1;
    }
  }

  lemma FoundInside(t: string, i: nat)
    ensures Strstr(t, [MARK], i).Some? ==> Strstr(t, [MARK], i).value < |t|
  {
  }

  /** memcpy into the unused, still zero part of a buffer. */
  method Append(buffer: array<char>, at: nat, s: string)
    requires at + |s| < buffer.Length && forall k :: at <= k < buffer.Length ==> buffer[k] == NUL
    modifies buffer
    ensures buffer[..at + |s|] == old(buffer[..at]) + s
    ensures forall k :: at + |s| <= k < buffer.Length ==> buffer[k] == NUL
  {
    Memcpy(buffer, at, s);
    assert forall k :: at + |s| <= k < buffer.Length ==> buffer[k] == buffer[at + |s|..][k - at - |s|];
  }

  function Tail(values: seq<string>): seq<string> {
    if values == [] then [] else values[1..]
  }

  function First(values: seq<string>): string {
    if values == [] then "" else values[0]
  }

  lemma InterleaveStep(done: string, tokens: seq<string>, values: seq<string>)
    requires tokens != []
    ensures done + Interleave(tokens, values)
         == done + tokens[0] + First(values) + Interleave(tokens[1..], Tail(values))
  {
    assert tokens[0] + "" == tokens[0];
    assert done + (tokens[0] + First(values) + Interleave(tokens[1..], Tail(values)))
        == done + tokens[0] + First(values) + Interleave(tokens[1..], Tail(values));
  }

  lemma InterleaveNothing(done: string, values: seq<string>)
    ensures done + Interleave([], values) == done
  {
    assert done + "" == done;
  }

  /** The loop of _DB_QUERY_replace_params: tokens and values into a buffer of the computed
      length, whose end is never passed. */
  method Concatenate(tokens: seq<string>, values: seq<string>, dstLen: nat) returns (buffer: array<char>, length: nat)
    requires |Interleave(tokens, values)| <= dstLen
    ensures fresh(buffer) && buffer.Length == dstLen + 1 && length == |Interleave(tokens, values)|
    ensures buffer[..length] == Interleave(tokens, values)
    ensures forall k :: length <= k < buffer.Length ==> buffer[k] == NUL
  {
    hide Interleave;
    buffer := new char[dstLen + 1](_ => NUL);
    length := 0;
    ghost var done, rest, restValues := "", tokens, values;
    assert done + Interleave(tokens, values) == Interleave(tokens, values);
    var i := 0;
    while i < |tokens|
      invariant 0 <= i <= |tokens| && length == |done| <= dstLen && buffer[..length] == done
      invariant rest == tokens[i..] && restValues == if i < |values| then values[i..] else []
      invariant done + Interleave(rest, restValues) == Interleave(tokens, values)
      invariant forall k :: length <= k < buffer.Length ==> buffer[k] == NUL
    {
      InterleaveStep(done, rest, restValues);
      Append(buffer, length, tokens[i]);
      length := length + |tokens[i]|;
      if i < |values| {
        Append(buffer, length, values[i]);
        length := length + |values[i]|;
      }
      done := done + tokens[i] + First(restValues);
      rest, restValues := rest[1..], Tail(restValues);
      i := i + 1;
    }
    InterleaveNothing(done, restValues);
    buffer[length] := NUL;
  }

  /** _DB_QUERY_replace_params on a zeroed destination that holds the kept template. */
  method ReplaceParams(dst: array<char>, values: seq<string>, dstLen: nat, ghost text: string)
    requires dst.Length == dstLen + 1 && Holds(dst, text) && dst[dstLen] == NUL && AllNulFree(values)
    requires |Interleave(Tokens(text), values)| <= dstLen
    modifies dst
    ensures Holds(dst, if Tokens(text) == [] then text else Interleave(Tokens(text), values))
  {
    var tmpSrc := ReadString(dst, text);
    var tokens := Split(tmpSrc);
    if |tokens| > 0 {
      TokensNulFree(text);
      InterleaveNulFree(tokens, values);
      var buffer, length := Concatenate(tokens, values, dstLen);
      Memcpy(dst, 0, buffer[..dstLen]);
      assert forall k :: 0 <= k < dstLen ==> dst[k] == dst[..dstLen][k] == buffer[k];
      assert dst[dstLen] == dst[dstLen..][0] == NUL;
      assert dst[..length] == buffer[..length];
    }
  }

  // ----- the NULL passes -----

  lemma AtOccurrence(t: string, search: string, replace: string)
    requires search != "" && OccursAt(t, search, 0)
    ensures ReplaceAll(t, search, replace) == replace + ReplaceAll(t[|search|..], search, replace)
    ensures Replacements(t, search) == 1 + Replacements(t[|search|..], search)
  {
  }

  /** The text up to and past its first occurrence. */
  lemma FirstReplacement(text: string, p: nat, search: string, replace: string, q: nat)
    requires search != "" && p <= |text| && Strstr(text, search, p) == Some(q)
    ensures q + |search| <= |text|
    ensures ReplaceAll(text[p..], search, replace)
         == text[p..q] + (replace + ReplaceAll(text[q + |search|..], search, replace))
    ensures Replacements(text[p..], search) == 1 + Replacements(text[q + |search|..], search)
  {
    hide ReplaceAll, Replacements, Strstr;
    forall k | 0 <= k < q - p
      ensures !OccursAt(text[p..], search, k)
    {
      OccursLater(text, search, p, k);
    }
    SkipTo(text[p..], search, replace, q - p);
    assert text[p..][q - p..] == text[q..] && text[p..][..q - p] == text[p..q];
    OccursLater(text, search, q, 0);
    AtOccurrence(text[q..], search, replace);
    assert text[q..][|search|..] == text[q + |search|..];
  }

  lemma NextText(text: string, p: nat, q: nat, k: nat, replace: string)
    requires p <= q && q + k <= |text| && replace != ""
    ensures
      var next := text[..q] + replace + text[q + k..];
      && next[q + 1..] == replace[1..] + text[q + k..]
      && next[..q + 1] == text[..p] + text[p..q] + [replace[0]]
  {
  }

  /** One replacement in the text of DB_QUERY_internal_replace_str_: what the loop keeps.
      The search goes on one character behind the start of the replacement. */
  lemma ReplaceStep(text: string, p: nat, search: string, replace: string, q: nat, next: string)
    requires search != "" && replace != "" && search[0] !in replace && p <= |text|
    requires Strstr(text, search, p) == Some(q) && q + |search| <= |text|
    requires next == text[..q] + replace + text[q + |search|..]
    ensures text[..p] + ReplaceAll(text[p..], search, replace)
         == next[..q + 1] + ReplaceAll(next[q + 1..], search, replace)
    ensures Replacements(text[p..], search) == 1 + Replacements(next[q + 1..], search)
  {
    hide ReplaceAll, Replacements, Strstr, OccursAt;
    var rest := text[q + |search|..];
    FirstReplacement(text, p, search, replace, q);
    SkipOther(replace[1..], rest, search, replace);
    NextText(text, p, q, |search|, replace);
    AssocReplace(text[..p], text[p..q], replace, ReplaceAll(rest, search, replace));
  }

  lemma AssocReplace(a: string, b: string, replace: string, rest: string)
    requires replace != ""
    ensures a + (b + (replace + rest)) == (a + b + [replace[0]]) + (replace[1..] + rest)
  {
  }

  /** DB_QUERY_internal_replace_str_: in place, through a temporary buffer. */
  method ReplaceInPlace(src: array<char>, search: string, replace: string, dstLen: nat, ghost text: string)
    returns (occurrences: nat)
    requires Holds(src, text) && |text| <= dstLen
    requires NulFree(search) && NulFree(replace) && 0 < |replace| <= |search| && search[0] !in replace
    modifies src
    ensures Holds(src, ReplaceAll(text, search, replace))
    ensures occurrences == Replacements(text, search)
  {
    hide ReplaceAll, Replacements;
    var buffer := new char[dstLen + 1](_ => NUL);
    var p: nat := 0;
    occurrences := 0;
    ghost var current := text;
    assert text[0..] == text && text[..0] + ReplaceAll(text, search, replace) == ReplaceAll(text, search, replace);
    while true
      invariant Holds(src, current) && p <= |current| <= dstLen
      invariant current[..p] + ReplaceAll(current[p..], search, replace) == ReplaceAll(text, search, replace)
      invariant occurrences + Replacements(current[p..], search) == Replacements(text, search)
      decreases |current| - p
    {
      var here := ReadString(src, current);
      var next := Strstr(here, search, p);
      if next.None? {
        NothingLeft(current, p, search, replace);
        return;
      }
      ghost var changed := current[..next.value] + replace + current[next.value + |search|..];
      ReplaceStep(current, p, search, replace, next.value, changed);
      ReplaceOne(src, buffer, here, next.value, search, replace);
      current := changed;
      p := next.value + 1;
      occurrences := occurrences + 1;
    }
  }

  lemma NothingLeft(s: string, p: nat, search: string, replace: string)
    requires search != "" && p <= |s| && Strstr(s, search, p) == None
    ensures s[..p] + ReplaceAll(s[p..], search, replace) == s && Replacements(s[p..], search) == 0
  {
    forall k | 0 <= k < |s[p..]|
      ensures !OccursAt(s[p..], search, k)
    {
      OccursLater(s, search, p, k);
    }
    SkipTo(s[p..], search, replace, |s[p..]|);
    assert s[p..][|s[p..]|..] == "" && s[..p] + s[p..] == s;
  }

  /** The body of the loop: the text before, the replacement and the text behind are put
      together in the buffer and copied back. With nothing before, strlcpy leaves the buffer
      alone, and its first character is cleared. */
  method ReplaceOne(src: array<char>, buffer: array<char>, text: string, p: nat, search: string, replace: string)
    requires src != buffer && Holds(src, text) && |text| < buffer.Length
    requires OccursAt(text, search, p) && NulFree(replace) && |replace| <= |search|
    modifies src, buffer
    ensures Holds(src, text[..p] + replace + text[p + |search|..])
  {
    var r := Strlcpy(buffer, text, p);
    buffer[p] := NUL;
    assert buffer[..p] == text[..p];
    NulFreeSlice(text, 0, p);
    NulFreeSlice(text, p + |search|, |text|);
    Strcat(buffer, text[..p], replace);
    Strcat(buffer, text[..p] + replace, text[p + |search|..]);
    var result := ReadString(buffer, text[..p] + replace + text[p + |search|..]);
    Strcpy(src, result);
  }

  // ----- formatting -----

  datatype Result =
    | Failed                                // too few values
    | Unchanged                             // no placeholder: the template itself is run
    | Formatted(text: string, length: int)  // the statement, and its reported length

  function ReportedLength(t: string, values: seq<string>): int {
    var bound := Bound(t, values);
    DstLength(t, values)
    - Replacements(bound, QUOTED_MARKER) * 7
    - Replacements(ReplaceAll(bound, QUOTED_MARKER, SQL_NULL), MARKER) * 5
  }

  /** What DB_QUERY_format computes, for any template and values. */
  function Format(t: string, values: seq<string>): Result {
    if !Contains(t, [MARK]) then Unchanged
    else if Placeholders(t) > |values| then Failed
    else Formatted(NullPasses(Bound(t, values)), ReportedLength(t, values))
  }

  /** The sum of the parameter lengths, added to the length of the template. */
  method AddLengths(src: string, values: seq<string>) returns (dstLen: nat)
    ensures dstLen == |src| + TotalLength(values)
  {
    dstLen := |src|;
    var i := 0;
    assert values[0..] == values;
    while i < |values|
      invariant 0 <= i <= |values|
      invariant dstLen + TotalLength(values[i..]) == |src| + TotalLength(values)
    {
      assert values[i..][1..] == values[i + 1..];
      dstLen := dstLen + |values[i]|;
      i := i + 1;
    }
  }

  /** Both NULL passes, and the length bookkeeping after each. */
  method ReplaceMarkers(dst: array<char>, dstLen: nat, ghost bound: string) returns (text: string, length: nat)
    requires Holds(dst, bound) && |bound| <= dstLen
    modifies dst
    ensures text == NullPasses(bound)
    ensures length == dstLen - Replacements(bound, QUOTED_MARKER) * 7
                      - Replacements(ReplaceAll(bound, QUOTED_MARKER, SQL_NULL), MARKER) * 5
  {
    hide ReplaceAll, Replacements;
    ghost var middle := ReplaceAll(bound, QUOTED_MARKER, SQL_NULL);
    ReplacedLength(bound, QUOTED_MARKER, SQL_NULL, 7);
    ReplacedLength(middle, MARKER, SQL_NULL, 5);
    var nulls := ReplaceInPlace(dst, QUOTED_MARKER, SQL_NULL, dstLen, bound);
    length := dstLen - nulls * 7;
    nulls := ReplaceInPlace(dst, MARKER, SQL_NULL, length, middle);
    length := length - nulls * 5;
    text := ReadString(dst, ReplaceAll(middle, MARKER, SQL_NULL));
  }

  /** DB_QUERY_format; a result of TRUE without a statement is `Unchanged`. */
  method DbQueryFormat(src: string, values: seq<string>) returns (r: Result)
    requires NulFree(src) && AllNulFree(values)
    ensures r == Format(src, values)
  {
    hide Tokens, Interleave, ReplaceAll, Replacements;
    if !Contains(src, [MARK]) {
      return Unchanged;
    }
    var dstLen := AddLengths(src, values);
    var count := CountPlaceholders(src);
    dstLen := dstLen - count;
    if count > |values| {
      return Failed;
    }
    var dst := new char[dstLen + 1](_ => NUL);
    var copied := Strlcpy(dst, src, dstLen);
    KeptFits(src, values);
    BoundFits(src, values);
    ReplaceParams(dst, values, dstLen, Kept(src, values));
    var text, length := ReplaceMarkers(dst, dstLen, Bound(src, values));
    r := Formatted(text, length);
  }

  lemma KeptFits(t: string, values: seq<string>)
    ensures |Interleave(Tokens(Kept(t, values)), values)| <= DstLength(t, values)
    ensures |Kept(t, values)| <= DstLength(t, values)
  {
    BoundFits(t, values);
  }

  // ----- what formatting means -----

  /** The templates strtok splits at every placeholder: none at the start, no two adjacent. */
  ghost predicate GoodTemplate(t: string) {
    && t != "" && t[0] != MARK
    && forall i :: 0 <= i < |t| - 1 ==> t[i] != MARK || t[i + 1] != MARK
  }

  lemma {:induction false} SubstituteHead(t: string, end: nat, values: seq<string>)
    requires end <= |t| && forall k :: 0 <= k < end ==> t[k] != MARK
    ensures Substitute(t, values) == t[..end] + Substitute(t[end..], values)
  {
    if end == 0 {
      assert t[0..] == t && t[..0] + Substitute(t, values) == Substitute(t, values);
    } else {
      SubstituteHead(t[1..], end - 1, values);
      assert t[1..][end - 1..] == t[end..];
      assert [t[0]] + (t[1..][..end - 1] + Substitute(t[end..], values)) == t[..end] + Substitute(t[end..], values);
    }
  }

  /** Interleaving the tokens of a good template is substituting into it. */
  lemma {:induction false} InterleaveSubstitutes(t: string, values: seq<string>)
    requires GoodTemplate(t) || t == ""
    requires |values| == Placeholders(t)
    ensures Interleave(Tokens(t), values) == Substitute(t, values)
    decreases |t|
  {
    if t != "" {
      var end := TokenEnd(t, 0);
      NoPlaceholders(t, end);
      SubstituteHead(t, end, values);
      if end == |t| {
        assert t[end..] == "" && t[..end] == t;
        assert Tokens(t)[1..] == [];
        assert Interleave(Tokens(t), values) == t + "";
      } else {
        LastOrGood(t, end);
        assert t[end..][1..] == t[end + 1..];
        InterleaveSubstitutes(t[end + 1..], values[1..]);
        assert Tokens(t[end..]) == Tokens(t[end + 1..]);
        TokenThenRest(t, end, values);
      }
    }
  }

  lemma LastOrGood(t: string, end: nat)
    requires GoodTemplate(t) && end < |t| && t[end] == MARK
    ensures t[end + 1..] == "" || GoodTemplate(t[end + 1..])
  {
    var rest := t[end + 1..];
    if rest != "" {
      assert rest[0] == t[end + 1];
      forall i | 0 <= i < |rest| - 1
        ensures rest[i] != MARK || rest[i + 1] != MARK
      {
        assert rest[i] == t[end + 1 + i] && rest[i + 1] == t[end + 1 + i + 1];
      }
    }
  }

  lemma TokenThenRest(t: string, end: nat, values: seq<string>)
    requires t != "" && t[0] != MARK && end == TokenEnd(t, 0) < |t| && values != []
    requires Tokens(t[end..]) == Tokens(t[end + 1..])
    ensures Interleave(Tokens(t), values) == t[..end] + (values[0] + Interleave(Tokens(t[end + 1..]), values[1..]))
  {
    var rest := Tokens(t[end + 1..]);
    assert Tokens(t) == [t[..end]] + rest;
    assert Tokens(t)[1..] == rest;
    assert t[..end] + values[0] + Interleave(rest, values[1..])
        == t[..end] + (values[0] + Interleave(rest, values[1..]));
  }

  lemma {:induction false} SubstitutedLength(t: string, values: seq<string>)
    requires |values| == Placeholders(t)
    ensures |Substitute(t, values)| == DstLength(t, values)
  {
    if t != "" {
      SubstitutedLength(t[1..], if t[0] == MARK then values[1..] else values);
    }
  }

  lemma {:induction false} TrailingMark(t: string)
    ensures Tokens(t + [MARK]) == Tokens(t)
    decreases |t|
  {
    if t == "" {
      assert ([MARK])[1..] == "";
      assert t + [MARK] == [MARK];
    } else if t[0] == MARK {
      assert (t + [MARK])[1..] == t[1..] + [MARK];
      TrailingMark(t[1..]);
    } else {
      var end := TokenEnd(t, 0);
      TokenEndOfLonger(t, 0);
      assert (t + [MARK])[..end] == t[..end] && (t + [MARK])[end..] == t[end..] + [MARK];
      TrailingMark(t[end..]);
    }
  }

  lemma {:induction false} TokenEndOfLonger(t: string, i: nat)
    requires i <= |t|
    ensures TokenEnd(t + [MARK], i) == TokenEnd(t, i)
    decreases |t| - i
  {
    if i < |t| {
      TokenEndOfLonger(t, i + 1);
    }
  }

  /** The guard under which no part of the template is lost: the values are together at least
      as long as the placeholders, or only a trailing placeholder does not fit. */
  ghost predicate Room(t: string, values: seq<string>) {
    || TotalLength(values) >= Placeholders(t)
    || (TotalLength(values) + 1 == Placeholders(t) && t[|t| - 1] == MARK)
  }

  lemma {:induction false} DropLength(t: string, n: nat)
    requires n <= |t|
    ensures Placeholders(t) == Placeholders(t[..n]) + Placeholders(t[n..])
  {
    if n == 0 {
      assert t[0..] == t;
    } else {
      DropLength(t[1..], n - 1);
      assert t[..n][1..] == t[1..][..n - 1] && t[1..][n - 1..] == t[n..];
    }
  }

  lemma {:induction false} AllMarks(t: string)
    ensures Placeholders(t) == |t| <==> forall i :: 0 <= i < |t| ==> t[i] == MARK
  {
    if t != "" {
      AllMarks(t[1..]);
      forall i | 0 <= i < |t[1..]|
        ensures t[1..][i] == t[i + 1]
      {
      }
      forall i | 1 <= i < |t|
        ensures t[i] == t[1..][i - 1]
      {
      }
    }
  }

  /** Nothing but placeholders at the end of a good template is one placeholder. */
  lemma OneMark(t: string, n: nat)
    requires GoodTemplate(t) && n < |t| && forall i :: 0 <= i < |t[n..]| ==> t[n..][i] == MARK
    ensures n == |t| - 1 && t[n] == MARK
  {
    assert n < |t| - 1 ==> t[n] != MARK || t[n + 1] != MARK;
    forall i | n <= i < |t|
      ensures t[i] == MARK
    {
      assert t[i] == t[n..][i - n];
    }
  }

  lemma RoomNeeded(t: string, values: seq<string>)
    requires GoodTemplate(t) && |values| == Placeholders(t)
    requires Bound(t, values) == Substitute(t, values)
    ensures Room(t, values)
  {
    if TotalLength(values) < Placeholders(t) {
      var kept := Kept(t, values);
      SubstitutedLength(t, values);
      TokensLength(kept);
      InterleaveLength(Tokens(kept), values);
      DropLength(t, |kept|);
      AllMarks(t[|kept|..]);
      OneMark(t, |kept|);
    }
  }

  lemma RoomEnough(t: string, values: seq<string>)
    requires GoodTemplate(t) && |values| == Placeholders(t) && Room(t, values)
    ensures Bound(t, values) == Substitute(t, values)
  {
    var kept := Kept(t, values);
    InterleaveSubstitutes(t, values);
    if TotalLength(values) < Placeholders(t) {
      assert t == kept + [MARK];
      assert kept[0] == t[0];
      TrailingMark(kept);
    }
    assert Tokens(kept) != [];
  }

  /** With a value for each placeholder of a good template, the buffer holds the simultaneous
      substitution exactly when there is room, and then it is exactly filled. */
  lemma BoundSubstitutes(t: string, values: seq<string>)
    requires GoodTemplate(t) && |values| == Placeholders(t)
    ensures Bound(t, values) == Substitute(t, values) <==> Room(t, values)
    ensures Room(t, values) ==> |Bound(t, values)| == DstLength(t, values)
  {
    if Bound(t, values) == Substitute(t, values) {
      RoomNeeded(t, values);
    }
    if Room(t, values) {
      RoomEnough(t, values);
      SubstitutedLength(t, values);
    }
  }

  /** The reported length is the true one exactly when the buffer was filled. */
  lemma LengthIsTrue(t: string, values: seq<string>)
    ensures ReportedLength(t, values) == |NullPasses(Bound(t, values))| <==> |Bound(t, values)| == DstLength(t, values)
  {
    ReplacedLength(Bound(t, values), QUOTED_MARKER, SQL_NULL, 7);
    ReplacedLength(ReplaceAll(Bound(t, values), QUOTED_MARKER, SQL_NULL), MARKER, SQL_NULL, 5);
  }

  lemma {:induction false} HasPlaceholder(t: string)
    requires Placeholders(t) > 0
    ensures Contains(t, [MARK])
  {
    NextPlaceholder(t, 0);
    assert t[0..] == t;
  }

  /** Formatting a good template with a nonempty value for each placeholder is substituting
      all values at once and then replacing the NULL markers, and reports the true length. */
  lemma FormatSubstitutes(t: string, values: seq<string>)
    requires GoodTemplate(t) && 0 < |values| == Placeholders(t)
    requires forall i :: 0 <= i < |values| ==> values[i] != ""
    ensures
      var statement := NullPasses(Substitute(t, values));
      Format(t, values) == Formatted(statement, |statement|)
  {
    NonemptyLength(values);
    HasPlaceholder(t);
    BoundSubstitutes(t, values);
    LengthIsTrue(t, values);
  }

  lemma {:induction false} NonemptyLength(values: seq<string>)
    requires forall i :: 0 <= i < |values| ==> values[i] != ""
    ensures TotalLength(values) >= |values|
  {
    if values != [] {
      NonemptyLength(values[1..]);
    }
  }

  // ----- NULL values -----

  /** A part of a statement template: text, or a placeholder, in quotes or not, and the value
      for it, if it is not null. */
  datatype Piece = Fixed(text: string) | Hole(quoted: bool, value: Option<string>)

  function Quoted(quoted: bool, s: string): string {
    if quoted then "'" + s + "'" else s
  }

  /** The template as it is configured. */
  function Template(pieces: seq<Piece>): string {
    if pieces == [] then ""
    else
      match pieces[0]
      case Fixed(text) => text + Template(pieces[1..])
      case Hole(quoted, _) => Quoted(quoted, "?") + Template(pieces[1..])
  }

  /** The values as they are bound: a marker for null. */
  function Values(pieces: seq<Piece>): seq<string> {
    if pieces == [] then []
    else
      match pieces[0]
      case Fixed(_) => Values(pieces[1..])
      case Hole(_, value) => [if value.Some? then value.value else "dcpamNULL"] + Values(pieces[1..])
  }

  /** The statement that is meant: null without quotes, every other value as it is. */
  function Statement(pieces: seq<Piece>): string {
    if pieces == [] then ""
    else
      match pieces[0]
      case Fixed(text) => text + Statement(pieces[1..])
      case Hole(quoted, Some(v)) => Quoted(quoted, v) + Statement(pieces[1..])
      case Hole(_, None) => "NULL" + Statement(pieces[1..])
  }

  /** The statement with the markers, before and after the quoted ones were replaced. */
  function Marked(pieces: seq<Piece>, replaced: bool): string {
    if pieces == [] then ""
    else
      match pieces[0]
      case Fixed(text) => text + Marked(pieces[1..], replaced)
      case Hole(quoted, Some(v)) => Quoted(quoted, v) + Marked(pieces[1..], replaced)
      case Hole(quoted, None) =>
        (if quoted && replaced then "NULL" else Quoted(quoted, "dcpamNULL")) + Marked(pieces[1..], replaced)
  }

  /** No marker starts in a text that `rest` follows. */
  predicate NoMarkerIn(text: string, rest: string, marker: string) {
    forall k :: 0 <= k < |text| ==> !OccursAt(text + rest, marker, k)
  }

  /** Texts and values bring in no marker, by themselves or where they are joined to others. */
  predicate Clean(pieces: seq<Piece>) {
    pieces != [] ==>
      && Clean(pieces[1..])
      && match pieces[0]
         case Fixed(text) => CleanText(text, pieces[1..])
         case Hole(quoted, Some(v)) => CleanText(Quoted(quoted, v), pieces[1..])
         case Hole(_, None) => true
  }

  predicate CleanText(text: string, rest: seq<Piece>) {
    NoMarkerIn(text, Marked(rest, false), "'dcpamNULL'") && NoMarkerIn(text, Marked(rest, true), "dcpamNULL")
  }

  lemma SkipClean(text: string, rest: string, marker: string, replace: string)
    requires marker != "" && NoMarkerIn(text, rest, marker)
    ensures ReplaceAll(text + rest, marker, replace) == text + ReplaceAll(rest, marker, replace)
  {
    SkipTo(text + rest, marker, replace, |text|);
    assert (text + rest)[..|text|] == text && (text + rest)[|text|..] == rest;
  }

  lemma ReplaceHead(marker: string, rest: string, replace: string)
    requires marker != ""
    ensures ReplaceAll(marker + rest, marker, replace) == replace + ReplaceAll(rest, marker, replace)
  {
    assert (marker + rest)[..|marker|] == marker && (marker + rest)[|marker|..] == rest;
  }

  /** No quoted marker starts in an unquoted one, and none in NULL. */
  lemma NothingInMarkers(rest: string)
    ensures NoMarkerIn("dcpamNULL", rest, "'dcpamNULL'") && NoMarkerIn("NULL", rest, "dcpamNULL")
  {
    forall k | 0 <= k < 9
      ensures !OccursAt("dcpamNULL" + rest, "'dcpamNULL'", k)
    {
      FirstChar("dcpamNULL" + rest, "'dcpamNULL'", k);
    }
    forall k | 0 <= k < 4
      ensures !OccursAt("NULL" + rest, "dcpamNULL", k)
    {
      FirstChar("NULL" + rest, "dcpamNULL", k);
    }
  }

  lemma FirstChar(s: string, sub: string, k: nat)
    requires sub != ""
    ensures OccursAt(s, sub, k) ==> k < |s| && s[k] == sub[0]
  {
    if OccursAt(s, sub, k) {
      assert s[k..k + |sub|][0] == s[k];
    }
  }

  lemma {:induction false} FirstPass(pieces: seq<Piece>)
    requires Clean(pieces)
    ensures ReplaceAll(Marked(pieces, false), "'dcpamNULL'", "NULL") == Marked(pieces, true)
  {
    hide NoMarkerIn, ReplaceAll;
    if pieces == [] {
      NothingReplaced("'dcpamNULL'");
    } else {
      var rest := Marked(pieces[1..], false);
      FirstPass(pieces[1..]);
      match pieces[0]
      case Fixed(text) => SkipClean(text, rest, "'dcpamNULL'", "NULL");
      case Hole(quoted, Some(v)) => SkipClean(Quoted(quoted, v), rest, "'dcpamNULL'", "NULL");
      case Hole(quoted, None) =>
        if quoted {
          assert "'" + "dcpamNULL" + "'" == "'dcpamNULL'";
          ReplaceHead("'dcpamNULL'", rest, "NULL");
        } else {
          NothingInMarkers(rest);
          SkipClean("dcpamNULL", rest, "'dcpamNULL'", "NULL");
        }
    }
  }

  lemma NothingReplaced(marker: string)
    requires marker != ""
    ensures ReplaceAll("", marker, "NULL") == ""
  {
  }

  lemma {:induction false} SecondPass(pieces: seq<Piece>)
    requires Clean(pieces)
    ensures ReplaceAll(Marked(pieces, true), "dcpamNULL", "NULL") == Statement(pieces)
  {
    hide NoMarkerIn, ReplaceAll;
    if pieces == [] {
      NothingReplaced("dcpamNULL");
    } else {
      var rest := Marked(pieces[1..], true);
      SecondPass(pieces[1..]);
      match pieces[0]
      case Fixed(text) => SkipClean(text, rest, "dcpamNULL", "NULL");
      case Hole(quoted, Some(v)) => SkipClean(Quoted(quoted, v), rest, "dcpamNULL", "NULL");
      case Hole(quoted, None) =>
        NothingInMarkers(rest);
        if quoted {
          SkipClean("NULL", rest, "dcpamNULL", "NULL");
        } else {
          ReplaceHead("dcpamNULL", rest, "NULL");
        }
    }
  }

  predicate NoMarks(pieces: seq<Piece>) {
    forall i :: 0 <= i < |pieces| && pieces[i].Fixed? ==> '?' !in pieces[i].text
  }

  lemma {:induction false} SubstituteText(text: string, rest: string, values: seq<string>)
    requires '?' !in text
    ensures Substitute(text + rest, values) == text + Substitute(rest, values)
    ensures Placeholders(text + rest) == Placeholders(rest)
  {
    if text == "" {
      assert text + rest == rest;
    } else {
      assert (text + rest)[1..] == text[1..] + rest;
      SubstituteText(text[1..], rest, values);
      assert text == [text[0]] + text[1..];
    }
  }

  lemma SubstituteMark(rest: string, values: seq<string>)
    requires values != []
    ensures Substitute("?" + rest, values) == values[0] + Substitute(rest, values[1..])
    ensures Placeholders("?" + rest) == 1 + Placeholders(rest)
  {
    assert ("?" + rest)[1..] == rest;
  }

  /** Putting the bound values into the template gives the statement with its markers. */
  lemma {:induction false} TemplateFilled(pieces: seq<Piece>)
    requires NoMarks(pieces)
    ensures Substitute(Template(pieces), Values(pieces)) == Marked(pieces, false)
    ensures Placeholders(Template(pieces)) == |Values(pieces)|
  {
    hide Substitute, Placeholders;
    if pieces == [] {
      NothingToFill();
    } else {
      var rest, values := Template(pieces[1..]), Values(pieces[1..]);
      TemplateFilled(pieces[1..]);
      match pieces[0]
      case Fixed(text) => SubstituteText(text, rest, values);
      case Hole(quoted, value) =>
        var all := Values(pieces);
        assert all[1..] == values;
        if quoted {
          QuoteStep(all[0], rest, all);
        } else {
          SubstituteMark(rest, all);
        }
    }
  }

  lemma NothingToFill()
    ensures Substitute("", []) == "" && Placeholders("") == 0
  {
  }

  lemma QuoteStep(v: string, rest: string, values: seq<string>)
    requires values != [] && values[0] == v
    ensures Substitute(("'" + "?" + "'") + rest, values) == ("'" + v + "'") + Substitute(rest, values[1..])
    ensures Placeholders(("'" + "?" + "'") + rest) == 1 + Placeholders(rest)
  {
    hide Substitute, Placeholders;
    assert ("'" + "?" + "'") + rest == "'" + ("?" + ("'" + rest));
    SubstituteText("'", "?" + ("'" + rest), values);
    SubstituteMark("'" + rest, values);
    SubstituteText("'", rest, values[1..]);
    assert "'" + (v + ("'" + Substitute(rest, values[1..]))) == ("'" + v + "'") + Substitute(rest, values[1..]);
  }

  /** Null values stand in the formatted statement as an unquoted NULL, and every other value as
      itself, unless texts and values bring in markers of their own. */
  lemma FormatsNulls(pieces: seq<Piece>)
    requires NoMarks(pieces) && GoodTemplate(Template(pieces)) && Values(pieces) != [] && Clean(pieces)
    requires forall i :: 0 <= i < |Values(pieces)| ==> Values(pieces)[i] != ""
    ensures Format(Template(pieces), Values(pieces)) == Formatted(Statement(pieces), |Statement(pieces)|)
  {
    hide ReplaceAll, Substitute, Format, GoodTemplate, Clean, NoMarks;
    TemplateFilled(pieces);
    FirstPass(pieces);
    SecondPass(pieces);
    FormatSubstitutes(Template(pieces), Values(pieces));
  }

  lemma NoneStarts(text: string, rest: string, marker: string)
    requires marker != "" && marker[0] !in text
    ensures NoMarkerIn(text, rest, marker)
  {
    forall k | 0 <= k < |text|
      ensures !OccursAt(text + rest, marker, k)
    {
      FirstChar(text + rest, marker, k);
    }
  }

  lemma LastText(b: string)
    requires 'd' !in b && '\'' !in b
    ensures Template([Fixed(b)]) == Statement([Fixed(b)]) == b && Values([Fixed(b)]) == [] && Clean([Fixed(b)])
  {
    hide NoMarkerIn;
    assert [Fixed(b)][1..] == [] && b + "" == b;
    assert Values([]) == [] && Clean([]) && Marked([], false) == "" && Marked([], true) == "";
    NoneStarts(b, "", "'dcpamNULL'");
    NoneStarts(b, "", "dcpamNULL");
  }

  lemma HoleThenText(quoted: bool, b: string)
    requires 'd' !in b && '\'' !in b
    ensures
      var pieces := [Hole(quoted, None), Fixed(b)];
      && Template(pieces) == Quoted(quoted, "?") + b && Statement(pieces) == "NULL" + b
      && Values(pieces) == ["dcpamNULL"] && Clean(pieces)
  {
    LastText(b);
    assert [Hole(quoted, None), Fixed(b)][1..] == [Fixed(b)];
  }

  /** One null value, in quotes or not. */
  lemma NullStands(a: string, quoted: bool, b: string)
    requires a != "" && '?' !in a && '?' !in b && 'd' !in a && 'd' !in b && '\'' !in a && '\'' !in b
    ensures
      var statement := a + ("NULL" + b);
      Format(a + ((if quoted then "'?'" else "?") + b), ["dcpamNULL"]) == Formatted(statement, |statement|)
  {
    hide Format, Substitute, ReplaceAll, NoMarkerIn;
    var pieces := [Fixed(a), Hole(quoted, None), Fixed(b)];
    assert pieces[1..] == [Hole(quoted, None), Fixed(b)];
    NoneStarts(a, Marked(pieces[1..], false), "'dcpamNULL'");
    NoneStarts(a, Marked(pieces[1..], true), "dcpamNULL");
    HoleThenText(quoted, b);
    assert Quoted(quoted, "?") == if quoted then "'?'" else "?";
    OneHole(a, quoted, b);
    FormatsNulls(pieces);
  }

  lemma OneHole(a: string, quoted: bool, b: string)
    requires a != "" && '?' !in a && '?' !in b
    ensures GoodTemplate(a + (Quoted(quoted, "?") + b))
  {
    var t := a + (Quoted(quoted, "?") + b);
    var at := |a| + if quoted then 1 else 0;
    forall i | 0 <= i < |t| && i != at
      ensures t[i] != '?'
    {
      assert i < |a| ==> t[i] == a[i];
      assert i >= |a| + |Quoted(quoted, "?")| ==> t[i] == b[i - |a| - |Quoted(quoted, "?")|];
    }
  }

  // ----- placeholders that strtok merges -----

  /** Text of a template and the placeholders before it. */
  datatype Run = Run(marks: nat, text: string)

  function Marks(n: nat): string {
    seq(n, _ => '?')
  }

  /** A template with `last` placeholders at its end. */
  function RunsText(runs: seq<Run>, last: nat): string {
    if runs == [] then Marks(last) else Marks(runs[0].marks) + (runs[0].text + RunsText(runs[1..], last))
  }

  predicate OkRuns(runs: seq<Run>) {
    runs != [] ==>
      && runs[0].text != "" && '?' !in runs[0].text && OkRuns(runs[1..])
      && (|runs| > 1 ==> runs[1].marks > 0)
  }

  function Texts(runs: seq<Run>): seq<string> {
    if runs == [] then [] else [runs[0].text] + Texts(runs[1..])
  }

  function MarksIn(runs: seq<Run>): nat {
    if runs == [] then 0 else runs[0].marks + MarksIn(runs[1..])
  }

  /** The values one by one behind the texts. */
  function Behind(runs: seq<Run>, values: seq<string>): string {
    if runs == [] then ""
    else runs[0].text + ((if values == [] then "" else values[0])
                         + Behind(runs[1..], if values == [] then [] else values[1..]))
  }

  lemma {:induction false} MarksSkipped(n: nat, rest: string)
    ensures Tokens(Marks(n) + rest) == Tokens(rest) && Placeholders(Marks(n) + rest) == n + Placeholders(rest)
  {
    if n == 0 {
      assert Marks(0) + rest == rest;
    } else {
      assert (Marks(n) + rest)[1..] == Marks(n - 1) + rest;
      MarksSkipped(n - 1, rest);
    }
  }

  lemma TextEnds(text: string, rest: string)
    requires '?' !in text && (rest != "" ==> rest[0] == '?')
    ensures TokenEnd(text + rest, 0) == |text|
  {
    var t := text + rest;
    forall k | 0 <= k < |text|
      ensures t[k] != '?'
    {
      assert t[k] == text[k];
    }
    assert rest != "" ==> t[|text|] == rest[0];
  }

  lemma TextIsToken(text: string, rest: string)
    requires text != "" && '?' !in text && (rest != "" ==> rest[0] == '?')
    ensures Tokens(text + rest) == [text] + Tokens(rest)
  {
    hide TokenEnd;
    TextEnds(text, rest);
    assert (text + rest)[0] == text[0];
    assert (text + rest)[..|text|] == text && (text + rest)[|text|..] == rest;
  }

  lemma {:induction false} TokensAreTexts(runs: seq<Run>, last: nat)
    requires OkRuns(runs)
    ensures Tokens(RunsText(runs, last)) == Texts(runs)
    ensures Placeholders(RunsText(runs, last)) == MarksIn(runs) + last
  {
    hide Tokens, Placeholders;
    if runs == [] {
      assert Marks(last) + "" == Marks(last);
      MarksSkipped(last, "");
      NoTokens();
    } else {
      var rest := RunsText(runs[1..], last);
      TokensAreTexts(runs[1..], last);
      MarksSkipped(runs[0].marks, runs[0].text + rest);
      TextIsToken(runs[0].text, rest);
      SubstituteText(runs[0].text, rest, []);
    }
  }

  lemma NoTokens()
    ensures Tokens("") == [] && Placeholders("") == 0
  {
  }

  lemma {:induction false} InterleaveIsBehind(runs: seq<Run>, values: seq<string>)
    ensures Interleave(Texts(runs), values) == Behind(runs, values)
  {
    if runs != [] {
      assert Texts(runs)[1..] == Texts(runs[1..]);
      InterleaveIsBehind(runs[1..], if values == [] then [] else values[1..]);
    }
  }

  /** However many placeholders stand before a text, each text gets one value behind it: a
      placeholder at the start moves all values behind the next text, and adjacent ones share
      a value. A template of placeholders only stays as it is. */
  lemma ValuesGoBehind(runs: seq<Run>, last: nat, values: seq<string>)
    requires OkRuns(runs) && 0 < MarksIn(runs) + last <= |values|
    requires forall i :: 0 <= i < |values| ==> values[i] != ""
    ensures
      var bound := if runs == [] then Marks(last) else Behind(runs, values);
      var r := Format(RunsText(runs, last), values);
      r.Formatted? && r.text == ReplaceAll(ReplaceAll(bound, "'dcpamNULL'", "NULL"), "dcpamNULL", "NULL")
  {
    hide Tokens, Placeholders, Interleave, TotalLength, ReplaceAll, Replacements, Contains;
    var t := RunsText(runs, last);
    TokensAreTexts(runs, last);
    InterleaveIsBehind(runs, values);
    NonemptyLength(values);
    HasPlaceholder(t);
    assert Kept(t, values) == t;
  }

  lemma NothingMarked(s: string)
    requires 'd' !in s && '\'' !in s
    ensures ReplaceAll(ReplaceAll(s, "'dcpamNULL'", "NULL"), "dcpamNULL", "NULL") == s
  {
    hide ReplaceAll, Clean;
    LastText(s);
    assert [Fixed(s)][1..] == [] && s + "" == s;
    FirstPass([Fixed(s)]);
    SecondPass([Fixed(s)]);
  }

  /** The value of a placeholder at the start ends up behind the text. */
  lemma LeadingMark(a: string, v: string)
    requires a != "" && v != "" && '?' !in a && 'd' !in a + v && '\'' !in a + v
    ensures Format("?" + a, [v]).Formatted? && Format("?" + a, [v]).text == a + v
  {
    hide Format, ReplaceAll;
    var runs := [Run(1, a)];
    assert runs[1..] == [] && Marks(1) == "?" && Marks(0) == "" && a + "" == a;
    assert MarksIn([]) == 0 && RunsText([], 0) == "" && OkRuns([]);
    assert [v][1..] == [] && Behind([], []) == "" && v + "" == v;
    assert Behind(runs, [v]) == a + v;
    NothingMarked(a + v);
    ValuesGoBehind(runs, 0, [v]);
  }

  /** With empty values the end of the template can be lost. */
  lemma EmptyValuesLoseText()
    ensures GoodTemplate("a?b?c") && Bound("a?b?c", ["", ""]) == "ab" != Substitute("a?b?c", ["", ""])
  {
    var t := "a?b?c";
    assert Placeholders(t) == 2 by {
      assert t[1..] == "?b?c" && t[1..][1..] == "b?c" && t[1..][1..][1..] == "?c" && t[1..][1..][1..][1..] == "c";
    }
    var k := "a?b";
    assert Kept(t, ["", ""]) == k;
    assert TokenEnd(k, 1) == 1 && TokenEnd(k, 0) == 1 && k[1..] == "?b" && k[1..][1..] == "b";
    assert TokenEnd("b", 1) == 1 && TokenEnd("b", 0) == 1 && "b"[..1] == "b" && "b"[1..] == "";
    assert Tokens("b") == ["b"];
    assert Tokens("?b") == ["b"];
    assert k[..1] == "a";
    assert Tokens(k) == ["a"] + ["b"];
    InterleaveStep("", ["a", "b"], ["", ""]);
    InterleaveStep("", ["b"], [""]);
    assert ["a", "b"][1..] == ["b"] && ["", ""][1..] == [""] && ["b"][1..] == [];
    assert Interleave(["b"], [""]) == "b";
    assert Interleave(["a", "b"], ["", ""]) == "ab";
    SubstitutedLength(t, ["", ""]);
  }
}
