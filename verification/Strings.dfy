/** C strings as sequences of characters, and the library functions on them that the
    statement builder and the query cache use. */
module Strings {
  import opened Common

  const NUL: char := '\0'

  ghost predicate NulFree(s: string) {
    forall i :: 0 <= i < |s| ==> s[i] != NUL
  }

  // ----- strstr -----

  predicate OccursAt(s: string, sub: string, i: nat) {
    i + |sub| <= |s| && s[i..i + |sub|] == sub
  }

  /** The first occurrence of `sub` at `from` or after it. */
  function Strstr(s: string, sub: string, from: nat): (r: Option<nat>)
    ensures r.Some? ==> from <= r.value && OccursAt(s, sub, r.value)
    ensures r.Some? ==> forall k :: from <= k < r.value ==> !OccursAt(s, sub, k)
    ensures r.None? ==> forall k :: from <= k ==> !OccursAt(s, sub, k)
    decreases |s| + 1 - from
  {
    if from + |sub| > |s| then None
    else if OccursAt(s, sub, from) then Some(from)
    else Strstr(s, sub, from + 1)
  }

  predicate Contains(s: string, sub: string) {
    Strstr(s, sub, 0).Some?
  }

  // ----- strings in arrays -----

  /** The array holds the string `t` and its NUL. */
  ghost predicate Holds(a: array<char>, t: string)
    reads a
  {
    NulFree(t) && |t| < a.Length && a[..|t|] == t && a[|t|] == NUL
  }

  method ReadString(a: array<char>, ghost t: string) returns (s: string)
    requires Holds(a, t)
    ensures s == t
  {
    forall k | 0 <= k < |t|
      ensures a[k] != NUL
    {
      assert a[..|t|][k] == t[k];
    }
    var n := 0;
    while a[n] != NUL
      invariant 0 <= n <= |t|
      decreases |t| - n
    {
      n := n + 1;
    }
    s := a[..n];
  }

  /** memcpy of a string without its NUL. */
  method Memcpy(dst: array<char>, at: nat, s: string)
    requires at + |s| <= dst.Length
    modifies dst
    ensures dst[..at + |s|] == old(dst[..at]) + s
    ensures dst[at + |s|..] == old(dst[at + |s|..])
  {
    var i := 0;
    while i < |s|
      invariant 0 <= i <= |s|
      invariant dst[..at] == old(dst[..at])
      invariant dst[at..at + i] == s[..i]
      invariant dst[at + |s|..] == old(dst[at + |s|..])
    {
      dst[at + i] := s[i];
      i := i + 1;
    }
    assert dst[..at + |s|] == dst[..at] + dst[at..at + |s|];
  }

  /** The repository's own strlcpy: up to `size` characters and a NUL after them, so that it
      writes `size + 1` characters; for a size of 0 it writes nothing. */
  method Strlcpy(dst: array<char>, src: string, size: nat) returns (r: nat)
    requires NulFree(src)
    requires size > 0 ==> (if |src| < size then |src| else size) < dst.Length
    modifies dst
    ensures r == |src|
    ensures size == 0 ==> dst[..] == old(dst[..])
    ensures size > 0 ==> Holds(dst, if |src| < size then src else src[..size])
    ensures forall k :: (size < k || |src| < k) && k < dst.Length ==> 0 <= k ==> dst[k] == old(dst[k])
  {
    r := |src|;
    if size == 0 {
      return;
    }
    var n := 0;
    while n < size && n < |src|
      invariant 0 <= n <= size && n <= |src|
      invariant dst[..n] == src[..n]
      invariant forall k :: n <= k < dst.Length ==> dst[k] == old(dst[k])
    {
      dst[n] := src[n];
      n := n + 1;
    }
    dst[n] := NUL;
    assert dst[..n] == src[..n];
  }

  method Strcat(dst: array<char>, ghost t: string, s: string)
    requires Holds(dst, t) && NulFree(s) && |t| + |s| < dst.Length
    modifies dst
    ensures Holds(dst, t + s)
  {
    var here := ReadString(dst, t);
    Memcpy(dst, |here|, s);
    dst[|here| + |s|] := NUL;
    assert dst[..|t + s|] == t + s;
  }

  method Strcpy(dst: array<char>, s: string)
    requires NulFree(s) && |s| < dst.Length
    modifies dst
    ensures Holds(dst, s)
  {
    Memcpy(dst, 0, s);
    dst[|s|] := NUL;
    assert dst[..|s|] == s;
  }

  lemma NulFreeSlice(s: string, i: nat, j: nat)
    requires NulFree(s) && i <= j <= |s|
    ensures NulFree(s[i..j])
  {
  }

  // ----- replacing -----

  /** `s` with every occurrence of `search` replaced, from left to right. */
  function ReplaceAll(s: string, search: string, replace: string): string
    requires search != ""
    decreases |s|
  {
    if s == "" then ""
    else if OccursAt(s, search, 0) then replace + ReplaceAll(s[|search|..], search, replace)
    else [s[0]] + ReplaceAll(s[1..], search, replace)
  }

  function Replacements(s: string, search: string): nat
    requires search != ""
    decreases |s|
  {
    if s == "" then 0
    else if OccursAt(s, search, 0) then 1 + Replacements(s[|search|..], search)
    else Replacements(s[1..], search)
  }

  lemma OneMore(n: nat, d: int)
    ensures (1 + n) * d == d + n * d
  {
  }

  /** Every replacement takes the same number of characters off. */
  lemma {:induction false} ReplacedLength(s: string, search: string, replace: string, d: int)
    requires search != "" && d == |search| - |replace|
    ensures |ReplaceAll(s, search, replace)| == |s| - Replacements(s, search) * d
    decreases |s|
  {
    if s != "" {
      if OccursAt(s, search, 0) {
        var rest := s[|search|..];
        ReplacedLength(rest, search, replace, d);
        OneMore(Replacements(rest, search), d);
      } else {
        ReplacedLength(s[1..], search, replace, d);
      }
    }
  }

  lemma OccursLater(s: string, sub: string, k: nat, i: nat)
    requires k <= |s|
    ensures OccursAt(s[k..], sub, i) <==> OccursAt(s, sub, k + i)
  {
    if i + |sub| <= |s[k..]| {
      assert s[k..][i..i + |sub|] == s[k + i..k + i + |sub|];
    }
  }

  /** Up to the first occurrence nothing is replaced. */
  lemma {:induction false} SkipTo(s: string, search: string, replace: string, q: nat)
    requires search != "" && q <= |s| && forall k :: 0 <= k < q ==> !OccursAt(s, search, k)
    ensures ReplaceAll(s, search, replace) == s[..q] + ReplaceAll(s[q..], search, replace)
    ensures Replacements(s, search) == Replacements(s[q..], search)
    decreases q
  {
    if q == 0 {
      assert s[..0] + ReplaceAll(s[0..], search, replace) == ReplaceAll(s, search, replace) by {
        assert s[0..] == s;
      }
    } else {
      assert !OccursAt(s, search, 0);
      forall k | 0 <= k < q - 1
        ensures !OccursAt(s[1..], search, k)
      {
        OccursLater(s, search, 1, k);
      }
      SkipTo(s[1..], search, replace, q - 1);
      assert s[1..][q - 1..] == s[q..];
      assert [s[0]] + (s[1..][..q - 1] + ReplaceAll(s[q..], search, replace))
          == s[..q] + ReplaceAll(s[q..], search, replace);
    }
  }

  /** Characters that cannot start an occurrence are skipped. */
  lemma {:induction false} SkipOther(t: string, s: string, search: string, replace: string)
    requires search != "" && search[0] !in t
    ensures ReplaceAll(t + s, search, replace) == t + ReplaceAll(s, search, replace)
    ensures Replacements(t + s, search) == Replacements(s, search)
    decreases |t|
  {
    forall k | 0 <= k < |t|
      ensures !OccursAt(t + s, search, k)
    {
      if k + |search| <= |t + s| {
        assert (t + s)[k..k + |search|][0] == t[k];
      }
    }
    SkipTo(t + s, search, replace, |t|);
    assert (t + s)[|t|..] == s && (t + s)[..|t|] == t;
  }
}
