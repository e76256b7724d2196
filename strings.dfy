/** The Python string operations the validators use: `str.strip()`,
    `str.lower()`, the substring test `t in s` and `sep.join(parts)`. */
module Strings {
  /** The characters Python counts as white space, which `str.strip()`
      removes. */
  predicate Whitespace(c: char)
  {
    var n := c as int;
    (9 <= n <= 13) || (28 <= n <= 32) || n == 0x85 || n == 0xA0 || n == 0x1680 ||
    (0x2000 <= n <= 0x200A) || n == 0x2028 || n == 0x2029 || n == 0x202F || n == 0x205F || n == 0x3000
  }

  /** The first position at or after i that is not white space (|s| if
      there is none). */
  function SkipFrom(s: string, i: nat): (n: nat)
    requires i <= |s|
    ensures i <= n <= |s|
    ensures forall k :: i <= k < n ==> Whitespace(s[k])
    ensures n < |s| ==> !Whitespace(s[n])
    decreases |s| - i
  {
    if i < |s| && Whitespace(s[i]) then SkipFrom(s, i + 1) else i
  }

  /** The end of s[lo..j] once its trailing white space is dropped. */
  function SkipBack(s: string, lo: nat, j: nat): (n: nat)
    requires lo <= j <= |s|
    ensures lo <= n <= j
    ensures forall k :: n <= k < j ==> Whitespace(s[k])
    ensures n > lo ==> !Whitespace(s[n - 1])
    decreases j
  {
    if j > lo && Whitespace(s[j - 1]) then SkipBack(s, lo, j - 1) else j
  }

  /** `s.strip()`. */
  function Strip(s: string): string
  {
    var i := SkipFrom(s, 0);
    s[i..SkipBack(s, i, |s|)]
  }

  /** r is the slice of s from i on, with only white space around it in s
      and none at either end of it. */
  ghost predicate StripsTo(s: string, r: string, i: int)
  {
    0 <= i && i + |r| <= |s| && r == s[i..i + |r|] &&
    (forall k :: 0 <= k < i ==> Whitespace(s[k])) &&
    (forall k :: i + |r| <= k < |s| ==> Whitespace(s[k])) &&
    (r != [] ==> !Whitespace(r[0]) && !Whitespace(r[|r| - 1]))
  }

  /** Strip keeps a slice of s with no white space at either end, and drops
      only white space around it. */
  lemma StripSlice(s: string) returns (i: nat)
    ensures StripsTo(s, Strip(s), i)
  {
    i := SkipFrom(s, 0);
    var j := SkipBack(s, i, |s|);
    var r := s[i..j];
    if r != [] {
      assert r[0] == s[i];
      assert r[|r| - 1] == s[j - 1];
    }
  }

  /** Stripping twice strips no more. */
  lemma StripIdempotent(s: string)
    ensures Strip(Strip(s)) == Strip(s)
  {
    var r := Strip(s);
    var i := StripSlice(s);
    if r != [] {
      assert SkipFrom(r, 0) == 0;
      assert SkipBack(r, 0, |r|) == |r|;
      assert r[0..|r|] == r;
    }
  }

  /** A string with no white space at either end strips to itself. */
  lemma StripUnchanged(s: string)
    requires s != [] ==> !Whitespace(s[0]) && !Whitespace(s[|s| - 1])
    ensures Strip(s) == s
  {
    if s != [] {
      assert SkipFrom(s, 0) == 0;
      assert SkipBack(s, 0, |s|) == |s|;
      assert s[0..|s|] == s;
    }
  }

  /** `str.lower()` on the ASCII letters. */
  function LowerChar(c: char): char
  {
    if 'A' <= c <= 'Z' then (c as int + 32) as char else c
  }

  function Lower(s: string): (r: string)
    ensures |r| == |s| && forall k :: 0 <= k < |s| ==> r[k] == LowerChar(s[k])
  {
    if s == [] then [] else [LowerChar(s[0])] + Lower(s[1..])
  }

  /** A string with no upper-case ASCII letter is its own lower case. */
  lemma LowerUnchanged(s: string)
    requires forall k :: 0 <= k < |s| ==> !('A' <= s[k] <= 'Z')
    ensures Lower(s) == s
  {
  }

  /** t occurs in s at position i or later. */
  function OccursFrom(s: string, t: string, i: nat): bool
    decreases |s| - i
  {
    if i + |t| > |s| then false
    else s[i..i + |t|] == t || OccursFrom(s, t, i + 1)
  }

  /** `t in s`. */
  function Contains(s: string, t: string): bool
  {
    OccursFrom(s, t, 0)
  }

  ghost predicate At(s: string, t: string, i: nat)
  {
    i + |t| <= |s| && s[i..i + |t|] == t
  }

  lemma {:induction false} OccursFromIff(s: string, t: string, i: nat)
    ensures OccursFrom(s, t, i) <==> exists k: nat :: i <= k && At(s, t, k)
    decreases |s| - i
  {
    if i + |t| <= |s| {
      OccursFromIff(s, t, i + 1);
      if OccursFrom(s, t, i) && !At(s, t, i) {
        var k: nat :| i + 1 <= k && At(s, t, k);
      }
      if exists k: nat :: i <= k && At(s, t, k) {
        var k: nat :| i <= k && At(s, t, k);
        if k > i {
          assert i + 1 <= k && At(s, t, k);
        }
      }
    }
  }

  /** Contains finds t exactly when it occurs somewhere in s. */
  lemma ContainsIff(s: string, t: string)
    ensures Contains(s, t) <==> exists k: nat :: At(s, t, k)
  {
    OccursFromIff(s, t, 0);
  }

  /** `sep.join(parts)`. */
  function Join(parts: seq<string>, sep: string): string
  {
    if parts == [] then ""
    else if |parts| == 1 then parts[0]
    else Join(parts[..|parts| - 1], sep) + sep + parts[|parts| - 1]
  }
}
