/** Character classes and string operations of Python's `str` that the reader relies on. */
module Text {

  /** `str.isspace()`. The regular-expression class `\s` on a `str` pattern and
      `str.strip()` without arguments use exactly this set of characters. */
  predicate IsSpace(c: char) {
    || c == ' '
    || ('\t' <= c <= '\r')
    || ('\U{1c}' <= c <= '\U{1f}')
    || c == '\U{85}' || c == '\U{a0}' || c == '\U{1680}'
    || ('\U{2000}' <= c <= '\U{200a}')
    || c == '\U{2028}' || c == '\U{2029}' || c == '\U{202f}' || c == '\U{205f}' || c == '\U{3000}'
  }

  predicate StartsWith(s: string, prefix: string) {
    |prefix| <= |s| && s[..|prefix|] == prefix
  }

  /** A text whose `k`-th character differs from the prefix's does not start with it. */
  lemma DiffersFrom(e: string, p: string, k: nat)
    requires k < |p| && (k < |e| ==> e[k] != p[k])
    ensures !StartsWith(e, p)
  {
    assert |p| <= |e| ==> e[..|p|][k] == e[k];
  }

  predicate EndsWith(s: string, suffix: string) {
    |suffix| <= |s| && s[|s| - |suffix|..] == suffix
  }

  predicate IsUpperAscii(c: char) {
    'A' <= c <= 'Z'
  }

  const LowercaseLetters: string := "abcdefghijklmnopqrstuvwxyz"

  /** `str.lower()` on one character, for the ASCII letters: an uppercase letter becomes the
      letter at the same place in the lowercase alphabet, anything else is kept. */
  function LowerAscii(c: char): (r: char)
    ensures IsUpperAscii(c) ==> r == LowercaseLetters[c as int - 'A' as int]
    ensures !IsUpperAscii(r)
    ensures !IsUpperAscii(c) ==> r == c
    ensures IsSpace(r) <==> IsSpace(c)
  {
    if IsUpperAscii(c) then (c as int + 32) as char else c
  }

  /** `str.lower()`, for the ASCII letters. */
  function Lower(s: string): (r: string)
    ensures |r| == |s|
    ensures forall i :: 0 <= i < |s| ==> r[i] == LowerAscii(s[i])
    ensures forall i :: 0 <= i < |r| ==> !IsUpperAscii(r[i])
  {
    seq(|s|, i requires 0 <= i < |s| => LowerAscii(s[i]))
  }

  /** Lowercasing twice is lowercasing once. */
  lemma LowerIdempotent(s: string)
    ensures Lower(Lower(s)) == Lower(s)
  {
    LowerOfLowercase(Lower(s));
  }

  /** Lowercasing works character by character, so it distributes over concatenation. */
  lemma LowerConcat(a: string, b: string)
    ensures Lower(a + b) == Lower(a) + Lower(b)
  {
  }

  /** `a` is `b` with zero or more characters deleted. */
  predicate IsSubsequence(a: string, b: string)
    decreases |b|
  {
    if b == [] then a == []
    else (a != [] && a[0] == b[0] && IsSubsequence(a[1..], b[1..])) || IsSubsequence(a, b[1..])
  }

  lemma {:induction false} SubsequenceReflexive(s: string)
    ensures IsSubsequence(s, s)
    decreases |s|
  {
    if s != [] {
      SubsequenceReflexive(s[1..]);
    }
  }

  lemma {:induction false} SubsequenceLength(a: string, b: string)
    requires IsSubsequence(a, b)
    ensures |a| <= |b|
    decreases |b|
  {
    if b != [] {
      if a != [] && a[0] == b[0] && IsSubsequence(a[1..], b[1..]) {
        SubsequenceLength(a[1..], b[1..]);
      } else {
        SubsequenceLength(a, b[1..]);
      }
    }
  }

  lemma {:induction false} SubsequenceTransitive(a: string, b: string, c: string)
    requires IsSubsequence(a, b) && IsSubsequence(b, c)
    ensures IsSubsequence(a, c)
    decreases |c|
  {
    if c != [] {
      if b != [] && b[0] == c[0] && IsSubsequence(b[1..], c[1..]) {
        if a != [] && a[0] == b[0] && IsSubsequence(a[1..], b[1..]) {
          SubsequenceTransitive(a[1..], b[1..], c[1..]);
        } else {
          SubsequenceTransitive(a, b[1..], c[1..]);
        }
      } else {
        SubsequenceTransitive(a, b, c[1..]);
      }
    }
  }

  /** Deleting a prefix of `b` keeps every subsequence of the rest a subsequence of `b`. */
  lemma {:induction false} SubsequenceOfSuffix(a: string, b: string, k: nat)
    requires k <= |b| && IsSubsequence(a, b[k..])
    ensures IsSubsequence(a, b)
    decreases k
  {
    if k > 0 {
      assert b[k..] == b[1..][k - 1..];
      SubsequenceOfSuffix(a, b[1..], k - 1);
    }
  }

  /** `str.lstrip()`: `s` without its leading run of whitespace. */
  function TrimStart(s: string): (r: string)
    ensures |r| <= |s| && r == s[|s| - |r|..]
    ensures forall i :: 0 <= i < |s| - |r| ==> IsSpace(s[i])
    ensures r == [] || !IsSpace(r[0])
    decreases |s|
  {
    if s != [] && IsSpace(s[0]) then TrimStart(s[1..]) else s
  }

  /** `str.rstrip()`: `s` without its trailing run of whitespace. */
  function TrimEnd(s: string): (r: string)
    ensures |r| <= |s| && r == s[..|r|]
    ensures forall i :: |r| <= i < |s| ==> IsSpace(s[i])
    ensures r == [] || !IsSpace(r[|r| - 1])
    decreases |s|
  {
    if s != [] && IsSpace(s[|s| - 1]) then TrimEnd(s[..|s| - 1]) else s
  }

  /** `s.replace(pat, rep)`: every occurrence of `pat`, found left to right
      without overlap, is replaced by `rep`. */
  function ReplaceAll(s: string, pat: string, rep: string): string
    requires pat != []
    decreases |s|
  {
    if s == [] then []
    else if StartsWith(s, pat) then rep + ReplaceAll(s[|pat|..], pat, rep)
    else [s[0]] + ReplaceAll(s[1..], pat, rep)
  }

  /** Replacing with the empty string only ever deletes characters. */
  lemma {:induction false} RemoveAllDeletes(s: string, pat: string)
    requires pat != []
    ensures IsSubsequence(ReplaceAll(s, pat, []), s)
    decreases |s|
  {
    if s != [] {
      if StartsWith(s, pat) {
        RemoveAllDeletes(s[|pat|..], pat);
        assert ReplaceAll(s, pat, []) == ReplaceAll(s[|pat|..], pat, []);
        SubsequenceOfSuffix(ReplaceAll(s, pat, []), s, |pat|);
      } else {
        RemoveAllDeletes(s[1..], pat);
      }
    }
  }

  /** A string with no occurrence of `pat` is returned as it is. */
  lemma {:induction false} ReplaceAllAbsent(s: string, pat: string, rep: string)
    requires pat != []
    requires forall i :: 0 <= i < |s| ==> !StartsWith(s[i..], pat)
    ensures ReplaceAll(s, pat, rep) == s
    decreases |s|
  {
    if s != [] {
      assert s[0..] == s;
      forall i | 0 <= i < |s| - 1 ensures !StartsWith(s[1..][i..], pat) {
        assert s[1..][i..] == s[i + 1..];
      }
      ReplaceAllAbsent(s[1..], pat, rep);
    }
  }

  /** Lowercasing leaves a string without uppercase letters unchanged. */
  lemma LowerOfLowercase(s: string)
    requires forall i :: 0 <= i < |s| ==> !IsUpperAscii(s[i])
    ensures Lower(s) == s
  {
  }
}
