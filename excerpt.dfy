/** The excerpt builder: the plain text of the article, whitespace collapsed and
    trimmed, cut to the character budget with an ellipsis marking a cut. */
module Excerpts {
  import opened Text

  /** The marker appended to a truncated excerpt, U+2026 HORIZONTAL ELLIPSIS. */
  const Ellipsis: char := '\U{2026}'

  /** Every whitespace character is a plain space and no two whitespace characters are adjacent. */
  predicate Collapsed(s: string) {
    && (forall i :: 0 <= i < |s| && IsSpace(s[i]) ==> s[i] == ' ')
    && (forall i :: 0 <= i < |s| - 1 && IsSpace(s[i]) ==> !IsSpace(s[i + 1]))
  }

  /** Collapsed, with no whitespace at either end. */
  predicate IsNormalized(s: string) {
    Collapsed(s) && (s == [] || (!IsSpace(s[0]) && !IsSpace(s[|s| - 1])))
  }

  /** The characters of `s` that are not whitespace, in order. */
  function NonSpace(s: string): string {
    if s == [] then []
    else if IsSpace(s[0]) then NonSpace(s[1..])
    else [s[0]] + NonSpace(s[1..])
  }

  /** `re.sub(r"\s+", " ", s)`: every maximal run of whitespace becomes one space. */
  function CollapseSpaces(s: string): string
    decreases |s|
  {
    if s == [] then []
    else if IsSpace(s[0]) then " " + CollapseSpaces(TrimStart(s))
    else [s[0]] + CollapseSpaces(s[1..])
  }

  /** `str.strip()`. */
  function Strip(s: string): string {
    TrimEnd(TrimStart(s))
  }

  /** The text an excerpt is cut from: `re.sub(r"\s+", " ", text).strip()`. */
  function Normalize(text: string): string {
    Strip(CollapseSpaces(text))
  }

  /** Python's slice `t[:n]`: a negative `n` counts from the end. */
  function PyPrefix(t: string, n: int): (r: string)
    ensures |r| <= |t| && r == t[..|r|]
    ensures n >= 0 ==> |r| == if n <= |t| then n else |t|
    ensures n < 0 ==> |r| == if |t| + n >= 0 then |t| + n else 0
  {
    if n >= 0 then t[..if n <= |t| then n else |t|]
    else t[..if |t| + n >= 0 then |t| + n else 0]
  }

  /** `excerpt(text, limit)`. */
  function Excerpt(text: string, limit: int): (r: string)
    ensures limit >= 0 ==> |r| <= limit + 1
    ensures |Normalize(text)| <= limit ==> r == Normalize(text)
    ensures 0 <= limit < |Normalize(text)| ==> r == Normalize(text)[..limit] + [Ellipsis]
    ensures limit < 0 ==> |r| == 1 + if |Normalize(text)| + limit >= 0 then |Normalize(text)| + limit else 0
  {
    var t := Normalize(text);
    if |t| > limit then PyPrefix(t, limit) + [Ellipsis] else t
  }

  /** Collapsing never lengthens a text: a run of whitespace becomes at most one space. */
  lemma {:induction false} CollapseNoLonger(s: string)
    ensures |CollapseSpaces(s)| <= |s|
    decreases |s|
  {
    if s != [] {
      if IsSpace(s[0]) {
        CollapseNoLonger(TrimStart(s));
      } else {
        CollapseNoLonger(s[1..]);
      }
    }
  }

  /** Normalizing never lengthens a text. */
  lemma NormalizeNoLonger(text: string)
    ensures |Normalize(text)| <= |text|
  {
    CollapseNoLonger(text);
  }

  /** An input of at most `limit` characters is never cut: the excerpt is the input with its
      whitespace collapsed and trimmed, and no ellipsis is added. */
  lemma ShortInputPassesThrough(text: string, limit: int)
    requires |text| <= limit
    ensures Excerpt(text, limit) == Normalize(text)
  {
    NormalizeNoLonger(text);
  }

  /** A string that starts with whitespace collapses to one that starts with a space, and conversely. */
  lemma {:induction false} CollapseSpacesShape(s: string)
    ensures Collapsed(CollapseSpaces(s))
    ensures s == [] <==> CollapseSpaces(s) == []
    ensures s != [] ==> (IsSpace(CollapseSpaces(s)[0]) <==> IsSpace(s[0]))
    decreases |s|
  {
    if s != [] {
      var r := CollapseSpaces(s);
      if IsSpace(s[0]) {
        var t := TrimStart(s);
        CollapseSpacesShape(t);
        assert r == " " + CollapseSpaces(t);
      } else {
        CollapseSpacesShape(s[1..]);
        assert r == [s[0]] + CollapseSpaces(s[1..]);
      }
    }
  }

  lemma {:induction false} NonSpaceOfSpaces(s: string, k: nat)
    requires k <= |s|
    requires forall i :: 0 <= i < k ==> IsSpace(s[i])
    ensures NonSpace(s) == NonSpace(s[k..])
    decreases k
  {
    if k > 0 {
      assert s[1..][k - 1..] == s[k..];
      NonSpaceOfSpaces(s[1..], k - 1);
    }
  }

  lemma {:induction false} NonSpaceConcat(a: string, b: string)
    ensures NonSpace(a + b) == NonSpace(a) + NonSpace(b)
    decreases |a|
  {
    if a == [] {
      assert a + b == b;
    } else {
      assert (a + b)[0] == a[0] && (a + b)[1..] == a[1..] + b;
      NonSpaceConcat(a[1..], b);
    }
  }

  lemma {:induction false} NonSpaceOfTrailingSpaces(s: string, k: nat)
    requires k <= |s|
    requires forall i :: k <= i < |s| ==> IsSpace(s[i])
    ensures NonSpace(s) == NonSpace(s[..k])
    decreases |s| - k
  {
    if k == |s| {
      assert s[..k] == s;
    } else {
      var s' := s[..|s| - 1];
      assert s == s' + [s[|s| - 1]];
      NonSpaceConcat(s', [s[|s| - 1]]);
      assert NonSpace([s[|s| - 1]]) == [];
      assert s'[..k] == s[..k];
      NonSpaceOfTrailingSpaces(s', k);
    }
  }

  /** Collapsing changes whitespace only: the other characters are kept, in order. */
  lemma {:induction false} CollapseSpacesKeepsText(s: string)
    ensures NonSpace(CollapseSpaces(s)) == NonSpace(s)
    decreases |s|
  {
    if s != [] {
      if IsSpace(s[0]) {
        var t := TrimStart(s);
        NonSpaceOfSpaces(s, |s| - |t|);
        CollapseSpacesKeepsText(t);
        NonSpaceConcat(" ", CollapseSpaces(t));
      } else {
        CollapseSpacesKeepsText(s[1..]);
        NonSpaceConcat([s[0]], CollapseSpaces(s[1..]));
      }
    }
  }

  /** Collapsing leaves a string unchanged exactly when it is already collapsed. */
  lemma {:induction false} CollapseSpacesFixpoint(s: string)
    ensures CollapseSpaces(s) == s <==> Collapsed(s)
    decreases |s|
  {
    CollapseSpacesShape(s);
    if s != [] && Collapsed(s) {
      assert Collapsed(s[1..]) by {
        forall i | 0 <= i < |s[1..]| - 1 && IsSpace(s[1..][i]) ensures !IsSpace(s[1..][i + 1]) {
          assert s[1..][i] == s[i + 1] && s[1..][i + 1] == s[i + 2];
        }
      }
      CollapseSpacesFixpoint(s[1..]);
      if IsSpace(s[0]) {
        assert TrimStart(s) == TrimStart(s[1..]);
        assert TrimStart(s[1..]) == s[1..];
      }
    }
  }

  lemma CollapsedSlice(s: string, i: nat, j: nat)
    requires Collapsed(s) && i <= j <= |s|
    ensures Collapsed(s[i..j])
  {
    assert forall k :: 0 <= k < j - i ==> s[i..j][k] == s[i + k];
  }

  /** The text an excerpt is cut from has single spaces only and none at either end,
      and keeps every non-whitespace character of the input in order. */
  lemma NormalizeShape(text: string)
    ensures IsNormalized(Normalize(text))
    ensures NonSpace(Normalize(text)) == NonSpace(text)
  {
    CollapseSpacesShape(text);
    StripIsNormalized(CollapseSpaces(text));
    StripKeepsText(CollapseSpaces(text));
    CollapseSpacesKeepsText(text);
  }

  /** Stripping a collapsed text leaves a normalized one. */
  lemma StripIsNormalized(c: string)
    requires Collapsed(c)
    ensures IsNormalized(Strip(c))
  {
    var a := TrimStart(c);
    CollapsedSuffix(c, a);
    var b := TrimEnd(a);
    CollapsedPrefix(a, b);
    if b != [] {
      assert b[0] == a[0];
    }
  }

  lemma CollapsedSuffix(c: string, a: string)
    requires Collapsed(c) && |a| <= |c| && a == c[|c| - |a|..]
    ensures Collapsed(a)
  {
    CollapsedSlice(c, |c| - |a|, |c|);
    assert c[|c| - |a|..|c|] == a;
  }

  lemma CollapsedPrefix(a: string, b: string)
    requires Collapsed(a) && |b| <= |a| && b == a[..|b|]
    ensures Collapsed(b)
  {
    CollapsedSlice(a, 0, |b|);
    assert a[0..|b|] == b;
  }

  /** Stripping removes whitespace only. */
  lemma StripKeepsText(c: string)
    ensures NonSpace(Strip(c)) == NonSpace(c)
  {
    var a := TrimStart(c);
    NonSpaceOfSpaces(c, |c| - |a|);
    NonSpaceOfTrailingSpaces(a, |TrimEnd(a)|);
  }

  /** Normalizing leaves a string unchanged exactly when it is already normalized. */
  lemma NormalizeFixpoint(s: string)
    ensures Normalize(s) == s <==> IsNormalized(s)
  {
    NormalizeShape(s);
    if IsNormalized(s) {
      CollapseSpacesFixpoint(s);
    }
  }

  /** A collapsed string holds no whitespace other than plain spaces. */
  lemma CollapsedHasOnlySpaces(s: string)
    requires Collapsed(s)
    ensures '\n' !in s && '\t' !in s && '\r' !in s
  {
    forall i | 0 <= i < |s| ensures s[i] != '\n' && s[i] != '\t' && s[i] != '\r' {
      if IsSpace(s[i]) {
        assert s[i] == ' ';
      }
    }
  }

  lemma CollapsedAppend(p: string, c: char)
    requires Collapsed(p) && !IsSpace(c)
    ensures Collapsed(p + [c])
  {
    var r := p + [c];
    assert forall i :: 0 <= i < |p| ==> r[i] == p[i];
  }

  /** A truncated excerpt is normalized: the cut keeps a collapsed prefix that starts
      where the text starts, and the ellipsis is not whitespace. */
  lemma CutIsNormalized(t: string, k: nat)
    requires IsNormalized(t) && k <= |t|
    ensures IsNormalized(t[..k] + [Ellipsis])
  {
    CollapsedSlice(t, 0, k);
    CollapsedAppend(t[..k], Ellipsis);
    if k > 0 {
      assert (t[..k] + [Ellipsis])[0] == t[0];
    }
  }

  /** Every excerpt is collapsed and starts with a non-space character: it never holds a
      newline or a tab. It may end in `" …"` when the cut falls just after a space. */
  lemma ExcerptShape(text: string, limit: int)
    ensures Collapsed(Excerpt(text, limit))
    ensures Excerpt(text, limit) == [] || !IsSpace(Excerpt(text, limit)[0])
    ensures '\n' !in Excerpt(text, limit) && '\t' !in Excerpt(text, limit)
  {
    var t := Normalize(text);
    var r := Excerpt(text, limit);
    NormalizeShape(text);
    if |t| > limit {
      CutIsNormalized(t, |PyPrefix(t, limit)|);
      assert t[..|PyPrefix(t, limit)|] == PyPrefix(t, limit);
    }
    CollapsedHasOnlySpaces(r);
  }

  /** An excerpt of an excerpt under the same non-negative budget is the excerpt itself. */
  lemma ExcerptIdempotent(text: string, limit: int)
    requires limit >= 0
    ensures Excerpt(Excerpt(text, limit), limit) == Excerpt(text, limit)
  {
    var t := Normalize(text);
    var r := Excerpt(text, limit);
    NormalizeShape(text);
    if |t| <= limit {
      NormalizeFixpoint(r);
    } else {
      var p := t[..limit];
      assert r == p + [Ellipsis];
      CutIsNormalized(t, limit);
      NormalizeFixpoint(r);
      assert r[..limit] == p;
    }
  }
}
