/** The media stripper: three regular-expression deletions run one after the other,
    each scanning left to right and deleting non-overlapping matches. */
module MediaStrip {
  import opened Wrappers
  import opened Text

  /** The alternatives of the tag-name group, in the order the patterns list them. */
  const MediaTags: seq<string> := ["img", "picture", "video", "audio", "iframe", "svg", "canvas", "figure"]

  /** The literal that starts the third pattern. */
  const BackgroundImage: string := "background-image:"

  /** The literal that follows the optional whitespace in the third pattern. */
  const UrlOpen: string := "url("

  /** The simple lowercase mapping the regular-expression engine applies under IGNORECASE,
      for the characters whose lowercase is an ASCII letter: `A`-`Z`, U+0130 (lowercase `i`)
      and U+212A KELVIN SIGN (lowercase `k`). Every other character is treated as its own
      lowercase. */
  function FoldChar(c: char): char {
    if IsUpperAscii(c) then (c as int + 32) as char
    else if c == '\U{130}' then 'i'
    else if c == '\U{212A}' then 'k'
    else c
  }

  /** Does text character `c` match the pattern character `p` under IGNORECASE? The engine
      also treats U+0131 (dotless i) as `i` and U+017F (long s) as `s`. */
  predicate MatchesIgnoreCase(c: char, p: char) {
    var f := FoldChar(c);
    f == p || (p == 'i' && f == '\U{131}') || (p == 's' && f == '\U{17F}')
  }

  predicate StartsWithIgnoreCase(s: string, pattern: string) {
    |pattern| <= |s| && forall i :: 0 <= i < |pattern| ==> MatchesIgnoreCase(s[i], pattern[i])
  }

  /** The first alternative, from the `k`-th on, that matches at the start of `s`. */
  function FirstTag(s: string, k: nat): (r: Option<nat>)
    requires k <= |MediaTags|
    ensures r.Some? ==> k <= r.value < |MediaTags| && StartsWithIgnoreCase(s, MediaTags[r.value])
    ensures forall j :: k <= j < |MediaTags| && StartsWithIgnoreCase(s, MediaTags[j]) ==> r.Some? && r.value <= j
    decreases |MediaTags| - k
  {
    if k == |MediaTags| then None
    else if StartsWithIgnoreCase(s, MediaTags[k]) then Some(k)
    else FirstTag(s, k + 1)
  }

  /** `<` followed by a media tag name: the index of the name in `MediaTags`. */
  function OpenTag(s: string): (r: Option<nat>)
    ensures r.Some? ==> s != [] && s[0] == '<' && r.value < |MediaTags| && 1 + |MediaTags[r.value]| <= |s|
    ensures r.Some? <==> s != [] && s[0] == '<' && exists j :: 0 <= j < |MediaTags| && StartsWithIgnoreCase(s[1..], MediaTags[j])
  {
    if s != [] && s[0] == '<' then FirstTag(s[1..], 0) else None
  }

  /** No text can start with two different alternatives, so the order of the alternatives
      never changes which name is matched. */
  lemma AlternativesExclusive(s: string, i: nat, j: nat)
    requires i < |MediaTags| && j < |MediaTags|
    requires StartsWithIgnoreCase(s, MediaTags[i]) && StartsWithIgnoreCase(s, MediaTags[j])
    ensures i == j
  {
    var d := if MediaTags[i][0] != MediaTags[j][0] then 0 else 1;
    var a, b := MediaTags[i][d], MediaTags[j][d];
    assert MatchesIgnoreCase(s[d], a) && MatchesIgnoreCase(s[d], b);
    assert 'a' <= a <= 'z' && 'a' <= b <= 'z';
  }

  /** The first index at or after `from` that holds `c`. */
  function IndexOf(s: string, c: char, from: nat): (r: Option<nat>)
    ensures r.Some? ==> from <= r.value < |s| && s[r.value] == c
    ensures forall i :: from <= i < |s| && s[i] == c ==> r.Some? && r.value <= i
    decreases |s| - from
  {
    if from >= |s| then None
    else if s[from] == c then Some(from)
    else IndexOf(s, c, from + 1)
  }

  /** `</name>` at index `j`, the name compared as the back-reference `\1` is compared
      under IGNORECASE: both sides lowercased. */
  predicate ClosesAt(s: string, j: nat, name: string) {
    && j + |name| + 3 <= |s|
    && s[j] == '<' && s[j + 1] == '/' && s[j + 2 + |name|] == '>'
    && forall i :: 0 <= i < |name| ==> FoldChar(s[j + 2 + i]) == FoldChar(name[i])
  }

  /** The first index at or after `from` where `</name>` starts. */
  function FindClose(s: string, name: string, from: nat): (r: Option<nat>)
    ensures r.Some? ==> from <= r.value && ClosesAt(s, r.value, name)
    ensures forall j :: from <= j && ClosesAt(s, j, name) ==> r.Some? && r.value <= j
    decreases |s| - from
  {
    if from + |name| + 3 > |s| then None
    else if ClosesAt(s, from, name) then Some(from)
    else FindClose(s, name, from + 1)
  }

  /** Pass 1, `(?is)<(img|…|figure).*?>.*?</\1>`: the length of its match at the start of
      `s`, if any. */
  function BlockMatch(s: string): (r: Option<nat>)
    ensures r.Some? ==> 0 < r.value <= |s|
  {
    match OpenTag(s)
    case None => None
    case Some(k) => BlockFrom(s, s[1..1 + |MediaTags[k]|])
  }

  /** The rest of pass 1 once `<name` has matched at the start of `s`. Both lazy repetitions
      take the shortest extent that lets the rest of the pattern match: the first `>` after
      the name, then the first `</name>` after that `>`. */
  function BlockFrom(s: string, name: string): (r: Option<nat>)
    ensures r.Some? ==> 1 + |name| < r.value <= |s|
  {
    match IndexOf(s, '>', 1 + |name|)
    case None => None
    case Some(q) => (
      match FindClose(s, name, q + 1)
      case None => None
      case Some(j) => Some(j + |name| + 3))
  }

  /** Pass 2, `(?is)<(img|…|figure)[^>]*>`: the length of its match at the start of `s`. */
  function TagMatch(s: string): (r: Option<nat>)
    ensures r.Some? ==> 0 < r.value <= |s|
  {
    match OpenTag(s)
    case None => None
    case Some(k) => (
      match IndexOf(s, '>', 1 + |MediaTags[k]|)
      case None => None
      case Some(q) => Some(q + 1))
  }

  /** The first index at or after `from` that does not hold whitespace. */
  function SkipSpaces(s: string, from: nat): (r: nat)
    requires from <= |s|
    ensures from <= r <= |s|
    ensures forall i :: from <= i < r ==> IsSpace(s[i])
    ensures r == |s| || !IsSpace(s[r])
    decreases |s| - from
  {
    if from == |s| || !IsSpace(s[from]) then from else SkipSpaces(s, from + 1)
  }

  /** Pass 3, `(?i)background-image:\s*url\([^)]*\);?`: the length of its match at the start of `s`. */
  function BackgroundMatch(s: string): (r: Option<nat>)
    ensures r.Some? ==> 0 < r.value <= |s|
  {
    if !StartsWithIgnoreCase(s, BackgroundImage) then None
    else
      var w := SkipSpaces(s, |BackgroundImage|);
      if !StartsWithIgnoreCase(s[w..], UrlOpen) then None
      else match IndexOf(s, ')', w + |UrlOpen|)
        case None => None
        case Some(p) => Some(if p + 1 < |s| && s[p + 1] == ';' then p + 2 else p + 1)
  }

  /** A matcher gives the length of its pattern's match at the start of a text, if the
      pattern matches there. */
  type Matcher = string -> Option<nat>

  /** `m` matches a non-empty prefix of `s`, of length `n`. */
  predicate MatchesAt(m: Matcher, s: string, n: nat) {
    m(s) == Some(n) && 0 < n <= |s|
  }

  /** `re.sub(pattern, "", s)`: at each position, a match is deleted and the scan resumes
      after it; otherwise the character is kept and the scan moves one position on. Every
      pattern of the stripper matches at least one character, so a match of length zero
      (which the three matchers never give) counts as no match. */
  function Substitute(m: Matcher, s: string): string
    decreases |s|
  {
    if s == [] then []
    else if m(s).Some? && 0 < m(s).value <= |s| then Substitute(m, s[m(s).value..])
    else [s[0]] + Substitute(m, s[1..])
  }

  /** `strip_media(html_in)`: paired blocks first, then opening and void tags, then
      background images. */
  function StripMedia(html: string): (r: string)
    ensures IsSubsequence(r, html)
    ensures |r| <= |html|
  {
    var blocks := Substitute(BlockMatch, html);
    var tags := Substitute(TagMatch, blocks);
    var r := Substitute(BackgroundMatch, tags);
    SubstituteDeletes(BlockMatch, html);
    SubstituteDeletes(TagMatch, blocks);
    SubstituteDeletes(BackgroundMatch, tags);
    SubsequenceTransitive(tags, blocks, html);
    SubsequenceTransitive(r, tags, html);
    SubsequenceLength(r, html);
    r
  }

  /** Each pass only deletes characters. */
  lemma {:induction false} SubstituteDeletes(m: Matcher, s: string)
    ensures IsSubsequence(Substitute(m, s), s)
    decreases |s|
  {
    if s != [] {
      if m(s).Some? && 0 < m(s).value <= |s| {
        SubstituteDeletes(m, s[m(s).value..]);
        SubsequenceOfSuffix(Substitute(m, s), s, m(s).value);
      } else {
        SubstituteDeletes(m, s[1..]);
      }
    }
  }

  /** A pass that matches nowhere returns its input unchanged. */
  lemma {:induction false} SubstituteNoMatch(m: Matcher, s: string)
    requires forall i :: 0 <= i < |s| ==> m(s[i..]).None?
    ensures Substitute(m, s) == s
    decreases |s|
  {
    if s != [] {
      assert s[0..] == s;
      forall i | 0 <= i < |s| - 1 ensures m(s[1..][i..]).None? {
        assert s[1..][i..] == s[i + 1..];
      }
      SubstituteNoMatch(m, s[1..]);
    }
  }

  /** Where the pattern does not match, the scan keeps the character and moves on. */
  lemma SubstituteKeep(m: Matcher, s: string)
    requires s != [] && m(s).None?
    ensures Substitute(m, s) == [s[0]] + Substitute(m, s[1..])
  {
  }

  /** Where the pattern matches, the match is deleted and the scan resumes after it. */
  lemma SubstituteSkip(m: Matcher, s: string, n: nat)
    requires MatchesAt(m, s, n)
    ensures Substitute(m, s) == Substitute(m, s[n..])
  {
  }

  /** The span a pass deletes first: text before the leftmost match is kept as it is, the
      match is deleted, and the scan continues right after it. */
  lemma {:induction false} SubstituteLeftmost(m: Matcher, s: string, i: nat, n: nat)
    requires i < |s|
    requires forall j :: 0 <= j < i ==> m(s[j..]).None?
    requires MatchesAt(m, s[i..], n)
    ensures Substitute(m, s) == s[..i] + Substitute(m, s[i + n..])
  {
    SubstituteKeepsPrefix(m, s, i);
    SubstituteSkip(m, s[i..], n);
    assert s[i..][n..] == s[i + n..];
  }

  /** Text before the first match is kept character for character. */
  lemma {:induction false} SubstituteKeepsPrefix(m: Matcher, s: string, i: nat)
    requires i <= |s|
    requires forall j :: 0 <= j < i ==> m(s[j..]).None?
    ensures Substitute(m, s) == s[..i] + Substitute(m, s[i..])
    decreases i
  {
    if i == 0 {
      assert s[..0] + s[0..] == s;
    } else {
      SubstituteKeepsPrefix(m, s, i - 1);
      var t := s[i - 1..];
      SubstituteKeep(m, t);
      assert t[1..] == s[i..];
      assert s[..i - 1] + [t[0]] == s[..i];
      var rest := Substitute(m, s[i..]);
      assert s[..i - 1] + ([t[0]] + rest) == s[..i] + rest;
    }
  }

  /** Passes 1 and 2 only match at a `<`. */
  lemma MatchStart(s: string)
    ensures BlockMatch(s).Some? ==> s[0] == '<'
    ensures TagMatch(s).Some? ==> s[0] == '<'
  {
  }

  /** Pass 3 only matches at `background-image:`, in any letter case. */
  lemma BackgroundStart(s: string)
    ensures BackgroundMatch(s).Some? ==> StartsWithIgnoreCase(s, BackgroundImage)
  {
  }

  /** Text with no `<` and no `background-image:` in any letter case comes out unchanged. */
  lemma StripMediaUnchanged(html: string)
    requires '<' !in html
    requires forall i :: 0 <= i < |html| ==> !StartsWithIgnoreCase(html[i..], BackgroundImage)
    ensures StripMedia(html) == html
  {
    NoLtNoMatch(html);
    forall i | 0 <= i < |html| ensures BackgroundMatch(html[i..]).None? {
      BackgroundStart(html[i..]);
    }
    SubstituteNoMatch(BackgroundMatch, html);
  }

  /** `s[..len]` is `<`, a tag name spelled as `name`, text up to and including the first
      `>`, and then text up to and including the first `</name>` (compared case-insensitively)
      after that `>`: the closing tag is the first one with a `>` between it and the name. */
  ghost predicate BlockShape(s: string, name: string, len: nat) {
    && 1 + |name| + |name| + 3 <= len
    && var close: nat := len - |name| - 3;
    && ClosesAt(s, close, name)
    && '>' in s[1 + |name|..close]
    && forall j :: 1 + |name| <= j < close && ClosesAt(s, j, name) ==> '>' !in s[1 + |name|..j]
  }

  /** The span pass 1 deletes, stated without the searches. */
  ghost predicate IsBlockAt(s: string, len: nat) {
    OpenTag(s).Some? && BlockShape(s, s[1..1 + |MediaTags[OpenTag(s).value]|], len)
  }

  /** Before the first `>` at or after `start` there is none. */
  lemma NoneBeforeFirst(s: string, c: char, start: nat, q: nat, k: nat)
    requires IndexOf(s, c, start) == Some(q) && start <= k <= q
    ensures c !in s[start..k]
  {
    forall x | 0 <= x < k - start ensures s[start..k][x] != c {
      assert s[start..k][x] == s[start + x];
    }
  }

  /** A character at index `x` in `[a, b)` is in `s[a..b]`. */
  lemma InSlice(s: string, a: nat, x: nat, b: nat)
    requires a <= x < b <= |s|
    ensures s[x] in s[a..b]
  {
    assert s[a..b][x - a] == s[x];
  }

  lemma BlockFromSound(s: string, name: string, len: nat)
    requires BlockFrom(s, name) == Some(len)
    ensures BlockShape(s, name, len)
  {
    var start := 1 + |name|;
    var q := IndexOf(s, '>', start).value;
    var j := FindClose(s, name, q + 1).value;
    assert len == j + |name| + 3;
    InSlice(s, start, q, j);
    forall j' | start <= j' < j && ClosesAt(s, j', name) ensures '>' !in s[start..j'] {
      assert j' <= q;
      NoneBeforeFirst(s, '>', start, q, j');
    }
  }

  lemma BlockFromComplete(s: string, name: string, len: nat)
    requires BlockShape(s, name, len)
    ensures BlockFrom(s, name) == Some(len)
  {
    var start := 1 + |name|;
    var close: nat := len - |name| - 3;
    var x :| 0 <= x < |s[start..close]| && s[start..close][x] == '>';
    assert s[start + x] == '>';
    var q := IndexOf(s, '>', start).value;
    var j := FindClose(s, name, q + 1).value;
    InSlice(s, start, q, j);
  }

  /** Pass 1's matcher finds exactly the spans `IsBlockAt` describes. */
  lemma BlockMatchIff(s: string, len: nat)
    ensures BlockMatch(s) == Some(len) <==> IsBlockAt(s, len)
  {
    if OpenTag(s).Some? {
      var name := s[1..1 + |MediaTags[OpenTag(s).value]|];
      if BlockMatch(s) == Some(len) {
        BlockFromSound(s, name, len);
      }
      if IsBlockAt(s, len) {
        BlockFromComplete(s, name, len);
      }
    }
  }

  /** The span pass 2 deletes: `<name` through the next `>`, only if there is one. */
  ghost predicate IsTagAt(s: string, len: nat) {
    && OpenTag(s).Some?
    && var n := |MediaTags[OpenTag(s).value]|;
    && 1 + n < len <= |s|
    && s[len - 1] == '>'
    && '>' !in s[1 + n..len - 1]
  }

  lemma TagMatchIff(s: string, len: nat)
    ensures TagMatch(s) == Some(len) <==> IsTagAt(s, len)
  {
    if OpenTag(s).Some? && len >= 1 {
      IndexOfIff(s, '>', 1 + |MediaTags[OpenTag(s).value]|, len - 1);
    }
  }

  /** `IndexOf` finds `q` exactly when `q` holds the character and nothing before it, from
      `from` on, does. */
  lemma IndexOfIff(s: string, c: char, from: nat, q: nat)
    ensures IndexOf(s, c, from) == Some(q) <==> from <= q < |s| && s[q] == c && c !in s[from..q]
  {
    if IndexOf(s, c, from) == Some(q) {
      NoneBeforeFirst(s, c, from, q, q);
    }
    if from <= q < |s| {
      forall x | from <= x < q ensures s[x] in s[from..q] {
        InSlice(s, from, x, q);
      }
    }
  }

  /** The span pass 3 deletes, given where its whitespace ends (`w`) and where the closing
      parenthesis is (`p`). */
  ghost predicate BackgroundSpan(s: string, w: nat, p: nat, len: nat) {
    && StartsWithIgnoreCase(s, BackgroundImage)
    && |BackgroundImage| <= w && w + |UrlOpen| <= p < |s|
    && (forall i :: |BackgroundImage| <= i < w ==> IsSpace(s[i]))
    && StartsWithIgnoreCase(s[w..], UrlOpen)
    && s[p] == ')'
    && ')' !in s[w + |UrlOpen|..p]
    && len == if p + 1 < |s| && s[p + 1] == ';' then p + 2 else p + 1
  }

  /** The span pass 3 deletes: `background-image:`, whitespace, `url(`, everything up to the
      first `)`, that `)`, and a `;` right after it if there is one. */
  ghost predicate IsBackgroundAt(s: string, len: nat) {
    exists w, p :: BackgroundSpan(s, w, p, len)
  }

  lemma BackgroundMatchSound(s: string, len: nat)
    requires BackgroundMatch(s) == Some(len)
    ensures BackgroundSpan(s, SkipSpaces(s, |BackgroundImage|), IndexOf(s, ')', SkipSpaces(s, |BackgroundImage|) + |UrlOpen|).value, len)
  {
    var w := SkipSpaces(s, |BackgroundImage|);
    var p := IndexOf(s, ')', w + |UrlOpen|).value;
    NoneBeforeFirst(s, ')', w + |UrlOpen|, p, p);
  }

  /** `u` is not whitespace, so the whitespace run ends exactly where `url(` starts. */
  lemma SpaceRunEndsAtUrl(s: string, w: nat)
    requires |BackgroundImage| <= w <= |s|
    requires forall i :: |BackgroundImage| <= i < w ==> IsSpace(s[i])
    requires StartsWithIgnoreCase(s[w..], UrlOpen)
    ensures SkipSpaces(s, |BackgroundImage|) == w
  {
    assert UrlOpen[0] == 'u' && s[w..][0] == s[w];
    assert MatchesIgnoreCase(s[w], 'u');
    assert !IsSpace(s[w]);
  }

  lemma BackgroundMatchComplete(s: string, w: nat, p: nat, len: nat)
    requires BackgroundSpan(s, w, p, len)
    ensures BackgroundMatch(s) == Some(len)
  {
    SpaceRunEndsAtUrl(s, w);
    var p' := IndexOf(s, ')', w + |UrlOpen|);
    assert p'.Some? && p'.value <= p;
    if p'.value < p {
      InSlice(s, w + |UrlOpen|, p'.value, p);
    }
  }

  /** Pass 3's matcher finds exactly the spans `IsBackgroundAt` describes. */
  lemma BackgroundMatchIff(s: string, len: nat)
    ensures BackgroundMatch(s) == Some(len) <==> IsBackgroundAt(s, len)
  {
    if BackgroundMatch(s) == Some(len) {
      BackgroundMatchSound(s, len);
    }
    if IsBackgroundAt(s, len) {
      var w: nat, p: nat :| BackgroundSpan(s, w, p, len);
      BackgroundMatchComplete(s, w, p, len);
    }
  }

  // Worked examples of the three passes on concrete markup.

  lemma ShortHasNoBackground(s: string)
    requires |s| < |BackgroundImage|
    ensures Substitute(BackgroundMatch, s) == s
  {
    SubstituteNoMatch(BackgroundMatch, s);
  }

  /** `/` and `<` start no tag name. */
  lemma NoTagAfter(s: string)
    requires |s| >= 2 && (s[1] == '/' || s[1] == '<')
    ensures OpenTag(s).None? && BlockMatch(s).None? && TagMatch(s).None?
  {
    forall j | 0 <= j < |MediaTags| ensures !StartsWithIgnoreCase(s[1..], MediaTags[j]) {
      assert s[1..][0] == s[1];
    }
  }

  /** Text with no `<` is left alone by passes 1 and 2. */
  lemma NoLtNoMatch(s: string)
    requires '<' !in s
    ensures Substitute(BlockMatch, s) == s && Substitute(TagMatch, s) == s
  {
    forall i | 0 <= i < |s| ensures BlockMatch(s[i..]).None? && TagMatch(s[i..]).None? {
      assert s[i..][0] == s[i];
      MatchStart(s[i..]);
    }
    SubstituteNoMatch(BlockMatch, s);
    SubstituteNoMatch(TagMatch, s);
  }

  lemma VideoOpen(s: string)
    requires s == "<video>x</video>"
    ensures OpenTag(s) == Some(2)
  {
    assert s[1..] == "video>x</video>";
    assert !StartsWithIgnoreCase(s[1..], MediaTags[0]) by { assert MediaTags[0][0] == 'i'; assert s[1..][0] == 'v'; }
    assert !StartsWithIgnoreCase(s[1..], MediaTags[1]) by { assert MediaTags[1][0] == 'p'; assert s[1..][0] == 'v'; }
    assert StartsWithIgnoreCase(s[1..], MediaTags[2]);
  }

  lemma VideoIndex(s: string)
    requires s == "<video>x</video>"
    ensures IndexOf(s, '>', 6) == Some(6)
  {
    assert s[6] == '>';
  }

  lemma VideoClose(s: string)
    requires s == "<video>x</video>"
    ensures FindClose(s, "video", 7) == Some(8)
  {
    assert !ClosesAt(s, 7, "video") by { assert s[7] == 'x'; }
    assert ClosesAt(s, 8, "video");
  }

  lemma VideoBlock(s: string)
    requires s == "<video>x</video>"
    ensures BlockMatch(s) == Some(16)
  {
    VideoOpen(s);
    VideoIndex(s);
    VideoClose(s);
    assert s[1..1 + |MediaTags[2]|] == "video";
    assert BlockFrom(s, "video") == Some(16);
  }

  lemma VideoTag(s: string)
    requires s == "<video>x</video>"
    ensures TagMatch(s) == Some(7)
  {
    VideoOpen(s);
    VideoIndex(s);
  }

  lemma VideoBlockDeleted(s: string)
    requires s == "<video>x</video>"
    ensures StripMedia(s) == ""
  {
    VideoBlock(s);
    SubstituteSkip(BlockMatch, s, 16);
    assert s[16..] == [];
  }

  /** Passes 1 and 2 keep a character other than `<` and move on. */
  lemma KeepPlain(s: string)
    requires s != [] && s[0] != '<'
    ensures Substitute(BlockMatch, s) == [s[0]] + Substitute(BlockMatch, s[1..])
    ensures Substitute(TagMatch, s) == [s[0]] + Substitute(TagMatch, s[1..])
  {
    MatchStart(s);
    SubstituteKeep(BlockMatch, s);
    SubstituteKeep(TagMatch, s);
  }

  /** Passes 1 and 2 keep a `<` followed by `/` or `<` and move on. */
  lemma KeepBeforeNoTag(s: string)
    requires |s| >= 2 && (s[1] == '/' || s[1] == '<')
    ensures Substitute(BlockMatch, s) == [s[0]] + Substitute(BlockMatch, s[1..])
    ensures Substitute(TagMatch, s) == [s[0]] + Substitute(TagMatch, s[1..])
  {
    NoTagAfter(s);
    SubstituteKeep(BlockMatch, s);
    SubstituteKeep(TagMatch, s);
  }

  /** How `x</video>` splits for the scan: a plain character, `<` before `/`, then text
      without `<`. */
  lemma CloseTagParts(s: string)
    requires s == "x</video>"
    ensures s[0] != '<' && |s[1..]| >= 2 && s[1..][1] == '/' && '<' !in s[1..][1..]
    ensures [s[0]] + ([s[1..][0]] + s[1..][1..]) == s
  {
    assert s[1..] == "</video>";
    assert s[1..][1..] == "/video>";
  }

  /** Neither pass 1 nor pass 2 touches a lone closing tag. */
  lemma CloseTagKept(s: string)
    requires s == "x</video>"
    ensures Substitute(TagMatch, s) == s
    ensures Substitute(BlockMatch, s) == s
  {
    CloseTagParts(s);
    KeepPlain(s);
    KeepBeforeNoTag(s[1..]);
    NoLtNoMatch(s[1..][1..]);
  }

  /** Pass 2 deletes `<video>` and goes on with the rest. */
  lemma VideoRest(s: string) returns (r: string)
    requires s == "<video>x</video>"
    ensures r == "x</video>"
    ensures Substitute(TagMatch, s) == Substitute(TagMatch, r)
  {
    VideoTag(s);
    SubstituteSkip(TagMatch, s, 7);
    r := s[7..];
  }

  /** Pass 2 alone deletes the opening tag of a block and leaves the rest. */
  lemma VideoTagDeleted(s: string)
    requires s == "<video>x</video>"
    ensures Substitute(TagMatch, s) == "x</video>"
  {
    var r := VideoRest(s);
    CloseTagKept(r);
  }

  lemma SwappedPassesLeaveClose()
    ensures Substitute(BlockMatch, Substitute(TagMatch, "<video>x</video>")) == "x</video>"
  {
    VideoTagDeleted("<video>x</video>");
    CloseTagKept("x</video>");
  }

  /** Deleting paired blocks before lone tags matters: with the passes the other way round,
      the closing tag of a block would be left behind. */
  lemma BlocksBeforeTags()
    ensures StripMedia("<video>x</video>") == ""
    ensures Substitute(BlockMatch, Substitute(TagMatch, "<video>x</video>")) == "x</video>"
  {
    VideoBlockDeleted("<video>x</video>");
    SwappedPassesLeaveClose();
  }

  lemma VideosOpen()
    ensures OpenTag("<videos>b") == Some(2)
  {
    var s := "<videos>b";
    assert s[1..] == "videos>b";
    assert !StartsWithIgnoreCase(s[1..], MediaTags[0]) by { assert MediaTags[0][0] == 'i'; assert s[1..][0] == 'v'; }
    assert !StartsWithIgnoreCase(s[1..], MediaTags[1]) by { assert MediaTags[1][0] == 'p'; assert s[1..][0] == 'v'; }
    assert StartsWithIgnoreCase(s[1..], MediaTags[2]);
  }

  lemma VideosMatches()
    ensures BlockMatch("<videos>b").None? && TagMatch("<videos>b") == Some(8)
  {
    VideosOpen();
    var s := "<videos>b";
    assert s[1..1 + |MediaTags[2]|] == "video";
    assert IndexOf(s, '>', 6) == Some(7) by { assert s[6] == 's' && s[7] == '>'; }
  }

  lemma VideosBlockKept(t: string)
    requires t == "<videos>b"
    ensures Substitute(BlockMatch, t) == [t[0]] + Substitute(BlockMatch, t[1..])
  {
    VideosMatches();
    SubstituteKeep(BlockMatch, t);
  }

  lemma VideosTagDeleted(t: string)
    requires t == "<videos>b"
    ensures Substitute(TagMatch, t) == Substitute(TagMatch, t[8..])
  {
    VideosMatches();
    SubstituteSkip(TagMatch, t, 8);
  }

  lemma VideosPass1(s: string)
    requires s == "a<videos>b"
    ensures Substitute(BlockMatch, s) == s
  {
    KeepPlain(s);
    assert s[1..] == "<videos>b";
    VideosBlockKept(s[1..]);
    assert s[1..][1..] == "videos>b";
    NoLtNoMatch(s[1..][1..]);
    assert [s[0]] + ([s[1..][0]] + s[1..][1..]) == s;
  }

  lemma VideosPass2(s: string)
    requires s == "a<videos>b"
    ensures Substitute(TagMatch, s) == "ab"
  {
    KeepPlain(s);
    VideosTagDeleted(s[1..]);
    NoLtNoMatch(s[1..][8..]);
    assert [s[0]] + s[1..][8..] == "ab";
  }

  /** There is no word boundary after the name: `<videos>` is deleted as well. */
  lemma NoWordBoundary()
    ensures StripMedia("a<videos>b") == "ab"
  {
    VideosPass1("a<videos>b");
    VideosPass2("a<videos>b");
    ShortHasNoBackground("ab");
  }

  lemma ImgOpen()
    ensures OpenTag("<img>img>") == Some(0)
  {
    var s := "<img>img>";
    assert s[1..] == "img>img>";
    assert StartsWithIgnoreCase(s[1..], MediaTags[0]);
  }

  lemma ImgMatches()
    ensures BlockMatch("<img>img>").None? && TagMatch("<img>img>") == Some(5)
  {
    ImgOpen();
    var s := "<img>img>";
    assert s[1..1 + |MediaTags[0]|] == "img";
    assert IndexOf(s, '>', 4) == Some(4);
  }

  lemma ImgBlockKept(t: string)
    requires t == "<img>img>"
    ensures Substitute(BlockMatch, t) == [t[0]] + Substitute(BlockMatch, t[1..])
  {
    ImgMatches();
    SubstituteKeep(BlockMatch, t);
  }

  lemma ImgTagDeleted(t: string)
    requires t == "<img>img>"
    ensures Substitute(TagMatch, t) == Substitute(TagMatch, t[5..])
  {
    ImgMatches();
    SubstituteSkip(TagMatch, t, 5);
  }

  lemma ImgPass1(s: string)
    requires s == "<<img>img>"
    ensures Substitute(BlockMatch, s) == s
  {
    KeepBeforeNoTag(s);
    ImgBlockKept(s[1..]);
    NoLtNoMatch(s[1..][1..]);
    assert [s[0]] + ([s[1..][0]] + s[1..][1..]) == s;
  }

  lemma ImgPass2(s: string)
    requires s == "<<img>img>"
    ensures Substitute(TagMatch, s) == "<img>"
  {
    KeepBeforeNoTag(s);
    ImgTagDeleted(s[1..]);
    NoLtNoMatch(s[1..][5..]);
    assert [s[0]] + s[1..][5..] == "<img>";
  }

  /** Deletion can bring a media tag together from the pieces around it, so media markup
      can survive the stripper. */
  lemma DeletionCanFormATag()
    ensures StripMedia("<<img>img>") == "<img>"
  {
    ImgPass1("<<img>img>");
    ImgPass2("<<img>img>");
    ShortHasNoBackground("<img>");
  }
}
