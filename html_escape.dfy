/** `html.escape(s)` with its default `quote=True`: the five characters that are special in
    HTML text and attribute values become character references. */
module Escape {
  import opened Text

  /** `html.escape` as written in the standard library: five `str.replace` calls, `&` first
      so that the ampersands of the later references are not escaped again. */
  function HtmlEscape(s: string): string {
    var amp := ReplaceAll(s, "&", "&amp;");
    var lt := ReplaceAll(amp, "<", "&lt;");
    var gt := ReplaceAll(lt, ">", "&gt;");
    var quot := ReplaceAll(gt, "\"", "&quot;");
    ReplaceAll(quot, "'", "&#x27;")
  }

  /** The reference one character escapes to, or the character itself. */
  function EscapeChar(c: char): (r: string)
    ensures '<' !in r && '>' !in r && '"' !in r && '\'' !in r
    ensures c != '&' && c != '<' && c != '>' && c != '"' && c != '\'' <==> r == [c]
  {
    match c
    case '&' => "&amp;"
    case '<' => "&lt;"
    case '>' => "&gt;"
    case '"' => "&quot;"
    case '\'' => "&#x27;"
    case _ => [c]
  }

  /** Each character escaped on its own, left to right. */
  function EscapeEach(s: string): (r: string)
    ensures '<' !in r && '>' !in r && '"' !in r && '\'' !in r
    ensures |s| <= |r|
  {
    if s == [] then [] else EscapeChar(s[0]) + EscapeEach(s[1..])
  }

  /** Decodes the five references `HtmlEscape` produces and nothing else. */
  function Unescape(s: string): string
    decreases |s|
  {
    if s == [] then []
    else if StartsWith(s, "&amp;") then "&" + Unescape(s[5..])
    else if StartsWith(s, "&lt;") then "<" + Unescape(s[4..])
    else if StartsWith(s, "&gt;") then ">" + Unescape(s[4..])
    else if StartsWith(s, "&quot;") then "\"" + Unescape(s[6..])
    else if StartsWith(s, "&#x27;") then "'" + Unescape(s[6..])
    else [s[0]] + Unescape(s[1..])
  }

  /** Replacing a single character works one character at a time. */
  lemma ReplaceCharCons(x: char, t: string, c: char, rep: string)
    ensures ReplaceAll([x] + t, [c], rep) == (if x == c then rep else [x]) + ReplaceAll(t, [c], rep)
  {
    assert ([x] + t)[1..] == t;
    assert StartsWith([x] + t, [c]) <==> x == c;
  }

  /** Replacing a single character distributes over concatenation. */
  lemma {:induction false} ReplaceCharConcat(a: string, b: string, c: char, rep: string)
    ensures ReplaceAll(a + b, [c], rep) == ReplaceAll(a, [c], rep) + ReplaceAll(b, [c], rep)
    decreases |a|
  {
    if a == [] {
      assert a + b == b;
    } else {
      assert a + b == [a[0]] + (a[1..] + b);
      assert a == [a[0]] + a[1..];
      ReplaceCharCons(a[0], a[1..] + b, c, rep);
      ReplaceCharCons(a[0], a[1..], c, rep);
      ReplaceCharConcat(a[1..], b, c, rep);
    }
  }

  /** A string without the character is left unchanged. */
  lemma {:induction false} ReplaceCharAbsent(s: string, c: char, rep: string)
    requires c !in s
    ensures ReplaceAll(s, [c], rep) == s
    decreases |s|
  {
    if s != [] {
      assert s == [s[0]] + s[1..];
      ReplaceCharCons(s[0], s[1..], c, rep);
      ReplaceCharAbsent(s[1..], c, rep);
    }
  }

  /** The five replacements distribute over concatenation. */
  lemma HtmlEscapeConcat(a: string, b: string)
    ensures HtmlEscape(a + b) == HtmlEscape(a) + HtmlEscape(b)
  {
    var amp := ReplaceAll(a, "&", "&amp;");
    var lt := ReplaceAll(amp, "<", "&lt;");
    var gt := ReplaceAll(lt, ">", "&gt;");
    var quot := ReplaceAll(gt, "\"", "&quot;");
    var amp' := ReplaceAll(b, "&", "&amp;");
    var lt' := ReplaceAll(amp', "<", "&lt;");
    var gt' := ReplaceAll(lt', ">", "&gt;");
    var quot' := ReplaceAll(gt', "\"", "&quot;");
    ReplaceCharConcat(a, b, '&', "&amp;");
    ReplaceCharConcat(amp, amp', '<', "&lt;");
    ReplaceCharConcat(lt, lt', '>', "&gt;");
    ReplaceCharConcat(gt, gt', '"', "&quot;");
    ReplaceCharConcat(quot, quot', '\'', "&#x27;");
  }

  /** The last four replacements leave text without their characters alone. */
  lemma ChainAbsent(amp: string)
    requires '<' !in amp && '>' !in amp && '"' !in amp && '\'' !in amp
    ensures ReplaceAll(ReplaceAll(ReplaceAll(ReplaceAll(amp, "<", "&lt;"), ">", "&gt;"), "\"", "&quot;"), "'", "&#x27;") == amp
  {
    ReplaceCharAbsent(amp, '<', "&lt;");
    ReplaceCharAbsent(amp, '>', "&gt;");
    ReplaceCharAbsent(amp, '"', "&quot;");
    ReplaceCharAbsent(amp, '\'', "&#x27;");
  }

  /** One replacement applied to a one-character string. */
  lemma ReplaceOne(x: char, c: char, rep: string)
    ensures ReplaceAll([x], [c], rep) == if x == c then rep else [x]
  {
    assert [x] + [] == [x];
    ReplaceCharCons(x, [], c, rep);
  }

  /** The replacement chain sends one character to its reference. */
  lemma HtmlEscapeChar(c: char)
    ensures HtmlEscape([c]) == EscapeChar(c)
  {
    ReplaceOne(c, '&', "&amp;");
    if c == '&' {
      ChainAbsent("&amp;");
    } else {
      ReplaceOne(c, '<', "&lt;");
      if c == '<' {
        ReplaceCharAbsent("&lt;", '>', "&gt;");
        ReplaceCharAbsent("&lt;", '"', "&quot;");
        ReplaceCharAbsent("&lt;", '\'', "&#x27;");
      } else {
        ReplaceOne(c, '>', "&gt;");
        if c == '>' {
          ReplaceCharAbsent("&gt;", '"', "&quot;");
          ReplaceCharAbsent("&gt;", '\'', "&#x27;");
        } else {
          ReplaceOne(c, '"', "&quot;");
          if c == '"' {
            ReplaceCharAbsent("&quot;", '\'', "&#x27;");
          } else {
            ReplaceOne(c, '\'', "&#x27;");
          }
        }
      }
    }
  }

  /** The replacement chain equals escaping each character on its own: `&` going first is
      what keeps the references of the later steps from being escaped twice. */
  lemma {:induction false} HtmlEscapeIsPerChar(s: string)
    ensures HtmlEscape(s) == EscapeEach(s)
    decreases |s|
  {
    if s == [] {
      assert HtmlEscape(s) == [];
    } else {
      assert s == [s[0]] + s[1..];
      HtmlEscapeConcat([s[0]], s[1..]);
      HtmlEscapeChar(s[0]);
      HtmlEscapeIsPerChar(s[1..]);
    }
  }

  /** The escaped text holds none of `<`, `>`, `"` and `'`, so it can neither open a tag nor
      end an attribute value. */
  lemma HtmlEscapeIsInert(s: string)
    ensures '<' !in HtmlEscape(s) && '>' !in HtmlEscape(s)
    ensures '"' !in HtmlEscape(s) && '\'' !in HtmlEscape(s)
  {
    HtmlEscapeIsPerChar(s);
  }

  /** Text without any of the five special characters is left as it is. */
  lemma {:induction false} EscapeEachUnchanged(s: string)
    requires forall i :: 0 <= i < |s| ==> EscapeChar(s[i]) == [s[i]]
    ensures EscapeEach(s) == s
    decreases |s|
  {
    if s != [] {
      EscapeEachUnchanged(s[1..]);
      assert s == [s[0]] + s[1..];
    }
  }

  lemma HtmlEscapeUnchanged(s: string)
    requires forall i :: 0 <= i < |s| ==> s[i] !in "&<>\"'"
    ensures HtmlEscape(s) == s
  {
    HtmlEscapeIsPerChar(s);
    EscapeEachUnchanged(s);
  }

  /** Escaping keeps every other character where it was: a newline is in the escaped text
      exactly when it is in the original. */
  lemma {:induction false} EscapeEachKeepsNewlines(s: string)
    ensures '\n' in EscapeEach(s) <==> '\n' in s
    decreases |s|
  {
    if s != [] {
      EscapeEachKeepsNewlines(s[1..]);
      assert s == [s[0]] + s[1..];
      assert EscapeEach(s) == EscapeChar(s[0]) + EscapeEach(s[1..]);
      EscapeCharKeepsNewline(s[0]);
    }
  }

  lemma EscapeCharKeepsNewline(c: char)
    ensures '\n' in EscapeChar(c) <==> c == '\n'
  {
    if c == '\n' {
      assert EscapeChar(c) == [c];
    }
  }

  lemma HtmlEscapeKeepsNewlines(s: string)
    ensures '\n' in HtmlEscape(s) <==> '\n' in s
  {
    HtmlEscapeIsPerChar(s);
    EscapeEachKeepsNewlines(s);
  }

  /** Decoding a reference that is not `&amp;`: the decoder tries the references in order
      and only the given one fits, since they differ in their second character. */
  lemma UnescapeRef(r: string, c: char, rest: string)
    requires r in ["&lt;", "&gt;", "&quot;", "&#x27;"]
    requires c == (if r == "&lt;" then '<' else if r == "&gt;" then '>' else if r == "&quot;" then '"' else '\'')
    ensures Unescape(r + rest) == [c] + Unescape(rest)
  {
    var e := r + rest;
    assert e[..|r|] == r && e[|r|..] == rest;
    assert e[1] == r[1];
    DiffersFrom(e, "&amp;", 1);
    if r != "&lt;" {
      DiffersFrom(e, "&lt;", 1);
      if r != "&gt;" {
        DiffersFrom(e, "&gt;", 1);
        if r != "&quot;" {
          DiffersFrom(e, "&quot;", 1);
        }
      }
    }
  }

  lemma UnescapeAmp(rest: string)
    ensures Unescape("&amp;" + rest) == "&" + Unescape(rest)
  {
    var e := "&amp;" + rest;
    assert e[..5] == "&amp;" && e[5..] == rest;
  }

  /** Any other character decodes to itself. */
  lemma UnescapePlain(c: char, rest: string)
    requires c != '&'
    ensures Unescape([c] + rest) == [c] + Unescape(rest)
  {
    var e := [c] + rest;
    assert e[0] == c && e[1..] == rest;
    DiffersFrom(e, "&amp;", 0);
    DiffersFrom(e, "&lt;", 0);
    DiffersFrom(e, "&gt;", 0);
    DiffersFrom(e, "&quot;", 0);
    DiffersFrom(e, "&#x27;", 0);
  }

  /** Decoding the reference of one character gives back that character. */
  lemma UnescapeChar(c: char, rest: string)
    ensures Unescape(EscapeChar(c) + rest) == [c] + Unescape(rest)
  {
    if c == '&' {
      UnescapeAmp(rest);
    } else if c == '<' || c == '>' || c == '"' || c == '\'' {
      UnescapeRef(EscapeChar(c), c, rest);
    } else {
      UnescapePlain(c, rest);
    }
  }

  lemma {:induction false} UnescapeEscapeEach(s: string)
    ensures Unescape(EscapeEach(s)) == s
    decreases |s|
  {
    if s != [] {
      assert EscapeEach(s) == EscapeChar(s[0]) + EscapeEach(s[1..]);
      UnescapeChar(s[0], EscapeEach(s[1..]));
      UnescapeEscapeEach(s[1..]);
      assert [s[0]] + s[1..] == s;
    }
  }

  /** Escaping loses nothing: decoding the escaped text gives back the original. */
  lemma UnescapeEscape(s: string)
    ensures Unescape(HtmlEscape(s)) == s
  {
    HtmlEscapeIsPerChar(s);
    UnescapeEscapeEach(s);
  }
}
