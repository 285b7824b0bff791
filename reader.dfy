/** The `/read` endpoint: the checks made before anything is fetched, the steps from the
    fetched page to the preview, and the values the page template is filled with. */
module Reader {
  import opened Wrappers
  import opened Text
  import opened Excerpts
  import opened MediaStrip
  import opened Escape
  import opened Allowlist

  /** The settings read once at start-up: the `ALLOWLIST` setting as written and `MAX_CHARS`.
      The allowlist the host is checked against is always the one parsed from the setting. */
  datatype Config = Config(allowlist: string, maxChars: int) {
    function Allow(): set<string> {
      ParseAllowlist(allowlist)
    }
  }

  /** What the article extractor returns: a short title and the main content as markup. */
  datatype Article = Article(title: string, content: string)

  /** The reply: an error status, or the values the page template is filled with (each
      already escaped, the content already markup). */
  datatype Response =
    | Refused(status: int)
    | Page(title: string, orig: string, host: string, content: string)

  const BadRequest: int := 400
  const Forbidden: int := 403
  const BadGateway: int := 502

  predicate HasWebScheme(url: string) {
    StartsWith(url, "http://") || StartsWith(url, "https://")
  }

  /** The checks made before fetching: the scheme first, then the allowlist. */
  function Gate(cfg: Config, url: string, host: Option<string>): (r: Option<int>)
    ensures r == Some(BadRequest) <==> !HasWebScheme(url)
    ensures r == Some(Forbidden) <==> HasWebScheme(url) && !IsAllowed(cfg.Allow(), host)
    ensures r.None? <==> HasWebScheme(url) && IsAllowed(cfg.Allow(), host)
  {
    if !HasWebScheme(url) then Some(BadRequest)
    else if !IsAllowed(cfg.Allow(), host) then Some(Forbidden)
    else None
  }

  /** The excerpt as one paragraph: escaped, each newline closing a paragraph and opening
      the next, the whole wrapped in `<p>`…`</p>`. */
  function Paragraphs(text: string): string {
    "<p>" + ReplaceAll(HtmlEscape(text), "\n", "</p><p>") + "</p>"
  }

  /** The host shown on the page: the URL's host, or `source` when there is none or it is
      empty, lowercased, with every `www.` removed wherever it occurs. */
  function DisplayHost(host: Option<string>): string {
    ReplaceAll(Lower(if host.Some? && host.value != "" then host.value else "source"), "www.", "")
  }

  /** The extractor's result with its fallbacks: `("Article", "")` when extraction fails,
      and the title `Article` when it finds an empty one. */
  function Extracted(extract: string -> Option<Article>, page: string): (a: Article)
    ensures extract(page).None? ==> a == Article("Article", "")
    ensures extract(page).Some? ==> a.content == extract(page).value.content
    ensures a.title != ""
    ensures extract(page).Some? && extract(page).value.title != "" ==> a.title == extract(page).value.title
  {
    match extract(page)
    case None => Article("Article", "")
    case Some(a) => Article(if a.title == "" then "Article" else a.title, a.content)
  }

  /** `read(url)`. The host the URL parses to, the outcome of the fetch (`None` for any
      failure, an error status included), the article extractor (`None` when it fails), the
      sanitizer with the text-only vocabulary, and the sanitizer that keeps no tag at all
      are parameters. */
  function Read(cfg: Config, url: string, host: Option<string>, fetched: Option<string>,
                extract: string -> Option<Article>, sanitize: string -> string,
                textOf: string -> string): (r: Response)
    ensures Gate(cfg, url, host).Some? ==> r == Refused(Gate(cfg, url, host).value)
    ensures Gate(cfg, url, host).None? && fetched.None? ==> r == Refused(BadGateway)
    ensures r.Page? <==> Gate(cfg, url, host).None? && fetched.Some?
  {
    match Gate(cfg, url, host)
    case Some(status) => Refused(status)
    case None =>
      if fetched.None? then Refused(BadGateway)
      else
        var article := Extracted(extract, fetched.value);
        var cleaned := sanitize(StripMedia(article.content));
        var text := Excerpt(textOf(cleaned), cfg.maxChars);
        Page(HtmlEscape(article.title), HtmlEscape(url), HtmlEscape(DisplayHost(host)), Paragraphs(text))
  }

  /** A URL without an `http://` or `https://` scheme is refused with 400 whatever the
      allowlist and the host; 403 needs a good scheme. */
  lemma SchemeCheckedFirst(cfg: Config, cfg': Config, url: string, host: Option<string>, host': Option<string>)
    requires !HasWebScheme(url)
    ensures Gate(cfg, url, host) == Gate(cfg', url, host') == Some(BadRequest)
  {
  }

  /** With a non-empty allowlist, a URL whose host is missing, empty or unparsable is
      refused with 403 before anything is fetched. */
  lemma NoHostForbidden(cfg: Config, url: string, fetched: Option<string>,
                        extract: string -> Option<Article>, sanitize: string -> string,
                        textOf: string -> string)
    requires HasWebScheme(url) && cfg.Allow() != {}
    ensures Read(cfg, url, None, fetched, extract, sanitize, textOf) == Refused(Forbidden)
    ensures Read(cfg, url, Some(""), fetched, extract, sanitize, textOf) == Refused(Forbidden)
  {
    NoHostRejected(cfg.allowlist);
  }

  /** A refused request never looks at the fetch, the extractor or the sanitizers: nothing
      is fetched before both checks pass. */
  lemma RefusalFetchesNothing(cfg: Config, url: string, host: Option<string>,
                              fetched: Option<string>, fetched': Option<string>,
                              extract: string -> Option<Article>, extract': string -> Option<Article>,
                              sanitize: string -> string, sanitize': string -> string,
                              textOf: string -> string, textOf': string -> string)
    requires Gate(cfg, url, host).Some?
    ensures Read(cfg, url, host, fetched, extract, sanitize, textOf)
         == Read(cfg, url, host, fetched', extract', sanitize', textOf')
    ensures Read(cfg, url, host, fetched, extract, sanitize, textOf).status in {BadRequest, Forbidden}
  {
  }

  /** A text without newlines is escaped and wrapped as a single paragraph. */
  lemma NoNewlineOneParagraph(text: string)
    requires '\n' !in text
    ensures Paragraphs(text) == "<p>" + HtmlEscape(text) + "</p>"
  {
    var e := HtmlEscape(text);
    HtmlEscapeKeepsNewlines(text);
    forall i | 0 <= i < |e| ensures !StartsWith(e[i..], "\n") {
      assert e[i..][0] == e[i];
    }
    ReplaceAllAbsent(e, "\n", "</p><p>");
  }

  /** `<p>`, a text with no `<` and no `>`, then `</p>`: the only markup is at the ends. */
  lemma WrapShape(e: string)
    requires '<' !in e && '>' !in e
    ensures var c := "<p>" + e + "</p>";
      && |c| >= 7 && c[..3] == "<p>" && c[|c| - 4..] == "</p>"
      && '<' !in c[1..|c| - 4] && '>' !in c[3..|c| - 4]
      && c[3..|c| - 4] == e
  {
    var c := "<p>" + e + "</p>";
    assert c[3..|c| - 4] == e;
    assert c[1..|c| - 4] == "p>" + e;
  }

  /** A text without newlines becomes one paragraph whose only markup is the `<p>` and
      `</p>` around it, and whose inside decodes to the text. */
  lemma PlainTextIsOneParagraph(t: string)
    requires '\n' !in t
    ensures var c := Paragraphs(t);
      && |c| >= 7 && c[..3] == "<p>" && c[|c| - 4..] == "</p>"
      && '<' !in c[1..|c| - 4] && '>' !in c[3..|c| - 4]
      && Unescape(c[3..|c| - 4]) == t
  {
    NoNewlineOneParagraph(t);
    HtmlEscapeIsInert(t);
    WrapShape(HtmlEscape(t));
    UnescapeEscape(t);
  }

  /** Every excerpt becomes one escaped paragraph. */
  lemma ExcerptIsOneParagraph(text: string, limit: int)
    ensures var c := Paragraphs(Excerpt(text, limit));
      && |c| >= 7 && c[..3] == "<p>" && c[|c| - 4..] == "</p>"
      && '<' !in c[1..|c| - 4] && '>' !in c[3..|c| - 4]
      && Unescape(c[3..|c| - 4]) == Excerpt(text, limit)
  {
    ExcerptShape(text, limit);
    PlainTextIsOneParagraph(Excerpt(text, limit));
  }

  /** The preview is always one escaped paragraph holding the excerpt of the article's
      text: at most `MAX_CHARS` characters and an ellipsis, with no line break. */
  lemma SingleParagraph(cfg: Config, url: string, host: Option<string>, fetched: Option<string>,
                        extract: string -> Option<Article>, sanitize: string -> string,
                        textOf: string -> string)
    requires Read(cfg, url, host, fetched, extract, sanitize, textOf).Page?
    ensures var c := Read(cfg, url, host, fetched, extract, sanitize, textOf).content;
      && |c| >= 7 && c[..3] == "<p>" && c[|c| - 4..] == "</p>"
      && '<' !in c[1..|c| - 4] && '>' !in c[3..|c| - 4]
      && (cfg.maxChars >= 0 ==> |Unescape(c[3..|c| - 4])| <= cfg.maxChars + 1)
      && '\n' !in Unescape(c[3..|c| - 4])
  {
    var text := textOf(sanitize(StripMedia(Extracted(extract, fetched.value).content)));
    ExcerptIsOneParagraph(text, cfg.maxChars);
    ExcerptShape(text, cfg.maxChars);
  }

  /** The title, the URL and the host are escaped before they reach the page: none of them
      can open a tag or end the attribute value it is placed in. */
  lemma PageFieldsInert(cfg: Config, url: string, host: Option<string>, fetched: Option<string>,
                        extract: string -> Option<Article>, sanitize: string -> string,
                        textOf: string -> string)
    requires Read(cfg, url, host, fetched, extract, sanitize, textOf).Page?
    ensures var p := Read(cfg, url, host, fetched, extract, sanitize, textOf);
      && '<' !in p.title && '"' !in p.title
      && '<' !in p.orig && '"' !in p.orig && '\'' !in p.orig
      && '<' !in p.host && '"' !in p.host
      && Unescape(p.orig) == url
  {
    HtmlEscapeIsInert(Extracted(extract, fetched.value).title);
    HtmlEscapeIsInert(url);
    HtmlEscapeIsInert(DisplayHost(host));
    UnescapeEscape(url);
  }

  /** The title falls back to `Article` when the extractor fails or finds no title;
      otherwise the page shows the extracted title, escaped. */
  lemma TitleFallback(cfg: Config, url: string, host: Option<string>, fetched: Option<string>,
                      extract: string -> Option<Article>, sanitize: string -> string,
                      textOf: string -> string)
    requires Read(cfg, url, host, fetched, extract, sanitize, textOf).Page?
    ensures var p := Read(cfg, url, host, fetched, extract, sanitize, textOf);
      && (extract(fetched.value).None? || extract(fetched.value).value.title == "" ==> p.title == "Article")
      && (extract(fetched.value).Some? && extract(fetched.value).value.title != "" ==>
            Unescape(p.title) == extract(fetched.value).value.title)
  {
    var a := Extracted(extract, fetched.value);
    ArticleEscapesToItself();
    UnescapeEscape(a.title);
  }

  lemma ArticleEscapesToItself()
    ensures HtmlEscape("Article") == "Article"
  {
    var t := "Article";
    forall i | 0 <= i < |t| ensures t[i] !in "&<>\"'" {
      assert t[i] in "Arcitle";
    }
    HtmlEscapeUnchanged(t);
  }

  /** Without a host, or with an empty one, the page names `source`; otherwise the shown
      host is the lowercased host with characters deleted, and a host without `www.` is only
      lowercased. */
  lemma DisplayHostShape(host: string)
    ensures DisplayHost(None) == DisplayHost(Some("")) == "source"
    ensures host != "" ==> IsSubsequence(DisplayHost(Some(host)), Lower(host))
    ensures host != "" && (forall i :: 0 <= i < |host| ==> !StartsWith(Lower(host)[i..], "www.")) ==>
      DisplayHost(Some(host)) == Lower(host)
  {
    RemoveAllDeletes(Lower(host), "www.");
    if forall i :: 0 <= i < |host| ==> !StartsWith(Lower(host)[i..], "www.") {
      ReplaceAllAbsent(Lower(host), "www.", "");
    }
    SourceShownAsIs("source");
  }

  lemma SourceShownAsIs(s: string)
    requires s == "source"
    ensures ReplaceAll(Lower(s), "www.", "") == s
  {
    LowerOfLowercase(s);
    forall i | 0 <= i < |s| ensures !StartsWith(s[i..], "www.") {
      DiffersFrom(s[i..], "www.", 0);
    }
    ReplaceAllAbsent(s, "www.", "");
  }

  /** One step of the left-to-right scan of `str.replace`: no occurrence starts here. */
  lemma ReplaceSkip(s: string, pat: string, rep: string, k: nat)
    requires pat != [] && s != []
    requires k < |pat| && k < |s| && s[k] != pat[k]
    ensures ReplaceAll(s, pat, rep) == [s[0]] + ReplaceAll(s[1..], pat, rep)
  {
    DiffersFrom(s, pat, k);
  }

  /** Removing `www.` in one left-to-right pass can leave a `www.` behind. */
  lemma DisplayHostKeepsWww()
    ensures DisplayHost(Some("wwwww.w.")) == "www."
  {
    LowerOfLowercase("wwwww.w.");
    WwwScan("wwwww.w.");
  }

  /** The scan keeps two `w`s, deletes the `www.` after them, and keeps `w.`. */
  lemma WwwScan(s: string)
    requires s == "wwwww.w."
    ensures ReplaceAll(s, "www.", "") == "www."
  {
    ReplaceSkip(s, "www.", "", 3);
    ReplaceSkip(s[1..], "www.", "", 3);
    assert s[1..][1..] == "www.w.";
    WwwThenRest(s[1..][1..]);
    assert [s[0]] + ([s[1..][0]] + "w.") == "www.";
  }

  lemma WwwThenRest(u: string)
    requires u == "www.w."
    ensures ReplaceAll(u, "www.", "") == "w."
  {
    assert u[..4] == "www." && u[4..] == "w.";
    var v := u[4..];
    ReplaceSkip(v, "www.", "", 1);
    assert v[1..] == ".";
    ReplaceSkip(v[1..], "www.", "", 0);
    assert v[1..][1..] == [];
  }

  lemma NoWwwInSiteCom(rest: string)
    requires rest == "site.com"
    ensures ReplaceAll(rest, "www.", "") == rest
  {
    forall i | 0 <= i < |rest| ensures !StartsWith(rest[i..], "www.") {
      DiffersFrom(rest[i..], "www.", 0);
    }
    ReplaceAllAbsent(rest, "www.", "");
  }

  lemma LeadingWwwRemoved(u: string)
    requires u == "www.site.com"
    ensures ReplaceAll(u, "www.", "") == "site.com"
  {
    assert u[..4] == "www.";
    assert u[4..] == "site.com";
    NoWwwInSiteCom(u[4..]);
  }

  lemma InnerWwwRemoved(m: string)
    requires m == "mywww.site.com"
    ensures ReplaceAll(m, "www.", "") == "mysite.com"
  {
    var y := m[1..];
    assert y == "ywww.site.com" && m[0] == 'm';
    WwwAfterOneChar(y);
    ReplaceSkip(m, "www.", "", 0);
    assert [m[0]] + "ysite.com" == "mysite.com";
  }

  lemma WwwAfterOneChar(y: string)
    requires y == "ywww.site.com"
    ensures ReplaceAll(y, "www.", "") == "ysite.com"
  {
    assert y[1..] == "www.site.com" && y[0] == 'y';
    LeadingWwwRemoved(y[1..]);
    ReplaceSkip(y, "www.", "", 0);
    assert [y[0]] + "site.com" == "ysite.com";
  }

  lemma MiddleWwwRemoved()
    ensures DisplayHost(Some("mywww.site.com")) == "mysite.com"
  {
    LowerOfLowercase("mywww.site.com");
    InnerWwwRemoved("mywww.site.com");
  }

  lemma MiddleWwwKept()
    ensures NormalizeHost("mywww.site.com") == "mywww.site.com"
  {
    LowerOfLowercase("mywww.site.com");
    DiffersFrom("mywww.site.com", "www.", 0);
  }

  /** The page removes `www.` from the middle of a host too, unlike the allowlist check,
      which compares the host without one leading `www.` only. */
  lemma DisplayHostDiffersFromCompared()
    ensures DisplayHost(Some("mywww.site.com")) == "mysite.com"
    ensures NormalizeHost("mywww.site.com") == "mywww.site.com"
  {
    MiddleWwwRemoved();
    MiddleWwwKept();
  }
}
