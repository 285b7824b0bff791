# Eggcracker text-only reader: a Dafny model of its pure core

The Eggcracker reader is a small web service with one page, `/read?url=…`. It fetches an
article from an allowlisted domain and returns a text-only preview. The preview is:

- the article's title,
- a link back to the source,
- the host the article came from,
- at most `MAX_CHARS` characters of the article's plain text, escaped and wrapped in one
  `<p>` paragraph.

This project models the deterministic part of that pipeline and proves what it promises:

- `Allowlist`: parsing the `ALLOWLIST` setting and the host check (`is_allowed`).
- `MediaStrip`: the media stripper (`strip_media`). It is modelled as three regular-expression
  deletions with Python's matching rules written out:
  - leftmost, non-overlapping matches;
  - the shortest extent for the lazy `.*?`;
  - `IGNORECASE` comparison through the engine's simple lowercase mapping;
  - the back-reference `\1` compared case-insensitively.
- `Excerpts`: the plain-text excerpt (`excerpt`): whitespace collapsed and trimmed, then cut to
  the budget, with `…` marking a cut.
- `Escape`: `html.escape` as the standard library writes it (five `str.replace` calls). It is
  proved equal to escaping each character on its own and proved invertible.
- `Vocabulary`: the text-only tag and attribute lists handed to the sanitizer, and which
  attributes they let through.
- `Reader`: the `/read` handler as a function from its inputs to a response:
  - a refusal with status 400, 403 or 502;
  - or the four values the page template is filled with.

  The fetch, the article extractor, the two sanitizer calls and the URL parser are outside
  the model. They are parameters of `Reader.Read`.
- `Text`: the Python `str` operations used along the way (`isspace`, `strip`, `lower`,
  `replace`).

## Model

| member | source | states |
|---|---|---|
| Text.TrimStart | app.py:52 | the result is a suffix of the input; every dropped character is whitespace; the result does not start with whitespace |
| Text.TrimEnd | app.py:52 | the result is a prefix of the input; every dropped character is whitespace; the result does not end with whitespace |
| Text.LowerAscii | app.py:36 | an uppercase ASCII letter becomes the letter at the same place in the lowercase alphabet; every other character is unchanged; the result is never an uppercase ASCII letter |
| Text.Lower | app.py:36 | same length as the input, each character lowercased where it stands, so no uppercase ASCII letter remains |
| Text.LowerIdempotent | app.py:36 | lowercasing twice is lowercasing once |
| Text.LowerConcat | app.py:36 | lowercasing distributes over concatenation |
| Text.RemoveAllDeletes | app.py:118 | `replace(pat, "")` only deletes characters: the result is a subsequence of the input |
| Text.ReplaceAllAbsent | app.py:118 | a string with no occurrence of the pattern is returned unchanged |
| Text.DiffersFrom | app.py:118 | a text that differs from the pattern at some position does not start with it |
| Text.LowerOfLowercase | app.py:118 | lowercasing a string that has no uppercase letters changes nothing |
| Excerpts.PyPrefix | app.py:53 | Python's `t[:n]` is a prefix of `t`: of length `n` clamped to `|t|` for `n >= 0`, and of length `|t| + n` clamped to 0 for negative `n` |
| Excerpts.Excerpt | app.py:50-53 | for a non-negative limit, at most `limit + 1` characters; the normalized text is returned whole when it fits; otherwise its first `limit` characters followed by `…`; the length for a negative limit |
| Excerpts.CollapseSpacesShape | app.py:52 | collapsing leaves single spaces only; it is empty exactly when the input is; it starts with whitespace exactly when the input does |
| Excerpts.CollapseSpacesKeepsText | app.py:52 | collapsing keeps every non-whitespace character, in order |
| Excerpts.CollapseSpacesFixpoint | app.py:52 | collapsing changes nothing exactly when the text is already collapsed |
| Excerpts.CollapsedSlice | app.py:53 | a slice of a collapsed text is collapsed |
| Excerpts.CollapseNoLonger | app.py:52 | collapsing whitespace never lengthens the text |
| Excerpts.NormalizeNoLonger | app.py:52 | collapsing and stripping never lengthen the text |
| Excerpts.ShortInputPassesThrough | app.py:52-53 | an input of at most `limit` characters is never cut: the excerpt is the input collapsed and stripped, with no ellipsis |
| Excerpts.StripIsNormalized | app.py:52 | stripping a collapsed text leaves single spaces only and none at either end |
| Excerpts.StripKeepsText | app.py:52 | stripping removes whitespace only |
| Excerpts.NormalizeShape | app.py:52 | the normalized text has single spaces only and none at either end, and keeps every non-whitespace character in order |
| Excerpts.NormalizeFixpoint | app.py:52 | normalizing changes nothing exactly when the text is already normalized |
| Excerpts.CollapsedHasOnlySpaces | app.py:52 | a collapsed text holds no newline, tab or carriage return |
| Excerpts.CutIsNormalized | app.py:53 | a normalized text cut anywhere, with `…` appended, is still normalized |
| Excerpts.ExcerptShape | app.py:50-53 | for every limit, the excerpt is collapsed, does not start with whitespace, and holds no newline or tab |
| Excerpts.ExcerptIdempotent | app.py:50-53 | with a non-negative limit, the excerpt of an excerpt is the excerpt itself |
| MediaStrip.FirstTag | app.py:42-43 | the first tag-name alternative, in pattern order, that matches at the start of the text |
| MediaStrip.OpenTag | app.py:42-43 | `<` followed by a media tag name, in any letter case, matches exactly when one of the alternatives matches after the `<` |
| MediaStrip.AlternativesExclusive | app.py:42-43 | no text starts with two different alternatives, so their order never changes which name matches |
| MediaStrip.IndexOf | app.py:42-44 | the first index at or after `from` that holds the character |
| MediaStrip.FindClose | app.py:42 | the first `</name>` at or after `from`, with the name compared as the case-insensitive back-reference compares it |
| MediaStrip.BlockMatch | app.py:42 | a pass-1 match is non-empty and lies within the text |
| MediaStrip.BlockFrom | app.py:42 | a pass-1 match extends past the tag name |
| MediaStrip.TagMatch | app.py:43 | a pass-2 match is non-empty and lies within the text |
| MediaStrip.SkipSpaces | app.py:44 | `\s*`: the maximal run of whitespace starting at `from` |
| MediaStrip.BackgroundMatch | app.py:44 | a pass-3 match is non-empty and lies within the text |
| MediaStrip.StripMedia | app.py:41-45 | the stripper only deletes characters: the result is a subsequence of the input, and no longer |
| MediaStrip.SubstituteDeletes | app.py:42-44 | each `re.sub(…, "")` pass only deletes characters |
| MediaStrip.SubstituteNoMatch | app.py:42-44 | a pass that matches at no position returns its input unchanged |
| MediaStrip.SubstituteKeepsPrefix | app.py:42-44 | text before the first match is kept character for character, and the scan goes on from there |
| MediaStrip.SubstituteLeftmost | app.py:42-44 | text before the leftmost match is kept; the match is deleted; the scan resumes right after it |
| MediaStrip.MatchStart | app.py:42-43 | passes 1 and 2 match only at a `<` |
| MediaStrip.BackgroundStart | app.py:44 | pass 3 matches only where `background-image:` starts, in any letter case |
| MediaStrip.StripMediaUnchanged | app.py:41-45 | a text with no `<` and no `background-image:` in any letter case comes out unchanged |
| MediaStrip.BlockFromSound | app.py:42 | what pass 1 deletes is `<name`, the text up to the first `>`, then the text up to the first closing tag after that `>` |
| MediaStrip.BlockFromComplete | app.py:42 | every span of that shape is exactly what pass 1 deletes |
| MediaStrip.BlockMatchIff | app.py:42 | pass 1 matches with length `len` exactly when the text starts with such a block of that length |
| MediaStrip.IndexOfIff | app.py:42-44 | the search finds `q` exactly when `q` holds the character and no earlier index from the start does |
| MediaStrip.TagMatchIff | app.py:43 | pass 2 matches with length `len` exactly when the text starts with `<name` and the first `>` after the name ends at `len` |
| MediaStrip.BackgroundMatchSound | app.py:44 | what pass 3 deletes is `background-image:`, whitespace, `url(`, text up to the first `)`, that `)`, and a `;` right after it if present |
| MediaStrip.SpaceRunEndsAtUrl | app.py:44 | the whitespace run ends exactly where `url(` starts |
| MediaStrip.BackgroundMatchComplete | app.py:44 | every span of that shape is exactly what pass 3 deletes |
| MediaStrip.BackgroundMatchIff | app.py:44 | pass 3 matches with length `len` exactly when the text starts with such a span of that length |
| MediaStrip.ShortHasNoBackground | app.py:44 | a text shorter than `background-image:` passes pass 3 unchanged |
| MediaStrip.NoTagAfter | app.py:42-43 | `<` followed by `/` or `<` opens no media tag |
| MediaStrip.NoLtNoMatch | app.py:42-43 | a text with no `<` passes passes 1 and 2 unchanged |
| MediaStrip.BlocksBeforeTags | app.py:42-43 | `<video>x</video>` is deleted whole; with the two passes swapped, `x</video>` would be left |
| MediaStrip.NoWordBoundary | app.py:42-43 | nothing stops the name at a word boundary: `a<videos>b` becomes `ab` |
| MediaStrip.DeletionCanFormATag | app.py:41-45 | a deletion can join the pieces around it into a media tag: `<<img>img>` becomes `<img>` |
| Escape.EscapeChar | app.py:115 | a character escapes to text without `<`, `>`, `"` and `'`; it is kept as itself exactly when it is none of the five special characters |
| Escape.EscapeEach | app.py:115 | escaping each character gives text without `<`, `>`, `"` and `'`, and never shorter |
| Escape.ReplaceCharConcat | app.py:115 | replacing a single character distributes over concatenation |
| Escape.HtmlEscapeConcat | app.py:115 | `html.escape` distributes over concatenation |
| Escape.HtmlEscapeChar | app.py:115 | the replacement chain sends one character to its reference |
| Escape.HtmlEscapeIsPerChar | app.py:115 | the chain of five replacements, `&` first, equals escaping each character on its own |
| Escape.HtmlEscapeUnchanged | app.py:115 | a text with none of `&`, `<`, `>`, `"` and `'` is left as it is |
| Escape.HtmlEscapeIsInert | app.py:115 | the escaped text holds no `<`, `>`, `"` or `'` |
| Escape.HtmlEscapeKeepsNewlines | app.py:115 | a newline is in the escaped text exactly when it is in the original |
| Escape.UnescapeChar | app.py:115 | decoding one character's reference gives back that character |
| Escape.UnescapeEscape | app.py:115 | decoding the escaped text gives back the original: escaping loses nothing |
| Allowlist.Split | app.py:13 | `split(",")` gives at least one piece, and no piece holds the separator |
| Allowlist.JoinSplit | app.py:13 | joining the pieces with the separator gives back the setting |
| Allowlist.SplitJoin | app.py:13 | splitting a join of separator-free pieces gives back the pieces |
| Allowlist.ParseAllowlist | app.py:13 | the entries are exactly the non-empty pieces of the comma split, as written; so none is empty or holds a comma |
| Allowlist.EntriesKeptAsWritten | app.py:13 | no trimming and no lowercasing: `a.com, News.org` gives the entries `a.com` and ` News.org` |
| Allowlist.SplitOfSeparators | app.py:13 | a setting of commas alone splits into empty pieces only |
| Allowlist.NonSeparatorInSomePiece | app.py:13 | every character other than a comma ends up in some piece |
| Allowlist.EmptyAllowlist | app.py:13 | the allowlist is empty, so every host is allowed, exactly when the setting holds nothing but commas |
| Allowlist.NormalizeHost | app.py:36-38 | the compared host is lowercase; one leading `www.` is removed when present, and the host is otherwise only lowercased |
| Allowlist.NoHostRejected | app.py:29-34 | with a non-empty allowlist, a URL with no host (or an empty one) is refused |
| Allowlist.CaseInsensitive | app.py:36 | the letter case of the host does not change the answer |
| Allowlist.WwwIgnored | app.py:35-38 | a leading `www.`, in any letter case, does not change the answer, unless the rest starts with `www.` again |
| Allowlist.SubdomainsMatch | app.py:39 | a host matches an entry when it is the entry, or a subdomain of it |
| Allowlist.ExampleComEntry | app.py:39 | `news.example.com` matches `example.com`; `badexample.com` does not, because the dot is missing |
| Allowlist.MissingCharNeverMatches | app.py:39 | a host lacking one of the entry's characters matches neither the entry nor a subdomain of it |
| Allowlist.UppercaseEntryNeverMatches | app.py:36-39 | an entry with an uppercase letter matches no host |
| Allowlist.SpacedEntryNeverMatches | app.py:13-39 | an entry holding a space matches no host without a space |
| Allowlist.WwwEntryMissesItsHost | app.py:37-39 | the entry `www.example.com` does not match the host `www.example.com` |
| Vocabulary.AttrAllowedIff | app.py:23-26 | an attribute is kept exactly when it is `class`, or it is `href`, `title` or `rel` on `a` |
| Vocabulary.NoMediaTagAllowed | app.py:19-22 | none of the media tag names is a kept tag |
| Vocabulary.ActiveAttrsNeverAllowed | app.py:23-26 | `src`, `srcset`, `style`, `background`, `poster` and every `on…` handler are dropped on every tag |
| Vocabulary.ActiveTagsNotAllowed | app.py:19-22 | `script`, `style`, `object`, `embed`, `form`, `input`, `link` and `meta` are not kept tags |
| Reader.Gate | app.py:89-92 | 400 exactly when the URL lacks an `http://` or `https://` scheme; 403 exactly when the scheme is right and the host is not allowed by the allowlist parsed from the setting; no refusal otherwise |
| Reader.Extracted | app.py:102-107 | extraction failure gives title `Article` and empty content; an empty extracted title becomes `Article`; otherwise the extracted title and content are used |
| Reader.Read | app.py:87-122 | a failed check gives its status; a failed fetch gives 502; a page is returned exactly when both checks pass and the fetch succeeds |
| Reader.NoHostForbidden | app.py:28-34 | with a non-empty allowlist, a URL whose host is missing, empty or unparsable is not allowed, so the handler answers 403 (line 92) |
| Reader.SchemeCheckedFirst | app.py:89-92 | a URL with a bad scheme gets 400 whatever the allowlist and the host |
| Reader.RefusalFetchesNothing | app.py:88-100 | a refused request has status 400 or 403, and its response depends on none of the fetch, the extractor or the sanitizers |
| Reader.NoNewlineOneParagraph | app.py:115 | a text with no newline becomes `<p>`, its escaped form, then `</p>` |
| Reader.PlainTextIsOneParagraph | app.py:115 | a text with no newline becomes one paragraph: its only markup is the `<p>` and `</p>` around it, and its inside decodes to the text |
| Reader.ExcerptIsOneParagraph | app.py:114-115 | every excerpt becomes one paragraph whose only markup is the `<p>` and `</p>` around it, and whose inside decodes to the excerpt |
| Reader.SingleParagraph | app.py:109-115 | the preview is one paragraph; its decoded text is at most `MAX_CHARS` characters plus the ellipsis and has no line break |
| Reader.PageFieldsInert | app.py:117-120 | the title, URL and host placed on the page hold no `<` or `"`; the URL decodes back to the requested URL |
| Reader.TitleFallback | app.py:104-107 | the page title is `Article` when extraction fails or finds no title; otherwise it decodes to the extracted title |
| Reader.ArticleEscapesToItself | app.py:107 | `Article` needs no escaping |
| Reader.DisplayHostShape | app.py:117-118 | without a host, or with an empty one, the page shows `source`; otherwise the shown host is the lowercased host with characters deleted, and a host without `www.` is only lowercased |
| Reader.ReplaceSkip | app.py:118 | where no occurrence starts, `replace` keeps the character and moves on |
| Reader.DisplayHostKeepsWww | app.py:118 | one left-to-right pass can leave a `www.`: `wwwww.w.` is shown as `www.` |
| Reader.DisplayHostDiffersFromCompared | app.py:118 | the shown host loses a `www.` from its middle (`mywww.site.com` is shown as `mysite.com`); the allowlist check compares `mywww.site.com` unchanged |

## Left out

- The web framework is not modelled. This covers routing, the `/healthz` page, the
  `Content-Security-Policy` header and the exception mechanics. Refusals are plain
  `Refused(status)` values.
- The HTTP fetch is the `fetched` parameter of `Reader.Read`, with `None` for every failure.
  This covers redirects, the timeout, the user agent and `raise_for_status`.
- `TIMEOUT` and the `float` parsing of its setting are not modelled: no fetch is modelled.
- `MAX_CHARS` is given as an integer. The `int` parsing of its setting is not modelled.
- The `ALLOWLIST` setting is given as a string. Reading the environment is not modelled.
- The article extractor (readability) is the `extract` parameter. `None` stands for an
  exception from it.
- Both `bleach.clean` calls are parameters, `sanitize` and `textOf`. `Vocabulary` models
  only the configuration handed to the first one. Bleach's own parsing, its URL-protocol
  filter on `href`, and the escaping it applies to text are not modelled.
- `urlparse` is not modelled. The host is an input, with `None` for a URL without a host or
  one that fails to parse. The model does not tie that host to the URL text. With an empty
  allowlist, a URL that `urlparse` rejects gets past the host check. The handler then parses
  it again to show its host; that second parse would raise, and the model shows `source`
  instead.
- The page template and the fetch time are not modelled. `Reader.Page` holds the values the
  template is filled with.
- Text.Lower: lowercases the ASCII letters only. Python's `str.lower` also lowercases other
  letters. This makes no difference to the program: `urlparse(...).hostname` has already
  applied the full `str.lower`, so the `lower()` calls on the host find no uppercase letter
  left. The model's `host` input is free, though, and can hold non-ASCII uppercase letters
  that `urlparse` would never produce; for those the model keeps them as they are.
- Text.LowerAscii: same ASCII-only restriction as `Text.Lower`.
- Escape.UnescapeEscape: the decoder `Escape.Unescape` understands the five references
  `html.escape` produces and no others. It is a partner for the round trip, not a model of
  `html.unescape`.
- MediaStrip.Substitute: a match of length zero counts as no match. None of the three
  patterns can match the empty string, so this never changes the result.
- MediaStrip.FoldChar: case-insensitive matching uses the regular-expression engine's simple
  lowercase mapping only for the characters that lowercase to an ASCII letter. Those are the
  only ones that can matter for the ASCII patterns here.
