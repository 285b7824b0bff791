/** The markup vocabulary the sanitizer keeps: the text-only tags and, per tag, the
    attributes they may carry. */
module Vocabulary {
  import MediaStrip

  /** The tags kept by the sanitizer; every other tag is removed and its text kept. */
  const TextOnlyTags: seq<string> := [
    "a", "p", "div", "span", "section", "article", "header", "footer", "h1", "h2", "h3", "h4", "h5", "h6",
    "ul", "ol", "li", "blockquote", "pre", "code", "strong", "em", "small", "time", "br", "hr"
  ]

  /** The attributes kept, by tag; the key `*` applies to every tag. */
  const TextOnlyAttrs: map<string, seq<string>> := map["a" := ["href", "title", "rel"], "*" := ["class"]]

  predicate TagAllowed(tag: string) {
    tag in TextOnlyTags
  }

  /** An attribute is kept when the tag's own list or the list under `*` names it. */
  predicate AttrAllowed(tag: string, attr: string) {
    || (tag in TextOnlyAttrs && attr in TextOnlyAttrs[tag])
    || ("*" in TextOnlyAttrs && attr in TextOnlyAttrs["*"])
  }

  /** Links may carry `href`, `title` and `rel`; every kept tag may carry `class`; nothing
      else is kept. */
  lemma AttrAllowedIff(tag: string, attr: string)
    ensures AttrAllowed(tag, attr) <==> attr == "class" || (tag == "a" && (attr == "href" || attr == "title" || attr == "rel"))
  {
    assert TextOnlyAttrs["*"] == ["class"];
    assert TextOnlyAttrs["a"] == ["href", "title", "rel"];
    assert tag in TextOnlyAttrs <==> tag == "a" || tag == "*";
  }

  /** None of the media tags the stripper removes is in the kept vocabulary. */
  lemma NoMediaTagAllowed(k: nat)
    requires k < |MediaStrip.MediaTags|
    ensures !TagAllowed(MediaStrip.MediaTags[k])
  {
    var t := MediaStrip.MediaTags[k];
    forall i | 0 <= i < |TextOnlyTags| ensures TextOnlyTags[i] != t {
      assert |t| >= 3;
      assert |TextOnlyTags[i]| >= 3 ==> TextOnlyTags[i][0] != t[0] || TextOnlyTags[i][1] != t[1];
    }
  }

  /** No attribute that loads media, styles an element or runs script is kept, on any tag. */
  lemma ActiveAttrsNeverAllowed(tag: string, attr: string)
    requires attr in ["src", "srcset", "style", "background", "poster"] || (|attr| >= 2 && attr[..2] == "on")
    ensures !AttrAllowed(tag, attr)
  {
    AttrAllowedIff(tag, attr);
    assert |attr| >= 2 && attr[..2] == "on" ==> attr[0] == 'o';
  }

  /** Tags that run script, apply styles, embed objects or take input. */
  const ActiveTags: seq<string> := ["script", "style", "object", "embed", "form", "input", "link", "meta"]

  /** None of those is kept either. */
  lemma ActiveTagsNotAllowed(k: nat)
    requires k < |ActiveTags|
    ensures !TagAllowed(ActiveTags[k])
  {
    var tag := ActiveTags[k];
    forall i | 0 <= i < |TextOnlyTags| ensures TextOnlyTags[i] != tag {
      assert |TextOnlyTags[i]| >= 4 ==> TextOnlyTags[i][0] != tag[0] || TextOnlyTags[i][1] != tag[1] || TextOnlyTags[i][3] != tag[3];
    }
  }
}
