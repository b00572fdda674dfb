/** Rewriting relative image sources and link targets to absolute URLs
    (app.py, `fix_relative_urls`). Resolving a reference against a base URL
    (`urljoin`, section 5.2 of RFC 3986) is left uninterpreted: it is the
    parameter `join`. */
module Urls {
  import opened Strings
  import opened Html

  /** Resolves a reference against a base URL. */
  type Joiner = (string, string) -> string

  /** An image source is rewritten when it is non-empty and starts with
      neither `http` nor `data:`. Both are plain prefix tests. */
  predicate NeedsSrcRewrite(src: string) {
    src != "" && !StartsWith(src, "http") && !StartsWith(src, "data:")
  }

  /** A link target is rewritten when it is non-empty and starts with none of
      `http`, `#` and `mailto:`. */
  predicate NeedsHrefRewrite(href: string) {
    href != "" && !StartsWith(href, "http") && !StartsWith(href, "#") && !StartsWith(href, "mailto:")
  }

  /** The new source of an image: a `../` path and any other relative path
      take separate branches, and both resolve against the base alike. */
  function ResolveSrc(base: string, src: string, join: Joiner): (r: string)
    requires NeedsSrcRewrite(src)
    ensures r == join(base, src)
  {
    if StartsWith(src, "../") then join(base, src) else join(base, src)
  }

  /** The attributes of one element after the rewrite: `src` of an `img` and
      `href` of an `a` may change, nothing else does. */
  function RewriteAttrs(tag: string, attrs: map<string, string>, base: string, join: Joiner): (r: map<string, string>)
    ensures r.Keys == attrs.Keys
    ensures forall k :: k in attrs && !(tag == "img" && k == "src") && !(tag == "a" && k == "href") ==> r[k] == attrs[k]
    ensures tag == "img" && "src" in attrs ==>
      r["src"] == if NeedsSrcRewrite(attrs["src"]) then join(base, attrs["src"]) else attrs["src"]
    ensures tag == "a" && "href" in attrs ==>
      r["href"] == if NeedsHrefRewrite(attrs["href"]) then join(base, attrs["href"]) else attrs["href"]
  {
    if tag == "img" && "src" in attrs && NeedsSrcRewrite(attrs["src"]) then
      attrs["src" := ResolveSrc(base, attrs["src"], join)]
    else if tag == "a" && "href" in attrs && NeedsHrefRewrite(attrs["href"]) then
      attrs["href" := join(base, attrs["href"])]
    else attrs
  }

  function RewriteRule(base: string, join: Joiner): (string, map<string, string>) -> map<string, string> {
    (tag, attrs) => RewriteAttrs(tag, attrs, base, join)
  }

  /** The rewrite of a parsed fragment: the fragment is reparsed, so the
      pass reaches every element of the forest and everything below it. */
  function RewriteUrlsOf(cs: seq<Node>, base: string, join: Joiner): seq<Node> {
    MapAttrsOf(cs, RewriteRule(base, join))
  }

  /** Tags, class tokens, text and the shape of the page are untouched, so
      every selector the extractor uses finds as much as before. */
  lemma RewriteKeepsPage(cs: seq<Node>, base: string, join: Joiner, sel: Selector)
    requires !sel.ReadsAttrs()
    ensures TextOf(RewriteUrlsOf(cs, base, join)) == TextOf(cs)
    ensures |FindAllOf(RewriteUrlsOf(cs, base, join), sel)| == |FindAllOf(cs, sel)|
    ensures FindOf(RewriteUrlsOf(cs, base, join), sel).None? <==> FindOf(cs, sel).None?
  {
    MapAttrsKeepsText(cs, RewriteRule(base, join));
    MapAttrsKeepsMatches(cs, RewriteRule(base, join), sel);
  }

  /** Every image source and link target of the page is absolute already
      (or empty): there is nothing to rewrite. */
  predicate AllAbsolute(cs: seq<Node>) {
    forall x :: x in DescendantsOf(cs) && x.Element? ==>
      && (x.tag == "img" && "src" in x.attrs ==> !NeedsSrcRewrite(x.attrs["src"]))
      && (x.tag == "a" && "href" in x.attrs ==> !NeedsHrefRewrite(x.attrs["href"]))
  }

  /** A page with nothing to rewrite comes out as it went in. */
  lemma RewriteAbsoluteUnchanged(cs: seq<Node>, base: string, join: Joiner)
    requires AllAbsolute(cs)
    ensures RewriteUrlsOf(cs, base, join) == cs
  {
    MapAttrsUnchanged(cs, RewriteRule(base, join));
  }

  /** When resolution always yields an `http` URL, a second rewrite changes
      nothing. */
  lemma RewriteIdempotent(cs: seq<Node>, base: string, join: Joiner)
    requires forall b, s :: StartsWith(join(b, s), "http")
    ensures RewriteUrlsOf(RewriteUrlsOf(cs, base, join), base, join) == RewriteUrlsOf(cs, base, join)
  {
    var f := RewriteRule(base, join);
    forall t, a ensures f(t, f(t, a)) == f(t, a) {
      var once := RewriteAttrs(t, a, base, join);
      if t == "img" && "src" in a && NeedsSrcRewrite(a["src"]) {
        assert StartsWith(once["src"], "http");
      } else if t == "a" && "href" in a && NeedsHrefRewrite(a["href"]) {
        assert StartsWith(once["href"], "http");
      }
    }
    MapAttrsIdempotent(cs, f);
  }

  /** The `http` test is a bare prefix test: `httpfoo.png` counts as absolute
      and stays, while `images/a.png` is resolved. */
  lemma PrefixTestIsPlain()
    ensures !NeedsSrcRewrite("httpfoo.png") && !NeedsHrefRewrite("httpfoo.png")
    ensures NeedsSrcRewrite("images/a.png") && NeedsHrefRewrite("../unit-2")
    ensures !NeedsSrcRewrite("data:image/png;base64,AA") && NeedsHrefRewrite("data:x")
    ensures !NeedsHrefRewrite("#top") && !NeedsHrefRewrite("mailto:a@b.c")
  {
    assert "httpfoo.png"[..4] == "http";
    assert "images/a.png"[..4][0] == 'i';
    assert "images/a.png"[..5][0] == 'i';
    assert "../unit-2"[..4][0] == '.';
    assert "../unit-2"[..1][0] == '.';
    assert "../unit-2"[..7][0] == '.';
    assert "data:image/png;base64,AA"[..5] == "data:";
    assert "data:x"[..4][3] == 'a';
    assert "data:x"[..1][0] == 'd';
    assert "#top"[..1] == "#";
    assert "mailto:a@b.c"[..7] == "mailto:";
  }
}
