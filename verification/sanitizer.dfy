/** The content sanitizer (app.py, `clean_content`): the chosen content is
    serialised, its URLs are made absolute, it is parsed again, and a fixed
    sequence of removals and an attribute allow-list are applied to the new
    document. Serialising and parsing again is taken to give back the same
    tree. */
module Sanitizer {
  import opened Wrappers
  import opened Strings
  import opened Html
  import opened Cleanup
  import opened Urls

  /** What the extractor hands back as a section's content: fixed markup or
      a cleaned document. */
  datatype Markup = Raw(html: string) | Tree(doc: Node)

  /** The tags whose elements the sanitizer decomposes outright. Unlike the
      content-area pass, `aside` is not among them. */
  const NoiseTags: set<string> := {"script", "style", "nav", "header", "footer"}

  /** The class tokens that mark progress and achievement boxes. */
  const ChromeClasses: set<string> := {"achievements", "progress", "completion", "module-completion"}

  const NoiseSel := AnyTag(NoiseTags)
  const TitleSel := Tag("h1")
  const ChromeSel := TagClass({"div"}, ChromeClasses)

  /** The top-level nodes a parse of `str(n)` yields: a whole parsed page
      serialises as its children, any other node as itself. */
  function Reparse(n: Node): (cs: seq<Node>)
    ensures n.Element? && n.tag == DocumentTag ==> cs == n.children
    ensures !(n.Element? && n.tag == DocumentTag) ==> cs == [n]
  {
    if n.Element? && n.tag == DocumentTag then n.children else [n]
  }

  /** Reduces the attributes of everything below the root to the allow-list. */
  function CleanAttrs(d: Node): (r: Node)
    ensures Shallow(r) == Shallow(d)
    ensures ChildrenOf(r) == StripAttrsOf(ChildrenOf(d))
  {
    match d
    case Text(_) => d
    case Element(t, c, a, cs) => Element(t, c, a, StripAttrsOf(cs))
  }

  /** The passes applied to the reparsed document, in the source's order:
      noise tags, empty containers, the first `h1`, progress boxes, then
      attributes. */
  function Clean(d: Node): (r: Node)
    ensures Shallow(r) == Shallow(d)
  {
    CleanAttrs(RemoveAll(RemoveFirst(RemoveEmpty(RemoveAll(d, NoiseSel)), TitleSel), ChromeSel))
  }

  /** `clean_content` on a present content node: rewrite the URLs, parse
      again, clean. The result is a whole parsed page. */
  function Sanitize(content: Node, base: string, join: Joiner): (r: Node)
    ensures r.Element? && r.tag == DocumentTag && r.attrs == map[]
  {
    Clean(Document(RewriteUrlsOf(Reparse(content), base, join)))
  }

  /** `clean_content`: the fixed message for missing content, else the
      sanitized page. */
  function CleanContent(content: Option<Node>, base: string, join: Joiner): (r: Markup)
    ensures content.None? <==> r == Raw("<p>No content found</p>")
    ensures content.Some? ==> r.Tree? && r.doc.Element? && r.doc.tag == DocumentTag
  {
    match content
    case None => Raw("<p>No content found</p>")
    case Some(n) => Tree(Sanitize(n, base, join))
  }

  /** What the passes guarantee of the cleaned page: no noise tag, no
      progress box and no attribute off the allow-list is left anywhere. */
  lemma CleanGuarantees(d: Node)
    ensures FindOf(ChildrenOf(Clean(d)), NoiseSel).None?
    ensures FindOf(ChildrenOf(Clean(d)), ChromeSel).None?
    ensures AttrsAllowed(ChildrenOf(Clean(d)))
  {
    var d1 := RemoveAll(d, NoiseSel);
    var d2 := RemoveEmpty(d1);
    var d3 := RemoveFirst(d2, TitleSel);
    var d4 := RemoveAll(d3, ChromeSel);
    RemoveEmptyPrunes(d1);
    PrunedFindAll(ChildrenOf(d2), ChildrenOf(d1), NoiseSel);
    RemoveFirstPrunes(ChildrenOf(d2), TitleSel);
    PrunedFindAll(ChildrenOf(d3), ChildrenOf(d2), NoiseSel);
    RemoveAllPrunes(d3, ChromeSel);
    PrunedFindAll(ChildrenOf(d4), ChildrenOf(d3), NoiseSel);
    MapAttrsKeepsMatches(ChildrenOf(d4), AllowRule, NoiseSel);
    MapAttrsKeepsMatches(ChildrenOf(d4), AllowRule, ChromeSel);
    StripAttrsAllowed(ChildrenOf(d4));
  }

  /** The sanitized page holds no noise tag, no progress box and no
      attribute off the allow-list. */
  lemma SanitizeGuarantees(content: Node, base: string, join: Joiner)
    ensures FindAll(Sanitize(content, base, join), NoiseSel) == []
    ensures FindAll(Sanitize(content, base, join), ChromeSel) == []
    ensures AttrsAllowed(Sanitize(content, base, join).children)
  {
    var d := Document(RewriteUrlsOf(Reparse(content), base, join));
    CleanGuarantees(d);
    FindOfNoneIffEmpty(ChildrenOf(Clean(d)), NoiseSel);
    FindOfNoneIffEmpty(ChildrenOf(Clean(d)), ChromeSel);
  }

  /** On a page without noise tags, `h1` headings or progress boxes, the
      passes lose no image: only empty containers go, and those hold none. */
  lemma CleanKeepsImages(d: Node)
    requires FindOf(ChildrenOf(d), NoiseSel).None?
    requires FindOf(ChildrenOf(d), TitleSel).None?
    requires FindOf(ChildrenOf(d), ChromeSel).None?
    ensures |FindAll(Clean(d), Tag("img"))| == |FindAll(d, Tag("img"))|
  {
    var d1 := RemoveAll(d, NoiseSel);
    if d.Element? {
      DropWhereNothingToDrop(d.children, (x: Node) => Matches(NoiseSel, x), NoiseSel);
    }
    assert d1 == d;
    var d2 := RemoveEmpty(d1);
    RemoveEmptyKeepsImages(ChildrenOf(d));
    assert ChildrenOf(d2) == DropWhereOf(ChildrenOf(d), IsEmptyContainer);
    RemoveEmptyPrunes(d1);
    PrunedFindAll(ChildrenOf(d2), ChildrenOf(d1), TitleSel);
    PrunedFindAll(ChildrenOf(d2), ChildrenOf(d1), ChromeSel);
    var d3 := RemoveFirst(d2, TitleSel);
    assert d3 == d2;
    var d4 := RemoveAll(d3, ChromeSel);
    if d3.Element? {
      DropWhereNothingToDrop(d3.children, (x: Node) => Matches(ChromeSel, x), ChromeSel);
    }
    assert d4 == d3;
    MapAttrsKeepsMatches(ChildrenOf(d4), AllowRule, Tag("img"));
  }

  /** Sanitizing content without noise tags, `h1` headings or progress
      boxes keeps every image of it. */
  lemma SanitizeKeepsImages(content: Node, base: string, join: Joiner)
    requires FindOf(Reparse(content), NoiseSel).None?
    requires FindOf(Reparse(content), TitleSel).None?
    requires FindOf(Reparse(content), ChromeSel).None?
    ensures |FindAll(Sanitize(content, base, join), Tag("img"))| == |FindAllOf(Reparse(content), Tag("img"))|
  {
    var cs := Reparse(content);
    var d := Document(RewriteUrlsOf(cs, base, join));
    RewriteKeepsPage(cs, base, join, NoiseSel);
    RewriteKeepsPage(cs, base, join, TitleSel);
    RewriteKeepsPage(cs, base, join, ChromeSel);
    RewriteKeepsPage(cs, base, join, Tag("img"));
    CleanKeepsImages(d);
  }

  /** The passes never add an `h1`, and when one is left after the empty
      containers go, they remove at least one. */
  lemma CleanDropsATitle(d: Node)
    ensures |FindAll(Clean(d), TitleSel)| <= |FindAll(d, TitleSel)|
    ensures FindAll(d, TitleSel) != [] ==> |FindAll(Clean(d), TitleSel)| < |FindAll(d, TitleSel)|
  {
    var d1 := RemoveAll(d, NoiseSel);
    var d2 := RemoveEmpty(d1);
    var d3 := RemoveFirst(d2, TitleSel);
    var d4 := RemoveAll(d3, ChromeSel);
    RemoveAllPrunes(d, NoiseSel);
    PrunedFindAll(ChildrenOf(d1), ChildrenOf(d), TitleSel);
    RemoveEmptyPrunes(d1);
    PrunedFindAll(ChildrenOf(d2), ChildrenOf(d1), TitleSel);
    RemoveFirstPrunes(ChildrenOf(d2), TitleSel);
    PrunedFindAll(ChildrenOf(d3), ChildrenOf(d2), TitleSel);
    if FindOf(ChildrenOf(d2), TitleSel).Some? {
      RemoveFirstDropsAMatch(ChildrenOf(d2), TitleSel);
    } else {
      FindOfNoneIffEmpty(ChildrenOf(d2), TitleSel);
    }
    RemoveAllPrunes(d3, ChromeSel);
    PrunedFindAll(ChildrenOf(d4), ChildrenOf(d3), TitleSel);
    MapAttrsKeepsMatches(ChildrenOf(d4), AllowRule, TitleSel);
  }

  /** The sanitizer is not idempotent: a page that still holds an `h1`
      loses another one to a second pass. */
  lemma SanitizeNotIdempotent(content: Node, base: string, join: Joiner)
    requires FindAll(Sanitize(content, base, join), TitleSel) != []
    ensures Sanitize(Sanitize(content, base, join), base, join) != Sanitize(content, base, join)
  {
    var s := Sanitize(content, base, join);
    var d := Document(RewriteUrlsOf(Reparse(s), base, join));
    RewriteKeepsPage(s.children, base, join, TitleSel);
    CleanDropsATitle(d);
  }

  /** A page that keeps a heading after one pass: a division with the
      headings "Intro" and "Next" loses "Intro" to the first pass and
      "Next" to the second. */
  lemma TwoHeadingsWitness(base: string, join: Joiner)
    ensures var page := Element("div", [], map[], [Heading("Intro"), Heading("Next")]);
      && Sanitize(page, base, join) == Document([Element("div", [], map[], [Heading("Next")])])
      && FindAll(Sanitize(page, base, join), TitleSel) != []
  {
    var page := Element("div", [], map[], [Heading("Intro"), Heading("Next")]);
    var d0 := Document([page]);
    var d3 := Document([Element("div", [], map[], [Heading("Next")])]);
    WitnessNoUrls(base, join);
    assert Sanitize(page, base, join) == Clean(d0);
    WitnessNoNoise();
    assert RemoveAll(d0, NoiseSel) == d0;
    WitnessNothingEmpty();
    assert RemoveEmpty(d0) == d0;
    WitnessFirstTitle();
    assert RemoveFirst(d0, TitleSel) == d3;
    WitnessRest();
    assert Clean(d0) == d3;
    assert FindAll(d3, TitleSel) != [] by {
      assert FindOf(d3.children, TitleSel).Some?;
      FindOfNoneIffEmpty(d3.children, TitleSel);
    }
  }

  function Heading(s: string): Node {
    Element("h1", [], map[], [Text(s)])
  }

  lemma WitnessNoUrls(base: string, join: Joiner)
    ensures var page := Element("div", [], map[], [Heading("Intro"), Heading("Next")]);
      RewriteUrlsOf([page], base, join) == [page]
  {
    var intro, next := Heading("Intro"), Heading("Next");
    var page := Element("div", [], map[], [intro, next]);
    WitnessDescendants();
    RewriteAbsoluteUnchanged([page], base, join);
  }

  lemma WitnessNoNoise()
    ensures var d0 := Document([Element("div", [], map[], [Heading("Intro"), Heading("Next")])]);
      RemoveAll(d0, NoiseSel) == d0
  {
    var intro, next := Heading("Intro"), Heading("Next");
    var page := Element("div", [], map[], [intro, next]);
    assert [intro, next][1..] == [next];
    assert FindOf([Text("Intro")], NoiseSel).None?;
    assert FindOf([Text("Next")], NoiseSel).None?;
    assert FindOf([next], NoiseSel).None?;
    assert FindOf([intro, next], NoiseSel).None?;
    assert FindOf([page], NoiseSel).None?;
    DropWhereNothingToDrop([page], (x: Node) => Matches(NoiseSel, x), NoiseSel);
  }

  lemma WitnessNothingEmpty()
    ensures var d0 := Document([Element("div", [], map[], [Heading("Intro"), Heading("Next")])]);
      RemoveEmpty(d0) == d0
  {
    WitnessPageNotEmpty();
    HeadingsNothingEmpty("Intro", "Next");
  }

  /** A non-empty division of two headings holds no empty container. */
  lemma HeadingsNothingEmpty(a: string, b: string)
    requires !IsEmptyContainer(Element("div", [], map[], [Heading(a), Heading(b)]))
    ensures var d0 := Document([Element("div", [], map[], [Heading(a), Heading(b)])]);
      RemoveEmpty(d0) == d0
  {
    var intro, next := Heading(a), Heading(b);
    var page := Element("div", [], map[], [intro, next]);
    var containers := AnyTag({"p", "div"});
    assert FindOf([intro, next], containers).None? by {
      HeadingHoldsNoContainer(a);
      HeadingHoldsNoContainer(b);
      assert [intro, next][1..] == [next];
    }
    forall x | IsEmptyContainer(x) ensures Matches(containers, x) { }
    DropWhereNothingToDrop([intro, next], IsEmptyContainer, containers);
    assert DropWhere(page, IsEmptyContainer) == page;
    assert DropWhereOf([page], IsEmptyContainer) == [page] by {
      assert [page][1..] == [];
    }
  }

  lemma HeadingHoldsNoContainer(s: string)
    ensures FindOf([Heading(s)], AnyTag({"p", "div"})).None?
  {
    var containers := AnyTag({"p", "div"});
    assert !Matches(containers, Heading(s));
    assert FindOf([Text(s)], containers).None? by {
      assert [Text(s)][1..] == [];
    }
    assert [Heading(s)][1..] == [];
  }

  lemma WitnessDescendants()
    ensures var intro, next := Heading("Intro"), Heading("Next");
      DescendantsOf([Element("div", [], map[], [intro, next])]) == [Element("div", [], map[], [intro, next]), intro, Text("Intro"), next, Text("Next")]
  {
    var intro, next := Heading("Intro"), Heading("Next");
    assert [intro, next][1..] == [next];
    assert DescendantsOf([Text("Intro")]) == [Text("Intro")];
    assert DescendantsOf([Text("Next")]) == [Text("Next")];
    assert DescendantsOf([next]) == [next, Text("Next")];
    assert DescendantsOf([intro, next]) == [intro, Text("Intro"), next, Text("Next")];
  }

  lemma WitnessPageNotEmpty()
    ensures !IsEmptyContainer(Element("div", [], map[], [Heading("Intro"), Heading("Next")]))
  {
    var intro, next := Heading("Intro"), Heading("Next");
    var page := Element("div", [], map[], [intro, next]);
    assert [intro, next][1..] == [next];
    assert GetText(intro) == "Intro" by {
      assert TextOf([Text("Intro")]) == "Intro" + TextOf([]);
    }
    assert GetText(next) == "Next" by {
      assert TextOf([Text("Next")]) == "Next" + TextOf([]);
    }
    assert TextOf([next]) == "Next" + TextOf([]);
    assert GetText(page) == "IntroNext";
    StripSpec("IntroNext");
    assert !IsSpace("IntroNext"[0]);
  }

  lemma WitnessFirstTitle()
    ensures var d0 := Document([Element("div", [], map[], [Heading("Intro"), Heading("Next")])]);
      RemoveFirst(d0, TitleSel) == Document([Element("div", [], map[], [Heading("Next")])])
  {
    var intro, next := Heading("Intro"), Heading("Next");
    var page := Element("div", [], map[], [intro, next]);
    assert [intro, next][1..] == [next];
    assert RemoveFirstOf([intro, next], TitleSel) == [next];
    assert FindOf(page.children, TitleSel).Some?;
    assert RemoveFirstOf([page], TitleSel) == [Element("div", [], map[], [next])];
  }

  lemma WitnessRest()
    ensures var d3 := Document([Element("div", [], map[], [Heading("Next")])]);
      CleanAttrs(RemoveAll(d3, ChromeSel)) == d3
  {
    var next := Heading("Next");
    var d3 := Document([Element("div", [], map[], [next])]);
    assert FindOf([Text("Next")], ChromeSel).None?;
    assert FindOf([next], ChromeSel).None?;
    assert FindOf(d3.children, ChromeSel).None?;
    DropWhereNothingToDrop(d3.children, (x: Node) => Matches(ChromeSel, x), ChromeSel);
    assert DescendantsOf([Text("Next")]) == [Text("Next")];
    assert DescendantsOf([next]) == [next, Text("Next")];
    assert DescendantsOf(d3.children) == [d3.children[0], next, Text("Next")];
    assert AllowRule("div", map[]) == map[];
    assert AllowRule("h1", map[]) == map[];
    MapAttrsUnchanged(d3.children, AllowRule);
  }
}
