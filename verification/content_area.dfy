/** Choosing the part of a page that holds the lesson: on a module page
    (app.py, `extract_main_content`) after the page chrome is removed, and on
    a unit page (app.py, `fetch_section_content`) as the page arrives. */
module ContentArea {
  import opened Wrappers
  import opened Html
  import opened Cleanup
  import opened Urls
  import opened Sanitizer

  /** The tags removed from a module page before the content area is
      chosen; here `aside` goes too. */
  const AreaNoiseTags: set<string> := {"script", "style", "nav", "header", "footer", "aside"}
  const AreaNoiseSel := AnyTag(AreaNoiseTags)

  /** The module page's content selectors in priority order: `main`,
      `[role="main"]`, `.content`, `.main-content`, `article`,
      `.markdown-body`. */
  const AreaSelectors: seq<Selector> := [
    Tag("main"), Attr("role", "main"), Class("content"),
    Class("main-content"), Tag("article"), Class("markdown-body")
  ]

  /** The position of the first selector of `sels` that finds something
      below `d`, if any does. */
  function Winner(d: Node, sels: seq<Selector>): (r: Option<nat>)
    ensures r.Some? ==> r.value < |sels| && Find(d, sels[r.value]).Some?
    ensures r.Some? ==> forall j :: 0 <= j < r.value ==> Find(d, sels[j]).None?
    ensures r.None? ==> forall j :: 0 <= j < |sels| ==> Find(d, sels[j]).None?
  {
    if |sels| == 0 then None
    else if Find(d, sels[0]).Some? then Some(0)
    else match Winner(d, sels[1..])
      case None => None
      case Some(k) => Some(k + 1)
  }

  /** The node of `d` the first successful selector finds. */
  function FirstFound(d: Node, sels: seq<Selector>): (r: Option<Node>)
    ensures r.None? <==> forall j :: 0 <= j < |sels| ==> Find(d, sels[j]).None?
    ensures r.Some? ==> exists j ::
      && 0 <= j < |sels| && Find(d, sels[j]) == r
      && forall i :: 0 <= i < j ==> Find(d, sels[i]).None?
  {
    match Winner(d, sels)
    case None => None
    case Some(i) =>
      assert forall k :: 0 <= k < i ==> Find(d, sels[k]).None?;
      Find(d, sels[i])
  }

  /** The first selector that finds anything decides: when selector `j`
      finds something and every earlier one finds nothing, the result is
      what `j` finds. */
  lemma FirstFoundPriority(d: Node, sels: seq<Selector>, j: nat)
    requires j < |sels| && Find(d, sels[j]).Some?
    requires forall i :: 0 <= i < j ==> Find(d, sels[i]).None?
    ensures FirstFound(d, sels) == Find(d, sels[j])
  {
    var w := Winner(d, sels);
    assert w.Some?;
    assert w.value == j;
  }

  /** The content area of a module page: drop the chrome tags, take what
      the first successful selector finds, else the `body`, else the whole
      page. */
  function MainContentArea(doc: Node): (r: Node) {
    var d := RemoveAll(doc, AreaNoiseSel);
    match FirstFound(d, AreaSelectors)
    case Some(n) => n
    case None =>
      match Find(d, Tag("body"))
      case Some(b) => b
      case None => d
  }

  /** The chosen area is the page itself or one of its nodes, and no chrome
      tag is left in it or around it. */
  lemma MainContentAreaClean(doc: Node)
    ensures var d := RemoveAll(doc, AreaNoiseSel);
      MainContentArea(doc) == d || MainContentArea(doc) in DescendantsOf(ChildrenOf(d))
    ensures !Matches(AreaNoiseSel, MainContentArea(doc)) || MainContentArea(doc) == RemoveAll(doc, AreaNoiseSel)
    ensures FindOf(ChildrenOf(MainContentArea(doc)), AreaNoiseSel).None?
  {
    var d := RemoveAll(doc, AreaNoiseSel);
    var cs := ChildrenOf(d);
    match Winner(d, AreaSelectors)
    case Some(i) =>
      FoundAmongDescendants(cs, AreaSelectors[i]);
      FoundNodeInside(cs, AreaSelectors[i], AreaNoiseSel);
    case None =>
      if Find(d, Tag("body")).Some? {
        FoundAmongDescendants(cs, Tag("body"));
        FoundNodeInside(cs, Tag("body"), AreaNoiseSel);
      }
  }

  /** The area follows the priority order: an earlier selector that finds
      anything wins over every later one; `body` and the page itself are
      used only when no selector finds anything. */
  lemma MainContentAreaPriority(doc: Node, i: nat)
    requires i < |AreaSelectors|
    requires Find(RemoveAll(doc, AreaNoiseSel), AreaSelectors[i]).Some?
    requires forall j :: 0 <= j < i ==> Find(RemoveAll(doc, AreaNoiseSel), AreaSelectors[j]).None?
    ensures MainContentArea(doc) == Find(RemoveAll(doc, AreaNoiseSel), AreaSelectors[i]).value
  {
    var d := RemoveAll(doc, AreaNoiseSel);
    var w := Winner(d, AreaSelectors);
    assert w.Some?;
    assert w.value == i;
  }

  /** When no selector finds anything, the area is the first `body` of the
      cleaned page, or the cleaned page itself when it has no `body`. */
  lemma MainContentAreaFallback(doc: Node)
    requires forall j :: 0 <= j < |AreaSelectors| ==> Find(RemoveAll(doc, AreaNoiseSel), AreaSelectors[j]).None?
    ensures var d := RemoveAll(doc, AreaNoiseSel);
      MainContentArea(doc) == match Find(d, Tag("body")) case Some(b) => b case None => d
  {
    var d := RemoveAll(doc, AreaNoiseSel);
    assert FirstFound(d, AreaSelectors).None?;
  }

  /** `extract_main_content`: the chosen area, sanitized. A parsed element is
      always truthy, so the sanitizer's "No content found" message never
      comes out of here. */
  function ExtractMainContent(doc: Node, base: string, join: Joiner): (r: Markup)
    ensures r.Tree? && r.doc.Element? && r.doc.tag == DocumentTag
    ensures r != Raw("<p>No content found</p>")
  {
    CleanContent(Some(MainContentArea(doc)), base, join)
  }

  // ---------------------------------------------------------------------
  // Unit pages (app.py:219-229)
  // ---------------------------------------------------------------------

  /** `find('[role="main"]')` looks for a tag literally named
      `[role="main"]`. */
  const LiteralRoleTag := "[role=\"main\"]"

  /** The unit page's chain: `main`, the literal `[role="main"]` tag,
      `div.content`, `article`. */
  const SectionSelectors: seq<Selector> := [
    Tag("main"), Tag(LiteralRoleTag), TagClass({"div"}, {"content"}), Tag("article")
  ]

  /** The content area of a unit page, if any selector finds one. */
  function SectionPageArea(page: Node): (r: Option<Node>)
    ensures r.None? <==> forall j :: 0 <= j < |SectionSelectors| ==> Find(page, SectionSelectors[j]).None?
  {
    FirstFound(page, SectionSelectors)
  }

  /** On a unit page the earlier lookup wins: a page holding a `main`
      shows it even when it also holds a `div.content` or an `article`,
      and so on down the chain. */
  lemma SectionPageAreaPriority(page: Node, j: nat)
    requires j < |SectionSelectors| && Find(page, SectionSelectors[j]).Some?
    requires forall i :: 0 <= i < j ==> Find(page, SectionSelectors[i]).None?
    ensures SectionPageArea(page) == Find(page, SectionSelectors[j])
  {
    FirstFoundPriority(page, SectionSelectors, j);
  }

  /** In particular a `main` element always wins. */
  lemma SectionPageMainWins(page: Node)
    requires Find(page, Tag("main")).Some?
    ensures SectionPageArea(page) == Find(page, Tag("main"))
  {
    SectionPageAreaPriority(page, 0);
  }

  /** The parser names every element with a letter first, as HTML tag names
      are; only the page root is named `[document]`. */
  predicate ParserTagNames(cs: seq<Node>) {
    forall x :: x in DescendantsOf(cs) && x.Element? ==> x.tag != [] && x.tag[0] != '['
  }

  /** The second link of the chain never fires on a parsed page: the area is
      what `main`, `div.content` or `article` finds, in that order. */
  lemma LiteralRoleNeverMatches(page: Node)
    requires ParserTagNames(ChildrenOf(page))
    ensures Find(page, Tag(LiteralRoleTag)).None?
    ensures SectionPageArea(page) == FirstFound(page, [Tag("main"), TagClass({"div"}, {"content"}), Tag("article")])
  {
    var cs := ChildrenOf(page);
    if Find(page, Tag(LiteralRoleTag)).Some? {
      FoundAmongDescendants(cs, Tag(LiteralRoleTag));
      assert false;
    }
    var sels := SectionSelectors;
    assert sels[1..] == [Tag(LiteralRoleTag), TagClass({"div"}, {"content"}), Tag("article")];
    assert sels[1..][1..] == [TagClass({"div"}, {"content"}), Tag("article")];
  }

  /** `fetch_section_content` with the download replaced by its outcome: a
      failed download becomes an error naming it; a page without a content
      area gives the fixed "not found" markup; otherwise the area,
      sanitized against the unit's own URL. */
  function FetchSectionContent(sectionUrl: string, outcome: Result<Node, string>, join: Joiner): (r: Result<Markup, string>)
    ensures outcome.Failure? <==> r.Failure?
    ensures outcome.Failure? ==> r.error == "Failed to fetch section content: " + outcome.error
    ensures outcome.Success? ==>
      (r.value == Raw("<p>Content not found on this page</p>") <==> SectionPageArea(outcome.value).None?)
    ensures outcome.Success? && SectionPageArea(outcome.value).Some? ==>
      r.value == CleanContent(SectionPageArea(outcome.value), sectionUrl, join)
  {
    match outcome
    case Failure(e) => Failure("Failed to fetch section content: " + e)
    case Success(page) =>
      match SectionPageArea(page)
      case Some(area) => Success(CleanContent(Some(area), sectionUrl, join))
      case None => Success(Raw("<p>Content not found on this page</p>"))
  }
}
