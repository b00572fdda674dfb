/** Module assembly and the decisions of the two request handlers (app.py,
    `parse_content`, `fetch_module`, `load_module`, `load_section`), with
    every download replaced by its outcome: `fetch(url)` is what fetching
    and parsing `url` gave, a page or an error message. */
module Pipeline {
  import opened Wrappers
  import opened Strings
  import opened Html
  import opened Urls
  import opened Sanitizer
  import opened ContentArea
  import opened Navigation

  /** Fetching and parsing a page: the parsed page or an error message. */
  type Fetcher = string -> Result<Node, string>

  /** What `parse_content` returns. */
  datatype ModuleData = ModuleData(title: string, sections: seq<Section>, url: string)

  const DefaultTitle := "Microsoft Learning Module"

  /** The module title: the stripped text of the first `h1`, else of the
      first `title`, else the default. An empty `h1` is still found, so the
      title can be empty. */
  function ModuleTitle(doc: Node): (t: string)
    ensures Find(doc, Tag("h1")).Some? ==> t == Strip(GetText(Find(doc, Tag("h1")).value))
    ensures Find(doc, Tag("h1")).None? && Find(doc, Tag("title")).Some? ==>
      t == Strip(GetText(Find(doc, Tag("title")).value))
    ensures Find(doc, Tag("h1")).None? && Find(doc, Tag("title")).None? ==> t == DefaultTitle
  {
    match Find(doc, Tag("h1"))
    case Some(h) => Strip(GetText(h))
    case None =>
      match Find(doc, Tag("title"))
      case Some(t) => Strip(GetText(t))
      case None => DefaultTitle
  }

  /** The title never has surrounding white space. */
  lemma ModuleTitleStripped(doc: Node)
    ensures Strip(ModuleTitle(doc)) == ModuleTitle(doc)
  {
    match Find(doc, Tag("h1"))
    case Some(h) => StripStable(GetText(h));
    case None =>
      match Find(doc, Tag("title"))
      case Some(t) => StripStable(GetText(t));
      case None => DefaultTitleStripped();
  }

  lemma DefaultTitleStripped()
    ensures Strip(DefaultTitle) == DefaultTitle
  {
    var d := DefaultTitle;
    assert d[0] == 'M' && d[|d| - 1] == 'e';
    StripSpec(d);
  }

  /** A page whose first `h1` is empty gets the empty title: the default is
      used only when no heading element exists at all. */
  lemma EmptyHeadingGivesEmptyTitle()
    ensures ModuleTitle(Document([Element("h1", [], map[], [])])) == ""
  {
    var h := Element("h1", [], map[], []);
    assert FindOf([h], Tag("h1")) == Some(h);
    assert GetText(h) == "";
  }

  /** `parse_content`: the title and the outline are read from the page as
      parsed; the content area is extracted after them. The single "Main
      Content" entry would stand in for an empty outline, which never
      happens. */
  function ParseContent(doc: Node, baseUrl: string, join: Joiner): (m: ModuleData)
    ensures m.url == baseUrl && m.title == ModuleTitle(doc)
    ensures m.sections == ExtractNavigation(doc)
  {
    var nav := ExtractNavigation(doc);
    var main := ExtractMainContent(doc, baseUrl, join);
    ModuleData(
      ModuleTitle(doc),
      if |nav| > 0 then nav else [Section("Main Content", main, "main", None)],
      baseUrl)
  }

  /** `fetch_module`: a failed download becomes an error naming it. */
  function FetchModule(url: string, fetch: Fetcher, join: Joiner): (r: Result<ModuleData, string>)
    ensures fetch(url).Failure? <==> r.Failure?
    ensures r.Failure? ==> r.error == "Failed to fetch module: " + fetch(url).error
    ensures r.Success? ==> r.value == ParseContent(fetch(url).value, url, join)
  {
    match fetch(url)
    case Failure(e) => Failure("Failed to fetch module: " + e)
    case Success(doc) => Success(ParseContent(doc, url, join))
  }

  // ---------------------------------------------------------------------
  // Loading a module (app.py:242-273)
  // ---------------------------------------------------------------------

  /** What the module handler answers: a refused request (status 400), a
      failure (status 500), or the outline with the first section's
      content. */
  datatype ModuleResponse =
    | Refused(message: string)
    | Failed(message: string)
    | Loaded(title: string, sections: seq<Section>, content: Markup, url: string)

  /** Only URLs of the learning site are accepted: a plain substring test. */
  predicate AcceptedUrl(url: string) {
    Contains(url, "learn.microsoft.com") || Contains(url, "docs.microsoft.com/learn")
  }

  /** `load_module`: the submitted URL (empty when the field is missing) is
      stripped, refused when empty or off-site, then fetched. */
  function LoadModule(submitted: string, fetch: Fetcher, join: Joiner): (r: ModuleResponse)
    ensures r.Refused? <==> Strip(submitted) == "" || !AcceptedUrl(Strip(submitted))
    ensures r.Refused? ==> r.message == if Strip(submitted) == "" then "Please provide a valid URL" else "Please provide a valid Microsoft Learning URL"
    ensures r.Failed? <==> !r.Refused? && fetch(Strip(submitted)).Failure?
    ensures r.Failed? ==> r.message == "Failed to fetch module: " + fetch(Strip(submitted)).error
    ensures r.Loaded? ==>
      && r.url == Strip(submitted)
      && var page := fetch(Strip(submitted)).value;
      && r.title == ModuleTitle(page) && r.sections == ExtractNavigation(page)
  {
    var url := Strip(submitted);
    if url == "" then Refused("Please provide a valid URL")
    else if !AcceptedUrl(url) then Refused("Please provide a valid Microsoft Learning URL")
    else
      match FetchModule(url, fetch, join)
      case Failure(e) => Failed(e)
      case Success(m) =>
        Loaded(m.title, m.sections, if |m.sections| > 0 then m.sections[0].content else Raw(""), url)
  }

  /** A loaded module always shows an empty content pane at first: the
      first outline entry, fallback or not, carries no content. */
  lemma LoadedModuleShowsNoContent(submitted: string, fetch: Fetcher, join: Joiner)
    ensures LoadModule(submitted, fetch, join).Loaded? ==> LoadModule(submitted, fetch, join).content == Raw("")
  {
  }

  // ---------------------------------------------------------------------
  // Loading a section (app.py:275-341)
  // ---------------------------------------------------------------------

  /** The index a section id names: the integer after the last dash when the
      id contains `section-`, else 0; `None` when `int()` would raise. */
  function SectionIndex(id: string): (r: Option<int>)
    ensures !Contains(id, "section-") ==> r == Some(0)
    ensures r.Some? ==> r.value >= 0
  {
    if Contains(id, "section-") then ParseInt(AfterLastDash(id)) else Some(0)
  }

  /** An outline id names the position it was built from. */
  lemma SectionIndexRoundTrip(i: nat)
    ensures SectionIndex(SectionId(i)) == Some(i)
  {
    var id := SectionId(i);
    assert OccursAt(id, "section-", 0);
    AfterLastDashOfNumber(i);
    DecimalRoundTrip(i);
  }

  /** An id containing `section-` reads as nothing (status 500) exactly when
      the field after its last dash is no integer literal. */
  lemma SectionIndexSpec(id: string)
    requires Contains(id, "section-")
    ensures SectionIndex(id).None? <==> !IsIntLiteral(Strip(AfterLastDash(id)))
  {
    var field := AfterLastDash(id);
    assert SectionIndex(id) == ParseInt(field);
    ParseIntSpec(field);
  }

  /** Otherwise it reads as that literal's value. */
  lemma SectionIndexValue(id: string, sign: string, body: string)
    requires Contains(id, "section-")
    requires SignedDigits(Strip(AfterLastDash(id)), sign, body)
    ensures SectionIndex(id) == Some(SignedValue(sign, body))
  {
    ParseIntReads(AfterLastDash(id), sign, body);
  }

  /** An id containing `section-` whose last field starts with neither
      whitespace, a digit nor a sign, such as `section-abc`, reads as
      nothing. */
  lemma LetteredIdIsBad(id: string)
    requires Contains(id, "section-")
    requires var field := AfterLastDash(id);
      |field| > 0 && !IsSpace(field[0]) && !IsDigit(field[0]) && field[0] != '+'
    ensures SectionIndex(id).None?
  {
    var field := AfterLastDash(id);
    assert field[0] in field;
    ParseIntRejects(field);
  }

  lemma {:induction false} AfterLastDashOfNumber(i: nat)
    ensures AfterLastDash(SectionId(i)) == Decimal(i)
  {
    var d := Decimal(i);
    var id := SectionId(i);
    var r := AfterLastDash(id);
    assert id == "section-" + d;
    assert '-' !in d by {
      forall k | 0 <= k < |d| ensures d[k] != '-' {
        assert IsDigit(d[k]);
      }
    }
    AfterLastDashOfSuffix("section-", d);
  }

  /** The text after the last dash of `p + "-"`-free `d` ending is `d`. */
  lemma AfterLastDashOfSuffix(p: string, d: string)
    requires |p| > 0 && p[|p| - 1] == '-' && '-' !in d
    ensures AfterLastDash(p + d) == d
    decreases |d|
  {
    if |d| == 0 {
      assert p + d == p;
    } else {
      var n := |d| - 1;
      assert (p + d)[..|p + d| - 1] == p + d[..n];
      assert (p + d)[|p + d| - 1] == d[n];
      AfterLastDashOfSuffix(p, d[..n]);
      assert d[..n] + [d[n]] == d;
    }
  }

  /** Where a section's link leads, if anywhere: nowhere for an empty link
      or an in-page anchor; a site-absolute path is put on the site's host;
      anything else is resolved against the module URL. */
  function SectionTarget(href: string, url: string, join: Joiner): (r: Option<string>)
    ensures r.Some? <==> href != "" && !StartsWith(href, "#")
    ensures r.Some? && StartsWith(href, "/") ==> r.value == "https://learn.microsoft.com" + href
    ensures r.Some? && !StartsWith(href, "/") ==> r.value == join(url, href)
  {
    if href != "" && !StartsWith(href, "#") then
      Some(if StartsWith(href, "/") then "https://learn.microsoft.com" + href else join(url, href))
    else None
  }

  /** Markup the page would show as non-empty: fixed markup is empty when
      its text is; a document when it has no nodes. */
  predicate NonEmpty(m: Markup) {
    match m
    case Raw(s) => s != ""
    case Tree(d) => ChildrenOf(d) != []
  }

  /** What the section handler answers. */
  datatype SectionResponse =
    | MissingId                              // status 400
    | BadIndex                               // `int()` raised: status 500
    | ModuleError(message: string)           // status 500
    | MissingHref                            // the entry has no `href`: status 500
    | NotFound                               // status 404
    | Show(title: string, content: Markup)

  /** The content shown for a found section: the linked page's content
      area, or an error message in its place when that download fails; for
      a section without a link, its stored content or a placeholder. */
  function ShowSection(s: Section, url: string, fetch: Fetcher, join: Joiner): (r: SectionResponse)
    ensures s.href.None? <==> r == MissingHref
    ensures s.href.Some? ==> r.Show? && r.title == s.title
    ensures s.href.Some? && SectionTarget(s.href.value, url, join).Some? ==>
      var target := SectionTarget(s.href.value, url, join).value;
      match FetchSectionContent(target, fetch(target), join)
      case Success(c) => r.content == c
      case Failure(e) => r.content == Raw("<p>Error loading content for " + s.title + ": " + e + "</p>")
    ensures s.href.Some? && SectionTarget(s.href.value, url, join).None? ==>
      r.content == if NonEmpty(s.content) then s.content else Raw("<p>Content for " + s.title + "</p>")
  {
    match s.href
    case None => MissingHref
    case Some(href) =>
      match SectionTarget(href, url, join)
      case Some(target) =>
        (match FetchSectionContent(target, fetch(target), join)
         case Success(c) => Show(s.title, c)
         case Failure(e) => Show(s.title, Raw("<p>Error loading content for " + s.title + ": " + e + "</p>")))
      case None =>
        Show(s.title, if NonEmpty(s.content) then s.content else Raw("<p>Content for " + s.title + "</p>"))
  }

  /** `load_section`: a missing or empty id is refused; the index is read
      from the id before anything else; without a module URL nothing is
      found; otherwise the module is fetched again and the section at that
      index of its outline is shown. */
  function LoadSection(sectionId: Option<string>, url: Option<string>, fetch: Fetcher, join: Joiner): (r: SectionResponse)
    ensures r == MissingId <==> sectionId.None? || sectionId.value == ""
    ensures r == BadIndex <==> r != MissingId && SectionIndex(sectionId.value).None?
    ensures r.ModuleError? <==>
      && sectionId.Some? && sectionId.value != "" && SectionIndex(sectionId.value).Some?
      && url.Some? && url.value != "" && fetch(url.value).Failure?
    ensures r.ModuleError? ==> r.message == "Failed to fetch module: " + fetch(url.value).error
    ensures r == NotFound <==>
      && sectionId.Some? && sectionId.value != "" && SectionIndex(sectionId.value).Some?
      && (|| url.None? || url.value == ""
          || (&& fetch(url.value).Success?
              && SectionIndex(sectionId.value).value
                 >= |ParseContent(fetch(url.value).value, url.value, join).sections|))
    ensures r.Show? || r == MissingHref <==>
      && sectionId.Some? && sectionId.value != "" && SectionIndex(sectionId.value).Some?
      && url.Some? && url.value != "" && fetch(url.value).Success?
      && SectionIndex(sectionId.value).value < |ParseContent(fetch(url.value).value, url.value, join).sections|
    ensures r.Show? || r == MissingHref ==>
      var sections := ParseContent(fetch(url.value).value, url.value, join).sections;
      r == ShowSection(sections[SectionIndex(sectionId.value).value], url.value, fetch, join)
  {
    match sectionId
    case None => MissingId
    case Some(id) =>
      if id == "" then MissingId
      else
        match SectionIndex(id)
        case None => BadIndex
        case Some(i) =>
          match url
          case None => NotFound
          case Some(u) =>
            if u == "" then NotFound
            else
              match FetchModule(u, fetch, join)
              case Failure(e) => ModuleError(e)
              case Success(m) =>
                if i < |m.sections| then ShowSection(m.sections[i], u, fetch, join) else NotFound
  }

  // ---------------------------------------------------------------------
  // Ids and positions
  // ---------------------------------------------------------------------

  /** The outline never needs the single "Main Content" stand-in: the
      sections of a module are its outline, which is never empty. */
  lemma NoStandInSection(doc: Node, baseUrl: string, join: Joiner)
    ensures |ParseContent(doc, baseUrl, join).sections| > 0
    ensures forall k :: 0 <= k < |ParseContent(doc, baseUrl, join).sections| ==>
      ParseContent(doc, baseUrl, join).sections[k].href.Some?
  {
  }

  /** Ids are numbered by position among all units but looked up by
      position among the admitted ones: entry `k` of an outline built from
      units reads back its own position exactly when none of the first
      `k + 1` units was refused. Otherwise its id names a later position,
      which holds another entry or lies past the end. */
  lemma OwnIdNamesOwnPosition(vs: seq<Option<Link>>, k: nat)
    requires k < |Admitted(vs)|
    ensures |Entries(vs)| == |Admitted(vs)|
    ensures SectionIndex(Entries(vs)[k].id) == Some(Admitted(vs)[k])
    ensures Admitted(vs)[k] >= k
    ensures SectionIndex(Entries(vs)[k].id) == Some(k) <==> forall j :: 0 <= j <= k ==> vs[j].Some?
  {
    EntryIdReadsBack(vs, k);
    AdmittedAtOwnPosition(vs, k);
    AdmittedAtLeastPosition(Admitted(vs), k);
  }

  lemma EntryIdReadsBack(vs: seq<Option<Link>>, k: nat)
    requires k < |Admitted(vs)|
    ensures |Entries(vs)| == |Admitted(vs)|
    ensures SectionIndex(Entries(vs)[k].id) == Some(Admitted(vs)[k])
  {
    EntriesFollowAdmitted(vs);
    var a := Admitted(vs)[k];
    assert Entries(vs)[k].id == SectionId(a);
    SectionIndexRoundTrip(a);
  }

  /** A strictly increasing sequence of naturals has at least `k` at
      position `k`. */
  lemma {:induction false} AdmittedAtLeastPosition(r: seq<nat>, k: nat)
    requires k < |r|
    requires forall a, b :: 0 <= a < b < |r| ==> r[a] < r[b]
    ensures r[k] >= k
  {
    if k > 0 {
      AdmittedAtLeastPosition(r, k - 1);
    }
  }

  /** The fallback outline's ids are the ones its positions would get, so
      (by `SectionIndexRoundTrip`) each names its own position. */
  lemma FallbackIdsMatch()
    ensures forall k :: 0 <= k < |FallbackOutline| ==> FallbackOutline[k].id == SectionId(k)
  {
    assert Decimal(0) == "0" && Decimal(1) == "1";
  }

  /** Two units where the first has a too-short title: the one entry gets
      id `section-1`, which reads back as position 1 of a one-entry
      outline. */
  lemma RefusedUnitShiftsIds()
    ensures var vs := [None, Some(Link("Introduction", "/unit-2"))];
      && Entries(vs) == [Section("Introduction", Raw(""), "section-1", Some("/unit-2"))]
      && SectionIndex("section-1") == Some(1)
  {
    var vs: seq<Option<Link>> := [None, Some(Link("Introduction", "/unit-2"))];
    assert vs[..1] == [None] && vs[..1][..0] == [];
    assert SectionId(1) == "section-1";
    SectionIndexRoundTrip(1);
  }
}
