# A verified model of the Microsoft Learn reader's extraction pipeline

The reader (`app.py`) fetches a Microsoft Learn training-module page and extracts three things from it: the module title, an outline of the module's units, and a sanitized content area. Later it loads one unit's page into the content pane when the user picks an outline entry. This project models that pipeline in Dafny. It covers the `MSLearnParser` class and the decisions made by the `load_module` and `load_section` request handlers. The proofs show what each step keeps, removes and returns.

The parsed page is an immutable tree (`Html.Node`):
- an element has a tag name, its class tokens, its other attributes and its children;
- a text node has its text.

The parser's root is the element named `[document]`. The BeautifulSoup queries become pure functions:
- `find`, `select_one` and `find_all` search the descendants in document order (`Html.FindOf`, `Html.FindAllOf`);
- `get_text()` concatenates all the text below a node (`Html.GetText`), as BeautifulSoup did before version 4.10 (see "Left out").

The in-place `decompose()` loops of the source become functions that build the pruned tree. Each such loop judges every node on the tree as it was when the loop started.

Modules:
- **Strings**: the string operations the pipeline uses. These are Python's `str.strip` (with Python's whitespace set), the prefix test, the `in` substring test, `split('-')[-1]`, the decimal rendering of an index, and `int()` on a string.
- **Html**: the tree, selectors, search, and a generic attribute pass.
- **Cleanup**: the removal passes of `clean_content` and the attribute allow-list.
- **Urls**: `fix_relative_urls`.
- **Sanitizer**: `clean_content` as a whole.
- **ContentArea**: `extract_main_content` and the content-area choice of `fetch_section_content`.
- **Navigation**: `extract_navigation`.
- **Pipeline**: `parse_content`, `fetch_module`, `load_module` and `load_section`.

The network and `urljoin` are parameters. A download is given as its outcome: the parsed page, or the error text. Resolving a reference against a base URL is an arbitrary function `join`.

### Behaviour of the code worth knowing

- **Empty titles.** An empty first `h1` is still an element, and elements are truthy, so it gives the empty title rather than the default (app.py:34-35; `Pipeline.EmptyHeadingGivesEmptyTitle`).
- **Repeated sanitizing.** `clean_content` removes the first `h1` on every call (app.py:147-149), so a page with two `h1` headings changes on a second pass (`Sanitizer.SanitizeNotIdempotent`, `Sanitizer.TwoHeadingsWitness`).
- **Order of rewrite and cleanup.** `fix_relative_urls` runs on the serialized content before it is parsed again and cleaned (app.py:123-129; `Sanitizer.Sanitize`).
- **Unit-page content area.**
  - `fetch_section_content` uses its own chain (app.py:219-222): `main`, a tag literally named `[role="main"]`, `div.content`, `article`.
  - That chain has no `body` fallback, and no `aside` is removed before cleaning.
  - `find('[role="main"]')` looks for a tag of that name, so the second lookup never matches a parsed page (`ContentArea.LiteralRoleNeverMatches`).
- **The "Main Content" entry.** `extract_navigation` substitutes a two-entry outline when no unit qualifies (app.py:79-84). So the outline is never empty, and the "Main Content" stand-in of app.py:45 is never used, nor is the content area computed for it at app.py:41 (`Pipeline.NoStandInSection`).
- **Section requests.** `load_section` (app.py:284-341) answers as follows:
  - a missing or empty id is refused with status 400 (app.py:284-285);
  - an id containing `section-` whose last dash-separated field `int()` rejects gives status 500 (app.py:288, 338-341; `Pipeline.SectionIndexSpec`, `Pipeline.LetteredIdIsBad`); an id without `section-` reads as index 0 (app.py:288);
  - a failed re-fetch of the module gives status 500 (app.py:293, 338-341);
  - a missing or empty module URL, and an index past the end of the outline, give "Section not found" with status 404 (app.py:291, 296, 336).
- **Section ids and positions.** Ids count every unit (app.py:60, 74), but `load_section` indexes the list of admitted units (app.py:296-297). In an outline built from the units, entry `k` opens itself only when none of the first `k + 1` units was refused (`Pipeline.OwnIdNamesOwnPosition`). Otherwise it opens a later entry, or nothing (`Pipeline.RefusedUnitShiftsIds`). The two fallback entries always open themselves (`Pipeline.FallbackIdsMatch`).

## Model

| member | source | states |
|---|---|---|
| Strings.StripSpec | app.py:244 | stripping gives the empty string exactly when the input is all whitespace; it leaves no whitespace at either end, and leaves unchanged a string that has none there |
| Strings.StripStable | app.py:35 | stripping twice is the same as stripping once |
| Strings.Contains | app.py:249 | the substring test holds exactly when the pattern occurs at some position |
| Strings.AfterLastDash | app.py:288 | the last dash-separated field has no dash, is a suffix of the input, and is preceded by a dash unless it is the whole input |
| Strings.ParseInt | app.py:288 | `int()` succeeds only on text that is not blank after stripping, and gives a non-negative number when there is no minus sign |
| Strings.ParseIntSpec | app.py:288 | `int()` accepts a text exactly when, stripped, it is an optional `+` or `-` followed by ASCII digits with single underscores between digits |
| Strings.ParseIntReads | app.py:288 | an accepted text is worth its digits read in base 10, underscores ignored, negated after a minus sign |
| Strings.DecimalRoundTrip | app.py:288 | `int()` of the rendering of a natural number gives that number back |
| Strings.DecimalInjective | app.py:74 | distinct positions render as distinct ids |
| Html.FindAllIsFilteredTraversal | app.py:57 | `find_all` is the document-order list of all descendants, filtered by the selector |
| Html.FindIsFirstOfFindAll | app.py:54 | `find` is the first element of `find_all`, and finds nothing exactly when that list is empty |
| Html.FoundAmongDescendants | app.py:107 | whatever `select_one` finds is one of the searched node's descendants |
| Html.MapAttrsKeepsMatches | app.py:156-158 | rewriting attributes keeps every match of a selector that ignores attributes: the same count, and finding nothing exactly when nothing was found before |
| Html.MapAttrsKeepsText | app.py:156-158 | rewriting attributes keeps the text of the page |
| Html.MapAttrsUnchanged | app.py:184-207 | an attribute pass that changes no element leaves the page equal to the input |
| Html.MapAttrsIdempotent | app.py:156-158 | an attribute pass built from an idempotent rule is idempotent |
| Cleanup.RemoveAll | app.py:138-139 | after decomposing every match, nothing below the node matches, and the node itself keeps its tag, classes and attributes |
| Cleanup.RemoveAllIdempotent | app.py:92-93 | decomposing every match a second time changes nothing |
| Cleanup.RemoveAllPrunes | app.py:138-139 | decomposing only deletes subtrees; nothing is added or altered |
| Cleanup.RemoveAllKeepsRest | app.py:138-139 | after decomposing every match, a walk of the node's descendants in document order meets exactly the nodes outside every decomposed match, text nodes included, each with its own tag, classes, attributes or text |
| Cleanup.RemoveAllKeepsOthers | app.py:138-139 | after decomposing every match, any selector finds exactly as many nodes as match among the nodes outside every decomposed match |
| Cleanup.DropWhereKeepsMatches | app.py:142-144 | deleting nodes that neither match nor hold a match keeps the number of matches |
| Cleanup.KeptAreUndropped | app.py:142-144 | the nodes that outlive a removal pass are nodes of the page that the pass did not remove |
| Cleanup.DropWhereKeepsKept | app.py:137-153 | after a removal pass, a walk of the forest in document order meets exactly the nodes that outlive it, text nodes included, each with its own tag, classes, attributes or text |
| Cleanup.DropWhereFindsKept | app.py:137-153 | after a removal pass, any selector finds exactly as many nodes as match among the nodes that outlive it |
| Cleanup.RemoveEmptyKeepsImages | app.py:141-144 | removing empty paragraphs and divisions keeps every image |
| Cleanup.RemoveEmptyKeepsBlankText | app.py:143 | removing empty containers keeps whether the text is blank |
| Cleanup.RemoveEmptyKeepsVerdict | app.py:142-144 | cleaning below a node keeps its verdict: it was an empty container exactly when it still is |
| Cleanup.RemoveEmptyOrderIrrelevant | app.py:142-144 | the document-order pass gives the same tree as a bottom-up pass |
| Cleanup.RemoveEmptyIdempotent | app.py:142-144 | removing empty containers a second time changes nothing |
| Cleanup.RemoveEmptyPrunes | app.py:142-144 | removing empty containers only deletes subtrees |
| Cleanup.RemoveFirstKeepsLaterMatches | app.py:146-149 | the matches before the pass are the first match, the matches nested in it, and then exactly the matches left after the pass, in order |
| Cleanup.RemoveFirstKeepsRest | app.py:146-149 | the walk of the forest in document order is some `p` holding no match, then the first match's subtree, then some `q`; the walk after the pass is `p` then `q`, so only the first match's subtree goes and every other node, text included, stays in place |
| Cleanup.RemoveFirstKeepsOthers | app.py:146-149 | for any selector, the matches before the pass are those inside the removed first match plus those left after it |
| Cleanup.RemoveFirstDropsAMatch | app.py:147-149 | removing the first `h1` lowers the number of `h1` elements |
| Cleanup.RemoveFirstPrunes | app.py:147-149 | removing the first match only deletes subtrees; nothing is added or altered |
| Cleanup.KeepAllowed | app.py:157-158 | the kept attributes are exactly the allowed ones present, with their values |
| Cleanup.StripAttrsAllowed | app.py:155-158 | after the pass, every element below carries only allowed attributes |
| Cleanup.StripAttrsIdempotent | app.py:155-158 | the attribute pass is idempotent |
| Urls.ResolveSrc | app.py:191-200 | both branches for image sources, `../` and the rest, resolve the source against the base URL alike |
| Urls.RewriteAttrs | app.py:188-205 | the rewrite keeps the key set and every other attribute; an `img` `src` and an `a` `href` are resolved exactly when they are non-empty and not exempt |
| Urls.RewriteKeepsPage | app.py:184-207 | rewriting URLs keeps the text and every tag or class match of the page |
| Urls.RewriteAbsoluteUnchanged | app.py:188-205 | a page with nothing relative to rewrite comes out unchanged |
| Urls.RewriteIdempotent | app.py:184-207 | when resolution always yields an `http` URL, a second rewrite changes nothing |
| Urls.PrefixTestIsPlain | app.py:191-204 | the exemptions are bare prefix tests: `httpfoo.png` is left alone, and `data:` is exempt only for images |
| Sanitizer.Sanitize | app.py:122-166 | the sanitized result is a parser root with no attributes |
| Sanitizer.CleanContent | app.py:117-120 | "No content found" is returned exactly when there is no content node |
| Sanitizer.CleanGuarantees | app.py:137-158 | after cleaning, no noise tag and no chrome division is left, and every attribute is allowed |
| Sanitizer.SanitizeGuarantees | app.py:117-166 | the returned markup has no noise tag, no chrome division and only allowed attributes |
| Sanitizer.CleanKeepsImages | app.py:137-158 | on a page without noise tags, `h1` headings or progress boxes, cleaning keeps every image |
| Sanitizer.SanitizeKeepsImages | app.py:117-166 | sanitizing content without noise tags, `h1` headings or progress boxes keeps every image |
| Sanitizer.CleanDropsATitle | app.py:146-149 | cleaning never adds `h1` elements, and removes at least one when there is one |
| Sanitizer.SanitizeNotIdempotent | app.py:146-149 | a sanitized result that still has an `h1` changes when sanitized again |
| Sanitizer.TwoHeadingsWitness | app.py:117-166 | a division holding two headings sanitizes to one that still holds the second heading |
| ContentArea.Winner | app.py:106-109 | the chosen selector is the first in priority order that finds anything, and every earlier one finds nothing |
| ContentArea.FirstFound | app.py:105-109 | nothing is found exactly when no selector finds anything; otherwise the result is what the first selector that finds anything finds |
| ContentArea.FirstFoundPriority | app.py:105-109 | when selector `j` finds something and every earlier one finds nothing, the result is what selector `j` finds |
| ContentArea.MainContentAreaClean | app.py:91-112 | the content area is the cleaned page or one of its nodes, and has no noise tag below it |
| ContentArea.MainContentAreaPriority | app.py:96-112 | when selector `i` is the first to find something, the content area is what it finds |
| ContentArea.MainContentAreaFallback | app.py:111-112 | when no selector finds anything, the content area is the first `body`, or the whole cleaned page when there is none |
| ContentArea.ExtractMainContent | app.py:89-115 | the module content is always sanitized markup, never the "No content found" message |
| ContentArea.SectionPageArea | app.py:219-222 | a unit page has no content area exactly when none of the four lookups finds anything |
| ContentArea.SectionPageAreaPriority | app.py:219-222 | when lookup `j` of the four finds something and every earlier one finds nothing, the content area is what lookup `j` finds |
| ContentArea.SectionPageMainWins | app.py:219 | a unit page with a `main` element has the first `main` as its content area |
| ContentArea.LiteralRoleNeverMatches | app.py:219 | on a parsed page the `[role="main"]` lookup finds nothing, so the chain is `main`, `div.content`, `article` |
| ContentArea.FetchSectionContent | app.py:209-233 | a failed download gives an error naming it; "Content not found" comes exactly when no content area exists; otherwise the area is sanitized against the unit's URL |
| Navigation.SectionIdDigits | app.py:74 | an id is `section-` followed by decimal digits that `int()` reads back as the position |
| Navigation.SectionIdInjective | app.py:74 | distinct positions get distinct ids |
| Navigation.CandidatesAreListedUnits | app.py:54-57 | without a `ul#unit-list` there are no units; with one, the units are exactly the `li.module-unit` elements of a document-order walk below the first list |
| Navigation.AdmitSpec | app.py:60-70 | a unit is admitted exactly when it has a `div.barLink` holding an `a` whose stripped text is longer than three characters; the link is that text and the `href`, or the empty string without one |
| Navigation.ExtractNavigation | app.py:49-87 | the outline is never empty, and every entry has empty content and a link |
| Navigation.Admitted | app.py:70-76 | the reference list of admitted positions is increasing, and each position in it holds an admitted unit |
| Navigation.AdmittedComplete | app.py:70-76 | every admitted unit's position is in the reference list |
| Navigation.EntriesFollowAdmitted | app.py:60-76 | entry `k` of the outline is the `k`-th admitted unit, numbered by its position among all units |
| Navigation.AdmittedAtOwnPosition | app.py:60-76 | the `k`-th admitted position is `k` exactly when none of the first `k + 1` units was refused |
| Navigation.NavigationFallback | app.py:78-84 | the outline is the fixed two-entry fallback exactly when no unit is admitted, and otherwise the admitted entries |
| Navigation.AdmittedNone | app.py:70-79 | no position is admitted exactly when every unit is refused |
| Navigation.EntriesNameAdmitted | app.py:60-76 | an admitted unit has its entry, numbered by its position; an entry with the id of a position belongs to the unit there, which was admitted |
| Navigation.OutlineListsAdmittedUnits | app.py:53-76 | every qualifying unit below the list has an entry with id `section-i`, its link text and its target |
| Navigation.OutlineIdsNameUnits | app.py:53-84 | once some unit qualifies, an entry with id `section-i` is the entry of unit `i`, which qualified |
| Navigation.OutlineFallsBack | app.py:78-84 | when no unit qualifies the outline is the fixed fallback |
| Pipeline.ModuleTitle | app.py:34-35 | the title is the stripped text of the first `h1`; without an `h1`, of the first `title`; with neither, the default |
| Pipeline.ModuleTitleStripped | app.py:35 | the title has no surrounding whitespace |
| Pipeline.EmptyHeadingGivesEmptyTitle | app.py:34-35 | a page whose first `h1` is empty gets the empty title, not the default |
| Pipeline.ParseContent | app.py:29-47 | the module's sections are exactly its outline, together with its title and URL |
| Pipeline.NoStandInSection | app.py:45 | a module always has sections, and each has a link, so the "Main Content" stand-in never appears |
| Pipeline.FetchModule | app.py:20-27 | a failed download gives "Failed to fetch module: " and the error; otherwise the parsed module |
| Pipeline.LoadModule | app.py:242-273 | a blank or off-site URL is refused, each with its own message; a failed fetch fails; otherwise the stripped URL's title and outline are shown |
| Pipeline.LoadedModuleShowsNoContent | app.py:258-261 | a freshly loaded module shows an empty content pane |
| Pipeline.SectionIndex | app.py:288 | an id without `section-` names position 0, and any index read is non-negative |
| Pipeline.SectionIndexSpec | app.py:288 | an id containing `section-` reads as nothing, so the request fails with status 500, exactly when the field after its last dash is no integer literal |
| Pipeline.SectionIndexValue | app.py:288 | otherwise the id reads as that field's value |
| Pipeline.LetteredIdIsBad | app.py:288 | an id containing `section-` whose last field starts with neither whitespace, a digit nor a sign, such as `section-abc`, reads as nothing |
| Strings.ParseIntRejects | app.py:288 | `int()` rejects a text whose first character is neither whitespace, a digit nor a sign |
| Pipeline.SectionIndexRoundTrip | app.py:288 | the id built for position `i` reads back as `i` |
| Pipeline.SectionTarget | app.py:302-308 | a link is followed exactly when it is non-empty and not an in-page anchor; a site-absolute path goes to the site's host, and anything else is resolved against the module URL |
| Pipeline.ShowSection | app.py:296-332 | an entry without a link fails; a followed link shows the unit page's content, or the error in its place; otherwise the stored content if non-empty, else a placeholder |
| Pipeline.LoadSection | app.py:275-341 | a missing or empty id is refused; an unreadable index fails before anything else; with a readable index, a missing or empty module URL or an index past the re-fetched outline gives "not found", a failed re-fetch gives the module error, and otherwise the section at that index is shown |
| Pipeline.OwnIdNamesOwnPosition | app.py:288-297 | entry `k`'s id reads back as its unit's position, which is at least `k`, and is `k` exactly when the first `k + 1` units were all admitted |
| Pipeline.FallbackIdsMatch | app.py:81-84 | the fallback outline's ids are the ids of their own positions |
| Pipeline.RefusedUnitShiftsIds | app.py:70-76 | after one refused unit, the single entry's id names position 1 of a one-entry outline |

## Left out

- Flask routing, `render_template`, the HTML wrappers around responses and the HTTP status codes. A response is a datatype constructor, and its status is noted beside the constructor.
- The HTTP session, timeouts and `raise_for_status`. A download is its outcome: a parsed page or the error text.
- HTML parsing and serialization. Serializing and reparsing a tree is taken to give the same tree, except that a node reparsed on its own becomes a child of a new parser root.
- `urljoin`: resolution is the uninterpreted parameter `join`. The properties that need resolution to produce an absolute URL say so in their preconditions.
- The `print` debugging and the image counting done only for it.
- `extract_section_content`: it is never called.
- `int()` accepting non-ASCII decimal digits: only ASCII digits are modelled.
- The limit on the length of a decimal literal in CPython 3.11 and later. `int()` raises `ValueError` on more than 4300 digits, so `section-` followed by 4301 digits gives status 500 (app.py:288, 338-341). `ParseInt` has no limit: the model reads the number and answers "Section not found".
- `urljoin` raising `ValueError` in `load_section`, for an href such as `http://[x`. The call at app.py:308 lies outside the inner `try` of app.py:314, so the request gets status 500 through app.py:338-341. `join` is total, so `Pipeline.SectionTarget` always yields a URL and the model answers with the section.
- The string kinds of BeautifulSoup 4.10 and later. There, `get_text()` on an ancestor leaves out the text inside `script`, `style` and `template` elements. `Html.GetText` keeps all text, as earlier versions do. Under the newer versions, a title or link text holding such an element (app.py:34-35, 66), or a `p` or `div` whose only text is inside a `template` (app.py:142-144), reads differently from the model.
- The wording of Python's own exception messages: an error text is any string.
- Exceptions raised inside `parse_content` or `clean_content` and wrapped by `fetch_module` or `fetch_section_content`: the model's steps cannot fail.
- RemoveFirstPrunes: states only that the pass deletes subtrees. That exactly one subtree goes, the first match, and that every other node stays, is stated by `Cleanup.RemoveFirstKeepsRest`.
- Cleanup.RemoveAll: its contract states what is gone after the pass. What survives, text nodes included, is stated by `Cleanup.RemoveAllKeepsRest`.
- Sanitizer.CleanKeepsImages: covers only pages without noise tags, `h1` headings or progress boxes. On other pages, images inside those elements go with them; there the image count is stated only pass by pass, by `Cleanup.RemoveAllKeepsOthers`, `Cleanup.RemoveEmptyKeepsImages` and `Cleanup.RemoveFirstKeepsOthers`.
