/** The outline of a module page (app.py, `extract_navigation`): one entry
    per unit of the `ul#unit-list` whose link text is long enough, each
    numbered by its position among all units, or a fixed two-entry outline
    when no unit qualifies. */
module Navigation {
  import opened Wrappers
  import opened Strings
  import opened Html
  import opened Sanitizer

  /** One outline entry. `href` is absent only for the single-entry outline
      the module assembly would build for an empty outline. */
  datatype Section = Section(title: string, content: Markup, id: string, href: Option<string>)

  /** The title and target of a unit's link. */
  datatype Link = Link(title: string, href: string)

  const UnitListSel := TagAttr("ul", "id", "unit-list")
  const UnitSel := TagClass({"li"}, {"module-unit"})
  const BarLinkSel := TagClass({"div"}, {"barLink"})
  const AnchorSel := Tag("a")

  /** The id an entry gets from its position among all units. */
  function SectionId(i: nat): (id: string)
    ensures |id| > 8 && id[..8] == "section-"
  {
    "section-" + Decimal(i)
  }

  /** The id is `section-` followed by the decimal digits of the position,
      which read back as that position. */
  lemma SectionIdDigits(i: nat)
    ensures forall k :: 8 <= k < |SectionId(i)| ==> IsDigit(SectionId(i)[k])
    ensures ParseInt(SectionId(i)[8..]) == Some(i)
  {
    DecimalRoundTrip(i);
    assert SectionId(i)[8..] == Decimal(i);
  }

  /** Different positions get different ids. */
  lemma SectionIdInjective(a: nat, b: nat)
    requires SectionId(a) == SectionId(b)
    ensures a == b
  {
    assert SectionId(a)[8..] == Decimal(a) && SectionId(b)[8..] == Decimal(b);
    DecimalInjective(a, b);
  }

  /** The units of the page: every `li.module-unit` below the first
      `ul#unit-list`, in document order; none without the list. */
  function Candidates(doc: Node): (units: seq<Node>)
    ensures forall u :: u in units ==> Matches(UnitSel, u)
  {
    match Find(doc, UnitListSel)
    case None => []
    case Some(list) => FindAll(list, UnitSel)
  }

  /** The units are exactly the `li.module-unit` elements met in a
      document-order walk below the first list, none missed and none
      repeated out of order. */
  lemma CandidatesAreListedUnits(doc: Node)
    ensures Find(doc, UnitListSel).None? ==> Candidates(doc) == []
    ensures Find(doc, UnitListSel).Some? ==>
      Candidates(doc) == Filter(Descendants(Find(doc, UnitListSel).value), UnitSel)
  {
    if Find(doc, UnitListSel).Some? {
      var list := Find(doc, UnitListSel).value;
      FindAllIsFilteredTraversal(ChildrenOf(list), UnitSel);
      assert Descendants(list) == DescendantsOf(ChildrenOf(list));
    }
  }

  /** The link a unit contributes: the first `a` inside its first
      `div.barLink`, titled by its stripped text, with its `href` or the
      empty string; a title of three characters or fewer is refused. */
  function Admit(unit: Node): (r: Option<Link>)
    ensures r.Some? ==> |r.value.title| > 3
  {
    match Find(unit, BarLinkSel)
    case None => None
    case Some(bar) =>
      match Find(bar, AnchorSel)
      case None => None
      case Some(link) =>
        var title := Strip(GetText(link));
        if |title| > 3 then
          Some(Link(title, if "href" in link.attrs then link.attrs["href"] else ""))
        else None
  }

  /** A unit is admitted exactly when it has a `div.barLink` holding an
      `a` whose stripped text is longer than three characters; its link is
      that text and the anchor's `href`, or the empty string without one. */
  lemma AdmitSpec(unit: Node)
    ensures Admit(unit).Some? <==>
      && Find(unit, BarLinkSel).Some?
      && Find(Find(unit, BarLinkSel).value, AnchorSel).Some?
      && |Strip(GetText(Find(Find(unit, BarLinkSel).value, AnchorSel).value))| > 3
    ensures Admit(unit).Some? ==>
      var a := Find(Find(unit, BarLinkSel).value, AnchorSel).value;
      && Admit(unit).value.title == Strip(GetText(a))
      && Admit(unit).value.href == (if "href" in a.attrs then a.attrs["href"] else "")
  {
  }

  /** The verdict on each unit, in order. */
  function Verdicts(units: seq<Node>): (vs: seq<Option<Link>>)
    ensures |vs| == |units|
    ensures forall k :: 0 <= k < |units| ==> vs[k] == Admit(units[k])
  {
    seq(|units|, k requires 0 <= k < |units| => Admit(units[k]))
  }

  /** The entry for an admitted unit at position `i` among all units. */
  function Entry(l: Link, i: nat): Section {
    Section(l.title, Raw(""), SectionId(i), Some(l.href))
  }

  /** The entries for the verdicts `vs`, appended in order, each numbered
      by the position of its unit. */
  function Entries(vs: seq<Option<Link>>): (r: seq<Section>)
    ensures |r| <= |vs|
    ensures forall k :: 0 <= k < |r| ==> r[k].content == Raw("") && r[k].href.Some?
  {
    if |vs| == 0 then []
    else
      var n := |vs| - 1;
      Entries(vs[..n]) + (match vs[n] case Some(l) => [Entry(l, n)] case None => [])
  }

  /** The outline used when no unit qualifies. */
  const FallbackOutline: seq<Section> := [
    Section("Introduction", Raw(""), "section-0", Some("#intro")),
    Section("Main Content", Raw(""), "section-1", Some("#main"))
  ]

  /** `extract_navigation`: the admitted entries, or the fallback outline
      when there are none. The outline is never empty. */
  function ExtractNavigation(doc: Node): (r: seq<Section>)
    ensures |r| > 0
    ensures forall k :: 0 <= k < |r| ==> r[k].content == Raw("") && r[k].href.Some?
  {
    var entries := Entries(Verdicts(Candidates(doc)));
    if entries == [] then FallbackOutline else entries
  }

  // ---------------------------------------------------------------------
  // A reference description of the outline
  // ---------------------------------------------------------------------

  /** The positions of the admitted units, in increasing order (that none
      is missed is `AdmittedComplete`). */
  function Admitted(vs: seq<Option<Link>>): (r: seq<nat>)
    ensures |r| <= |vs|
    ensures forall k :: 0 <= k < |r| ==> r[k] < |vs| && vs[r[k]].Some?
    ensures forall k, m :: 0 <= k < m < |r| ==> r[k] < r[m]
  {
    if |vs| == 0 then []
    else
      var n := |vs| - 1;
      assert forall j :: 0 <= j < n ==> vs[..n][j] == vs[j];
      Admitted(vs[..n]) + (if vs[n].Some? then [n] else [])
  }

  /** No admitted unit is missed: every position whose unit is admitted is
      listed. */
  lemma {:induction false} AdmittedComplete(vs: seq<Option<Link>>, j: nat)
    requires j < |vs| && vs[j].Some?
    ensures j in Admitted(vs)
    decreases |vs|
  {
    var n := |vs| - 1;
    var pre := vs[..n];
    var tail: seq<nat> := if vs[n].Some? then [n] else [];
    assert Admitted(vs) == Admitted(pre) + tail;
    if j < n {
      assert pre[j] == vs[j];
      AdmittedComplete(pre, j);
    } else {
      assert Admitted(vs)[|Admitted(pre)|] == j;
    }
  }

  /** Entry `k` of the outline belongs to the `k`-th admitted unit and is
      numbered by that unit's position among all units. */
  lemma {:induction false} EntriesFollowAdmitted(vs: seq<Option<Link>>)
    ensures |Entries(vs)| == |Admitted(vs)|
    ensures forall k :: 0 <= k < |Admitted(vs)| ==>
      Entries(vs)[k] == Entry(vs[Admitted(vs)[k]].value, Admitted(vs)[k])
    decreases |vs|
  {
    if |vs| > 0 {
      var n := |vs| - 1;
      var pre := vs[..n];
      var last := if vs[n].Some? then [Entry(vs[n].value, n)] else [];
      var tail: seq<nat> := if vs[n].Some? then [n] else [];
      EntriesFollowAdmitted(pre);
      var e, r := Entries(vs), Admitted(vs);
      var ep, rp := Entries(pre), Admitted(pre);
      assert e == ep + last;
      assert r == rp + tail;
      assert |e| == |r|;
      forall k | 0 <= k < |r|
        ensures e[k] == Entry(vs[r[k]].value, r[k])
      {
        if k < |rp| {
          assert e[k] == ep[k];
          assert r[k] == rp[k];
          assert pre[r[k]] == vs[r[k]];
        } else {
          assert e[k] == last[0] && r[k] == n;
        }
      }
    }
  }

  /** Every unit is admitted exactly when there are as many admitted
      positions as units. */
  lemma {:induction false} AllAdmitted(vs: seq<Option<Link>>)
    ensures |Admitted(vs)| == |vs| <==> forall j :: 0 <= j < |vs| ==> vs[j].Some?
    decreases |vs|
  {
    if |vs| > 0 {
      var n := |vs| - 1;
      var pre := vs[..n];
      var tail: seq<nat> := if vs[n].Some? then [n] else [];
      assert Admitted(vs) == Admitted(pre) + tail;
      AllAdmitted(pre);
      assert |Admitted(vs)| == |Admitted(pre)| + |tail|;
      assert |Admitted(pre)| <= n && |tail| <= 1;
      if forall j :: 0 <= j < |vs| ==> vs[j].Some? {
        forall j | 0 <= j < n ensures pre[j].Some? {
          assert pre[j] == vs[j];
        }
      }
      if |Admitted(vs)| == |vs| {
        assert |Admitted(pre)| == n && vs[n].Some?;
        forall j | 0 <= j < |vs| ensures vs[j].Some? {
          if j < n {
            assert pre[j] == vs[j];
          }
        }
      }
    }
  }

  /** A run of `m` admitted units at the front gives at least `m` admitted
      positions. */
  lemma {:induction false} AdmittedRun(vs: seq<Option<Link>>, m: nat)
    requires m <= |vs|
    requires forall j :: 0 <= j < m ==> vs[j].Some?
    ensures |Admitted(vs)| >= m
    decreases |vs|
  {
    if m == |vs| {
      AllAdmitted(vs);
    } else {
      var n := |vs| - 1;
      assert forall j :: 0 <= j < m ==> vs[..n][j] == vs[j];
      AdmittedRun(vs[..n], m);
    }
  }

  /** The position of the `k`-th admitted unit is `k` exactly when none of
      the first `k + 1` units was refused. */
  lemma {:induction false} AdmittedAtOwnPosition(vs: seq<Option<Link>>, k: nat)
    requires k < |Admitted(vs)|
    ensures Admitted(vs)[k] == k <==> forall j :: 0 <= j <= k ==> vs[j].Some?
    decreases |vs|
  {
    var n := |vs| - 1;
    var pre := vs[..n];
    var p := Admitted(pre);
    var tail: seq<nat> := if vs[n].Some? then [n] else [];
    assert Admitted(vs) == p + tail;
    if k < |p| {
      assert Admitted(vs)[k] == p[k];
      AdmittedAtOwnPosition(pre, k);
      assert forall j :: 0 <= j <= k ==> pre[j] == vs[j];
    } else if k == n {
      AdmittedAtEnd(vs);
    } else {
      AdmittedShort(vs, k);
    }
  }

  /** The last admitted position is the last unit, which is its own position
      exactly when every unit is admitted. */
  lemma AdmittedAtEnd(vs: seq<Option<Link>>)
    requires |vs| > 0 && |Admitted(vs[..|vs| - 1])| == |vs| - 1 && vs[|vs| - 1].Some?
    ensures Admitted(vs)[|vs| - 1] == |vs| - 1
    ensures forall j :: 0 <= j < |vs| ==> vs[j].Some?
  {
    var n := |vs| - 1;
    var pre := vs[..n];
    assert Admitted(vs) == Admitted(pre) + [n];
    AllAdmitted(pre);
    forall j | 0 <= j < |vs| ensures vs[j].Some? {
      if j < n {
        assert pre[j] == vs[j];
      }
    }
  }

  /** When fewer units than positions came before the last one, the last
      admitted position is past its own index, and a refused unit lies
      among the first `k + 1`. */
  lemma AdmittedShort(vs: seq<Option<Link>>, k: nat)
    requires |vs| > 0 && k == |Admitted(vs[..|vs| - 1])| && k < |vs| - 1 && vs[|vs| - 1].Some?
    ensures Admitted(vs)[k] != k
    ensures !forall j :: 0 <= j <= k ==> vs[j].Some?
  {
    var n := |vs| - 1;
    var pre := vs[..n];
    assert Admitted(vs) == Admitted(pre) + [n];
    if forall j :: 0 <= j <= k ==> vs[j].Some? {
      assert forall j :: 0 <= j <= k ==> pre[j] == vs[j];
      AdmittedRun(pre, k + 1);
      assert false;
    }
  }

  /** When no unit qualifies the outline is exactly the fallback, and
      otherwise exactly the admitted entries. */
  lemma NavigationFallback(doc: Node)
    ensures var vs := Verdicts(Candidates(doc));
      ExtractNavigation(doc) == if Admitted(vs) == [] then FallbackOutline else Entries(vs)
  {
    EntriesFollowAdmitted(Verdicts(Candidates(doc)));
  }

  /** The outline names each admitted unit by its own position: the entry
      for an admitted unit is present, and an entry carrying the id of a
      position belongs to the unit there, which was admitted. */
  lemma EntriesNameAdmitted(vs: seq<Option<Link>>, i: nat)
    ensures i < |vs| && vs[i].Some? ==> Entry(vs[i].value, i) in Entries(vs)
    ensures forall e :: e in Entries(vs) && e.id == SectionId(i) ==>
      i < |vs| && vs[i].Some? && e == Entry(vs[i].value, i)
  {
    EntriesFollowAdmitted(vs);
    var es, r := Entries(vs), Admitted(vs);
    if i < |vs| && vs[i].Some? {
      AdmittedComplete(vs, i);
      var k :| 0 <= k < |r| && r[k] == i;
      assert es[k] == Entry(vs[i].value, i);
    }
    forall e | e in es && e.id == SectionId(i)
      ensures i < |vs| && vs[i].Some? && e == Entry(vs[i].value, i)
    {
      var k :| 0 <= k < |es| && es[k] == e;
      SectionIdInjective(r[k], i);
    }
  }

  /** The outline of a page, end to end: an entry with id `section-i`
      and unit `i`'s link text and target is present whenever unit `i`
      below the list qualifies. */
  lemma OutlineListsAdmittedUnits(doc: Node, i: nat)
    requires i < |Candidates(doc)| && Admit(Candidates(doc)[i]).Some?
    ensures Entry(Admit(Candidates(doc)[i]).value, i) in ExtractNavigation(doc)
  {
    var vs := Verdicts(Candidates(doc));
    NavigationFallback(doc);
    EntriesNameAdmitted(vs, i);
    AdmittedComplete(vs, i);
  }

  /** Conversely, once some unit qualifies, an entry with id `section-i`
      is the entry of unit `i`, which qualified. */
  lemma OutlineIdsNameUnits(doc: Node, i: nat, e: Section)
    requires exists j :: 0 <= j < |Candidates(doc)| && Admit(Candidates(doc)[j]).Some?
    requires e in ExtractNavigation(doc) && e.id == SectionId(i)
    ensures i < |Candidates(doc)| && Admit(Candidates(doc)[i]).Some?
    ensures e == Entry(Admit(Candidates(doc)[i]).value, i)
  {
    var vs := Verdicts(Candidates(doc));
    NavigationFallback(doc);
    AdmittedNone(vs);
    EntriesNameAdmitted(vs, i);
  }

  /** Without any qualifying unit the outline is the fallback. */
  lemma OutlineFallsBack(doc: Node)
    requires forall j :: 0 <= j < |Candidates(doc)| ==> Admit(Candidates(doc)[j]).None?
    ensures ExtractNavigation(doc) == FallbackOutline
  {
    var vs := Verdicts(Candidates(doc));
    NavigationFallback(doc);
    AdmittedNone(vs);
  }

  /** No position is admitted exactly when every unit is refused. */
  lemma AdmittedNone(vs: seq<Option<Link>>)
    ensures Admitted(vs) == [] <==> forall j :: 0 <= j < |vs| ==> vs[j].None?
  {
    var r := Admitted(vs);
    if r != [] {
      var a := r[0];
      assert a < |vs| && vs[a].Some?;
    }
    if j :| 0 <= j < |vs| && vs[j].Some? {
      AdmittedComplete(vs, j);
      assert j in r;
    }
  }
}
