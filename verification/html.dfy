/** The parsed-document model the extractor works on: an immutable HTML
    tree, the handful of selectors the extractor uses, and the tree queries
    `find`, `find_all`, `select_one` and `get_text`. */
module Html {
  import opened Wrappers

  /** One node of a parsed page. An element's `class` attribute is kept
      apart as its sequence of tokens (the parser splits it on whitespace);
      every other attribute is a plain string in `attrs`. */
  datatype Node =
    | Element(tag: string, classes: seq<string>, attrs: map<string, string>, children: seq<Node>)
    | Text(text: string)

  /** The parser's name for the root of a parsed page. */
  const DocumentTag := "[document]"

  /** The root of a parsed page holding `children` at top level. */
  function Document(children: seq<Node>): (d: Node)
    ensures d.Element? && d.children == children && d.attrs == map[]
  {
    Element(DocumentTag, [], map[], children)
  }

  function ChildrenOf(n: Node): seq<Node> {
    if n.Element? then n.children else []
  }

  /** `get_text()`: every text node below `n`, concatenated in document order. */
  function GetText(n: Node): string
    decreases n, 1
  {
    match n
    case Text(s) => s
    case Element(_, _, _, cs) => TextOf(cs)
  }

  function TextOf(cs: seq<Node>): string
    decreases cs, 0
  {
    if |cs| == 0 then "" else GetText(cs[0]) + TextOf(cs[1..])
  }

  /** The descendants of a node in document (pre-)order, the node itself
      excluded. */
  function Descendants(n: Node): seq<Node>
    decreases n, 1
  {
    match n
    case Text(_) => []
    case Element(_, _, _, cs) => DescendantsOf(cs)
  }

  /** The nodes of a sequence of sibling subtrees in document order. */
  function DescendantsOf(cs: seq<Node>): seq<Node>
    decreases cs, 0
  {
    if |cs| == 0 then [] else [cs[0]] + Descendants(cs[0]) + DescendantsOf(cs[1..])
  }

  /** The fixed selectors the extractor uses: a tag name (`soup.find('h1')`,
      CSS `main`), one of several tag names (`find_all(['p', 'div'])`), a
      class token (CSS `.content`), an attribute value (CSS `[role="main"]`),
      a tag with a class token from a set (`find('div', class_='barLink')`)
      and a tag with an attribute value (`find('ul', {'id': 'unit-list'})`). */
  datatype Selector =
    | Tag(name: string)
    | AnyTag(names: set<string>)
    | Class(token: string)
    | Attr(key: string, value: string)
    | TagClass(names: set<string>, tokens: set<string>)
    | TagAttr(name: string, key: string, value: string)
  {
    /** Whether matching depends on attributes other than `class`. */
    predicate ReadsAttrs() {
      Attr? || TagAttr?
    }
  }

  /** Some class token of element `n` is one of `tokens`. */
  predicate HasClassIn(n: Node, tokens: set<string>)
    requires n.Element?
  {
    exists k :: 0 <= k < |n.classes| && n.classes[k] in tokens
  }

  /** Only elements match; text nodes never do. */
  predicate Matches(sel: Selector, n: Node) {
    && n.Element?
    && match sel
       case Tag(name) => n.tag == name
       case AnyTag(names) => n.tag in names
       case Class(token) => token in n.classes
       case Attr(key, value) => key in n.attrs && n.attrs[key] == value
       case TagClass(names, tokens) => n.tag in names && HasClassIn(n, tokens)
       case TagAttr(name, key, value) => n.tag == name && key in n.attrs && n.attrs[key] == value
  }

  /** `find_all` on `n`: every matching descendant, in document order. */
  function FindAll(n: Node, sel: Selector): seq<Node> {
    FindAllOf(ChildrenOf(n), sel)
  }

  function FindAllOf(cs: seq<Node>, sel: Selector): (r: seq<Node>)
    ensures forall i :: 0 <= i < |r| ==> Matches(sel, r[i])
    decreases cs
  {
    if |cs| == 0 then []
    else
      (if Matches(sel, cs[0]) then [cs[0]] else [])
      + (if cs[0].Element? then FindAllOf(cs[0].children, sel) else [])
      + FindAllOf(cs[1..], sel)
  }

  /** `find` / `select_one` on `n`: the first matching descendant in
      document order, if any. */
  function Find(n: Node, sel: Selector): Option<Node> {
    FindOf(ChildrenOf(n), sel)
  }

  function FindOf(cs: seq<Node>, sel: Selector): (r: Option<Node>)
    ensures r.Some? ==> Matches(sel, r.value)
    decreases cs
  {
    if |cs| == 0 then None
    else if Matches(sel, cs[0]) then Some(cs[0])
    else
      match (if cs[0].Element? then FindOf(cs[0].children, sel) else None)
      case Some(x) => Some(x)
      case None => FindOf(cs[1..], sel)
  }

  /** The elements of `xs` that match, in order. */
  function Filter(xs: seq<Node>, sel: Selector): (r: seq<Node>)
    ensures |r| <= |xs|
    ensures forall x :: x in r <==> x in xs && Matches(sel, x)
  {
    if |xs| == 0 then []
    else (if Matches(sel, xs[0]) then [xs[0]] else []) + Filter(xs[1..], sel)
  }

  lemma {:induction false} FilterAppend(a: seq<Node>, b: seq<Node>, sel: Selector)
    ensures Filter(a + b, sel) == Filter(a, sel) + Filter(b, sel)
  {
    if |a| > 0 {
      assert (a + b)[1..] == a[1..] + b;
      FilterAppend(a[1..], b, sel);
    } else {
      assert a + b == b;
    }
  }

  /** `find_all` keeps exactly the matching nodes of the document-order
      traversal. */
  lemma {:induction false} FindAllIsFilteredTraversal(cs: seq<Node>, sel: Selector)
    ensures FindAllOf(cs, sel) == Filter(DescendantsOf(cs), sel)
    decreases cs
  {
    if |cs| > 0 {
      var c := cs[0];
      if c.Element? {
        FindAllIsFilteredTraversal(c.children, sel);
      }
      FindAllIsFilteredTraversal(cs[1..], sel);
      FilterAppend([c] + Descendants(c), DescendantsOf(cs[1..]), sel);
      FilterAppend([c], Descendants(c), sel);
      assert Filter([c], sel) == if Matches(sel, c) then [c] else [];
    }
  }

  /** `find` returns the first node `find_all` would list, and nothing
      exactly when `find_all` lists nothing. */
  lemma {:induction false} FindIsFirstOfFindAll(cs: seq<Node>, sel: Selector)
    ensures FindOf(cs, sel) == if |FindAllOf(cs, sel)| == 0 then None else Some(FindAllOf(cs, sel)[0])
    decreases cs
  {
    if |cs| > 0 {
      var c := cs[0];
      var inner := FindAll(c, sel);
      var later := FindAllOf(cs[1..], sel);
      assert FindAllOf(cs, sel) == (if Matches(sel, c) then [c] else []) + inner + later;
      if c.Element? {
        FindIsFirstOfFindAll(c.children, sel);
      }
      FindIsFirstOfFindAll(cs[1..], sel);
      if !Matches(sel, c) && inner != [] {
        assert (inner + later)[0] == inner[0];
      }
    }
  }

  /** The matches of a forest headed by `c`: `c` itself if it matches, then
      the matches inside it, then those among its later siblings. */
  lemma FindAllOfCons(c: Node, rest: seq<Node>, sel: Selector)
    ensures FindAllOf([c] + rest, sel)
      == (if Matches(sel, c) then [c] else []) + FindAll(c, sel) + FindAllOf(rest, sel)
  {
    assert ([c] + rest)[0] == c;
    assert ([c] + rest)[1..] == rest;
  }

  lemma {:induction false} FindOfNoneIffEmpty(cs: seq<Node>, sel: Selector)
    ensures FindOf(cs, sel).None? <==> FindAllOf(cs, sel) == []
  {
    FindIsFirstOfFindAll(cs, sel);
  }

  /** Whatever `find` returns is one of the searched nodes. */
  lemma {:induction false} FoundAmongDescendants(cs: seq<Node>, sel: Selector)
    requires FindOf(cs, sel).Some?
    ensures FindOf(cs, sel).value in DescendantsOf(cs)
  {
    FindIsFirstOfFindAll(cs, sel);
    FindAllIsFilteredTraversal(cs, sel);
    assert FindOf(cs, sel).value in FindAllOf(cs, sel);
  }

  /** Whatever `find` returns lies inside the searched subtrees: if nothing
      there matches `other`, neither does the found node nor anything
      below it. */
  lemma {:induction false} FoundNodeInside(cs: seq<Node>, sel: Selector, other: Selector)
    requires FindOf(cs, sel).Some?
    requires FindOf(cs, other).None?
    ensures !Matches(other, FindOf(cs, sel).value)
    ensures FindOf(ChildrenOf(FindOf(cs, sel).value), other).None?
    decreases cs
  {
    var c := cs[0];
    if Matches(sel, c) {
      if c.Element? {
        assert FindOf(c.children, other).None?;
      }
    } else if c.Element? && FindOf(c.children, sel).Some? {
      FoundNodeInside(c.children, sel, other);
    } else {
      FoundNodeInside(cs[1..], sel, other);
    }
  }

  /** The node without its children: all a selector can look at. */
  function Shallow(n: Node): Node {
    match n
    case Text(_) => n
    case Element(t, c, a, _) => Element(t, c, a, [])
  }

  /** The nodes of `xs` without their children: what each one holds
      itself, its text for a text node. */
  function Shallows(xs: seq<Node>): (r: seq<Node>)
    ensures |r| == |xs|
  {
    if |xs| == 0 then [] else [Shallow(xs[0])] + Shallows(xs[1..])
  }

  lemma {:induction false} ShallowsAppend(a: seq<Node>, b: seq<Node>)
    ensures Shallows(a + b) == Shallows(a) + Shallows(b)
  {
    if |a| == 0 {
      assert a + b == b;
    } else {
      assert (a + b)[0] == a[0];
      assert (a + b)[1..] == a[1..] + b;
      ShallowsAppend(a[1..], b);
    }
  }

  /** The nodes of a forest headed by `c`: `c`, the nodes below it, then
      those of its later siblings. */
  lemma DescendantsOfCons(c: Node, rest: seq<Node>)
    ensures DescendantsOf([c] + rest) == [c] + Descendants(c) + DescendantsOf(rest)
  {
    assert ([c] + rest)[0] == c;
    assert ([c] + rest)[1..] == rest;
  }
  /** The walk of a forest: its head, the head's subtree, then the rest. */
  lemma ShallowsOfCons(c: Node, rest: seq<Node>)
    ensures Shallows(DescendantsOf([c] + rest))
      == [Shallow(c)] + Shallows(Descendants(c)) + Shallows(DescendantsOf(rest))
  {
    DescendantsOfCons(c, rest);
    ShallowsAppend([c] + Descendants(c), DescendantsOf(rest));
    ShallowsAppend([c], Descendants(c));
  }

  /** No node of `xs` matches `sel`. */
  predicate NoneMatch(xs: seq<Node>, sel: Selector) {
    forall k :: 0 <= k < |xs| ==> !Matches(sel, xs[k])
  }

  lemma NoneMatchAppend(a: seq<Node>, b: seq<Node>, sel: Selector)
    requires NoneMatch(a, sel) && NoneMatch(b, sel)
    ensures NoneMatch(a + b, sel)
  {
    forall k | 0 <= k < |a + b| ensures !Matches(sel, (a + b)[k]) {
      if k < |a| {
        assert (a + b)[k] == a[k];
      } else {
        assert (a + b)[k] == b[k - |a|];
      }
    }
  }

  lemma {:induction false} ShallowsAt(xs: seq<Node>, i: nat)
    requires i < |xs|
    ensures Shallows(xs)[i] == Shallow(xs[i])
  {
    if i > 0 {
      ShallowsAt(xs[1..], i - 1);
    }
  }

  /** Dropping children changes no match, so a forest of non-matches stays
      one. */
  lemma ShallowsNoneMatch(xs: seq<Node>, sel: Selector)
    requires NoneMatch(xs, sel)
    ensures NoneMatch(Shallows(xs), sel)
  {
    forall k | 0 <= k < |Shallows(xs)| ensures !Matches(sel, Shallows(xs)[k]) {
      ShallowsAt(xs, k);
      ShallowMatches(Shallow(xs[k]), xs[k], sel);
    }
  }

  /** When `find` finds nothing, no node of the forest matches. */
  lemma NotFoundNoneMatch(cs: seq<Node>, sel: Selector)
    requires FindOf(cs, sel).None?
    ensures NoneMatch(DescendantsOf(cs), sel)
  {
    FindOfNoneIffEmpty(cs, sel);
    FindAllIsFilteredTraversal(cs, sel);
    var ds := DescendantsOf(cs);
    forall k | 0 <= k < |ds| ensures !Matches(sel, ds[k]) {
      assert ds[k] in ds;
      assert ds[k] !in Filter(ds, sel);
    }
  }

  lemma ShallowMatches(a: Node, b: Node, sel: Selector)
    requires Shallow(a) == Shallow(b)
    ensures Matches(sel, a) == Matches(sel, b)
  {
  }

  /** `a` is `b` with zero or more subtrees deleted somewhere below it. */
  predicate Pruned(a: Node, b: Node)
    decreases b, 1
  {
    Shallow(a) == Shallow(b) && (b.Element? ==> PrunedOf(a.children, b.children))
  }

  /** `a` keeps some of the subtrees `b`, in order, each of them pruned. */
  predicate PrunedOf(a: seq<Node>, b: seq<Node>)
    decreases b, 0
  {
    if |a| == 0 then true
    else if |b| == 0 then false
    else (Pruned(a[0], b[0]) && PrunedOf(a[1..], b[1..])) || PrunedOf(a, b[1..])
  }

  lemma PrunedKeep(x: Node, y: Node, a: seq<Node>, b: seq<Node>)
    requires Pruned(x, y) && PrunedOf(a, b)
    ensures PrunedOf([x] + a, [y] + b)
  {
    assert ([x] + a)[1..] == a;
    assert ([y] + b)[1..] == b;
  }

  lemma PrunedDrop(y: Node, a: seq<Node>, b: seq<Node>)
    requires PrunedOf(a, b)
    ensures PrunedOf(a, [y] + b)
  {
    assert ([y] + b)[1..] == b;
  }

  lemma {:induction false} PrunedOfRefl(cs: seq<Node>)
    ensures PrunedOf(cs, cs)
    decreases cs
  {
    if |cs| > 0 {
      if cs[0].Element? {
        PrunedOfRefl(cs[0].children);
      }
      PrunedOfRefl(cs[1..]);
    }
  }

  /** Deleting subtrees never adds a match: a pruned forest has at most as
      many matches of any selector, so in particular none when the original
      had none. */
  lemma {:induction false} PrunedFindAll(a: seq<Node>, b: seq<Node>, sel: Selector)
    requires PrunedOf(a, b)
    ensures |FindAllOf(a, sel)| <= |FindAllOf(b, sel)|
    ensures FindOf(b, sel).None? ==> FindOf(a, sel).None?
    decreases b
  {
    if |a| > 0 {
      if Pruned(a[0], b[0]) && PrunedOf(a[1..], b[1..]) {
        ShallowMatches(a[0], b[0], sel);
        if b[0].Element? {
          PrunedFindAll(a[0].children, b[0].children, sel);
        }
        PrunedFindAll(a[1..], b[1..], sel);
      } else {
        PrunedFindAll(a, b[1..], sel);
      }
    }
    FindOfNoneIffEmpty(a, sel);
    FindOfNoneIffEmpty(b, sel);
  }
  /** Replaces the attributes of `n` and of every element below it by
      `f(tag, attrs)`; tags, class tokens, text and the shape of the tree stay
      as they were. Both attribute passes of the extractor have this form. */
  function MapAttrs(n: Node, f: (string, map<string, string>) -> map<string, string>): (r: Node)
    ensures r.Element? <==> n.Element?
    ensures n.Element? ==> r.tag == n.tag && r.classes == n.classes && r.attrs == f(n.tag, n.attrs)
    ensures n.Text? ==> r == n
    decreases n, 1
  {
    match n
    case Text(_) => n
    case Element(t, c, a, cs) => Element(t, c, f(t, a), MapAttrsOf(cs, f))
  }

  function MapAttrsOf(cs: seq<Node>, f: (string, map<string, string>) -> map<string, string>): (r: seq<Node>)
    ensures |r| == |cs|
    decreases cs, 0
  {
    if |cs| == 0 then [] else [MapAttrs(cs[0], f)] + MapAttrsOf(cs[1..], f)
  }

  /** The head and tail of a mapped forest are the mapped head and tail. */
  lemma MapAttrsOfCons(cs: seq<Node>, f: (string, map<string, string>) -> map<string, string>)
    requires |cs| > 0
    ensures MapAttrsOf(cs, f)[0] == MapAttrs(cs[0], f)
    ensures MapAttrsOf(cs, f)[1..] == MapAttrsOf(cs[1..], f)
  {
    assert ([MapAttrs(cs[0], f)] + MapAttrsOf(cs[1..], f))[1..] == MapAttrsOf(cs[1..], f);
  }

  /** An attribute pass keeps all text. */
  lemma {:induction false} MapAttrsKeepsText(cs: seq<Node>, f: (string, map<string, string>) -> map<string, string>)
    ensures TextOf(MapAttrsOf(cs, f)) == TextOf(cs)
    decreases cs
  {
    if |cs| > 0 {
      MapAttrsOfCons(cs, f);
      if cs[0].Element? {
        MapAttrsKeepsText(cs[0].children, f);
      }
      MapAttrsKeepsText(cs[1..], f);
    }
  }

  /** A selector that looks only at tags and class tokens finds as much after
      an attribute pass as before it. */
  lemma {:induction false} MapAttrsKeepsMatches(cs: seq<Node>, f: (string, map<string, string>) -> map<string, string>, sel: Selector)
    requires !sel.ReadsAttrs()
    ensures |FindAllOf(MapAttrsOf(cs, f), sel)| == |FindAllOf(cs, sel)|
    ensures FindOf(MapAttrsOf(cs, f), sel).None? <==> FindOf(cs, sel).None?
    decreases cs
  {
    if |cs| > 0 {
      MapAttrsOfCons(cs, f);
      if cs[0].Element? {
        MapAttrsKeepsMatches(cs[0].children, f, sel);
      }
      MapAttrsKeepsMatches(cs[1..], f, sel);
    }
    FindOfNoneIffEmpty(cs, sel);
    FindOfNoneIffEmpty(MapAttrsOf(cs, f), sel);
  }

  /** A pass that leaves every element's attributes as they are leaves the
      whole forest as it is. */
  lemma {:induction false} MapAttrsUnchanged(cs: seq<Node>, f: (string, map<string, string>) -> map<string, string>)
    requires forall x :: x in DescendantsOf(cs) && x.Element? ==> f(x.tag, x.attrs) == x.attrs
    ensures MapAttrsOf(cs, f) == cs
    decreases cs
  {
    if |cs| > 0 {
      var c := cs[0];
      assert DescendantsOf(cs) == [c] + Descendants(c) + DescendantsOf(cs[1..]);
      if c.Element? {
        MapAttrsUnchanged(c.children, f);
      }
      MapAttrsUnchanged(cs[1..], f);
    }
  }

  /** A pass whose rule is stable on its own output changes nothing the
      second time. */
  lemma {:induction false} MapAttrsIdempotent(cs: seq<Node>, f: (string, map<string, string>) -> map<string, string>)
    requires forall t, a :: f(t, f(t, a)) == f(t, a)
    ensures MapAttrsOf(MapAttrsOf(cs, f), f) == MapAttrsOf(cs, f)
    decreases cs
  {
    if |cs| > 0 {
      MapAttrsOfCons(cs, f);
      MapAttrsOfCons(MapAttrsOf(cs, f), f);
      if cs[0].Element? {
        MapAttrsIdempotent(cs[0].children, f);
      }
      MapAttrsIdempotent(cs[1..], f);
    }
  }
}
