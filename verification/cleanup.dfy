/** The tree transforms the sanitizer chains together (app.py, `clean_content`
    and `extract_main_content`): decomposing every match of a selector,
    dropping empty paragraphs and divisions, dropping the first match of a
    selector, and reducing attributes to an allow-list. Each works on the
    descendants of the node it is given, as `find_all` and `find` do. */
module Cleanup {
  import opened Strings
  import opened Html

  // ---------------------------------------------------------------------
  // Dropping subtrees: the shape shared by every `decompose()` loop
  // ---------------------------------------------------------------------

  /** Removes, with its subtree, every descendant of `n` for which `drop`
      holds. Nodes are judged in document order, each on its subtree as it
      was before the pass, as a loop over a `find_all` list is; a node below
      one already removed is gone whatever its verdict. */
  function DropWhere(n: Node, drop: Node -> bool): (r: Node)
    ensures Shallow(r) == Shallow(n)
    decreases n, 1
  {
    match n
    case Text(_) => n
    case Element(t, c, a, cs) => Element(t, c, a, DropWhereOf(cs, drop))
  }

  function DropWhereOf(cs: seq<Node>, drop: Node -> bool): seq<Node>
    decreases cs, 0
  {
    if |cs| == 0 then []
    else if drop(cs[0]) then DropWhereOf(cs[1..], drop)
    else [DropWhere(cs[0], drop)] + DropWhereOf(cs[1..], drop)
  }

  lemma {:induction false} DropWherePrunes(cs: seq<Node>, drop: Node -> bool)
    ensures PrunedOf(DropWhereOf(cs, drop), cs)
    decreases cs
  {
    if |cs| > 0 {
      DropWherePrunes(cs[1..], drop);
      if drop(cs[0]) {
        PrunedDrop(cs[0], DropWhereOf(cs[1..], drop), cs[1..]);
      } else {
        if cs[0].Element? {
          DropWherePrunes(cs[0].children, drop);
        }
        PrunedKeep(DropWhere(cs[0], drop), cs[0], DropWhereOf(cs[1..], drop), cs[1..]);
      }
      assert [cs[0]] + cs[1..] == cs;
    }
  }

  /** When every match of `sel` is dropped, no match is left anywhere. */
  lemma {:induction false} DropWhereLeavesNoMatch(cs: seq<Node>, drop: Node -> bool, sel: Selector)
    requires forall x :: Matches(sel, x) ==> drop(x)
    ensures FindOf(DropWhereOf(cs, drop), sel).None?
    decreases cs
  {
    if |cs| > 0 {
      DropWhereLeavesNoMatch(cs[1..], drop, sel);
      if !drop(cs[0]) {
        var head := DropWhere(cs[0], drop);
        var rest := DropWhereOf(cs[1..], drop);
        if cs[0].Element? {
          DropWhereLeavesNoMatch(cs[0].children, drop, sel);
        }
        ShallowMatches(head, cs[0], sel);
        assert ([head] + rest)[0] == head;
        assert ([head] + rest)[1..] == rest;
      }
    }
  }

  /** When only matches of `sel` are dropped and there are none, nothing
      changes. */
  lemma {:induction false} DropWhereNothingToDrop(cs: seq<Node>, drop: Node -> bool, sel: Selector)
    requires forall x :: drop(x) ==> Matches(sel, x)
    requires FindOf(cs, sel).None?
    ensures DropWhereOf(cs, drop) == cs
    decreases cs
  {
    if |cs| > 0 {
      if cs[0].Element? {
        DropWhereNothingToDrop(cs[0].children, drop, sel);
      }
      DropWhereNothingToDrop(cs[1..], drop, sel);
      assert [cs[0]] + cs[1..] == cs;
    }
  }

  /** When no node of the forest is to be dropped, nothing changes. */
  lemma {:induction false} DropWhereNone(cs: seq<Node>, drop: Node -> bool)
    requires forall x :: x in DescendantsOf(cs) ==> !drop(x)
    ensures DropWhereOf(cs, drop) == cs
    decreases cs
  {
    if |cs| > 0 {
      assert DescendantsOf(cs) == [cs[0]] + Descendants(cs[0]) + DescendantsOf(cs[1..]);
      if cs[0].Element? {
        DropWhereNone(cs[0].children, drop);
      }
      DropWhereNone(cs[1..], drop);
      assert [cs[0]] + cs[1..] == cs;
    }
  }

  /** Dropping only subtrees free of `sel` loses no match of it. */
  lemma {:induction false} DropWhereKeepsMatches(cs: seq<Node>, drop: Node -> bool, sel: Selector)
    requires forall x :: drop(x) ==> !Matches(sel, x) && FindOf(ChildrenOf(x), sel).None?
    ensures |FindAllOf(DropWhereOf(cs, drop), sel)| == |FindAllOf(cs, sel)|
    decreases cs
  {
    if |cs| > 0 {
      var c := cs[0];
      var rest := DropWhereOf(cs[1..], drop);
      DropWhereKeepsMatches(cs[1..], drop, sel);
      if drop(c) {
        FindOfNoneIffEmpty(ChildrenOf(c), sel);
      } else {
        var c' := DropWhere(c, drop);
        assert ([c'] + rest)[0] == c';
        assert ([c'] + rest)[1..] == rest;
        ShallowMatches(c', c, sel);
        if c.Element? {
          DropWhereKeepsMatches(c.children, drop, sel);
        }
      }
    }
  }

  /** The nodes of the forest that outlive the pass, in document order:
      those neither dropped nor inside a dropped node. */
  function KeptOf(cs: seq<Node>, drop: Node -> bool): seq<Node>
    decreases cs
  {
    if |cs| == 0 then []
    else
      var c := cs[0];
      (if drop(c) then [] else [c] + (if c.Element? then KeptOf(c.children, drop) else []))
      + KeptOf(cs[1..], drop)
  }

  /** Every node that outlives the pass is a node of the forest that was
      not itself dropped. */
  lemma {:induction false} KeptAreUndropped(cs: seq<Node>, drop: Node -> bool)
    ensures forall x :: x in KeptOf(cs, drop) ==> x in DescendantsOf(cs) && !drop(x)
    decreases cs
  {
    if |cs| > 0 {
      var c := cs[0];
      if c.Element? {
        KeptAreUndropped(c.children, drop);
      }
      KeptAreUndropped(cs[1..], drop);
      assert DescendantsOf(cs) == [c] + Descendants(c) + DescendantsOf(cs[1..]);
    }
  }

  /** After the pass a selector finds as many nodes as match among the
      nodes that outlive it: every match outside the dropped subtrees
      survives, and nothing else is found. */
  lemma {:induction false} DropWhereFindsKept(cs: seq<Node>, drop: Node -> bool, sel: Selector)
    ensures |FindAllOf(DropWhereOf(cs, drop), sel)| == |Filter(KeptOf(cs, drop), sel)|
    decreases cs
  {
    if |cs| > 0 {
      var c, rest := cs[0], cs[1..];
      assert cs == [c] + rest;
      DropWhereFindsKept(rest, drop, sel);
      if c.Element? {
        DropWhereFindsKept(c.children, drop, sel);
      }
      FindsKeptStep(c, rest, drop, sel);
    }
  }

  /** The step of `DropWhereFindsKept` for the head of a forest. */
  lemma FindsKeptStep(c: Node, rest: seq<Node>, drop: Node -> bool, sel: Selector)
    requires c.Element? ==> |FindAllOf(DropWhereOf(c.children, drop), sel)| == |Filter(KeptOf(c.children, drop), sel)|
    requires |FindAllOf(DropWhereOf(rest, drop), sel)| == |Filter(KeptOf(rest, drop), sel)|
    ensures |FindAllOf(DropWhereOf([c] + rest, drop), sel)| == |Filter(KeptOf([c] + rest, drop), sel)|
  {
    var cs := [c] + rest;
    assert cs[0] == c && cs[1..] == rest;
    var kept := KeptOf(rest, drop);
    if drop(c) {
      assert KeptOf(cs, drop) == kept;
      assert DropWhereOf(cs, drop) == DropWhereOf(rest, drop);
    } else {
      var c' := DropWhere(c, drop);
      var inner := if c.Element? then KeptOf(c.children, drop) else [];
      assert KeptOf(cs, drop) == [c] + inner + kept;
      FindAllOfCons(c', DropWhereOf(rest, drop), sel);
      ShallowMatches(c', c, sel);
      FilterAppend([c] + inner, kept, sel);
      FilterAppend([c], inner, sel);
      assert Filter([c], sel) == if Matches(sel, c) then [c] else [];
    }
  }

  /** What is left after the pass is exactly what outlives it: walking the
      result in document order meets the kept nodes, text nodes included,
      each with its own tag, classes, attributes or text. */
  lemma {:induction false} DropWhereKeepsKept(cs: seq<Node>, drop: Node -> bool)
    ensures Shallows(DescendantsOf(DropWhereOf(cs, drop))) == Shallows(KeptOf(cs, drop))
    decreases cs
  {
    if |cs| > 0 {
      var c, rest := cs[0], cs[1..];
      assert cs == [c] + rest;
      DropWhereKeepsKept(rest, drop);
      if c.Element? {
        DropWhereKeepsKept(c.children, drop);
      }
      KeepsKeptStep(c, rest, drop);
    }
  }

  /** The step of `DropWhereKeepsKept` for the head of a forest. */
  lemma KeepsKeptStep(c: Node, rest: seq<Node>, drop: Node -> bool)
    requires c.Element? ==>
      Shallows(DescendantsOf(DropWhereOf(c.children, drop))) == Shallows(KeptOf(c.children, drop))
    requires Shallows(DescendantsOf(DropWhereOf(rest, drop))) == Shallows(KeptOf(rest, drop))
    ensures Shallows(DescendantsOf(DropWhereOf([c] + rest, drop))) == Shallows(KeptOf([c] + rest, drop))
  {
    var cs := [c] + rest;
    assert cs[0] == c && cs[1..] == rest;
    var later := DropWhereOf(rest, drop);
    var kept := KeptOf(rest, drop);
    if drop(c) {
      assert KeptOf(cs, drop) == kept;
      assert DropWhereOf(cs, drop) == later;
    } else {
      var c' := DropWhere(c, drop);
      var inner := if c.Element? then KeptOf(c.children, drop) else [];
      assert KeptOf(cs, drop) == [c] + inner + kept;
      assert DropWhereOf(cs, drop) == [c'] + later;
      DescendantsOfCons(c', later);
      assert Shallows(Descendants(c')) == Shallows(inner);
      ShallowsAppend([c'] + Descendants(c'), DescendantsOf(later));
      ShallowsAppend([c'], Descendants(c'));
      ShallowsAppend([c] + inner, kept);
      ShallowsAppend([c], inner);
    }
  }

  // ---------------------------------------------------------------------
  // Decomposing every match: `for elem in soup.find_all(sel): elem.decompose()`
  // ---------------------------------------------------------------------

  /** Removes every descendant of `n` that matches `sel`, with its subtree.
      `find_all` also lists matches nested inside other matches; decomposing
      an already detached node changes nothing, so the outermost matches
      decide the result. */
  function RemoveAll(n: Node, sel: Selector): (r: Node)
    ensures Shallow(r) == Shallow(n)
    ensures FindOf(ChildrenOf(r), sel).None?
  {
    if n.Element? then
      DropWhereLeavesNoMatch(n.children, (x: Node) => Matches(sel, x), sel);
      DropWhere(n, (x: Node) => Matches(sel, x))
    else n
  }

  /** Decomposing the matches twice removes nothing more than once. */
  lemma RemoveAllIdempotent(n: Node, sel: Selector)
    ensures RemoveAll(RemoveAll(n, sel), sel) == RemoveAll(n, sel)
  {
    var drop := (x: Node) => Matches(sel, x);
    if n.Element? {
      DropWhereLeavesNoMatch(n.children, drop, sel);
      DropWhereNothingToDrop(DropWhereOf(n.children, drop), drop, sel);
    }
  }

  /** Every match of another selector that lies outside all matches of
      `sel` survives, and nothing else is found afterwards. */
  lemma RemoveAllKeepsOthers(n: Node, sel: Selector, other: Selector)
    ensures |FindAll(RemoveAll(n, sel), other)|
      == |Filter(KeptOf(ChildrenOf(n), (x: Node) => Matches(sel, x)), other)|
  {
    if n.Element? {
      DropWhereFindsKept(n.children, (x: Node) => Matches(sel, x), other);
    }
  }

  /** Everything outside the matches of `sel` stays, text included:
      walking the result in document order meets exactly the nodes that lie
      inside no match, each with its own tag, classes, attributes or text. */
  lemma RemoveAllKeepsRest(n: Node, sel: Selector)
    ensures Shallows(Descendants(RemoveAll(n, sel)))
      == Shallows(KeptOf(ChildrenOf(n), (x: Node) => Matches(sel, x)))
  {
    if n.Element? {
      DropWhereKeepsKept(n.children, (x: Node) => Matches(sel, x));
    }
  }

  /** The pass only deletes subtrees. */
  lemma RemoveAllPrunes(n: Node, sel: Selector)
    ensures PrunedOf(ChildrenOf(RemoveAll(n, sel)), ChildrenOf(n))
  {
    if n.Element? {
      DropWherePrunes(n.children, (x: Node) => Matches(sel, x));
    } else {
      PrunedOfRefl([]);
    }
  }

  // ---------------------------------------------------------------------
  // Empty paragraphs and divisions (app.py:142-144)
  // ---------------------------------------------------------------------

  /** A `p` or `div` whose text is only whitespace and that holds no image. */
  predicate IsEmptyContainer(n: Node) {
    && Matches(AnyTag({"p", "div"}), n)
    && Strip(GetText(n)) == ""
    && Find(n, Tag("img")).None?
  }

  /** Drops every empty container below `n`. The source walks the `p`/`div`
      list of `find_all` in document order, so a container is judged before
      anything inside it is removed: each one is judged on its original
      subtree. */
  function RemoveEmpty(n: Node): (r: Node)
    ensures Shallow(r) == Shallow(n)
  {
    DropWhere(n, IsEmptyContainer)
  }

  /** The pass only deletes subtrees. */
  lemma RemoveEmptyPrunes(n: Node)
    ensures PrunedOf(ChildrenOf(RemoveEmpty(n)), ChildrenOf(n))
  {
    if n.Element? {
      DropWherePrunes(n.children, IsEmptyContainer);
    } else {
      PrunedOfRefl([]);
    }
  }

  /** Removing empty containers keeps whether the remaining text is all
      whitespace. */
  lemma {:induction false} RemoveEmptyKeepsBlankText(cs: seq<Node>)
    ensures AllSpace(TextOf(DropWhereOf(cs, IsEmptyContainer))) <==> AllSpace(TextOf(cs))
    decreases cs
  {
    if |cs| > 0 {
      var c := cs[0];
      var rest := DropWhereOf(cs[1..], IsEmptyContainer);
      RemoveEmptyKeepsBlankText(cs[1..]);
      AllSpaceAppend(GetText(c), TextOf(cs[1..]));
      if IsEmptyContainer(c) {
        StripSpec(GetText(c));
      } else {
        var c' := DropWhere(c, IsEmptyContainer);
        assert ([c'] + rest)[1..] == rest;
        assert TextOf([c'] + rest) == GetText(c') + TextOf(rest);
        AllSpaceAppend(GetText(c'), TextOf(rest));
        if c.Element? {
          RemoveEmptyKeepsBlankText(c.children);
        }
      }
    }
  }

  /** Removing empty containers loses no image: the images below are as many
      as before. */
  lemma RemoveEmptyKeepsImages(cs: seq<Node>)
    ensures |FindAllOf(DropWhereOf(cs, IsEmptyContainer), Tag("img"))| == |FindAllOf(cs, Tag("img"))|
  {
    forall x
      ensures IsEmptyContainer(x) ==> !Matches(Tag("img"), x) && FindOf(ChildrenOf(x), Tag("img")).None?
    {
      EmptyContainerHoldsNoImage(x);
    }
    DropWhereKeepsMatches(cs, IsEmptyContainer, Tag("img"));
  }

  /** An empty container is a `p` or `div` holding no image. */
  lemma EmptyContainerHoldsNoImage(x: Node)
    ensures IsEmptyContainer(x) ==> !Matches(Tag("img"), x) && FindOf(ChildrenOf(x), Tag("img")).None?
  {
    if IsEmptyContainer(x) {
      ContainerIsNoImage(x);
    }
  }

  /** A `p` or a `div` is not an `img`. */
  lemma ContainerIsNoImage(x: Node)
    requires Matches(AnyTag({"p", "div"}), x)
    ensures !Matches(Tag("img"), x)
  {
    assert x.tag[0] == 'p' || x.tag[0] == 'd';
  }

  /** Cleaning inside a node keeps whether its text is blank. */
  lemma RemoveEmptyKeepsBlank(n: Node)
    requires n.Element?
    ensures Strip(GetText(RemoveEmpty(n))) == "" <==> Strip(GetText(n)) == ""
  {
    var cs' := DropWhereOf(n.children, IsEmptyContainer);
    assert GetText(RemoveEmpty(n)) == TextOf(cs');
    assert GetText(n) == TextOf(n.children);
    StripSpec(TextOf(n.children));
    StripSpec(TextOf(cs'));
    RemoveEmptyKeepsBlankText(n.children);
  }

  /** Cleaning inside a node keeps whether it holds an image. */
  lemma RemoveEmptyKeepsImage(n: Node)
    requires n.Element?
    ensures Find(RemoveEmpty(n), Tag("img")).None? <==> Find(n, Tag("img")).None?
  {
    var cs' := DropWhereOf(n.children, IsEmptyContainer);
    assert ChildrenOf(RemoveEmpty(n)) == cs';
    RemoveEmptyKeepsImages(n.children);
    FindOfNoneIffEmpty(n.children, Tag("img"));
    FindOfNoneIffEmpty(cs', Tag("img"));
  }

  /** The order of the pass does not matter: once the contents of a node are
      cleaned, the node is an empty container exactly when it was before. */
  lemma RemoveEmptyKeepsVerdict(n: Node)
    ensures IsEmptyContainer(RemoveEmpty(n)) <==> IsEmptyContainer(n)
  {
    if n.Element? {
      RemoveEmptyKeepsBlank(n);
      RemoveEmptyKeepsImage(n);
      ShallowMatches(RemoveEmpty(n), n, AnyTag({"p", "div"}));
    }
  }

  /** A reference for the pass that cleans the inside of each node first and
      only then judges the node itself. */
  function RemoveEmptyBottomUp(n: Node): Node
    decreases n, 1
  {
    match n
    case Text(_) => n
    case Element(t, c, a, cs) => Element(t, c, a, RemoveEmptyBottomUpOf(cs))
  }

  function RemoveEmptyBottomUpOf(cs: seq<Node>): seq<Node>
    decreases cs, 0
  {
    if |cs| == 0 then []
    else
      var c := RemoveEmptyBottomUp(cs[0]);
      (if IsEmptyContainer(c) then [] else [c]) + RemoveEmptyBottomUpOf(cs[1..])
  }

  /** The top-down pass of the source and the bottom-up reference agree:
      removing a child never changes whether its parent qualifies. */
  lemma {:induction false} RemoveEmptyOrderIrrelevant(cs: seq<Node>)
    ensures RemoveEmptyBottomUpOf(cs) == DropWhereOf(cs, IsEmptyContainer)
    decreases cs
  {
    if |cs| > 0 {
      var c := cs[0];
      if c.Element? {
        RemoveEmptyOrderIrrelevant(c.children);
      }
      assert RemoveEmptyBottomUp(c) == RemoveEmpty(c);
      RemoveEmptyKeepsVerdict(c);
      RemoveEmptyOrderIrrelevant(cs[1..]);
    }
  }

  /** A second pass finds nothing more to remove. */
  lemma {:induction false} RemoveEmptyIdempotent(cs: seq<Node>)
    ensures DropWhereOf(DropWhereOf(cs, IsEmptyContainer), IsEmptyContainer) == DropWhereOf(cs, IsEmptyContainer)
    decreases cs
  {
    if |cs| > 0 {
      var c := cs[0];
      RemoveEmptyIdempotent(cs[1..]);
      if !IsEmptyContainer(c) {
        var c' := RemoveEmpty(c);
        var rest := DropWhereOf(cs[1..], IsEmptyContainer);
        RemoveEmptyKeepsVerdict(c);
        assert ([c'] + rest)[0] == c';
        assert ([c'] + rest)[1..] == rest;
        if c.Element? {
          RemoveEmptyIdempotent(c.children);
        }
      }
    }
  }

  // ---------------------------------------------------------------------
  // The first match only: `first = soup.find(sel); if first: first.decompose()`
  // ---------------------------------------------------------------------

  /** Removes the first descendant of `n`, in document order, that matches
      `sel`, with its subtree; later matches stay. */
  function RemoveFirst(n: Node, sel: Selector): (r: Node)
    ensures Shallow(r) == Shallow(n)
    decreases n, 1
  {
    match n
    case Text(_) => n
    case Element(t, c, a, cs) => Element(t, c, a, RemoveFirstOf(cs, sel))
  }

  function RemoveFirstOf(cs: seq<Node>, sel: Selector): (r: seq<Node>)
    ensures FindOf(cs, sel).None? ==> r == cs
    decreases cs, 0
  {
    if |cs| == 0 then []
    else if Matches(sel, cs[0]) then cs[1..]
    else if cs[0].Element? && FindOf(cs[0].children, sel).Some? then
      [RemoveFirst(cs[0], sel)] + cs[1..]
    else
      var rest := RemoveFirstOf(cs[1..], sel);
      assert [cs[0]] + cs[1..] == cs;
      [cs[0]] + rest
  }

  lemma {:induction false} RemoveFirstPrunes(cs: seq<Node>, sel: Selector)
    ensures PrunedOf(RemoveFirstOf(cs, sel), cs)
    decreases cs
  {
    if |cs| > 0 {
      PrunedOfRefl(cs[1..]);
      assert [cs[0]] + cs[1..] == cs;
      if Matches(sel, cs[0]) {
        PrunedDrop(cs[0], cs[1..], cs[1..]);
      } else if cs[0].Element? && FindOf(cs[0].children, sel).Some? {
        RemoveFirstPrunes(cs[0].children, sel);
        PrunedKeep(RemoveFirst(cs[0], sel), cs[0], cs[1..], cs[1..]);
      } else {
        PrunedOfRefl([cs[0]]);
        RemoveFirstPrunes(cs[1..], sel);
        PrunedKeep(cs[0], cs[0], RemoveFirstOf(cs[1..], sel), cs[1..]);
      }
    }
  }

  /** Exactly the first match goes, together with the matches nested inside
      it; every later match remains, in order: the matches before the pass
      are the removed one, those inside it, then those left after the pass. */
  lemma {:induction false} RemoveFirstKeepsLaterMatches(cs: seq<Node>, sel: Selector)
    requires FindOf(cs, sel).Some?
    ensures var x := FindOf(cs, sel).value;
      FindAllOf(cs, sel) == [x] + FindAll(x, sel) + FindAllOf(RemoveFirstOf(cs, sel), sel)
    decreases cs
  {
    var c, rest := cs[0], cs[1..];
    assert cs == [c] + rest;
    if Matches(sel, c) {
      FindAllOfCons(c, rest, sel);
    } else if c.Element? && FindOf(c.children, sel).Some? {
      RemoveFirstKeepsLaterMatches(c.children, sel);
      RemoveFirstInHead(c, rest, sel);
    } else {
      RemoveFirstKeepsLaterMatches(rest, sel);
      RemoveFirstAfterHead(c, rest, sel);
    }
  }

  /** The step of `RemoveFirstKeepsLaterMatches` where the first match lies
      inside the head of the forest. */
  lemma RemoveFirstInHead(c: Node, rest: seq<Node>, sel: Selector)
    requires !Matches(sel, c) && c.Element? && FindOf(c.children, sel).Some?
    requires var x := FindOf(c.children, sel).value;
      FindAllOf(c.children, sel) == [x] + FindAll(x, sel) + FindAllOf(RemoveFirstOf(c.children, sel), sel)
    ensures FindOf([c] + rest, sel) == FindOf(c.children, sel)
    ensures RemoveFirstOf([c] + rest, sel) == [RemoveFirst(c, sel)] + rest
    ensures var x := FindOf(c.children, sel).value;
      FindAllOf([c] + rest, sel) == [x] + FindAll(x, sel) + FindAllOf([RemoveFirst(c, sel)] + rest, sel)
  {
    RemoveFirstConsHead(c, rest, sel);
    var x := FindOf(c.children, sel).value;
    var c' := RemoveFirst(c, sel);
    assert !Matches(sel, c') by {
      ShallowMatches(c', c, sel);
    }
    FindAllOfCons(c, rest, sel);
    FindAllOfCons(c', rest, sel);
    Regroup([x], FindAll(x, sel), FindAll(c', sel), FindAllOf(rest, sel));
  }

  lemma RemoveFirstConsHead(c: Node, rest: seq<Node>, sel: Selector)
    requires !Matches(sel, c) && c.Element? && FindOf(c.children, sel).Some?
    ensures FindOf([c] + rest, sel) == FindOf(c.children, sel)
    ensures RemoveFirstOf([c] + rest, sel) == [RemoveFirst(c, sel)] + rest
  {
    var cs := [c] + rest;
    assert cs[0] == c && cs[1..] == rest;
  }

  lemma Regroup<T>(a: seq<T>, b: seq<T>, c: seq<T>, d: seq<T>)
    ensures [] + (a + b + c) + d == a + b + ([] + c + d)
  {
  }

  /** The step of `RemoveFirstKeepsLaterMatches` where the head of the forest
      neither matches nor holds a match. */
  lemma RemoveFirstAfterHead(c: Node, rest: seq<Node>, sel: Selector)
    requires !Matches(sel, c) && (c.Element? ==> FindOf(c.children, sel).None?)
    requires FindOf(rest, sel).Some?
    requires var x := FindOf(rest, sel).value;
      FindAllOf(rest, sel) == [x] + FindAll(x, sel) + FindAllOf(RemoveFirstOf(rest, sel), sel)
    ensures FindOf([c] + rest, sel) == FindOf(rest, sel)
    ensures RemoveFirstOf([c] + rest, sel) == [c] + RemoveFirstOf(rest, sel)
    ensures var x := FindOf(rest, sel).value;
      FindAllOf([c] + rest, sel) == [x] + FindAll(x, sel) + FindAllOf([c] + RemoveFirstOf(rest, sel), sel)
  {
    var cs := [c] + rest;
    assert cs[0] == c && cs[1..] == rest;
    if c.Element? {
      FindOfNoneIffEmpty(c.children, sel);
    }
    assert FindAll(c, sel) == [];
    var x := FindOf(rest, sel).value;
    var later := RemoveFirstOf(rest, sel);
    FindAllOfCons(c, rest, sel);
    assert FindAllOf(cs, sel) == FindAllOf(rest, sel);
    FindAllOfCons(c, later, sel);
    assert FindAllOf([c] + later, sel) == FindAllOf(later, sel);
  }

  /** Nothing but the first match and what lies inside it goes: for any
      selector, the matches before the pass are those left after it plus
      those in the removed subtree. */
  lemma {:induction false} RemoveFirstKeepsOthers(cs: seq<Node>, sel: Selector, other: Selector)
    requires FindOf(cs, sel).Some?
    ensures |FindAllOf(cs, other)|
      == |FindAllOf([FindOf(cs, sel).value], other)| + |FindAllOf(RemoveFirstOf(cs, sel), other)|
    decreases cs
  {
    var c, rest := cs[0], cs[1..];
    assert cs == [c] + rest;
    if Matches(sel, c) {
      FindAllOfCons(c, rest, other);
      FindAllOfCons(c, [], other);
    } else if c.Element? && FindOf(c.children, sel).Some? {
      RemoveFirstKeepsOthers(c.children, sel, other);
      KeepsOthersInHead(c, rest, sel, other);
    } else {
      RemoveFirstKeepsOthers(rest, sel, other);
      KeepsOthersAfterHead(c, rest, sel, other);
    }
  }

  /** The step of `RemoveFirstKeepsOthers` where the first match lies inside
      the head of the forest. */
  lemma KeepsOthersInHead(c: Node, rest: seq<Node>, sel: Selector, other: Selector)
    requires !Matches(sel, c) && c.Element? && FindOf(c.children, sel).Some?
    requires |FindAllOf(c.children, other)|
      == |FindAllOf([FindOf(c.children, sel).value], other)| + |FindAllOf(RemoveFirstOf(c.children, sel), other)|
    ensures |FindAllOf([c] + rest, other)|
      == |FindAllOf([FindOf([c] + rest, sel).value], other)| + |FindAllOf(RemoveFirstOf([c] + rest, sel), other)|
  {
    var c' := RemoveFirst(c, sel);
    RemoveFirstConsHead(c, rest, sel);
    ShallowMatches(c', c, other);
    FindAllOfCons(c, rest, other);
    FindAllOfCons(c', rest, other);
  }

  /** The step of `RemoveFirstKeepsOthers` where the head of the forest
      neither matches nor holds a match. */
  lemma KeepsOthersAfterHead(c: Node, rest: seq<Node>, sel: Selector, other: Selector)
    requires !Matches(sel, c) && (c.Element? ==> FindOf(c.children, sel).None?)
    requires FindOf(rest, sel).Some?
    requires |FindAllOf(rest, other)|
      == |FindAllOf([FindOf(rest, sel).value], other)| + |FindAllOf(RemoveFirstOf(rest, sel), other)|
    ensures |FindAllOf([c] + rest, other)|
      == |FindAllOf([FindOf([c] + rest, sel).value], other)| + |FindAllOf(RemoveFirstOf([c] + rest, sel), other)|
  {
    var cs := [c] + rest;
    assert cs[0] == c && cs[1..] == rest;
    var later := RemoveFirstOf(rest, sel);
    assert FindOf(cs, sel) == FindOf(rest, sel);
    assert RemoveFirstOf(cs, sel) == [c] + later;
    FindAllOfCons(c, rest, other);
    FindAllOfCons(c, later, other);
  }

  /** Only the first match goes, and everything else stays, text included:
      the walk of the forest in document order is some `p` holding no
      match, then the walk of the first match's subtree, then some `q`, and
      the walk of the result is `p` followed by `q`. */
  lemma RemoveFirstKeepsRest(cs: seq<Node>, sel: Selector)
    requires FindOf(cs, sel).Some?
    ensures exists p, q ::
      && Shallows(DescendantsOf(cs)) == p + Shallows(DescendantsOf([FindOf(cs, sel).value])) + q
      && Shallows(DescendantsOf(RemoveFirstOf(cs, sel))) == p + q
      && NoneMatch(p, sel)
  {
    var p, q := RemoveFirstSplit(cs, sel);
  }

  /** `RemoveFirstKeepsRest` with its two witnesses computed. */
  lemma {:induction false} RemoveFirstSplit(cs: seq<Node>, sel: Selector) returns (p: seq<Node>, q: seq<Node>)
    requires FindOf(cs, sel).Some?
    ensures Shallows(DescendantsOf(cs)) == p + Shallows(DescendantsOf([FindOf(cs, sel).value])) + q
    ensures Shallows(DescendantsOf(RemoveFirstOf(cs, sel))) == p + q
    ensures NoneMatch(p, sel)
    decreases cs
  {
    var c, rest := cs[0], cs[1..];
    assert cs == [c] + rest;
    if Matches(sel, c) {
      assert FindOf(cs, sel).value == c;
      assert RemoveFirstOf(cs, sel) == rest;
      SplitAtHead(c, rest);
      p, q := [], Shallows(DescendantsOf(rest));
    } else if c.Element? && FindOf(c.children, sel).Some? {
      RemoveFirstConsHead(c, rest, sel);
      var p0, q0 := RemoveFirstSplit(c.children, sel);
      SplitInHead(c, RemoveFirst(c, sel), rest, FindOf(c.children, sel).value, p0, q0);
      HeadNoneMatch(c, p0, sel);
      p, q := [Shallow(c)] + p0, q0 + Shallows(DescendantsOf(rest));
    } else {
      RemoveFirstAfterHeadShape(c, rest, sel);
      var p0, q0 := RemoveFirstSplit(rest, sel);
      SplitAfterHead(c, rest, RemoveFirstOf(rest, sel), FindOf(rest, sel).value, p0, q0);
      HeadTreeNoneMatch(c, p0, sel);
      p, q := [Shallow(c)] + Shallows(Descendants(c)) + p0, q0;
    }
  }

  /** The step of `RemoveFirstSplit` when the head `c` itself goes. */
  lemma SplitAtHead(c: Node, rest: seq<Node>)
    ensures Shallows(DescendantsOf([c] + rest))
      == [] + Shallows(DescendantsOf([c])) + Shallows(DescendantsOf(rest))
  {
    ShallowsOfCons(c, rest);
    ShallowsOfCons(c, []);
  }

  /** The step of `RemoveFirstSplit` when the match `x` lies inside the head
      `c`, which becomes `c'`. */
  lemma SplitInHead(c: Node, c': Node, rest: seq<Node>, x: Node, p0: seq<Node>, q0: seq<Node>)
    requires c.Element? && c'.Element? && Shallow(c') == Shallow(c)
    requires Shallows(DescendantsOf(c.children)) == p0 + Shallows(DescendantsOf([x])) + q0
    requires Shallows(DescendantsOf(c'.children)) == p0 + q0
    ensures Shallows(DescendantsOf([c] + rest))
      == ([Shallow(c)] + p0) + Shallows(DescendantsOf([x])) + (q0 + Shallows(DescendantsOf(rest)))
    ensures Shallows(DescendantsOf([c'] + rest))
      == ([Shallow(c)] + p0) + (q0 + Shallows(DescendantsOf(rest)))
  {
    ShallowsOfCons(c, rest);
    ShallowsOfCons(c', rest);
    Rebracket([Shallow(c)], p0, Shallows(DescendantsOf([x])), q0, Shallows(DescendantsOf(rest)));
  }

  /** The step of `RemoveFirstSplit` when the match `x` lies after the head
      `c`, and the rest `rest` becomes `later`. */
  lemma SplitAfterHead(c: Node, rest: seq<Node>, later: seq<Node>, x: Node, p0: seq<Node>, q0: seq<Node>)
    requires Shallows(DescendantsOf(rest)) == p0 + Shallows(DescendantsOf([x])) + q0
    requires Shallows(DescendantsOf(later)) == p0 + q0
    ensures Shallows(DescendantsOf([c] + rest))
      == ([Shallow(c)] + Shallows(Descendants(c)) + p0) + Shallows(DescendantsOf([x])) + q0
    ensures Shallows(DescendantsOf([c] + later))
      == ([Shallow(c)] + Shallows(Descendants(c)) + p0) + q0
  {
    ShallowsOfCons(c, rest);
    ShallowsOfCons(c, later);
    Rebracket([Shallow(c)] + Shallows(Descendants(c)), p0, Shallows(DescendantsOf([x])), q0, []);
  }

  /** A head that does not match, before a stretch without matches. */
  lemma HeadNoneMatch(c: Node, p0: seq<Node>, sel: Selector)
    requires !Matches(sel, c) && NoneMatch(p0, sel)
    ensures NoneMatch([Shallow(c)] + p0, sel)
  {
    ShallowMatches(Shallow(c), c, sel);
    NoneMatchAppend([Shallow(c)], p0, sel);
  }

  /** A head holding no match, with its subtree, before a stretch without
      matches. */
  lemma HeadTreeNoneMatch(c: Node, p0: seq<Node>, sel: Selector)
    requires !Matches(sel, c) && !(c.Element? && FindOf(c.children, sel).Some?)
    requires NoneMatch(p0, sel)
    ensures NoneMatch([Shallow(c)] + Shallows(Descendants(c)) + p0, sel)
  {
    if c.Element? {
      NotFoundNoneMatch(c.children, sel);
      ShallowsNoneMatch(Descendants(c), sel);
    }
    ShallowMatches(Shallow(c), c, sel);
    NoneMatchAppend([Shallow(c)], Shallows(Descendants(c)), sel);
    NoneMatchAppend([Shallow(c)] + Shallows(Descendants(c)), p0, sel);
  }

  /** Regrouping a concatenation, the sequence fact the steps above share. */
  lemma Rebracket<T>(h: seq<T>, p: seq<T>, x: seq<T>, q: seq<T>, t: seq<T>)
    ensures h + (p + x + q) + t == (h + p) + x + (q + t)
    ensures h + (p + q) + t == (h + p) + (q + t)
    ensures h + (p + x + q) == (h + p) + x + q
    ensures h + (p + q) == (h + p) + q
  {
  }

  /** The head of the forest neither matches nor holds a match. */
  lemma RemoveFirstAfterHeadShape(c: Node, rest: seq<Node>, sel: Selector)
    requires !Matches(sel, c) && !(c.Element? && FindOf(c.children, sel).Some?)
    ensures FindOf([c] + rest, sel) == FindOf(rest, sel)
    ensures RemoveFirstOf([c] + rest, sel) == [c] + RemoveFirstOf(rest, sel)
  {
    var cs := [c] + rest;
    assert cs[0] == c && cs[1..] == rest;
  }

  /** Removing the first match lowers the number of matches. */
  lemma {:induction false} RemoveFirstDropsAMatch(cs: seq<Node>, sel: Selector)
    requires FindOf(cs, sel).Some?
    ensures |FindAllOf(RemoveFirstOf(cs, sel), sel)| < |FindAllOf(cs, sel)|
  {
    RemoveFirstKeepsLaterMatches(cs, sel);
  }

  // ---------------------------------------------------------------------
  // Attribute allow-list (app.py:156-158)
  // ---------------------------------------------------------------------

  /** The attributes that survive cleaning. */
  const AllowedAttrs: set<string> :=
    {"href", "src", "alt", "title", "class", "colspan", "rowspan", "data-linktype"}

  /** `{k: v for k, v in attrs.items() if k in allowed_attrs}`. */
  function KeepAllowed(attrs: map<string, string>): (r: map<string, string>)
    ensures r.Keys == attrs.Keys * AllowedAttrs
    ensures forall k :: k in r ==> r[k] == attrs[k]
  {
    map k | k in attrs && k in AllowedAttrs :: attrs[k]
  }

  /** The allow-list rule of the pass, the same for every tag. */
  function AllowRule(tag: string, attrs: map<string, string>): map<string, string> {
    KeepAllowed(attrs)
  }

  /** Reduces the attributes of every node of the forest, and of everything
      below, to the allow-list; `class` is on the list, so class tokens stay. */
  function StripAttrsOf(cs: seq<Node>): seq<Node> {
    MapAttrsOf(cs, AllowRule)
  }

  /** Every element of the forest carries only allowed attributes. */
  predicate AttrsAllowed(cs: seq<Node>) {
    forall x :: x in DescendantsOf(cs) && x.Element? ==> x.attrs.Keys <= AllowedAttrs
  }

  /** After the pass, no element anywhere carries an attribute off the list. */
  lemma {:induction false} StripAttrsAllowed(cs: seq<Node>)
    ensures AttrsAllowed(StripAttrsOf(cs))
    decreases cs
  {
    if |cs| > 0 {
      var c := cs[0];
      var r := StripAttrsOf(cs);
      MapAttrsOfCons(cs, AllowRule);
      StripAttrsAllowed(cs[1..]);
      if c.Element? {
        StripAttrsAllowed(c.children);
      }
      assert r == [r[0]] + r[1..];
      assert DescendantsOf(r) == [r[0]] + Descendants(r[0]) + DescendantsOf(r[1..]);
    }
  }

  /** A second pass changes nothing. */
  lemma StripAttrsIdempotent(cs: seq<Node>)
    ensures StripAttrsOf(StripAttrsOf(cs)) == StripAttrsOf(cs)
  {
    forall t, a ensures AllowRule(t, AllowRule(t, a)) == AllowRule(t, a) {
      assert KeepAllowed(KeepAllowed(a)) == KeepAllowed(a);
    }
    MapAttrsIdempotent(cs, AllowRule);
  }
}
