/**
 * The three passes of `cleanHtmlContent` (actions/extract-news.ts), each as a function from the
 * document forest before the pass to the forest after it:
 *   1. every `p`/`div` whose text is blank and which holds no `img` is removed;
 *   2. every element matched by the unwanted-element list is removed with its subtree;
 *   3. `data-*`, `on*`, `style` and `class` attributes are dropped from every element.
 * The class `Page.Document` applies them in place; the lemmas below state what each pass
 * guarantees and that the whole sanitiser is not idempotent.
 */
module Sanitize {
  import opened Text
  import opened Dom
  import opened Results

  // ---------------------------------------------------------------- pass 1: empty blocks

  /** An element `$("p, div")` selects whose trimmed text is empty and which has no `img`
      descendant. */
  predicate IsEmptyBlock(n: Node) {
    n.Element? && (n.tag == "p" || n.tag == "div") && Blank(TextOf(n)) && !HasImg(n.children)
  }

  predicate NotEmptyBlock(n: Node) {
    !IsEmptyBlock(n)
  }

  function PruneEmptyNode(n: Node): seq<Node>
    decreases n
  {
    match n
    case TextNode(_) => [n]
    case Element(t, a, kids) => if IsEmptyBlock(n) then [] else [Element(t, a, PruneEmpty(kids))]
  }

  /** The forest after pass 1. Elements are visited in document order and an element is judged
      on its subtree as it was, since removing an empty block never changes whether an
      ancestor is blank or holds an image (`PruneEmptyKeepsTextAndImages`). */
  function PruneEmpty(f: seq<Node>): seq<Node>
    decreases f
  {
    if f == [] then [] else PruneEmpty(f[..|f| - 1]) + PruneEmptyNode(f[|f| - 1])
  }

  // ---------------------------------------------------------------- pass 2: unwanted elements

  /** "script, style, iframe, form, button, input, .ad, .advertisement, .share, .social" */
  const Unwanted: seq<Simple> := [
    Type("script"), Type("style"), Type("iframe"), Type("form"), Type("button"), Type("input"),
    Class("ad"), Class("advertisement"), Class("share"), Class("social")
  ]

  function RemoveMatchingNode(n: Node, list: seq<Simple>): seq<Node>
    decreases n
  {
    match n
    case TextNode(_) => [n]
    case Element(t, a, kids) =>
      if MatchesAny(n, list) then [] else [Element(t, a, RemoveMatching(kids, list))]
  }

  /** `$(list).remove()` (and `.find(list).remove()` below an element): every matching element
      leaves the tree together with its subtree. */
  function RemoveMatching(f: seq<Node>, list: seq<Simple>): seq<Node>
    decreases f
  {
    if f == [] then [] else RemoveMatching(f[..|f| - 1], list) + RemoveMatchingNode(f[|f| - 1], list)
  }

  predicate NotMatchedBy(list: seq<Simple>, n: Node) {
    !MatchesAny(n, list)
  }

  predicate NotUnwanted(n: Node) {
    !MatchesAny(n, Unwanted)
  }

  // ---------------------------------------------------------------- pass 3: attributes

  /** The attributes the third pass keeps. */
  predicate KeepAttr(name: string) {
    !(StartsWith(name, "data-") || StartsWith(name, "on") || name == "style" || name == "class")
  }

  function StripAttrs(attrs: seq<Attr>): seq<Attr> {
    if attrs == [] then []
    else (if KeepAttr(attrs[0].name) then [attrs[0]] else []) + StripAttrs(attrs[1..])
  }

  function StripNode(n: Node): Node
    decreases n
  {
    match n
    case TextNode(_) => n
    case Element(t, a, kids) => Element(t, StripAttrs(a), StripForest(kids))
  }

  function StripForest(f: seq<Node>): seq<Node>
    decreases f
  {
    if f == [] then [] else StripForest(f[..|f| - 1]) + [StripNode(f[|f| - 1])]
  }

  predicate AttrsClean(n: Node) {
    n.Element? ==> forall i :: 0 <= i < |n.attrs| ==> KeepAttr(n.attrs[i].name)
  }

  // ---------------------------------------------------------------- the sanitiser

  /** The tree `cleanHtmlContent` serialises: the three passes in order. */
  function Clean(f: seq<Node>): seq<Node> {
    StripForest(RemoveMatching(PruneEmpty(f), Unwanted))
  }

  /** What survives the sanitiser: no element of the unwanted list, and no `data-*`, `on*`,
      `style` or `class` attribute on any element. */
  predicate Sanitized(n: Node) {
    NotUnwanted(n) && AttrsClean(n)
  }

  // ---------------------------------------------------------------- lemmas

  lemma {:induction false} ForestTextConcat(a: seq<Node>, b: seq<Node>)
    ensures ForestText(a + b) == ForestText(a) + ForestText(b)
    decreases |b|
  {
    if b != [] {
      assert (a + b)[..|a + b| - 1] == a + b[..|b| - 1];
      assert (a + b)[|a + b| - 1] == b[|b| - 1];
      ForestTextConcat(a, b[..|b| - 1]);
    } else {
      assert a + b == a;
    }
  }

  lemma HasImgConcat(a: seq<Node>, b: seq<Node>)
    ensures HasImg(a + b) <==> HasImg(a) || HasImg(b)
  {
    if HasImg(a) {
      var i :| 0 <= i < |a| && NodeHasImg(a[i]);
      assert (a + b)[i] == a[i];
    }
    if HasImg(b) {
      var i :| 0 <= i < |b| && NodeHasImg(b[i]);
      assert (a + b)[|a| + i] == b[i];
    }
  }

  lemma EveryConcat(a: seq<Node>, b: seq<Node>, p: Node -> bool)
    requires Every(a, p) && Every(b, p)
    ensures Every(a + b, p)
  {
    forall i | 0 <= i < |a + b| ensures EveryNode((a + b)[i], p) {
      if i >= |a| { assert (a + b)[i] == b[i - |a|]; }
    }
  }

  /** Pass 1 never changes whether a subtree's text is blank or whether it holds an image: it
      only removes subtrees whose text is blank and which hold none. */
  lemma {:induction false} PruneEmptyKeepsTextAndImages(f: seq<Node>)
    ensures Blank(ForestText(PruneEmpty(f))) <==> Blank(ForestText(f))
    ensures HasImg(PruneEmpty(f)) <==> HasImg(f)
    decreases f
  {
    if f != [] {
      var init, last := f[..|f| - 1], f[|f| - 1];
      assert f == init + [last];
      PruneEmptyKeepsTextAndImages(init);
      PruneNodeKeepsTextAndImages(last);
      ForestTextConcat(PruneEmpty(init), PruneEmptyNode(last));
      ForestTextConcat(init, [last]);
      BlankConcat(ForestText(PruneEmpty(init)), ForestText(PruneEmptyNode(last)));
      BlankConcat(ForestText(init), ForestText([last]));
      HasImgConcat(PruneEmpty(init), PruneEmptyNode(last));
      HasImgConcat(init, [last]);
      assert ForestText([last]) == TextOf(last) by {
        assert [last][..0] == [];
      }
      assert HasImg([last]) <==> NodeHasImg(last);
    }
  }

  lemma {:induction false} PruneNodeKeepsTextAndImages(n: Node)
    ensures Blank(ForestText(PruneEmptyNode(n))) <==> Blank(TextOf(n))
    ensures HasImg(PruneEmptyNode(n)) <==> NodeHasImg(n)
    decreases n
  {
    match n
    case TextNode(_) =>
      assert ForestText([n]) == TextOf(n) by { assert [n][..0] == []; }
      assert HasImg([n]) <==> NodeHasImg(n);
    case Element(t, a, kids) =>
      if !IsEmptyBlock(n) {
        var m := Element(t, a, PruneEmpty(kids));
        PruneEmptyKeepsTextAndImages(kids);
        assert ForestText([m]) == TextOf(m) by { assert [m][..0] == []; }
        assert HasImg([m]) <==> NodeHasImg(m);
      }
  }

  /** After pass 1 no element is a `p`/`div` with blank text and no image. */
  lemma {:induction false} PruneEmptyLeavesNoEmptyBlock(f: seq<Node>)
    ensures Every(PruneEmpty(f), NotEmptyBlock)
    decreases f
  {
    if f != [] {
      PruneEmptyLeavesNoEmptyBlock(f[..|f| - 1]);
      PruneNodeLeavesNoEmptyBlock(f[|f| - 1]);
      EveryConcat(PruneEmpty(f[..|f| - 1]), PruneEmptyNode(f[|f| - 1]), NotEmptyBlock);
    }
  }

  lemma {:induction false} PruneNodeLeavesNoEmptyBlock(n: Node)
    ensures Every(PruneEmptyNode(n), NotEmptyBlock)
    decreases n
  {
    match n
    case TextNode(_) =>
    case Element(t, a, kids) =>
      if !IsEmptyBlock(n) {
        PruneEmptyLeavesNoEmptyBlock(kids);
        PruneEmptyKeepsTextAndImages(kids);
        var m := Element(t, a, PruneEmpty(kids));
        assert !IsEmptyBlock(m);
        assert EveryNode(m, NotEmptyBlock);
      }
  }

  /** After `$(list).remove()` no element matches the list. */
  lemma {:induction false} RemoveMatchingLeavesNone(f: seq<Node>, list: seq<Simple>)
    ensures Every(RemoveMatching(f, list), n => NotMatchedBy(list, n))
    decreases f
  {
    if f != [] {
      RemoveMatchingLeavesNone(f[..|f| - 1], list);
      RemoveMatchingNodeLeavesNone(f[|f| - 1], list);
      EveryConcat(RemoveMatching(f[..|f| - 1], list), RemoveMatchingNode(f[|f| - 1], list),
                  n => NotMatchedBy(list, n));
    }
  }

  lemma {:induction false} RemoveMatchingNodeLeavesNone(n: Node, list: seq<Simple>)
    ensures Every(RemoveMatchingNode(n, list), n => NotMatchedBy(list, n))
    decreases n
  {
    match n
    case TextNode(_) =>
    case Element(t, a, kids) =>
      if !MatchesAny(n, list) {
        RemoveMatchingLeavesNone(kids, list);
      }
  }

  /** Pass 3 keeps exactly the attributes `KeepAttr` allows, with their values. */
  lemma {:induction false} StripAttrsKeepsExactly(attrs: seq<Attr>, x: Attr)
    ensures x in StripAttrs(attrs) <==> x in attrs && KeepAttr(x.name)
  {
    if attrs != [] {
      StripAttrsKeepsExactly(attrs[1..], x);
      assert attrs == [attrs[0]] + attrs[1..];
    }
  }

  lemma StripAttrsClean(attrs: seq<Attr>)
    ensures forall i :: 0 <= i < |StripAttrs(attrs)| ==> KeepAttr(StripAttrs(attrs)[i].name)
  {
    forall i | 0 <= i < |StripAttrs(attrs)| ensures KeepAttr(StripAttrs(attrs)[i].name) {
      StripAttrsKeepsExactly(attrs, StripAttrs(attrs)[i]);
    }
  }

  /** Pass 3 removes the `class` attribute, and keeps tags, so after it an element matches the
      unwanted list only if it did before; and every element's attributes are clean. */
  lemma {:induction false} StripForestSanitizes(f: seq<Node>)
    requires Every(f, NotUnwanted)
    ensures Every(StripForest(f), Sanitized)
    decreases f
  {
    if f != [] {
      StripForestSanitizes(f[..|f| - 1]);
      StripNodeSanitizes(f[|f| - 1]);
      EveryConcat(StripForest(f[..|f| - 1]), [StripNode(f[|f| - 1])], Sanitized);
    }
  }

  lemma {:induction false} StripNodeSanitizes(n: Node)
    requires EveryNode(n, NotUnwanted)
    ensures EveryNode(StripNode(n), Sanitized)
    decreases n
  {
    match n
    case TextNode(_) =>
    case Element(t, a, kids) =>
      var m := StripNode(n);
      StripForestSanitizes(kids);
      StripAttrsClean(a);
      assert forall i :: 0 <= i < |m.attrs| ==> m.attrs[i].name != "class";
      assert AttrValue(m.attrs, "class") == None;
      forall i | 0 <= i < |Unwanted| ensures !Matches(m, Unwanted[i]) {
        assert !Matches(n, Unwanted[i]);
      }
  }

  /** What the sanitiser guarantees of every element it leaves: none of "script, style, iframe,
      form, button, input, .ad, .advertisement, .share, .social", and no `data-*`, `on*`, `style`
      or `class` attribute. */
  lemma CleanSanitizes(f: seq<Node>)
    ensures Every(Clean(f), Sanitized)
  {
    RemoveMatchingLeavesNone(PruneEmpty(f), Unwanted);
    var g := RemoveMatching(PruneEmpty(f), Unwanted);
    assert Every(g, NotUnwanted) by {
      forall i | 0 <= i < |g| ensures EveryNode(g[i], NotUnwanted) {
        EveryNodeWeaken(g[i], n => NotMatchedBy(Unwanted, n), NotUnwanted);
      }
    }
    StripForestSanitizes(g);
  }

  lemma {:induction false} EveryNodeWeaken(n: Node, p: Node -> bool, q: Node -> bool)
    requires forall m :: p(m) ==> q(m)
    requires EveryNode(n, p)
    ensures EveryNode(n, q)
    decreases n
  {
    if n.Element? {
      forall i | 0 <= i < |n.children| ensures EveryNode(n.children[i], q) {
        EveryNodeWeaken(n.children[i], p, q);
      }
    }
  }

  /** An element without attributes matches the unwanted list only through its tag. */
  lemma BareElementUnwanted(t: string, kids: seq<Node>)
    ensures MatchesAny(Element(t, [], kids), Unwanted) <==>
            t in {"script", "style", "iframe", "form", "button", "input"}
  {
    var n := Element(t, [], kids);
    assert ClassNames("") == [];
    assert !HasClass(n, "ad") && !HasClass(n, "advertisement");
    assert !HasClass(n, "share") && !HasClass(n, "social");
    if t in {"script", "style", "iframe", "form", "button", "input"} {
      var i := if t == "script" then 0 else if t == "style" then 1 else if t == "iframe" then 2
               else if t == "form" then 3 else if t == "button" then 4 else 5;
      assert Matches(n, Unwanted[i]);
    }
  }

  lemma OneNode(n: Node)
    ensures PruneEmpty([n]) == PruneEmptyNode(n)
    ensures RemoveMatching([n], Unwanted) == RemoveMatchingNode(n, Unwanted)
    ensures StripForest([n]) == [StripNode(n)]
    ensures ForestText([n]) == TextOf(n)
  {
    assert [n][..0] == [];
  }

  /** The sanitiser is not idempotent: a `div` whose only text sat in a `button` keeps its text
      through pass 1, loses the button in pass 2, and is removed only by a second run. */
  lemma CleanNotIdempotent()
    ensures var f := [Element("div", [], [Element("button", [], [TextNode("x")])])];
            Clean(f) == [Element("div", [], [])] && Clean(Clean(f)) == []
  {
    var x := TextNode("x");
    var button := Element("button", [], [x]);
    var div := Element("div", [], [button]);
    var bare := Element("div", [], []);
    OneNode(x);
    OneNode(button);
    OneNode(div);
    OneNode(bare);
    assert !Blank(TextOf(div)) by {
      assert TextOf(div) == "x";
      assert "x"[0] == 'x' && !IsWhitespace('x');
    }
    assert PruneEmpty([div]) == [div];
    BareElementUnwanted("button", [x]);
    BareElementUnwanted("div", [button]);
    BareElementUnwanted("div", []);
    assert RemoveMatching([div], Unwanted) == [bare];
    assert Clean([div]) == [bare];
    assert IsEmptyBlock(bare);
    assert PruneEmpty([bare]) == [];
    assert RemoveMatching([], Unwanted) == [];
  }
}
