/**
 * The document tree the extractor queries and edits, and the part of the CSS selector engine
 * its selector lists need: type, class, id and attribute-equality selectors, a type selector
 * combined with an attribute test, and the descendant combinator ("article img").
 * Parsing HTML text into a tree and serialising a tree back to text belong to the HTML library;
 * they enter the model as the two functions of an `HtmlLib` value.
 */
module Dom {
  import opened Results
  import opened Text

  datatype Attr = Attr(name: string, value: string)

  /** A node of the parsed document: a text node, or an element with its tag name (lower case,
      as the parser reports it), its attributes in source order and its children. */
  datatype Node =
    | TextNode(text: string)
    | Element(tag: string, attrs: seq<Attr>, children: seq<Node>)

  /** The HTML library: `parse` builds the document forest of a text (the `cheerio.load` step),
      `render` serialises a forest (`.html()` on an element serialises its children, `$.html()`
      the whole document). */
  datatype HtmlLib = HtmlLib(parse: string -> seq<Node>, render: seq<Node> -> string)

  /** The value of the first attribute called `name`, if any. */
  function AttrValue(attrs: seq<Attr>, name: string): (r: Option<string>)
    ensures r.Some? <==> exists i :: 0 <= i < |attrs| && attrs[i].name == name
    ensures r.Some? ==> exists i :: 0 <= i < |attrs| && attrs[i] == Attr(name, r.value)
  {
    if attrs == [] then None
    else if attrs[0].name == name then Some(attrs[0].value)
    else
      var r := AttrValue(attrs[1..], name);
      assert forall i :: 0 < i < |attrs| ==> attrs[i] == attrs[1..][i - 1];
      r
  }

  /** The names of a `class` attribute, in order. The selector engine tests a class selector
      with the pattern `(?:^|\s)name(?:$|\s)`, so the names are separated by whatever the
      regular-expression class `\s` matches, which is `Text.IsWhitespace`. */
  function ClassNames(s: string): (r: seq<string>)
    ensures forall i :: 0 <= i < |r| ==> r[i] != []
    decreases |s|
  {
    if s == [] then []
    else if IsWhitespace(s[0]) then ClassNames(s[1..])
    else
      var w := NameAt(s);
      [w] + ClassNames(s[|w|..])
  }

  /** The longest prefix of `s` without whitespace. */
  function NameAt(s: string): (w: string)
    requires s != [] && !IsWhitespace(s[0])
    ensures 1 <= |w| <= |s| && w == s[..|w|]
    ensures forall i :: 0 <= i < |w| ==> !IsWhitespace(w[i])
    ensures |w| == |s| || IsWhitespace(s[|w|])
  {
    if |s| == 1 || IsWhitespace(s[1]) then s[..1] else s[..1] + NameAt(s[1..])
  }

  /** A simple selector. */
  datatype Simple =
    | Type(name: string)                                 // article
    | Class(name: string)                                // .post-content
    | Id(name: string)                                   // #content
    | AttrIs(attr: string, value: string)                // [itemprop='articleBody']
    | TypeAttrIs(name: string, attr: string, value: string)  // meta[name="author"]

  /** A selector: a simple selector, or a simple selector under an ancestor ("article img"). */
  datatype Selector = Is(target: Simple) | Within(ancestor: Simple, target: Simple)

  predicate HasClass(n: Node, c: string) {
    n.Element? && c in ClassNames(AttrValue(n.attrs, "class").GetOr(""))
  }

  /** A no-break space separates class names too: `.content` selects `class="x\u00A0content"`. */
  lemma NbspSeparatesClasses()
    ensures HasClass(Element("div", [Attr("class", "x\U{A0}content")], []), "content")
  {
    var s := "x\U{A0}content";
    assert NameAt(s) == "x";
    assert s[1..][1..] == "content";
    SingleName("content");
    assert ClassNames(s) == ["x"] + ClassNames(s[1..][1..]);
  }

  /** A text of lower-case letters is one class name. */
  lemma SingleName(s: string)
    requires s != [] && forall i :: 0 <= i < |s| ==> 'a' <= s[i] <= 'z'
    ensures ClassNames(s) == [s]
  {
    assert forall i :: 0 <= i < |s| ==> !IsWhitespace(s[i]);
    var w := NameAt(s);
    assert |w| == |s| && w == s;
    assert s[|w|..] == [];
    assert ClassNames(s) == [w] + ClassNames(s[|w|..]);
  }

  /** The attributes whose values the selector engine compares ignoring ASCII case in an HTML
      document (the HTML 4 list of case-insensitive attribute values). Of the attributes the
      extractor's selectors test, only `rel` is one of them. */
  predicate CaseInsensitiveValue(a: string) {
    a in {
      "accept", "accept-charset", "align", "alink", "axis", "bgcolor", "charset", "checked",
      "clear", "codetype", "color", "compact", "declare", "defer", "dir", "direction", "disabled",
      "enctype", "face", "frame", "hreflang", "http-equiv", "lang", "language", "link", "media",
      "method", "multiple", "nohref", "noresize", "noshade", "nowrap", "readonly", "rel", "rev",
      "rules", "scope", "scrolling", "selected", "shape", "target", "text", "type", "valign",
      "valuetype", "vlink"
    }
  }

  /** `[a="v"]`: the element has an attribute `a` whose value is `v`, ignoring ASCII case for
      the attributes listed above. */
  predicate HasAttrValue(n: Node, a: string, v: string)
    requires n.Element?
  {
    match AttrValue(n.attrs, a)
    case None => false
    case Some(x) => if CaseInsensitiveValue(a) then AsciiLowerAll(x) == AsciiLowerAll(v) else x == v
  }

  predicate Matches(n: Node, s: Simple) {
    n.Element? &&
    match s
    case Type(t) => n.tag == t
    case Class(c) => HasClass(n, c)
    case Id(i) => AttrValue(n.attrs, "id") == Some(i)
    case AttrIs(a, v) => HasAttrValue(n, a, v)
    case TypeAttrIs(t, a, v) => n.tag == t && HasAttrValue(n, a, v)
  }

  /** `[rel='author']` selects a link whose `rel` is written "Author". */
  lemma RelIgnoresCase()
    ensures Matches(Element("a", [Attr("rel", "Author")], [TextNode("Jane")]), AttrIs("rel", "author"))
  {
    assert AsciiLowerAll("Author") == "author" by {
      assert AsciiLower('A') == 'a';
      LowerAuthorTail();
    }
    assert AsciiLowerAll("author") == "author" by {
      LowerAuthorTail();
    }
  }

  lemma LowerAuthorTail()
    ensures AsciiLowerAll("uthor") == "uthor"
  {
    assert AsciiLowerAll("r") == "r";
    assert AsciiLowerAll("or") == "or";
    assert AsciiLowerAll("hor") == "hor";
    assert AsciiLowerAll("thor") == "thor";
  }

  /** A selector list written with commas: matches when one of its members does. */
  predicate MatchesAny(n: Node, list: seq<Simple>) {
    exists i :: 0 <= i < |list| && Matches(n, list[i])
  }

  /** The elements of `n`'s subtree that `sel` selects, in document (pre-)order; `inside` says
      whether a proper ancestor of `n` matches the ancestor part of a descendant selector. */
  function SelectNode(n: Node, sel: Selector, inside: bool): seq<Node>
    decreases n
  {
    match n
    case TextNode(_) => []
    case Element(_, _, kids) =>
      var hit := match sel
        case Is(t) => Matches(n, t)
        case Within(a, t) => inside && Matches(n, t);
      var below := inside || (sel.Within? && Matches(n, sel.ancestor));
      (if hit then [n] else []) + SelectForest(kids, sel, below)
  }

  function SelectForest(f: seq<Node>, sel: Selector, inside: bool): seq<Node>
    decreases f
  {
    if f == [] then [] else SelectForest(f[..|f| - 1], sel, inside) + SelectNode(f[|f| - 1], sel, inside)
  }

  /** `$(selector)` over a whole document. */
  function Select(doc: seq<Node>, sel: Selector): seq<Node> {
    SelectForest(doc, sel, false)
  }

  /** The concatenated text of a node's text descendants (cheerio's `.text()`). */
  function TextOf(n: Node): string
    decreases n
  {
    match n
    case TextNode(s) => s
    case Element(_, _, kids) => ForestText(kids)
  }

  function ForestText(f: seq<Node>): string
    decreases f
  {
    if f == [] then "" else ForestText(f[..|f| - 1]) + TextOf(f[|f| - 1])
  }

  /** `.text()` on a selection: the texts of all selected elements, concatenated. */
  function SelectionText(sel: seq<Node>): string {
    ForestText(sel)
  }

  /** `.attr(name)` on a selection, with a missing attribute or an empty selection read as "":
      only the first selected element is consulted. */
  function SelectionAttr(sel: seq<Node>, name: string): string {
    if sel == [] || !sel[0].Element? then "" else AttrValue(sel[0].attrs, name).GetOr("")
  }

  /** Every element at any depth of the forest satisfies `p`. */
  ghost predicate Every(f: seq<Node>, p: Node -> bool)
    decreases f
  {
    forall i :: 0 <= i < |f| ==> EveryNode(f[i], p)
  }

  ghost predicate EveryNode(n: Node, p: Node -> bool)
    decreases n
  {
    n.Element? ==> p(n) && Every(n.children, p)
  }

  /** Some element at any depth of the forest is an `img` (cheerio's `.find("img").length`). */
  predicate HasImg(f: seq<Node>)
    decreases f
  {
    exists i :: 0 <= i < |f| && NodeHasImg(f[i])
  }

  predicate NodeHasImg(n: Node)
    decreases n
  {
    n.Element? && (n.tag == "img" || HasImg(n.children))
  }
}
