/**
 * The four approaches of `extractMainContent` (actions/extract-news.ts) and what decides between
 * them: the content selectors with their in-place noise removal, the paragraph aggregation, the
 * post-processing of the language model's answer, and the salvage of the whole body. The
 * decision is a function of the candidate each approach yields (`Cascade`); the document edits
 * of the first approach are `SelectorPhase`. The method `Extract.ExtractMainContent` runs them.
 */
module Content {
  import opened Results
  import opened Text
  import opened Dom
  import opened Sanitize

  // ---------------------------------------------------------------- thresholds

  /** A candidate the first approach accepts at once: `content && content.trim().length > 100`. */
  predicate Accepted(c: string) {
    c != "" && |Trim(c)| > 100
  }

  /** The guard of approaches 2, 3 and 4: `!content || content.trim().length < 100`. */
  predicate NeedsMore(c: string) {
    c == "" || |Trim(c)| < 100
  }

  /** The two thresholds leave a gap: a candidate of exactly 100 trimmed characters is neither
      accepted by the selector loop nor replaced by a later approach. */
  lemma ThresholdGap(c: string)
    ensures !Accepted(c) && !NeedsMore(c) <==> |Trim(c)| == 100
    ensures Accepted(c) ==> !NeedsMore(c)
  {
    if |Trim(c)| == 100 {
      assert c != "" by { assert |Trim(c)| <= |c|; }
    }
  }

  // ---------------------------------------------------------------- approach 1: selectors

  const ContentSelectors: seq<Simple> := [
    Type("article"), Class("post-content"), Class("article-content"), Class("entry-content"),
    Class("content"), Class("news-detail-content"), Class("article-body"), Type("main"),
    Id("content"), Class("post"), Class("story"), Class("news-text"),
    AttrIs("itemprop", "articleBody"), Class("story-body")
  ]

  /** What the first approach removes below each match of a content selector. */
  const SelectorNoise: seq<Simple> := [
    Type("script"), Type("style"), Class("share-buttons"), Class("social-share"), Class("paylas"),
    Class("share"), Type("nav"), Class("navigation"), Class("breadcrumb"), Class("related-news"),
    Class("comments"), Class("sidebar"), Class("ad"), Class("advertisement"), Type("footer"),
    Type("header"), Class("menu")
  ]

  /** `$(sel).find(noise).remove()`: every element matching `noise` that lies strictly below an
      element matching `sel` leaves the document with its subtree. `inside` says whether an
      ancestor of the forest matches `sel`. */
  function NoiseRemoved(f: seq<Node>, sel: Simple, noise: seq<Simple>, inside: bool): seq<Node>
    decreases f
  {
    if f == [] then []
    else NoiseRemoved(f[..|f| - 1], sel, noise, inside) + NoiseRemovedNode(f[|f| - 1], sel, noise, inside)
  }

  function NoiseRemovedNode(n: Node, sel: Simple, noise: seq<Simple>, inside: bool): seq<Node>
    decreases n
  {
    match n
    case TextNode(_) => [n]
    case Element(t, a, kids) =>
      if inside && MatchesAny(n, noise) then []
      else [Element(t, a, NoiseRemoved(kids, sel, noise, inside || Matches(n, sel)))]
  }

  /** No element matching `noise` has an ancestor matching `sel` (counting the forest's own
      ancestors when `inside`). */
  ghost predicate NoNoiseBelow(f: seq<Node>, sel: Simple, noise: seq<Simple>, inside: bool)
    decreases f
  {
    forall i :: 0 <= i < |f| ==> NoNoiseBelowNode(f[i], sel, noise, inside)
  }

  ghost predicate NoNoiseBelowNode(n: Node, sel: Simple, noise: seq<Simple>, inside: bool)
    decreases n
  {
    n.Element? ==>
      !(inside && MatchesAny(n, noise)) && NoNoiseBelow(n.children, sel, noise, inside || Matches(n, sel))
  }

  /** After the removal no noise element is left below a match of the selector. */
  lemma {:induction false} NoiseRemovedLeavesNone(f: seq<Node>, sel: Simple, noise: seq<Simple>, inside: bool)
    ensures NoNoiseBelow(NoiseRemoved(f, sel, noise, inside), sel, noise, inside)
    decreases f
  {
    if f != [] {
      var a := NoiseRemoved(f[..|f| - 1], sel, noise, inside);
      var b := NoiseRemovedNode(f[|f| - 1], sel, noise, inside);
      NoiseRemovedLeavesNone(f[..|f| - 1], sel, noise, inside);
      NoiseRemovedNodeLeavesNone(f[|f| - 1], sel, noise, inside);
      forall i | 0 <= i < |a + b| ensures NoNoiseBelowNode((a + b)[i], sel, noise, inside) {
        if i >= |a| { assert (a + b)[i] == b[i - |a|]; }
      }
    }
  }

  lemma {:induction false} NoiseRemovedNodeLeavesNone(n: Node, sel: Simple, noise: seq<Simple>, inside: bool)
    ensures NoNoiseBelow(NoiseRemovedNode(n, sel, noise, inside), sel, noise, inside)
    decreases n
  {
    match n
    case TextNode(_) =>
    case Element(t, a, kids) =>
      if !(inside && MatchesAny(n, noise)) {
        NoiseRemovedLeavesNone(kids, sel, noise, inside || Matches(n, sel));
        var m := Element(t, a, NoiseRemoved(kids, sel, noise, inside || Matches(n, sel)));
        assert Matches(m, sel) == Matches(n, sel) && MatchesAny(m, noise) == MatchesAny(n, noise);
        assert NoNoiseBelowNode(m, sel, noise, inside);
      }
  }

  /** Below a match the removal is exactly `.find(noise).remove()`, the same operation as the
      sanitiser's second pass with the noise list in place of the unwanted list. */
  lemma {:induction false} NoiseRemovedInside(f: seq<Node>, sel: Simple, noise: seq<Simple>)
    ensures NoiseRemoved(f, sel, noise, true) == RemoveMatching(f, noise)
    decreases f
  {
    if f != [] {
      NoiseRemovedInside(f[..|f| - 1], sel, noise);
      NoiseRemovedNodeInside(f[|f| - 1], sel, noise);
    }
  }

  lemma {:induction false} NoiseRemovedNodeInside(n: Node, sel: Simple, noise: seq<Simple>)
    ensures NoiseRemovedNode(n, sel, noise, true) == RemoveMatchingNode(n, noise)
    decreases n
  {
    match n
    case TextNode(_) =>
    case Element(t, a, kids) =>
      NoiseRemovedInside(kids, sel, noise);
  }

  /** `$(sel).html() || ""`: the serialised children of the first element the selector selects. */
  function FirstHtml(lib: HtmlLib, doc: seq<Node>, sel: Simple): string {
    var m := Select(doc, Is(sel));
    if m == [] || !m[0].Element? then "" else lib.render(m[0].children)
  }

  /** Where the selector loop ends: the content it leaves, the document after its removals, and
      the index of the selector that was accepted, if any. */
  datatype Phase = Phase(content: string, doc: seq<Node>, winner: Option<nat>)

  /** The selector loop from the `k`-th selector of `sels` on, with `content` the value so
      far. A selector that selects nothing is skipped; otherwise the `noise` below its matches
      is removed from the document and its HTML becomes the content, which ends the loop when
      accepted and is otherwise kept for the next selector to overwrite. */
  function SelectorPhase(lib: HtmlLib, doc: seq<Node>, sels: seq<Simple>, noise: seq<Simple>, k: nat, content: string): Phase
    requires k <= |sels|
    decreases |sels| - k
  {
    if k == |sels| then Phase(content, doc, None)
    else
      var sel := sels[k];
      if Select(doc, Is(sel)) == [] then SelectorPhase(lib, doc, sels, noise, k + 1, content)
      else
        var d := NoiseRemoved(doc, sel, noise, false);
        var c := FirstHtml(lib, d, sel);
        if Accepted(c) then Phase(c, d, Some(k)) else SelectorPhase(lib, d, sels, noise, k + 1, c)
  }

  /** The loop ends early only at an accepted selector, and otherwise leaves content that is not
      accepted: the last rejected selector's HTML, or the content it started with. */
  lemma {:induction false} SelectorPhaseOutcome(
    lib: HtmlLib, doc: seq<Node>, sels: seq<Simple>, noise: seq<Simple>, k: nat, content: string)
    requires k <= |sels|
    ensures var r := SelectorPhase(lib, doc, sels, noise, k, content);
      (r.winner.Some? ==> k <= r.winner.value < |sels| && Accepted(r.content))
      && (r.winner.None? && !Accepted(content) ==> !Accepted(r.content))
    decreases |sels| - k
  {
    if k < |sels| {
      var sel := sels[k];
      if Select(doc, Is(sel)) == [] {
        SelectorPhaseOutcome(lib, doc, sels, noise, k + 1, content);
      } else {
        var d := NoiseRemoved(doc, sel, noise, false);
        var c := FirstHtml(lib, d, sel);
        if !Accepted(c) {
          SelectorPhaseOutcome(lib, d, sels, noise, k + 1, c);
        }
      }
    }
  }

  /** What one turn of the selector loop does to the document: nothing when the selector
      selects nothing, otherwise the removal of the noise below its matches. */
  function StepDoc(doc: seq<Node>, sel: Simple, noise: seq<Simple>): seq<Node> {
    if Select(doc, Is(sel)) == [] then doc else NoiseRemoved(doc, sel, noise, false)
  }

  /** The document the `j`-th selector sees, when the loop started at the `k`-th on `doc`. */
  function DocBefore(doc: seq<Node>, sels: seq<Simple>, noise: seq<Simple>, k: nat, j: nat): seq<Node>
    requires k <= j <= |sels|
    decreases j - k
  {
    if j == k then doc else DocBefore(StepDoc(doc, sels[k], noise), sels, noise, k + 1, j)
  }

  /** Whether `sel` ends the loop on document `d`: it selects something and its HTML, after the
      removal of the noise, is accepted. */
  predicate Accepts(lib: HtmlLib, d: seq<Node>, sel: Simple, noise: seq<Simple>) {
    Select(d, Is(sel)) != [] && Accepted(FirstHtml(lib, NoiseRemoved(d, sel, noise, false), sel))
  }

  /** `r` ends the loop begun at the `k`-th selector on `doc` at the first selector accepted on
      the document it sees: every earlier one selected nothing or was rejected, and the content is
      the winner's HTML in the document its removals leave. Without a winner, no selector was
      accepted and every turn's removals are in the document. */
  predicate FirstAccepted(lib: HtmlLib, doc: seq<Node>, sels: seq<Simple>, noise: seq<Simple>, k: nat, r: Phase)
    requires k <= |sels|
  {
    match r.winner
    case Some(w) =>
      k <= w < |sels|
      && Accepts(lib, DocBefore(doc, sels, noise, k, w), sels[w], noise)
      && (forall j :: k <= j < w ==> !Accepts(lib, DocBefore(doc, sels, noise, k, j), sels[j], noise))
      && r.doc == DocBefore(doc, sels, noise, k, w + 1)
      && r.content == FirstHtml(lib, r.doc, sels[w])
    case None =>
      (forall j :: k <= j < |sels| ==> !Accepts(lib, DocBefore(doc, sels, noise, k, j), sels[j], noise))
      && r.doc == DocBefore(doc, sels, noise, k, |sels|)
  }

  lemma {:induction false} SelectorPhaseFirst(
    lib: HtmlLib, doc: seq<Node>, sels: seq<Simple>, noise: seq<Simple>, k: nat, content: string)
    requires k <= |sels|
    ensures FirstAccepted(lib, doc, sels, noise, k, SelectorPhase(lib, doc, sels, noise, k, content))
    decreases |sels| - k
  {
    if k < |sels| {
      var sel := sels[k];
      var d := StepDoc(doc, sel, noise);
      if Select(doc, Is(sel)) == [] || !Accepted(FirstHtml(lib, d, sel)) {
        var c := if Select(doc, Is(sel)) == [] then content else FirstHtml(lib, d, sel);
        assert SelectorPhase(lib, doc, sels, noise, k, content) == SelectorPhase(lib, d, sels, noise, k + 1, c);
        SelectorPhaseFirst(lib, d, sels, noise, k + 1, c);
        FirstAcceptedLater(lib, doc, sels, noise, k, SelectorPhase(lib, d, sels, noise, k + 1, c));
      } else {
        assert DocBefore(doc, sels, noise, k, k + 1) == d;
      }
    }
  }

  /** A rejected `k`-th turn passes the property on from the loop begun on its result. */
  lemma FirstAcceptedLater(lib: HtmlLib, doc: seq<Node>, sels: seq<Simple>, noise: seq<Simple>, k: nat, r: Phase)
    requires k < |sels| && !Accepts(lib, doc, sels[k], noise)
    requires FirstAccepted(lib, StepDoc(doc, sels[k], noise), sels, noise, k + 1, r)
    ensures FirstAccepted(lib, doc, sels, noise, k, r)
  {
    assert DocBefore(doc, sels, noise, k, k) == doc;
    DocBeforeStep(doc, sels, noise, k);
  }

  /** After the `k`-th turn, the documents later selectors see are those of the loop begun on
      that turn's result. */
  lemma DocBeforeStep(doc: seq<Node>, sels: seq<Simple>, noise: seq<Simple>, k: nat)
    requires k < |sels|
    ensures forall j :: k < j <= |sels| ==>
      DocBefore(doc, sels, noise, k, j) == DocBefore(StepDoc(doc, sels[k], noise), sels, noise, k + 1, j)
  {
  }

  /** Whether the `j`-th selector is the last one, from the `k`-th on, to select something in
      the document it sees. */
  predicate LastSelecting(doc: seq<Node>, sels: seq<Simple>, noise: seq<Simple>, k: nat, j: nat)
    requires k <= j < |sels|
  {
    Select(DocBefore(doc, sels, noise, k, j), Is(sels[j])) != []
    && forall l :: j < l < |sels| ==> Select(DocBefore(doc, sels, noise, k, l), Is(sels[l])) == []
  }

  /** Without a winner the content is the HTML of the last selector that selected something, in
      the document its removals left, or the content the loop started with when none did. */
  lemma {:induction false} SelectorPhaseLeftover(
    lib: HtmlLib, doc: seq<Node>, sels: seq<Simple>, noise: seq<Simple>, k: nat, content: string)
    requires k <= |sels|
    requires SelectorPhase(lib, doc, sels, noise, k, content).winner.None?
    ensures (forall j :: k <= j < |sels| ==> Select(DocBefore(doc, sels, noise, k, j), Is(sels[j])) == [])
      ==> SelectorPhase(lib, doc, sels, noise, k, content).content == content
    ensures forall j :: k <= j < |sels| && LastSelecting(doc, sels, noise, k, j) ==>
      SelectorPhase(lib, doc, sels, noise, k, content).content
        == FirstHtml(lib, DocBefore(doc, sels, noise, k, j + 1), sels[j])
    decreases |sels| - k
  {
    if k < |sels| {
      var sel := sels[k];
      var d := StepDoc(doc, sel, noise);
      if Select(doc, Is(sel)) == [] {
        SelectorPhaseLeftover(lib, d, sels, noise, k + 1, content);
      } else {
        var c := FirstHtml(lib, d, sel);
        if !Accepted(c) {
          SelectorPhaseLeftover(lib, d, sels, noise, k + 1, c);
          assert DocBefore(doc, sels, noise, k, k + 1) == d;
        }
      }
    }
  }

  /** Without any match of any selector the loop leaves the document and the empty content
      alone. */
  lemma {:induction false} SelectorPhaseNoMatch(
    lib: HtmlLib, doc: seq<Node>, sels: seq<Simple>, noise: seq<Simple>, k: nat)
    requires k <= |sels|
    requires forall j :: k <= j < |sels| ==> Select(doc, Is(sels[j])) == []
    ensures SelectorPhase(lib, doc, sels, noise, k, "") == Phase("", doc, None)
    decreases |sels| - k
  {
    if k < |sels| {
      SelectorPhaseNoMatch(lib, doc, sels, noise, k + 1);
    }
  }

  // ---------------------------------------------------------------- approach 2: paragraphs

  /** The trimmed text of every `p` element, in document order. */
  function ParagraphTexts(doc: seq<Node>): seq<string> {
    TrimmedTexts(Select(doc, Is(Type("p"))))
  }

  /** The trimmed text of each node, in order. */
  function TrimmedTexts(ps: seq<Node>): seq<string> {
    if ps == [] then [] else [Trim(TextOf(ps[0]))] + TrimmedTexts(ps[1..])
  }

  lemma {:induction false} TrimmedTextsLength(ps: seq<Node>)
    ensures |TrimmedTexts(ps)| == |ps|
  {
    if ps != [] {
      TrimmedTextsLength(ps[1..]);
    }
  }

  lemma {:induction false} TrimmedTextsAt(ps: seq<Node>, i: nat)
    requires i < |ps|
    ensures |TrimmedTexts(ps)| == |ps| && TrimmedTexts(ps)[i] == Trim(TextOf(ps[i]))
  {
    TrimmedTextsLength(ps);
    var rest := TrimmedTexts(ps[1..]);
    assert TrimmedTexts(ps) == [Trim(TextOf(ps[0]))] + rest;
    if i > 0 {
      TrimmedTextsAt(ps[1..], i - 1);
      assert ps[1..][i - 1] == ps[i];
    }
  }

  /** A paragraph that counts: more than 20 characters of trimmed text. */
  predicate Substantial(t: string) {
    |t| > 20
  }

  /** `<p>${text}</p>\n` for every substantial paragraph, in order. */
  function ParagraphsHtml(ts: seq<string>): string {
    if ts == [] then "" else ParagraphsHtml(ts[..|ts| - 1]) + ParagraphPiece(ts[|ts| - 1])
  }

  /** What one paragraph adds to the aggregate. */
  function ParagraphPiece(t: string): string {
    if Substantial(t) then "<p>" + t + "</p>\n" else ""
  }

  /** The number of substantial paragraphs. */
  function SubstantialCount(ts: seq<string>): (n: nat)
    ensures n <= |ts|
  {
    if ts == [] then 0
    else SubstantialCount(ts[..|ts| - 1]) + (if Substantial(ts[|ts| - 1]) then 1 else 0)
  }

  /** The aggregate is empty exactly when no paragraph is substantial. */
  lemma {:induction false} ParagraphsHtmlEmpty(ts: seq<string>)
    ensures ParagraphsHtml(ts) == "" <==> forall i :: 0 <= i < |ts| ==> !Substantial(ts[i])
  {
    if ts != [] {
      var init := ts[..|ts| - 1];
      ParagraphsHtmlEmpty(init);
      assert forall i :: 0 <= i < |init| ==> init[i] == ts[i];
    }
  }

  /** Every substantial paragraph adds at least 29 characters (21 of text and the 8 of its
      tags), so four of them always make the aggregate long enough to be adopted. */
  lemma {:induction false} ParagraphsHtmlLength(ts: seq<string>)
    ensures |ParagraphsHtml(ts)| >= 29 * SubstantialCount(ts)
    ensures SubstantialCount(ts) >= 4 ==> |ParagraphsHtml(ts)| > 100
  {
    if ts != [] {
      ParagraphsHtmlLength(ts[..|ts| - 1]);
    }
  }

  /** Three substantial paragraphs of 21 characters are not enough: 87 characters. */
  lemma ThreeShortParagraphsRejected()
    ensures |ParagraphsHtml(["123456789012345678901", "123456789012345678901", "123456789012345678901"])| == 87
  {
    var t := "123456789012345678901";
    var ts := [t, t, t];
    assert Substantial(t);
    assert ParagraphsHtml([t]) == "<p>" + t + "</p>\n" by { assert [t][..0] == []; }
    assert |ParagraphsHtml([t, t])| == 58 by { assert [t, t][..1] == [t]; }
    assert ts[..2] == [t, t];
  }

  // ---------------------------------------------------------------- approach 3: the model's answer

  /** The post-processing of the model's answer: every "```html", then every "```", then every
      remaining backtick is removed, and the result is trimmed. */
  function StripFences(raw: string): (r: string)
    ensures forall i :: 0 <= i < |r| ==> r[i] != '`'
    ensures r == [] || (!IsWhitespace(r[0]) && !IsWhitespace(r[|r| - 1]))
  {
    var s := RemoveAll(RemoveAll(RemoveAll(raw, "```html"), "```"), "`");
    RemoveAllChar(RemoveAll(RemoveAll(raw, "```html"), "```"), '`');
    TrimKeepsChars(s, '`');
    Trim(s)
  }

  /** An answer without any backtick is only trimmed. */
  lemma StripFencesPlain(raw: string)
    requires forall i :: 0 <= i < |raw| ==> raw[i] != '`'
    ensures StripFences(raw) == Trim(raw)
  {
    RemoveAllAbsent(raw, "```html");
    RemoveAllAbsent(raw, "```");
    RemoveAllAbsent(raw, "`");
  }

  /** An answer wrapped in a fenced code block, with no backtick inside, comes out as its
      trimmed inside. */
  lemma StripFencesFenced(b: string)
    requires forall i :: 0 <= i < |b| ==> b[i] != '`'
    ensures StripFences("```html" + b + "```") == Trim(b)
  {
    var raw := "```html" + b + "```";
    assert raw[..7] == "```html" && raw[7..] == b + "```";
    RemoveAllTail(b, "```", "```html");
    RemoveAllBeforeMatch(b, "```");
    RemoveAllAbsent(b, "`");
  }

  /** Removing a pattern from `b + tail`, where `b` has none of the pattern's first character
      and `tail` is shorter than the pattern, keeps the whole text. */
  lemma {:induction false} RemoveAllTail(b: string, tail: string, p: string)
    requires p != [] && p[0] !in b && |tail| < |p|
    ensures RemoveAll(b + tail, p) == b + tail
    decreases |b|
  {
    if b == [] {
      assert b + tail == tail;
    } else {
      var s := b + tail;
      if |s| >= |p| {
        assert s[..|p|][0] == b[0];
        assert s[1..] == b[1..] + tail;
        RemoveAllTail(b[1..], tail, p);
      }
    }
  }

  /** Removing a pattern from `b + p`, where `b` has none of the pattern's first character,
      leaves `b`. */
  lemma {:induction false} RemoveAllBeforeMatch(b: string, p: string)
    requires p != [] && p[0] !in b
    ensures RemoveAll(b + p, p) == b
    decreases |b|
  {
    var s := b + p;
    if b == [] {
      assert s == p && s[|p|..] == [];
    } else {
      assert s[..|p|][0] == b[0];
      assert s[1..] == b[1..] + p;
      RemoveAllBeforeMatch(b[1..], p);
      assert [b[0]] + b[1..] == b;
    }
  }

  // ---------------------------------------------------------------- approach 4: the body

  /** What the fourth approach removes from a copy of the body. */
  const SalvageNoise: seq<Simple> := [
    Type("script"), Type("style"), Type("header"), Type("footer"), Type("nav"), Class("menu"),
    Class("navigation"), Class("share"), Class("social"), Class("comments"), Class("sidebar"),
    Class("ad"), Class("advertisement"), Type("iframe"), Class("breadcrumb"), Class("related-news")
  ]

  /** `$("body").clone()` with the noise removed, serialised (`.html() || ""`); the document
      itself is not changed. */
  function Salvage(lib: HtmlLib, doc: seq<Node>): string {
    var b := Select(doc, Is(Type("body")));
    if b == [] || !b[0].Element? then "" else lib.render(RemoveMatching(b[0].children, SalvageNoise))
  }

  // ---------------------------------------------------------------- the decision

  /** The content after the second approach. */
  function AfterParagraphs(c: string, paragraphs: string): string {
    if NeedsMore(c) && |paragraphs| > 100 then paragraphs else c
  }

  /** The content after the third approach; `ai` is the model's answer or its failure. */
  function AfterModel(c: string, ai: Result<string>): string {
    if NeedsMore(c) && ai.Ok? then StripFences(ai.value) else c
  }

  /** The model is consulted only for content that needs more: a failed call keeps the content,
      and a successful one replaces it with the answer, free of backticks and trimmed. */
  lemma AfterModelSpec(c: string, ai: Result<string>)
    ensures !NeedsMore(c) || ai.Err? ==> AfterModel(c, ai) == c
    ensures NeedsMore(c) && ai.Ok? ==>
      var r := AfterModel(c, ai);
      r == StripFences(ai.value) && '`' !in r && (r == [] || (!IsWhitespace(r[0]) && !IsWhitespace(r[|r| - 1])))
  {
  }

  /** The cascade of the four approaches given what each would yield: the selector loop's
      content, the paragraph aggregate, the model's answer and the salvaged body. Returns the
      content before the final cleaning, and whether the model was asked. */
  function Cascade(selected: string, paragraphs: string, ai: Result<string>, salvage: string): (r: (string, bool))
    ensures r.1 <==> NeedsMore(AfterParagraphs(selected, paragraphs))
    ensures NeedsMore(AfterModel(AfterParagraphs(selected, paragraphs), ai)) ==> r.0 == salvage
    ensures !NeedsMore(r.0) || r.0 == salvage
  {
    var c2 := AfterParagraphs(selected, paragraphs);
    var c3 := AfterModel(c2, ai);
    (if NeedsMore(c3) then salvage else c3, NeedsMore(c2))
  }

  /** Once the selector loop yields content that needs nothing more (accepted, or exactly 100
      trimmed characters), no later approach runs and the model is not asked. */
  lemma CascadeKeepsSelected(selected: string, paragraphs: string, ai: Result<string>, salvage: string)
    requires !NeedsMore(selected)
    ensures Cascade(selected, paragraphs, ai, salvage) == (selected, false)
  {
  }

  /** A failed model call leaves the content as the second approach left it: the cascade then
      behaves as if the third approach did not exist. */
  lemma CascadeModelFailure(selected: string, paragraphs: string, msg: string, salvage: string)
    ensures var c2 := AfterParagraphs(selected, paragraphs);
      Cascade(selected, paragraphs, Err(msg), salvage).0 == (if NeedsMore(c2) then salvage else c2)
  {
  }

  /** When the content still needs more after the paragraphs and the model answers with enough
      text, the cleaned-up answer is the content: the salvage is not used. */
  lemma CascadeModelAnswer(selected: string, paragraphs: string, answer: string, salvage: string)
    requires NeedsMore(AfterParagraphs(selected, paragraphs))
    requires !NeedsMore(StripFences(answer))
    ensures Cascade(selected, paragraphs, Ok(answer), salvage) == (StripFences(answer), true)
  {
  }

  /** A long paragraph aggregate replaces a short selector result and, when long enough once
      trimmed, is final. */
  lemma CascadeParagraphs(selected: string, paragraphs: string, ai: Result<string>, salvage: string)
    requires NeedsMore(selected) && |paragraphs| > 100 && |Trim(paragraphs)| >= 100
    ensures Cascade(selected, paragraphs, ai, salvage) == (paragraphs, false)
  {
  }

  /** The serialised result of `cleanHtmlContent`. */
  function CleanHtml(lib: HtmlLib, html: string): string {
    lib.render(Clean(lib.parse(html)))
  }

  /** The whole of `extractMainContent`: the document after the selector loop, the content it
      returns, and whether the model was asked. Cleaning runs only on non-empty content. */
  function MainContent(lib: HtmlLib, doc: seq<Node>, ai: Result<string>): (r: (seq<Node>, string, bool))
  {
    var p := SelectorPhase(lib, doc, ContentSelectors, SelectorNoise, 0, "");
    var (c, asked) := Cascade(p.content, ParagraphsHtml(ParagraphTexts(p.doc)), ai, Salvage(lib, p.doc));
    (p.doc, if c == "" then "" else CleanHtml(lib, c), asked)
  }

  /** A document without any match of a content selector, without substantial paragraphs, and
      whose model call fails, yields its cleaned salvaged body. */
  lemma MainContentFallsToBody(lib: HtmlLib, doc: seq<Node>, msg: string)
    requires forall j :: 0 <= j < |ContentSelectors| ==> Select(doc, Is(ContentSelectors[j])) == []
    requires forall i :: 0 <= i < |ParagraphTexts(doc)| ==> !Substantial(ParagraphTexts(doc)[i])
    ensures var s := Salvage(lib, doc);
      MainContent(lib, doc, Err(msg)) == (doc, if s == "" then "" else CleanHtml(lib, s), true)
  {
    SelectorPhaseNoMatch(lib, doc, ContentSelectors, SelectorNoise, 0);
    ParagraphsHtmlEmpty(ParagraphTexts(doc));
  }
}
