/**
 * The metadata heuristics of `extractNewsContent` (actions/extract-news.ts): the title, the
 * ordered author, date and image selector lists, the value each selector yields, the `mailto:`
 * cut, the day-month-year / hour-minute pattern of the non-ISO date branch, and the
 * normalisation of relative image URLs. The loops over the selector lists are the methods of
 * module `Metadata`; this module holds what they compute with.
 */
module Fields {
  import opened Results
  import opened Text
  import opened Dom

  // ---------------------------------------------------------------- selector lists

  const AuthorSelectors: seq<Selector> := [
    Is(TypeAttrIs("meta", "name", "author")),
    Is(TypeAttrIs("meta", "property", "article:author")),
    Is(Class("author")),
    Is(Class("byline")),
    Is(AttrIs("rel", "author")),
    Is(Class("writer")),
    Is(Class("news-detail-author")),
    Is(Class("article-author"))
  ]

  const DateSelectors: seq<Selector> := [
    Is(TypeAttrIs("meta", "property", "article:published_time")),
    Is(TypeAttrIs("meta", "name", "publication_date")),
    Is(Class("date")),
    Is(Class("publish-date")),
    Is(Class("article-date")),
    Is(Class("news-date")),
    Is(Class("time")),
    Is(Class("timestamp"))
  ]

  const ImageSelectors: seq<Selector> := [
    Is(TypeAttrIs("meta", "property", "og:image")),
    Is(TypeAttrIs("meta", "name", "twitter:image")),
    Within(Type("article"), Type("img")),
    Within(Class("post-content"), Type("img")),
    Within(Class("article-content"), Type("img")),
    Within(Class("entry-content"), Type("img")),
    Within(Class("news-detail-img"), Type("img")),
    Within(Class("article-img"), Type("img"))
  ]

  // ---------------------------------------------------------------- values read per selector

  /** `el.attr("content") || el.text().trim()`: the author and date loops' reading of a
      selection. */
  function ContentOrText(sel: seq<Node>): string {
    var c := SelectionAttr(sel, "content");
    if c != "" then c else Trim(SelectionText(sel))
  }

  /** `el.attr("content") || el.attr("src") || ""`: the image loop's reading of a selection. */
  function ContentOrSrc(sel: seq<Node>): string {
    var c := SelectionAttr(sel, "content");
    if c != "" then c else SelectionAttr(sel, "src")
  }

  /** What each selector of `sels` reads from `doc` with `ContentOrText`, in list order. */
  function TextValues(doc: seq<Node>, sels: seq<Selector>): seq<string> {
    if sels == [] then [] else [ContentOrText(Select(doc, sels[0]))] + TextValues(doc, sels[1..])
  }

  lemma {:induction false} TextValuesAt(doc: seq<Node>, sels: seq<Selector>, k: nat)
    requires k < |sels|
    ensures |TextValues(doc, sels)| == |sels|
    ensures TextValues(doc, sels)[k] == ContentOrText(Select(doc, sels[k]))
  {
    TextValuesLength(doc, sels);
    var rest := TextValues(doc, sels[1..]);
    assert TextValues(doc, sels) == [ContentOrText(Select(doc, sels[0]))] + rest;
    if k > 0 {
      TextValuesAt(doc, sels[1..], k - 1);
      assert sels[1..][k - 1] == sels[k];
    }
  }

  lemma {:induction false} TextValuesLength(doc: seq<Node>, sels: seq<Selector>)
    ensures |TextValues(doc, sels)| == |sels|
  {
    if sels != [] {
      TextValuesLength(doc, sels[1..]);
    }
  }

  /** What each selector of `sels` reads from `doc` with `ContentOrSrc`, in list order. */
  function SrcValues(doc: seq<Node>, sels: seq<Selector>): seq<string> {
    if sels == [] then [] else [ContentOrSrc(Select(doc, sels[0]))] + SrcValues(doc, sels[1..])
  }

  lemma {:induction false} SrcValuesAt(doc: seq<Node>, sels: seq<Selector>, k: nat)
    requires k < |sels|
    ensures |SrcValues(doc, sels)| == |sels|
    ensures SrcValues(doc, sels)[k] == ContentOrSrc(Select(doc, sels[k]))
  {
    SrcValuesLength(doc, sels);
    var rest := SrcValues(doc, sels[1..]);
    assert SrcValues(doc, sels) == [ContentOrSrc(Select(doc, sels[0]))] + rest;
    if k > 0 {
      SrcValuesAt(doc, sels[1..], k - 1);
      assert sels[1..][k - 1] == sels[k];
    }
  }

  lemma {:induction false} SrcValuesLength(doc: seq<Node>, sels: seq<Selector>)
    ensures |SrcValues(doc, sels)| == |sels|
  {
    if sels != [] {
      SrcValuesLength(doc, sels[1..]);
    }
  }

  /** `$("title").text().trim() || $("h1").first().text().trim()` */
  function Title(doc: seq<Node>): string {
    TitleOf(Select(doc, Is(Type("title"))), Select(doc, Is(Type("h1"))))
  }

  /** The title from the `title` and `h1` selections. */
  function TitleOf(titles: seq<Node>, h1s: seq<Node>): string {
    var t := Trim(SelectionText(titles));
    if t != "" then t
    else if h1s == [] then "" else Trim(TextOf(h1s[0]))
  }

  /** The title is trimmed, and empty only when the `title` elements hold only whitespace and
      there is no `h1` or the first one holds only whitespace. */
  lemma TitleSpec(titles: seq<Node>, h1s: seq<Node>)
    ensures var r := TitleOf(titles, h1s);
      (r == [] || (!IsWhitespace(r[0]) && !IsWhitespace(r[|r| - 1])))
      && (r == [] <==> Blank(SelectionText(titles)) && (h1s == [] || Blank(TextOf(h1s[0]))))
  {
    var b := if h1s == [] then "" else TextOf(h1s[0]);
    assert TitleOf(titles, h1s) == FirstTrimmed(SelectionText(titles), b, h1s != []);
    FirstTrimmedSpec(SelectionText(titles), b, h1s != []);
  }

  /** `a.trim() || b.trim()`, where `b` may be absent. */
  function FirstTrimmed(a: string, b: string, hasB: bool): string {
    if Trim(a) != "" then Trim(a) else if hasB then Trim(b) else ""
  }

  lemma FirstTrimmedSpec(a: string, b: string, hasB: bool)
    ensures var r := FirstTrimmed(a, b, hasB);
      (r == [] || (!IsWhitespace(r[0]) && !IsWhitespace(r[|r| - 1])))
      && (r == [] <==> Blank(a) && (!hasB || Blank(b)))
  {
    var ta := Trim(a);
    assert ta == [] <==> Blank(a);
    if ta == [] && hasB {
      var tb := Trim(b);
      assert tb == [] <==> Blank(b);
    }
  }

  // ---------------------------------------------------------------- author: the mailto cut

  /** `/mailto:.*$/i` matches at `i`: "mailto:" in any ASCII case, followed by no line
      terminator up to the end of the string (`.` stops at one and `$` is the end of input). */
  predicate MailtoMatchAt(s: string, i: nat) {
    i + 7 <= |s|
    && (forall k :: 0 <= k < 7 ==> AsciiLower(s[i + k]) == "mailto:"[k])
    && (forall k :: i + 7 <= k < |s| ==> !IsLineTerminator(s[k]))
  }

  /** The leftmost position from `i` on where the pattern matches, or `|s|` when none does. */
  function FirstMailto(s: string, i: nat): (j: nat)
    requires i <= |s|
    ensures i <= j <= |s|
    ensures j < |s| ==> MailtoMatchAt(s, j)
    ensures forall k :: i <= k < j ==> !MailtoMatchAt(s, k)
    decreases |s| - i
  {
    if i == |s| then |s| else if MailtoMatchAt(s, i) then i else FirstMailto(s, i + 1)
  }

  /** `author.replace(/mailto:.*$/i, "")`. */
  function CutMailto(s: string): string {
    s[..FirstMailto(s, 0)]
  }

  /** `author.replace(/mailto:.*$/i, "").trim()`. */
  function CleanAuthor(s: string): string {
    Trim(CutMailto(s))
  }

  /** The cut keeps the text before the leftmost match and drops the match with everything
      after it; without a match the text is kept whole. */
  lemma CutMailtoSpec(s: string)
    ensures var r := CutMailto(s);
      StartsWith(s, r)
      && (r == s <==> forall k :: 0 <= k < |s| ==> !MailtoMatchAt(s, k))
      && (r != s ==> MailtoMatchAt(s, |r|) && forall k :: 0 <= k < |r| ==> !MailtoMatchAt(s, k))
  {
    var j := FirstMailto(s, 0);
    assert CutMailto(s) == s[..j];
    if j < |s| {
      assert |s[..j]| == j;
    }
  }

  /** An author field that is only a mailto link is cleaned to the empty string, which the loop
      keeps (it has already stopped). */
  lemma MailtoOnlyAuthorIsEmpty()
    ensures CleanAuthor("MailTo:desk@example.com") == ""
  {
    var s := "MailTo:desk@example.com";
    assert MailtoMatchAt(s, 0);
    assert FirstMailto(s, 0) == 0;
  }

  // ---------------------------------------------------------------- date: the non-ISO pattern

  predicate IsDigit(c: char) {
    '0' <= c <= '9'
  }

  /** `[./-]` */
  predicate IsDateSep(c: char) {
    c == '.' || c == '/' || c == '-'
  }

  /** `n` digits start at `i`. */
  predicate DigitsAt(s: string, i: nat, n: nat) {
    i + n <= |s| && forall k :: i <= k < i + n ==> IsDigit(s[k])
  }

  /** `\d{a}[./-]\d{b}[./-]\d{c}` at `i`. */
  predicate DateAt(s: string, i: nat, a: nat, b: nat, c: nat) {
    DigitsAt(s, i, a) && i + a < |s| && IsDateSep(s[i + a])
    && DigitsAt(s, i + a + 1, b) && i + a + 1 + b < |s| && IsDateSep(s[i + a + 1 + b])
    && DigitsAt(s, i + a + b + 2, c)
  }

  /** The repetition counts of `\d{1,2}`, `\d{1,2}`, `\d{2,4}` in the order the backtracking
      engine tries them: greedy, the leftmost quantifier varying slowest. */
  const DateShapes: seq<(nat, nat, nat)> := [
    (2, 2, 4), (2, 2, 3), (2, 2, 2), (2, 1, 4), (2, 1, 3), (2, 1, 2),
    (1, 2, 4), (1, 2, 3), (1, 2, 2), (1, 1, 4), (1, 1, 3), (1, 1, 2)
  ]

  lemma DateShapesOk()
    ensures ShapesOk(DateShapes)
  {
    assert forall n :: 0 <= n < |DateShapes| ==> ShapeOk(DateShapes[n]);
    ShapesOkEach(DateShapes);
  }

  lemma {:induction false} ShapesOkEach(shapes: seq<(nat, nat, nat)>)
    requires forall n :: 0 <= n < |shapes| ==> ShapeOk(shapes[n])
    ensures ShapesOk(shapes)
  {
    if shapes != [] {
      assert forall n :: 0 <= n < |shapes[1..]| ==> shapes[1..][n] == shapes[n + 1];
      ShapesOkEach(shapes[1..]);
    }
  }

  /** A match: the date capture is `s[dateStart..dateEnd]`, the time capture
      `s[timeStart..timeEnd]`. */
  datatype DateTimeSpan = DateTimeSpan(dateStart: nat, dateEnd: nat, timeStart: nat, timeEnd: nat)

  /** The end of the run of non-digits that starts at `k` (`[^\d]*`, which can only give back
      characters the next `\d` cannot take). */
  function SkipNonDigits(s: string, k: nat): (e: nat)
    requires k <= |s|
    ensures k <= e <= |s| && (e == |s| || IsDigit(s[e]))
    ensures forall j :: k <= j < e ==> !IsDigit(s[j])
    decreases |s| - k
  {
    if k == |s| || IsDigit(s[k]) then k else SkipNonDigits(s, k + 1)
  }

  /** `\d{1,2}:\d{1,2}` at exactly `k`, both quantifiers greedy: the end of the match. */
  function TimeEnd(s: string, k: nat): Option<nat> {
    if DigitsAt(s, k, 2) && k + 2 < |s| && s[k + 2] == ':' && DigitsAt(s, k + 3, 1) then
      Some(if DigitsAt(s, k + 3, 2) then k + 5 else k + 4)
    else if DigitsAt(s, k, 1) && k + 1 < |s| && s[k + 1] == ':' && DigitsAt(s, k + 2, 1) then
      Some(if DigitsAt(s, k + 2, 2) then k + 4 else k + 3)
    else None
  }

  /** The first shape of `shapes` with which the whole pattern matches at `i`. */
  function MatchAt(s: string, i: nat, shapes: seq<(nat, nat, nat)>): Option<DateTimeSpan>
  {
    if shapes == [] then None
    else
      var (a, b, c) := shapes[0];
      var dateEnd := i + a + b + c + 2;
      if DateAt(s, i, a, b, c) then
        var k := SkipNonDigits(s, dateEnd);
        match TimeEnd(s, k)
        case Some(e) => Some(DateTimeSpan(i, dateEnd, k, e))
        case None => MatchAt(s, i, shapes[1..])
      else MatchAt(s, i, shapes[1..])
  }

  /** `dateText.match(/(\d{1,2}[./-]\d{1,2}[./-]\d{2,4})[^\d]*(\d{1,2}:\d{1,2})/i)`, searched
      from position `i`: the leftmost start position with a match, and there the first match
      in backtracking order. */
  function FindDateTime(s: string, i: nat): (r: Option<DateTimeSpan>)
    requires i <= |s|
    ensures r.Some? ==> r.value.dateStart <= r.value.dateEnd <= r.value.timeStart <= r.value.timeEnd <= |s|
  {
    DateShapesOk();
    FindMatch(s, i, DateShapes)
  }

  /** The leftmost start position from `i` on at which one of `shapes` matches, with the first
      such shape. */
  function FindMatch(s: string, i: nat, shapes: seq<(nat, nat, nat)>): (r: Option<DateTimeSpan>)
    requires i <= |s|
    requires ShapesOk(shapes)
    ensures r.Some? ==> r.value.dateStart <= r.value.dateEnd <= r.value.timeStart <= r.value.timeEnd <= |s|
    decreases |s| - i
  {
    var m := MatchAt(s, i, shapes);
    if m.Some? then MatchAtSpan(s, i, shapes); m
    else if i == |s| then None
    else FindMatch(s, i + 1, shapes)
  }

  /** A match found is well-formed and no earlier start position has one; conversely, wherever
      from `i` on the pattern occurs, a match is found that starts there or earlier. */
  lemma FindDateTimeSpec(s: string, i: nat)
    requires i <= |s|
    ensures var r := FindDateTime(s, i);
      r.Some? ==>
        ValidSpan(s, r.value) && i <= r.value.dateStart &&
        (forall j :: i <= j < r.value.dateStart ==> MatchAt(s, j, DateShapes).None?)
    ensures var r := FindDateTime(s, i);
      forall sp :: ValidSpan(s, sp) && i <= sp.dateStart ==> r.Some? && r.value.dateStart <= sp.dateStart
  {
    DateShapesOk();
    FindMatchValid(s, i, DateShapes);
    FindMatchLeftmost(s, i, DateShapes);
    forall sp | ValidSpan(s, sp) && i <= sp.dateStart
      ensures FindDateTime(s, i).Some? && FindDateTime(s, i).value.dateStart <= sp.dateStart
    {
      SpanMatches(s, sp);
      FindMatchReaches(s, i, DateShapes, sp.dateStart);
    }
  }

  /** A start position where one of `shapes` matches is reached by the search from `i`. */
  lemma {:induction false} FindMatchReaches(s: string, i: nat, shapes: seq<(nat, nat, nat)>, j: nat)
    requires i <= j <= |s| && ShapesOk(shapes) && MatchAt(s, j, shapes).Some?
    ensures FindMatch(s, i, shapes).Some? && FindMatch(s, i, shapes).value.dateStart <= j
    decreases j - i
  {
    if MatchAt(s, i, shapes).Some? {
      MatchAtSpan(s, i, shapes);
    } else {
      FindMatchReaches(s, i + 1, shapes, j);
    }
  }

  /** Every occurrence of the pattern is a match at its start position. */
  lemma SpanMatches(s: string, sp: DateTimeSpan)
    requires ValidSpan(s, sp)
    ensures MatchAt(s, sp.dateStart, DateShapes).Some?
  {
    var a, b, c := DateShapeOf(s, sp.dateStart, sp.dateEnd);
    TimeEndAt(s, sp.timeStart, sp.timeEnd);
    SkipNonDigitsTo(s, sp.dateEnd, sp.timeStart);
    var n := ShapeIndex(a, b, c);
    var shapes := DateShapes;
    assert shapes[n].0 == a && shapes[n].1 == b && shapes[n].2 == c;
    MatchAtFinds(s, sp.dateStart, shapes, n);
  }

  /** The shape of a date text, read off in place. */
  lemma DateShapeOf(s: string, i: nat, e: nat) returns (a: nat, b: nat, c: nat)
    requires i <= e <= |s| && IsDateText(s[i..e])
    ensures 1 <= a <= 2 && 1 <= b <= 2 && 2 <= c <= 4
    ensures e == i + a + b + c + 2 && DateAt(s, i, a, b, c)
  {
    var d := s[i..e];
    a, b, c :| 1 <= a <= 2 && 1 <= b <= 2 && 2 <= c <= 4
      && |d| == a + b + c + 2 && DateAt(d, 0, a, b, c);
    assert forall j :: 0 <= j < |d| ==> d[j] == s[i + j];
  }

  /** Where a shape sits in `DateShapes`. */
  function ShapeIndex(a: nat, b: nat, c: nat): (n: nat)
    requires 1 <= a <= 2 && 1 <= b <= 2 && 2 <= c <= 4
    ensures n < |DateShapes| && DateShapes[n] == (a, b, c)
  {
    (2 - a) * 6 + (2 - b) * 3 + (4 - c)
  }

  /** `MatchAt` finds a match when one of its shapes, tried in order, matches. */
  lemma {:induction false} MatchAtFinds(s: string, i: nat, shapes: seq<(nat, nat, nat)>, n: nat)
    requires n < |shapes| && DateAt(s, i, shapes[n].0, shapes[n].1, shapes[n].2)
    requires TimeEnd(s, SkipNonDigits(s, i + shapes[n].0 + shapes[n].1 + shapes[n].2 + 2)).Some?
    ensures MatchAt(s, i, shapes).Some?
    decreases n
  {
    if n > 0 {
      var (a, b, c) := shapes[0];
      if !(DateAt(s, i, a, b, c) && TimeEnd(s, SkipNonDigits(s, i + a + b + c + 2)).Some?) {
        assert shapes[1..][n - 1] == shapes[n];
        MatchAtFinds(s, i, shapes[1..], n - 1);
      }
    }
  }

  /** `[^\d]*` runs up to the first digit. */
  lemma {:induction false} SkipNonDigitsTo(s: string, k: nat, e: nat)
    requires k <= e < |s| && IsDigit(s[e])
    requires forall j :: k <= j < e ==> !IsDigit(s[j])
    ensures SkipNonDigits(s, k) == e
    decreases e - k
  {
    if k < e {
      SkipNonDigitsTo(s, k + 1, e);
    }
  }

  /** A time text at `k` is found by `TimeEnd`. */
  lemma TimeEndAt(s: string, k: nat, e: nat)
    requires k <= e <= |s| && IsTimeText(s[k..e])
    ensures TimeEnd(s, k).Some?
  {
    var t := s[k..e];
    var h: nat, m: nat :| 1 <= h <= 2 && 1 <= m <= 2 && TimeShape(t, h, m);
    assert forall j :: 0 <= j < |t| ==> t[j] == s[k + j];
    if h == 2 {
      assert DigitsAt(s, k, 2) && s[k + 2] == ':' && DigitsAt(s, k + 3, 1);
    } else {
      assert s[k + 1] == ':' && DigitsAt(s, k, 1) && DigitsAt(s, k + 2, 1);
    }
  }

  lemma {:induction false} FindMatchValid(s: string, i: nat, shapes: seq<(nat, nat, nat)>)
    requires i <= |s|
    requires ShapesOk(shapes)
    ensures var r := FindMatch(s, i, shapes);
      r.Some? ==> ValidSpan(s, r.value) && i <= r.value.dateStart
    decreases |s| - i
  {
    if MatchAt(s, i, shapes).Some? {
      MatchAtSpan(s, i, shapes);
    } else if i < |s| {
      FindMatchValid(s, i + 1, shapes);
    }
  }

  lemma {:induction false} FindMatchLeftmost(s: string, i: nat, shapes: seq<(nat, nat, nat)>)
    requires i <= |s|
    requires ShapesOk(shapes)
    ensures var r := FindMatch(s, i, shapes);
      r.Some? ==> forall j :: i <= j < r.value.dateStart ==> MatchAt(s, j, shapes).None?
    decreases |s| - i
  {
    var m := MatchAt(s, i, shapes);
    if m.Some? {
      MatchAtSpan(s, i, shapes);
    } else if i < |s| {
      FindMatchLeftmost(s, i + 1, shapes);
    }
  }

  /** What any match found looks like: a date of one or two digits, a separator, one or two
      digits, a separator and two to four digits; then only non-digits; then a time of one or
      two digits, a colon and one or two digits. */
  predicate ValidSpan(s: string, m: DateTimeSpan) {
    m.dateStart < m.dateEnd <= m.timeStart < m.timeEnd <= |s|
    && IsDateText(s[m.dateStart..m.dateEnd])
    && IsTimeText(s[m.timeStart..m.timeEnd])
    && (forall j :: m.dateEnd <= j < m.timeStart ==> !IsDigit(s[j]))
  }

  predicate IsDateText(d: string) {
    exists a: nat, b: nat, c: nat :: 1 <= a <= 2 && 1 <= b <= 2 && 2 <= c <= 4
      && |d| == a + b + c + 2 && DateAt(d, 0, a, b, c)
  }

  predicate IsTimeText(t: string) {
    exists h: nat, m: nat :: 1 <= h <= 2 && 1 <= m <= 2 && TimeShape(t, h, m)
  }

  /** `\d{h}:\d{m}` is the whole of `t`. */
  predicate TimeShape(t: string, h: nat, m: nat) {
    |t| == h + m + 1 && DigitsAt(t, 0, h) && t[h] == ':' && DigitsAt(t, h + 1, m)
  }

  /** Every shape of the list is one the pattern allows. */
  predicate ShapesOk(shapes: seq<(nat, nat, nat)>) {
    shapes == [] || (ShapeOk(shapes[0]) && ShapesOk(shapes[1..]))
  }

  predicate ShapeOk(shape: (nat, nat, nat)) {
    1 <= shape.0 <= 2 && 1 <= shape.1 <= 2 && 2 <= shape.2 <= 4
  }

  lemma {:induction false} MatchAtSpan(s: string, i: nat, shapes: seq<(nat, nat, nat)>)
    requires ShapesOk(shapes)
    requires MatchAt(s, i, shapes).Some?
    ensures ValidSpan(s, MatchAt(s, i, shapes).value) && MatchAt(s, i, shapes).value.dateStart == i
    decreases |shapes|
  {
    var (a, b, c) := shapes[0];
    assert ShapeOk(shapes[0]);
    var dateEnd := i + a + b + c + 2;
    if DateAt(s, i, a, b, c) && TimeEnd(s, SkipNonDigits(s, dateEnd)).Some? {
      var k := SkipNonDigits(s, dateEnd);
      assert MatchAt(s, i, shapes) == Some(DateTimeSpan(i, dateEnd, k, TimeEnd(s, k).value));
      MatchHitSpan(s, i, a, b, c);
    } else {
      assert MatchAt(s, i, shapes) == MatchAt(s, i, shapes[1..]);
      MatchAtSpan(s, i, shapes[1..]);
    }
  }

  /** The span of a match with shape `(a, b, c)` at `i` is well-formed. */
  lemma MatchHitSpan(s: string, i: nat, a: nat, b: nat, c: nat)
    requires ShapeOk((a, b, c)) && DateAt(s, i, a, b, c)
    requires TimeEnd(s, SkipNonDigits(s, i + a + b + c + 2)).Some?
    ensures var k := SkipNonDigits(s, i + a + b + c + 2);
      ValidSpan(s, DateTimeSpan(i, i + a + b + c + 2, k, TimeEnd(s, k).value))
  {
    DateTextAt(s, i, a, b, c);
    TimeTextAt(s, SkipNonDigits(s, i + a + b + c + 2));
  }

  lemma DateTextAt(s: string, i: nat, a: nat, b: nat, c: nat)
    requires ShapeOk((a, b, c)) && DateAt(s, i, a, b, c)
    ensures IsDateText(s[i..i + a + b + c + 2])
  {
    var d := s[i..i + a + b + c + 2];
    assert forall j :: 0 <= j < |d| ==> d[j] == s[i + j];
    assert DateAt(d, 0, a, b, c);
  }

  lemma TimeTextAt(s: string, k: nat)
    requires TimeEnd(s, k).Some?
    ensures k < TimeEnd(s, k).value <= |s| && IsTimeText(s[k..TimeEnd(s, k).value])
  {
    var e := TimeEnd(s, k).value;
    var t := s[k..e];
    assert forall j :: 0 <= j < |t| ==> t[j] == s[k + j];
    if DigitsAt(s, k, 2) && k + 2 < |s| && s[k + 2] == ':' && DigitsAt(s, k + 3, 1) {
      var m := if DigitsAt(s, k + 3, 2) then 2 else 1;
      assert TimeShape(t, 2, m);
    } else {
      var m := if DigitsAt(s, k + 2, 2) then 2 else 1;
      assert TimeShape(t, 1, m);
    }
  }

  /** The non-ISO branch: with a match the two captures, otherwise the raw text as the date and
      the time left as it was. */
  function NonIsoDate(v: string, time: string): (string, string) {
    match FindDateTime(v, 0)
    case Some(m) => (v[m.dateStart..m.dateEnd], v[m.timeStart..m.timeEnd])
    case None => (v, time)
  }

  /** Without a match the raw text stays the date and the time is left alone; with one the
      date and time are well-formed date and time texts. Either way a non-empty text leaves a
      non-empty date. */
  lemma NonIsoDateSpec(v: string, time: string)
    ensures FindDateTime(v, 0).Some? <==> exists sp :: ValidSpan(v, sp)
    ensures FindDateTime(v, 0).None? ==> NonIsoDate(v, time) == (v, time)
    ensures FindDateTime(v, 0).Some? ==> IsDateText(NonIsoDate(v, time).0) && IsTimeText(NonIsoDate(v, time).1)
    ensures v != "" ==> NonIsoDate(v, time).0 != ""
  {
    FindDateTimeSpec(v, 0);
  }

  /** A text such as "12.05.2024 14:30" yields the date and time captures. */
  lemma NonIsoDateExample()
    ensures NonIsoDate("12.05.2024 14:30", "") == ("12.05.2024", "14:30")
  {
    var s := "12.05.2024 14:30";
    assert DateAt(s, 0, 2, 2, 4);
    assert SkipNonDigits(s, 10) == 11 by {
      assert !IsDigit(s[10]) && IsDigit(s[11]);
      assert SkipNonDigits(s, 11) == 11;
    }
    assert TimeEnd(s, 11) == Some(16);
    assert MatchAt(s, 0, DateShapes) == Some(DateTimeSpan(0, 10, 11, 16));
    assert FindDateTime(s, 0) == Some(DateTimeSpan(0, 10, 11, 16));
    assert s[0..10] == "12.05.2024";
    assert s[11..16] == "14:30";
  }

  // ---------------------------------------------------------------- image URL

  /** `s.split(sep)` for a one-character separator: always at least one part. */
  function Split(s: string, sep: char): (parts: seq<string>)
    ensures |parts| >= 1
  {
    if s == [] then [""]
    else if s[0] == sep then [""] + Split(s[1..], sep)
    else
      var rest := Split(s[1..], sep);
      [[s[0]] + rest[0]] + rest[1..]
  }

  /** `parts.join(sep)` */
  function Join(parts: seq<string>, sep: char): string {
    if parts == [] then ""
    else if |parts| == 1 then parts[0]
    else parts[0] + [sep] + Join(parts[1..], sep)
  }

  /** `pathname.split("/").slice(0, -1).join("/")` */
  function BasePath(pathname: string): string {
    var parts := Split(pathname, '/');
    Join(parts[..|parts| - 1], '/')
  }

  /** Joining the parts of a split gives the string back. */
  lemma {:induction false} JoinSplit(s: string, sep: char)
    ensures Join(Split(s, sep), sep) == s
  {
    if s != [] {
      var rest := Split(s[1..], sep);
      JoinSplit(s[1..], sep);
      if s[0] == sep {
        assert Split(s, sep) == [""] + rest;
        assert ([""] + rest)[1..] == rest;
      } else {
        JoinHead(s[0], rest, sep);
      }
    }
  }

  lemma JoinHead(c: char, parts: seq<string>, sep: char)
    requires parts != []
    ensures Join([[c] + parts[0]] + parts[1..], sep) == [c] + Join(parts, sep)
  {
    var p := [[c] + parts[0]] + parts[1..];
    if |parts| > 1 {
      assert p[1..] == parts[1..];
    }
  }

  /** Splitting at a separator splits the two sides independently. */
  lemma {:induction false} SplitAtSep(x: string, y: string, sep: char)
    ensures Split(x + [sep] + y, sep) == Split(x, sep) + Split(y, sep)
  {
    if x == [] {
      assert x + [sep] + y == [sep] + y;
      assert ([sep] + y)[1..] == y;
    } else {
      var z := x + [sep] + y;
      assert z[0] == x[0] && z[1..] == x[1..] + [sep] + y;
      SplitAtSep(x[1..], y, sep);
      if x[0] != sep {
        var rest := Split(z[1..], sep);
        var xs := Split(x[1..], sep);
        assert rest[0] == xs[0];
        assert rest[1..] == xs[1..] + Split(y, sep);
      }
    }
  }

  /** A string without the separator splits into itself alone. */
  lemma {:induction false} SplitNoSep(v: string, sep: char)
    requires forall i :: 0 <= i < |v| ==> v[i] != sep
    ensures Split(v, sep) == [v]
  {
    if v != [] {
      assert forall i :: 0 <= i < |v[1..]| ==> v[1..][i] == v[i + 1];
      SplitNoSep(v[1..], sep);
      assert [v[0]] + v[1..] == v;
    }
  }

  /** The directory part of a path: everything before its last "/". */
  lemma BasePathAt(p: string, k: nat)
    requires k < |p| && p[k] == '/' && forall j :: k < j < |p| ==> p[j] != '/'
    ensures BasePath(p) == p[..k]
  {
    var v := p[k + 1..];
    assert p == p[..k] + ['/'] + v;
    assert forall i :: 0 <= i < |v| ==> v[i] == p[k + 1 + i];
    SplitAtSep(p[..k], v, '/');
    SplitNoSep(v, '/');
    var parts := Split(p, '/');
    assert parts[..|parts| - 1] == Split(p[..k], '/');
    JoinSplit(p[..k], '/');
  }

  /** A path without "/" has no directory part: its split has one part, which the slice drops. */
  lemma BasePathNoSlash(p: string)
    requires forall i :: 0 <= i < |p| ==> p[i] != '/'
    ensures BasePath(p) == ""
  {
    SplitNoSep(p, '/');
  }

  /** The normalisation of the image URL against the page URL's origin and path. */
  function NormalizeImageUrl(v: string, origin: string, pathname: string): (r: string)
  {
    if StartsWith(v, "/") then origin + v
    else if StartsWith(v, "http") then v
    else origin + BasePath(pathname) + "/" + v
  }

  /** A root-relative value (even a protocol-relative "//cdn…") is appended to the origin; an
      "http…" value is kept; any other value is resolved against the page's directory. */
  lemma NormalizeImageUrlCases(v: string, origin: string, pathname: string, k: nat)
    requires k < |pathname| && pathname[k] == '/'
    requires forall j :: k < j < |pathname| ==> pathname[j] != '/'
    ensures StartsWith(v, "/") ==> NormalizeImageUrl(v, origin, pathname) == origin + v
    ensures !StartsWith(v, "/") && StartsWith(v, "http") ==> NormalizeImageUrl(v, origin, pathname) == v
    ensures !StartsWith(v, "/") && !StartsWith(v, "http") ==>
              NormalizeImageUrl(v, origin, pathname) == origin + pathname[..k] + "/" + v
  {
    BasePathAt(pathname, k);
  }

  /** "a.jpg" on https://example.com/news/1 resolves to https://example.com/news/a.jpg. */
  lemma RelativeImageExample()
    ensures NormalizeImageUrl("a.jpg", "https://example.com", "/news/1") == "https://example.com/news/a.jpg"
  {
    var p := "/news/1";
    assert p[5] == '/' && p[6] == '1';
    NotRootRelative();
    NormalizeImageUrlCases("a.jpg", "https://example.com", p, 5);
    assert p[..5] == "/news";
  }

  /** On the root path "a.jpg" resolves to https://example.com/a.jpg. */
  lemma RootPageImageExample()
    ensures NormalizeImageUrl("a.jpg", "https://example.com", "/") == "https://example.com/a.jpg"
  {
    NotRootRelative();
    NormalizeImageUrlCases("a.jpg", "https://example.com", "/", 0);
    assert "/"[..0] == "";
  }

  lemma NotRootRelative()
    ensures !StartsWith("a.jpg", "/") && !StartsWith("a.jpg", "http")
  {
    assert "a.jpg"[..1][0] != "/"[0];
    assert "a.jpg"[..4][0] != "http"[0];
  }

  /** "/img/a.jpg" on any page of https://example.com is https://example.com/img/a.jpg. */
  lemma RootRelativeExample(pathname: string)
    ensures NormalizeImageUrl("/img/a.jpg", "https://example.com", pathname) == "https://example.com/img/a.jpg"
  {
    assert StartsWith("/img/a.jpg", "/");
  }
}
