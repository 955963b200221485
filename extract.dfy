/**
 * `extractNewsContent`, `extractMainContent` and `cleanHtmlContent` (actions/extract-news.ts)
 * as methods. The URL parser, the network, the HTML library, the ISO date formatting and the
 * language model enter through an `Env` value; everything the methods decide is modelled.
 */
module Extract {
  import opened Results
  import opened Text
  import opened Dom
  import opened Sanitize
  import opened Content
  import opened Fields
  import Fetch
  import Language
  import opened Page
  import opened Metadata

  // ---------------------------------------------------------------- cleanHtmlContent

  /** `cleanHtmlContent(html)`: the three passes on a freshly parsed document, then the
      serialisation of that document, every element of which is sanitised. */
  method CleanHtmlContent(lib: HtmlLib, html: string) returns (out: string)
    ensures out == lib.render(Clean(lib.parse(html)))
    ensures Every(Clean(lib.parse(html)), Sanitized)
  {
    var d := new Document(lib, html);
    d.RemoveEmptyBlocks();
    d.RemoveUnwanted(Unwanted);
    d.StripAttributes();
    out := lib.render(d.nodes);
    CleanSanitizes(lib.parse(html));
  }

  // ---------------------------------------------------------------- extractMainContent

  /** Approach 2: `<p>${text}</p>\n` for every paragraph whose trimmed text is longer than 20
      characters, in document order. */
  method AggregateParagraphs(doc: seq<Node>) returns (html: string)
    ensures html == ParagraphsHtml(ParagraphTexts(doc))
  {
    var ps := Select(doc, Is(Type("p")));
    TrimmedTextsLength(ps);
    html := "";
    var i := 0;
    while i < |ps|
      invariant 0 <= i <= |ps|
      invariant html == ParagraphsHtml(TrimmedTexts(ps)[..i])
    {
      var text := Trim(TextOf(ps[i]));
      AggregateStep(ps, i);
      if |text| > 20 {
        html := html + ("<p>" + text + "</p>\n");
      }
      i := i + 1;
    }
    assert TrimmedTexts(ps)[..|ps|] == TrimmedTexts(ps);
  }

  /** The aggregate of the first `i + 1` paragraphs extends that of the first `i` by what the
      `i`-th adds. */
  lemma AggregateStep(ps: seq<Node>, i: nat)
    requires i < |ps|
    ensures |TrimmedTexts(ps)| == |ps|
    ensures ParagraphsHtml(TrimmedTexts(ps)[..i + 1]) ==
      ParagraphsHtml(TrimmedTexts(ps)[..i]) + ParagraphPiece(Trim(TextOf(ps[i])))
  {
    var ts := TrimmedTexts(ps);
    TrimmedTextsAt(ps, i);
    assert ts[..i + 1][..i] == ts[..i];
  }

  /** Approach 1: each content selector in turn; a selector that selects something has the
      noise below its matches removed from the page and its HTML becomes the content, which
      ends the loop once accepted. `winner` is the index of the accepted selector. */
  method SelectorApproach(page: Document, lib: HtmlLib, sels: seq<Simple>, noise: seq<Simple>)
    returns (content: string, ghost winner: Option<nat>)
    modifies page
    ensures SelectorPhase(lib, old(page.nodes), sels, noise, 0, "") == Phase(content, page.nodes, winner)
  {
    ghost var doc0 := page.nodes;
    content, winner := "", None;
    var k := 0;
    while k < |sels|
      invariant 0 <= k <= |sels| && winner.None?
      invariant SelectorPhase(lib, doc0, sels, noise, 0, "") == SelectorPhase(lib, page.nodes, sels, noise, k, content)
    {
      var accepted;
      content, accepted := SelectorTurn(page, lib, sels, noise, k, content);
      if accepted {
        winner := Some(k);
        return;
      }
      k := k + 1;
    }
  }

  /** One turn of the selector loop, at the `k`-th selector: a selector that selects nothing
      leaves the page and the content alone; otherwise the noise below its matches is removed
      and its HTML becomes the content. `accepted` says the loop ends here. */
  method SelectorTurn(page: Document, lib: HtmlLib, sels: seq<Simple>, noise: seq<Simple>, k: nat, c0: string)
    returns (content: string, accepted: bool)
    requires k < |sels|
    modifies page
    ensures SelectorPhase(lib, old(page.nodes), sels, noise, k, c0) ==
      if accepted then Phase(content, page.nodes, Some(k))
      else SelectorPhase(lib, page.nodes, sels, noise, k + 1, content)
  {
    content, accepted := c0, false;
    var sel := sels[k];
    if Select(page.nodes, Is(sel)) != [] {
      page.RemoveNoiseWithin(sel, noise);
      content := FirstHtml(lib, page.nodes, sel);
      accepted := Accepted(content);
    }
  }

  /** Approach 4: a copy of the body with its noise removed, serialised; the page itself is
      left alone. */
  method SalvageBody(page: Document, lib: HtmlLib) returns (content: string)
    ensures content == Salvage(lib, page.nodes)
  {
    var body := Select(page.nodes, Is(Type("body")));
    content := "";
    if body != [] && body[0].Element? {
      var copy := new Document.Clone(body[0].children);
      copy.RemoveUnwanted(SalvageNoise);
      content := lib.render(copy.nodes);
    }
  }

  /** Approach 2: while the content needs more and the page has paragraphs, an aggregate of
      the substantial ones longer than 100 characters replaces it. */
  method ParagraphApproach(doc: seq<Node>, c: string) returns (content: string)
    ensures content == AfterParagraphs(c, ParagraphsHtml(ParagraphTexts(doc)))
  {
    content := c;
    if NeedsMore(content) {
      var ps := Select(doc, Is(Type("p")));
      if |ps| > 0 {
        var paragraphsHtml := AggregateParagraphs(doc);
        if |paragraphsHtml| > 100 {
          content := paragraphsHtml;
        }
      } else {
        TrimmedTextsLength(ps);
      }
    }
  }

  /** `extractMainContent($, html, url)` on the page `page`: the selector loop edits the page in
      place, then the later approaches run while the content needs more, and non-empty content
      is cleaned. `ai` is the model's answer to the extraction request for the page's HTML, or
      its failure. Returns the content and whether the model was asked. */
  method ExtractMainContent(page: Document, lib: HtmlLib, ai: Result<string>) returns (content: string, aiCalled: bool)
    modifies page
    ensures (page.nodes, content, aiCalled) == MainContent(lib, old(page.nodes), ai)
  {
    ghost var winner;
    content, winner := SelectorApproach(page, lib, ContentSelectors, SelectorNoise);
    ghost var selected := content;
    content := ParagraphApproach(page.nodes, content);
    // Approach 3: the model's answer, its fences stripped, while the content needs more
    aiCalled := NeedsMore(content);
    content := AfterModel(content, ai);
    // Approach 4
    if NeedsMore(content) {
      content := SalvageBody(page, lib);
    }
    // Final cleaning
    if content != "" {
      content := CleanHtmlContent(lib, content);
    }
  }

  // ---------------------------------------------------------------- extractNewsContent

  /** The parts of `new URL(url)` the extractor uses. */
  datatype Url = Url(protocol: string, origin: string, pathname: string, href: string)

  /** What the extractor gets from outside: the URL parser (the URL, or the message of the
      error it throws), the outcome of each request for a URL, the HTML library, the ISO date
      formatting, and the language model's reply to the extraction request for an HTML text,
      to the detection request for an excerpt, and to the two translation requests. */
  datatype Env = Env(
    parseUrl: string -> Result<Url>,
    fetch: string -> nat -> Fetch.Attempt,
    lib: HtmlLib,
    iso: IsoFormat,
    extract: string -> Result<string>,
    detect: string -> Result<string>,
    translateTitle: string -> Result<string>,
    translateContent: string -> Result<string>)

  /** The record `extractNewsContent` returns (`NewsContent` of types/news.ts). */
  datatype NewsContent = NewsContent(
    url: string,
    title: string,
    author: string,
    imageUrl: string,
    content: string,
    publishDate: string,
    publishTime: string,
    language: string,
    translatedTitle: Option<string>,
    translatedContent: Option<string>,
    isTranslated: bool)

  const ErrorPrefix := "Error extracting " + "news content: "
  const InvalidUrlPrefix := "Invalid URL format: "
  const SchemeMessage := "URL must use HTTP " + "or HTTPS protocol"
  const FetchErrorPrefix := "Fetch error: "
  const EmptyPageMessage := "Failed to fetch " + "webpage content"
  const NoContentMessage := "Could not extract " + "content from the webpage"

  /** `protocol.match(/^https?:$/)` */
  predicate IsHttp(protocol: string) {
    protocol == "http:" || protocol == "https:"
  }

  /** The message every failure is re-thrown with; an empty message reads "Unknown error". */
  function WrapError(m: string): (r: string)
    ensures StartsWith(r, ErrorPrefix) && |r| > |ErrorPrefix|
    ensures m != "" ==> r[|ErrorPrefix|..] == m
  {
    var tail := if m == "" then "Unknown error" else m;
    assert (ErrorPrefix + tail)[..|ErrorPrefix|] == ErrorPrefix;
    assert (ErrorPrefix + tail)[|ErrorPrefix|..] == tail;
    ErrorPrefix + tail
  }

  /** The record for a page whose content was extracted. */
  function Record(url: string, u: Url, doc: seq<Node>, content: string, env: Env): NewsContent {
    var title := Title(doc);
    var (date, time) := DateLoop(DateValues(doc), env.iso, 0, "", "");
    var lang := Language.DetectLanguageAndTranslate(
      title, content, env.detect(Language.Excerpt(title, content)),
      env.translateTitle(title), env.translateContent(content)).0;
    NewsContent(url, title, AuthorOf(AuthorValues(doc)), ImageOf(ImageValues(doc), u.origin, u.pathname), content,
                date, time, lang.language, lang.translatedTitle, lang.translatedContent,
                lang.isTranslated)
  }

  /** `extractNewsContent(url)`: the record, or the failure. A URL that does not parse, or
      whose protocol is not http: or https:, fails as an invalid URL; a fetch that fails or
      yields an empty page fails as a fetch error; blank content fails as such; every failure
      carries the common prefix. A record keeps the URL as given and has content that is not
      blank. */
  function ExtractNews(url: string, env: Env): (r: Result<NewsContent>)
    ensures r.Err? ==> StartsWith(r.message, ErrorPrefix)
    ensures env.parseUrl(url).Err? ==> r == Err(WrapError(InvalidUrlPrefix + env.parseUrl(url).message))
    ensures env.parseUrl(url).Ok? && !IsHttp(env.parseUrl(url).value.protocol) ==>
      r == Err(WrapError(InvalidUrlPrefix + SchemeMessage))
    ensures env.parseUrl(url).Ok? && IsHttp(env.parseUrl(url).value.protocol) ==>
      var fetched := Fetch.Retry(env.fetch(env.parseUrl(url).value.href), 0).result;
      (fetched.Err? ==> r == Err(WrapError(FetchErrorPrefix + fetched.message)))
      && (fetched == Ok("") ==> r == Err(WrapError(FetchErrorPrefix + EmptyPageMessage)))
    ensures r.Ok? ==> r.value.url == url && !Blank(r.value.content)
    ensures r.Ok? ==> env.parseUrl(url).Ok? && IsHttp(env.parseUrl(url).value.protocol)
  {
    match env.parseUrl(url)
    case Err(m) => Err(WrapError(InvalidUrlPrefix + m))
    case Ok(u) =>
      if !IsHttp(u.protocol) then Err(WrapError(InvalidUrlPrefix + SchemeMessage))
      else
        match Fetch.Retry(env.fetch(u.href), 0).result
        case Err(m) => Err(WrapError(FetchErrorPrefix + m))
        case Ok(html) =>
          if html == "" then Err(WrapError(FetchErrorPrefix + EmptyPageMessage))
          else FromPage(url, u, html, env)
  }

  /** The steps after the fetch: the record for the page, or the blank-content failure. */
  function FromPage(url: string, u: Url, html: string, env: Env): (r: Result<NewsContent>)
    ensures r.Err? ==> r.message == WrapError(NoContentMessage)
    ensures r.Ok? ==> r.value.url == url && !Blank(r.value.content)
  {
    var doc := env.lib.parse(html);
    var content := MainContent(env.lib, doc, env.extract(html)).1;
    if Blank(content) then Err(WrapError(NoContentMessage))
    else Ok(Record(url, u, doc, content, env))
  }

  /** `extractNewsContent(url)` step by step: the URL check, the fetch with retries, then the
      work on the page. */
  method ExtractNewsContent(url: string, env: Env) returns (r: Result<NewsContent>)
    ensures r == ExtractNews(url, env)
  {
    var parsed := env.parseUrl(url);
    if parsed.Err? {
      return Err(WrapError(InvalidUrlPrefix + parsed.message));
    }
    var u := parsed.value;
    if !IsHttp(u.protocol) {
      return Err(WrapError(InvalidUrlPrefix + SchemeMessage));
    }
    var fetched, delays, made := Fetch.FetchWithRetry(env.fetch(u.href));
    if fetched.Err? {
      return Err(WrapError(FetchErrorPrefix + fetched.message));
    }
    var html := fetched.value;
    if html == "" {
      return Err(WrapError(FetchErrorPrefix + EmptyPageMessage));
    }
    r := ExtractFromPage(url, u, html, env);
  }

  /** The steps after the fetch: the parse, the metadata loops on the parsed page, the content
      extraction (which edits the page), the blank check and the language step. */
  method ExtractFromPage(url: string, u: Url, html: string, env: Env) returns (r: Result<NewsContent>)
    ensures r == FromPage(url, u, html, env)
  {
    var page := new Document(env.lib, html);
    ghost var doc := page.nodes;
    var title := Title(page.nodes);
    var author, authorWinner := ExtractAuthor(page.nodes, AuthorSelectors);
    var date, time := ExtractDate(page.nodes, DateSelectors, env.iso);
    var imageUrl, imageWinner := ExtractImage(page.nodes, ImageSelectors, u.origin, u.pathname);
    var content, aiCalled := ExtractMainContent(page, env.lib, env.extract(html));
    if Blank(content) {
      return Err(WrapError(NoContentMessage));
    }
    var lang := Language.DetectLanguageAndTranslate(
      title, content, env.detect(Language.Excerpt(title, content)),
      env.translateTitle(title), env.translateContent(content)).0;
    r := Ok(NewsContent(url, title, author, imageUrl, content, date, time, lang.language,
                        lang.translatedTitle, lang.translatedContent, lang.isTranslated));
    assert r.value == Record(url, u, doc, content, env);
  }
}
