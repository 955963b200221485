# News extractor core, modelled in Dafny

This project models the server-side core of a news-article extractor. Given a URL, the
extractor does the following:

- It checks that the URL parses and uses `http:` or `https:`.
- It fetches the page, with a timeout, up to two retries and exponential back-off.
- It reads the title, author, date, time and main image from the page. Each field comes from
  an ordered list of CSS selectors, and the first one that yields a value wins.
- It finds the article body by a four-step cascade:
  1. the content selectors, with noise elements removed in place;
  2. the paragraphs longer than 20 characters;
  3. the language model's answer, with code fences stripped;
  4. the whole body with chrome removed.
- It sanitises the body in three passes.
- It asks the language model for the language, and translates the title and the content
  unless the language is Turkish.

Every failure is wrapped in one common message prefix. Next to it is the PDF export's
filename sanitiser, together with the two filename fallbacks.

The files are:

- `results.dfy`: `Option` and `Result`.
- `text.dfy`: JavaScript `trim`, whitespace, prefix and substring tests, and decimal rendering.
- `dom.dfy`: the cheerio document tree and the simple CSS selectors the extractor uses, with
  `.text()`/`.attr()` semantics.
- `sanitize.dfy`: the three passes of `cleanHtmlContent`, as functions.
- `page.dfy`: class `Document`, the parsed page. It applies those passes and the noise removal
  in place.
- `fields.dfy`: the selector lists, the value each selector yields, the title, the `mailto:`
  cut, the date-time pattern and the image URL normalisation.
- `metadata.dfy`: the author, date and image loops, as methods.
- `content.dfy`: the four approaches and the decision between them, as functions.
- `fetch.dfy`: `fetchWithRetry`, as a loop, with a recursive specification.
- `language.dfy`: `detectLanguageAndTranslate`.
- `extract.dfy`: `cleanHtmlContent`, `extractMainContent` and `extractNewsContent`, as methods,
  with the function each is proved against.
- `filename.dfy`: `sanitizeFilename` and the PDF names.

The following enter as parameters, and the model decides everything else:

- parsing and serialisation of HTML (`Sanitize.HtmlLib`);
- the URL parser, the outcome of each network request and the Turkish ISO date formatting
  (`Extract.Env`);
- the replies of the language model.

## Model

| member | source | states |
|---|---|---|
| Extract.ExtractNews | actions/extract-news.ts:20-45 | An unparsable URL, a non-HTTP(S) protocol, a failed fetch and an empty page each fail with their own message behind the common prefix. A successful result keeps the URL as given, has non-blank content, and exists only for an HTTP(S) URL. |
| Extract.ExtractNewsContent | actions/extract-news.ts:20-196 | The step-by-step extraction (URL check, fetch loop, page work) gives exactly the outcome `ExtractNews` specifies. |
| Extract.FromPage | actions/extract-news.ts:171-196 | After the fetch, the only failure is the "could not extract content" error. A record always carries the URL and non-blank content. |
| Extract.ExtractFromPage | actions/extract-news.ts:56-196 | Running the metadata loops, the content cascade (which edits the page) and the language step yields exactly the record `FromPage` specifies. |
| Extract.WrapError | actions/extract-news.ts:197-202 | Every re-thrown message starts with "Error extracting news content: " and has something after it. A non-empty message is kept verbatim after the prefix. |
| Dom.RelIgnoresCase | actions/extract-news.ts:69 | `[rel="author"]` selects an element whose `rel` is written "Author": the value of `rel` is compared ignoring ASCII case. |
| Dom.NbspSeparatesClasses | actions/extract-news.ts:240 | `.content` selects an element whose `class` is "x", a no-break space, then "content": class names are separated by any `\s` character, not only ASCII whitespace. |
| Fields.TitleSpec | actions/extract-news.ts:57 | The title is trimmed. It is empty exactly when the `title` text is blank and the first `h1` is missing or blank. |
| Metadata.FirstFilledSpec | actions/extract-news.ts:75-85 | The chosen selector is the first one in list order whose value is non-empty. Every earlier one is empty, and no choice means all are empty. |
| Metadata.ExtractAuthor | actions/extract-news.ts:75-85 | The loop stops at the first selector yielding a non-empty value. The author is that value with the `mailto:` tail cut and trimmed. |
| Fields.CutMailtoSpec | actions/extract-news.ts:81 | The cut keeps a prefix of the text. It cuts at the first case-insensitive "mailto:" and changes nothing when there is none. |
| Fields.MailtoOnlyAuthorIsEmpty | actions/extract-news.ts:79-81 | An author value that is only a mail link ("MailTo:…") becomes empty after the cut. |
| Metadata.ExtractDate | actions/extract-news.ts:101-138 | The loop computes the date and time that the selector-by-selector specification `DateLoop` gives for the selectors' values. |
| Metadata.DateTurn | actions/extract-news.ts:102-136 | One turn of the date loop either stops with the final pair or passes its pair on to the next selector. |
| Metadata.DateStepEndsFilled | actions/extract-news.ts:131-134 | Whenever the loop stops on a non-empty value, the date it stops with is non-empty. |
| Metadata.DateLoopNonIso | actions/extract-news.ts:101-138 | Without ISO values, the date comes from the first non-empty value through the pattern branch. With none at all, the initial pair is kept. |
| Metadata.IsoFailureGoesOn | actions/extract-news.ts:107-135 | A value with "T" whose ISO formatting throws becomes the date verbatim, the time is left as it was, and the loop goes on from the next selector with that pair: with no later non-empty value the pair is the result, and a later non-ISO value gives the pattern branch's pair for it. |
| Metadata.SkipEmpty | actions/extract-news.ts:101-105 | A run of selectors yielding nothing leaves the loop's state as it was. |
| Metadata.EmptyTail | actions/extract-news.ts:101-105 | When every remaining selector yields nothing, the loop ends with the date and time it was given (the case of `SkipEmpty` that reaches the end of the list). |
| Fields.FindDateTimeSpec | actions/extract-news.ts:122 | A match found is an occurrence of `d{1,2}[./-]d{1,2}[./-]d{2,4}`, then non-digits, then `d{1,2}:d{1,2}`, with no match starting earlier. Conversely, whenever the pattern occurs at or after the start, a match is found that starts there or earlier. |
| Fields.FindMatchReaches | actions/extract-news.ts:122 | The left-to-right search reaches every position where one of the shapes matches. |
| Fields.SpanMatches | actions/extract-news.ts:122 | Every occurrence of the pattern is found by the shape-by-shape match at its start position. |
| Fields.MatchAtSpan | actions/extract-news.ts:122 | A match starting at a position yields spans that satisfy the pattern's shape and start there. |
| Fields.NonIsoDateSpec | actions/extract-news.ts:122-129 | With a match, the date is a date-shaped text and the time a time-shaped text. Without one, the text is the date and the time is unchanged. A non-empty text never gives an empty date. A match exists exactly when the pattern occurs somewhere in the text. |
| Fields.NonIsoDateExample | actions/extract-news.ts:122-125 | "12.05.2024 14:30" gives date "12.05.2024" and time "14:30". |
| Metadata.ExtractImage | actions/extract-news.ts:153-169 | The loop stops at the first selector whose `content` or `src` is non-empty, and the image URL is that value normalised against the page URL. |
| Fields.NormalizeImageUrlCases | actions/extract-news.ts:159-165 | A root-relative value is prefixed with the origin. An `http…` value is kept. Any other value is placed after the origin and the page path up to its last "/". |
| Fields.BasePathAt | actions/extract-news.ts:163 | `pathname.split("/").slice(0, -1).join("/")` is the path before its last "/". |
| Fields.BasePathNoSlash | actions/extract-news.ts:163 | A path without "/" has an empty base path. |
| Fields.JoinSplit | actions/extract-news.ts:163 | Joining the split parts with the separator gives back the text. |
| Fields.RelativeImageExample | actions/extract-news.ts:161-164 | "a.jpg" on https://example.com/news/1 becomes https://example.com/news/a.jpg. |
| Fields.RootPageImageExample | actions/extract-news.ts:161-164 | "a.jpg" on the root page becomes https://example.com/a.jpg. |
| Fields.RootRelativeExample | actions/extract-news.ts:159-160 | "/img/a.jpg" becomes the origin followed by the value, whatever the page path. |
| Content.ThresholdGap | actions/extract-news.ts:263-271 | The acceptance test (trimmed length over 100) and the retry test (trimmed length under 100) overlap nowhere. They leave exactly length 100 in neither. |
| Extract.SelectorApproach | actions/extract-news.ts:252-268 | The selector loop's content and the edited page are those of the specification `SelectorPhase`. |
| Content.SelectorPhaseOutcome | actions/extract-news.ts:252-268 | A winning selector lies in the list and its content is accepted. Without a winner, content that was not accepted stays unaccepted. |
| Extract.SelectorTurn | actions/extract-news.ts:252-268 | One turn of the selector loop either ends the loop with an accepted content and the edited page, or passes its content and page on to the next selector. |
| Content.SelectorPhaseFirst | actions/extract-news.ts:252-268 | The winner is the first selector that selects something whose HTML, after the noise removal, is accepted on the page as the earlier turns left it; the content is that HTML and the page carries every turn's removals up to the winner's. Without a winner, no selector was accepted and the page carries every turn's removals. |
| Content.SelectorPhaseLeftover | actions/extract-news.ts:252-268 | Without a winner, the content is the HTML of the last selector that selected something, or the starting content when none did. |
| Content.SelectorPhaseNoMatch | actions/extract-news.ts:252-254 | When no content selector matches, the phase leaves the content empty and the page untouched. |
| Page.Document.RemoveNoiseWithin | actions/extract-news.ts:256-260 | The page becomes the one with every noise element inside a matched element removed. |
| Content.NoiseRemovedLeavesNone | actions/extract-news.ts:256-260 | After the removal, no noise element is left inside a matched element. |
| Content.NoiseRemovedInside | actions/extract-news.ts:256-260 | Inside a matched element, noise removal is the generic removal of every element the list matches. |
| Extract.AggregateParagraphs | actions/extract-news.ts:273-282 | The loop yields `<p>text</p>\n` for every paragraph whose trimmed text is over 20 characters, in document order (the specification `ParagraphsHtml`). |
| Extract.ParagraphApproach | actions/extract-news.ts:270-289 | The paragraph approach runs only when the content needs more. It replaces the content only when the aggregate is longer than 100 characters. |
| Content.TrimmedTextsAt | actions/extract-news.ts:277 | The i-th aggregated text is the trimmed text of the i-th paragraph. |
| Content.ParagraphsHtmlEmpty | actions/extract-news.ts:276-282 | The aggregate is empty exactly when no paragraph is substantial. |
| Content.ParagraphsHtmlLength | actions/extract-news.ts:278-284 | Each substantial paragraph adds at least 29 characters, so four of them always pass the 100-character test. |
| Content.ThreeShortParagraphsRejected | actions/extract-news.ts:278-284 | Three paragraphs of 21 characters make 87 characters and are rejected. |
| Content.StripFences | actions/extract-news.ts:383-387 | The post-processed answer holds no backtick and is trimmed at both ends. |
| Content.StripFencesPlain | actions/extract-news.ts:383-387 | An answer without backticks is only trimmed. |
| Content.StripFencesFenced | actions/extract-news.ts:383-387 | An answer wrapped as "```html…```" gives its trimmed inner text. |
| Text.RemoveAllChar | actions/extract-news.ts:386 | Removing every occurrence of a character leaves none of it and keeps every other character. |
| Extract.SalvageBody | actions/extract-news.ts:303-315 | The last resort is the serialisation of a copy of `body` without its chrome elements. The page itself is left untouched. |
| Content.Cascade | actions/extract-news.ts:227-325 | The model is asked exactly when the content still needs more after the paragraphs. A content that still needs more after the model is replaced by the salvage. The result is either enough or the salvage. |
| Content.CascadeKeepsSelected | actions/extract-news.ts:263-271 | Content accepted by the selectors is kept and the model is not asked. |
| Content.AfterModelSpec | actions/extract-news.ts:291-301 | The model's answer is used only when the content needs more and the call succeeds, and is then free of backticks and trimmed. A failed call keeps the content. |
| Content.CascadeModelFailure | actions/extract-news.ts:291-301 | A failed model call keeps the content and falls through to the salvage exactly when that content still needs more. |
| Content.CascadeModelAnswer | actions/extract-news.ts:291-303 | When the content still needs more after the paragraphs and the model's cleaned-up answer is long enough, that answer is the content and the salvage is not used. |
| Content.CascadeParagraphs | actions/extract-news.ts:284-292 | A paragraph aggregate of more than 100 characters whose trimmed length is at least 100 is the content, and the model is not asked. |
| Extract.ExtractMainContent | actions/extract-news.ts:227-325 | The method's content, model-call flag and edited page are those of the specification `MainContent`. |
| Content.MainContentFallsToBody | actions/extract-news.ts:303-321 | With no selector match, no substantial paragraph and a failed model call, the content is the cleaned salvage, or empty when the salvage is empty. |
| Extract.CleanHtmlContent | actions/extract-news.ts:327-355 | The output is the serialisation of the three passes applied to the parsed input, and every element of it is sanitised. |
| Page.Document.RemoveEmptyBlocks | actions/extract-news.ts:332-338 | The page becomes the forest without empty blocks, and no `p` or `div` with blank text and no image remains. |
| Page.Document.RemoveUnwanted | actions/extract-news.ts:340-341 | The page becomes the forest without the listed elements, and no element the list matches remains. |
| Page.Document.StripAttributes | actions/extract-news.ts:343-351 | The page becomes the forest with the attributes stripped from every element. |
| Sanitize.PruneEmptyKeepsTextAndImages | actions/extract-news.ts:333-338 | Pruning empty blocks changes neither whether the text is blank nor whether an image is present. |
| Sanitize.PruneEmptyLeavesNoEmptyBlock | actions/extract-news.ts:333-338 | After pruning, no empty block is left anywhere in the tree. |
| Sanitize.RemoveMatchingLeavesNone | actions/extract-news.ts:341 | After removal, no element matched by the list is left anywhere in the tree. |
| Sanitize.BareElementUnwanted | actions/extract-news.ts:341 | An element without attributes is unwanted exactly when its tag is script, style, iframe, form, button or input. |
| Sanitize.StripAttrsKeepsExactly | actions/extract-news.ts:344-350 | An attribute survives exactly when it was present and is not `data-*`, `on*`, `style` or `class`. |
| Sanitize.StripAttrsClean | actions/extract-news.ts:344-350 | No stripped attribute list holds a forbidden attribute. |
| Sanitize.StripForestSanitizes | actions/extract-news.ts:343-351 | Stripping a tree free of unwanted elements leaves every element sanitised. |
| Sanitize.CleanSanitizes | actions/extract-news.ts:327-355 | After the three passes, every element is sanitised: it is not unwanted and has clean attributes. Empty blocks can remain (see `Sanitize.CleanNotIdempotent`). |
| Sanitize.CleanNotIdempotent | actions/extract-news.ts:332-341 | A `div` holding only a `button` becomes an empty `div` after one clean, and disappears after a second. |
| Fetch.Classify | actions/extract-news.ts:413-433 | A request yields the page exactly when the status is 2xx and the content type is HTML-like. It times out exactly when it was aborted. A non-2xx status gives "HTTP error! Status: …", a 2xx non-HTML response gives "Unexpected content type: … Expected HTML.", and a failed request keeps its own message. |
| Fetch.RetrySpec | actions/extract-news.ts:395-452 | The recursive specification makes at most two waits, the k-th of 1000·2^k ms. A final error is the timeout, CORS or SSL message, or starts with "Fetch failed after 3 attempts: ". |
| Fetch.RetriesExhausted | actions/extract-news.ts:436-450 | Three failed requests end, after waits of 1000 and 2000 ms, with the final message for the third request's error. |
| Fetch.CorsAndSslReported | actions/extract-news.ts:443-450 | After three failures, a last error mentioning "CORS" gives the CORS message, one mentioning "SSL" the SSL message, and any other the exhaustion prefix followed by the error. |
| Fetch.CorsExample | actions/extract-news.ts:444-445 | Three "Failed: CORS" errors end with the CORS message after waits of 1000 and 2000 ms. |
| Fetch.FetchWithRetry | actions/extract-news.ts:395-452 | The loop yields the outcome and waits of `Retry`, after between one and three requests. Every earlier request failed with a retryable error. A page comes from the last request, and the result is the timeout error exactly when the last request was aborted. |
| Fetch.FinalMessage | actions/extract-news.ts:443-450 | An exhausted run never reports the timeout message. |
| Fetch.StatusErrorsExhaust | actions/extract-news.ts:415-416 | Three non-2xx responses end, after waits of 1 s and 2 s, with "Fetch failed after 3 attempts: HTTP error! Status: …". |
| Fetch.StatusMessageUnflagged | actions/extract-news.ts:416-447 | A status message never contains "CORS" or "SSL", so it is never reclassified. |
| Fetch.TimeoutEndsRun | actions/extract-news.ts:430-433 | An abort ends the run at once with the timeout message, after the waits already made. |
| Fetch.WrongTypeRetried | actions/extract-news.ts:419-440 | A 200 response with a non-HTML content type is retried after 1 s, and a following HTML response is returned. |
| Language.Excerpt | actions/extract-news.ts:482 | The detection text is the title, a space and the first 500 characters of the content (all of it when shorter). |
| Language.DetectLanguageAndTranslate | actions/extract-news.ts:454-600 | Detection is always the first call. The result is translated exactly when detection succeeds with an answer other than "Türkçe" once trimmed; then both translation calls are made and each translation is its reply's text, or its placeholder when the call failed; otherwise neither is present. A failed detection gives "Bilinmiyor". |
| Language.TranslationsIndependent | actions/extract-news.ts:518-596 | Each translation depends only on its own call. A successful call's text is the translation, and a failed call gives its placeholder. |
| Language.ExcerptIgnoresTail | actions/extract-news.ts:482 | Content beyond the first 500 characters does not influence detection. |
| Filename.SanitizeFilename | lib/pdf-generator.ts:466-471 | The result has at most 100 characters, none forbidden and no whitespace. It is a prefix of the transformed name, cut only at 100, and empty exactly when the name is. |
| Filename.TransformedKeepsPlain | lib/pdf-generator.ts:467-469 | The characters that are neither forbidden, whitespace nor "-" survive in order. |
| Filename.SanitizeClean | lib/pdf-generator.ts:466-471 | A short name with no forbidden character or whitespace is unchanged. |
| Filename.SanitizeIdempotent | lib/pdf-generator.ts:466-471 | Sanitising twice is the same as sanitising once. |
| Filename.CollapseRun | lib/pdf-generator.ts:469 | A run of whitespace between non-whitespace becomes exactly one "-". |
| Filename.SpacedHyphen | lib/pdf-generator.ts:467-469 | "a - b" becomes "a---b". |
| Filename.OriginalPdfName | lib/pdf-generator.ts:204 | The original PDF name is a non-empty stem of at most 100 allowed characters followed by ".pdf". For a non-empty title the stem is the sanitised title. |
| Filename.OriginalPdfFallback | lib/pdf-generator.ts:204 | An empty title saves as "haber.pdf". |
| Filename.TranslationPdfName | lib/pdf-generator.ts:443 | The translation PDF name is a non-empty stem of at most 100 allowed characters followed by "_çeviri.pdf". The stem is the sanitised translated title when that is non-empty, and otherwise the sanitised title when that is non-empty. |
| Filename.TranslationPdfFallback | lib/pdf-generator.ts:443 | With no translated title and an empty title, the name is "çeviri_çeviri.pdf". |

## Left out

- Extra lines of the wrapped error (actions/extract-news.ts:204-220): the stack, cause, code and response lines appended to the message depend on the JavaScript error object. The model keeps the prefix and the message.
- HTML parse failure (actions/extract-news.ts:48-54): cheerio's parser is an oracle, and the model treats it as total.
- HTML parsing and serialisation: both come from the `HtmlLib` parameter. The document tree is modelled; the markup text is not.
- CSS selectors: only the kinds the extractor uses are modelled (tag, class, id, attribute equals, tag with attribute, and one descendant step). Attribute-name case rules are not modelled. The names in a `class` attribute are separated by any character the regular-expression class `\s` matches, as in the selector engine's class test. Attribute values are compared exactly, except for the attributes HTML 4 lists as case-insensitive (among them `rel`), whose values are compared ignoring ASCII case.
- String lengths and indices: positions count characters, not JavaScript UTF-16 code units. This affects the 500-character excerpt, the 100-character filename cut and the length thresholds only for text outside the Basic Multilingual Plane.
- ISO date formatting: `new Date(text).toLocale…("tr-TR")` is an oracle. It returns a date and time, or signals that it threw.
- Language model calls: the prompts, temperature and token limits are not modelled, nor the detection failure's stack and response details (actions/extract-news.ts:491-508). Each call enters as its reply or failure message.
- Logging, clocks and timing (`Date.now`), request headers, and the `AbortController` timer are not modelled. A timeout is an `Aborted` request outcome, and the back-off waits are recorded, not slept.
- Page.Document.RemoveNoiseWithin: its contract states the new tree only. That no noise remains inside a matched element is proved separately, by `Content.NoiseRemovedLeavesNone`.
- `Metadata.ExtractAuthor` and `Metadata.ExtractImage` return the winning selector's index as an extra output, so that the loop's choice is observable.
- Behaviour of the code worth noting:
  - A 2xx response with a non-HTML content type is retried like any other error (the throw at line 421 reaches the retry logic). It is not a fatal error.
  - A timeout is not retried: an abort surfaces the timeout error at once (lines 430-433).
  - `cleanHtmlContent` is not idempotent, because removing unwanted elements can leave a new empty block (see `Sanitize.CleanNotIdempotent`).
  - A detection failure yields "Bilinmiyor" through the outer catch of `detectLanguageAndTranslate` (lines 597-600), so the caller's catch at lines 182-185 never fires.
