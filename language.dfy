/**
 * `detectLanguageAndTranslate` (actions/extract-news.ts): one detection call, then, unless the
 * detected language is Turkish or detection failed, one call for the title and one for the
 * content. The language model enters as the reply to each call, a text or a failure message;
 * the calls made are returned so that which calls happen, and with what, is observable.
 */
module Language {
  import opened Results
  import opened Text

  /** A call to the language model, with the text it is about. */
  datatype Call = Detect(excerpt: string) | TranslateTitle(title: string) | TranslateContent(content: string)

  /** The language part of the news record. */
  datatype LanguageResult = LanguageResult(
    language: string,
    translatedTitle: Option<string>,
    translatedContent: Option<string>,
    isTranslated: bool)

  const Turkish := "Türkçe"
  const Unknown := "Bilinmiyor"

  /** The text detection is asked about: the title, a space, and the content cut to its first
      500 characters. */
  function Excerpt(title: string, content: string): (e: string)
    ensures |title| + 1 <= |e| <= |title| + 1 + 500
    ensures e[..|title| + 1] == title + " "
    ensures var n := |e| - |title| - 1;
      n <= |content| && (n == 500 || n == |content|) && e[|title| + 1..] == content[..n]
  {
    title + " " + content[..if |content| < 500 then |content| else 500]
  }

  /** What stands in for a translation whose call failed. */
  function TitlePlaceholder(msg: string): string {
    "[Çeviri hatası: " + msg + "]"
  }

  function ContentPlaceholder(msg: string): string {
    "<p>" + TitlePlaceholder(msg) + "</p>"
  }

  /** The translation of one call: the reply, or the placeholder for its failure. */
  function Translation(reply: Result<string>, placeholder: string -> string): string {
    match reply
    case Ok(text) => text
    case Err(msg) => placeholder(msg)
  }

  /** The decision, given the replies the calls would get. Detection failing gives the unknown
      language untranslated; a detected language that is exactly "Türkçe" once trimmed stays
      untranslated; any other answer is translated, each translation independently falling back
      to its placeholder. */
  function DetectLanguageAndTranslate(
    title: string, content: string,
    detection: Result<string>, titleReply: Result<string>, contentReply: Result<string>
  ): (r: (LanguageResult, seq<Call>))
    ensures |r.1| >= 1 && r.1[0] == Detect(Excerpt(title, content))
    ensures r.0.isTranslated <==> detection.Ok? && Trim(detection.value) != Turkish
    ensures r.0.isTranslated <==> |r.1| == 3
    ensures !r.0.isTranslated <==> |r.1| == 1
    ensures r.0.isTranslated ==> r.1[1] == TranslateTitle(title) && r.1[2] == TranslateContent(content)
    ensures r.0.isTranslated <==> r.0.translatedTitle.Some?
    ensures r.0.isTranslated <==> r.0.translatedContent.Some?
    ensures r.0.isTranslated ==>
      r.0.translatedTitle == Some(Translation(titleReply, TitlePlaceholder))
      && r.0.translatedContent == Some(Translation(contentReply, ContentPlaceholder))
    ensures detection.Err? ==> r.0.language == Unknown
    ensures detection.Ok? ==> r.0.language == Trim(detection.value)
  {
    var detect := Detect(Excerpt(title, content));
    match detection
    case Err(_) => (LanguageResult(Unknown, None, None, false), [detect])
    case Ok(text) =>
      var language := Trim(text);
      if language == Turkish then (LanguageResult(language, None, None, false), [detect])
      else
        (LanguageResult(language,
                        Some(Translation(titleReply, TitlePlaceholder)),
                        Some(Translation(contentReply, ContentPlaceholder)),
                        true),
         [detect, TranslateTitle(title), TranslateContent(content)])
  }

  /** The two translations do not depend on each other: a failed title call leaves the content
      translation as it would be, and the other way round. Each reply's text is its translation,
      and each failure gives its placeholder. */
  lemma TranslationsIndependent(
    title: string, content: string, language: string,
    titleReply: Result<string>, contentReply: Result<string>,
    otherTitle: Result<string>, otherContent: Result<string>)
    requires Trim(language) != Turkish
    ensures var r := DetectLanguageAndTranslate(title, content, Ok(language), titleReply, contentReply).0;
      r.translatedContent == DetectLanguageAndTranslate(title, content, Ok(language), otherTitle, contentReply).0.translatedContent
      && r.translatedTitle == DetectLanguageAndTranslate(title, content, Ok(language), titleReply, otherContent).0.translatedTitle
      && (titleReply.Ok? ==> r.translatedTitle == Some(titleReply.value))
      && (contentReply.Ok? ==> r.translatedContent == Some(contentReply.value))
      && (titleReply.Err? ==> r.translatedTitle == Some(TitlePlaceholder(titleReply.message)))
      && (contentReply.Err? ==> r.translatedContent == Some(ContentPlaceholder(contentReply.message)))
  {
  }

  /** Only the first 500 characters of the content reach the detection call, so two contents
      that agree on them are detected alike. */
  lemma ExcerptIgnoresTail(title: string, a: string, b: string)
    requires |a| >= 500 && |b| >= 500 && a[..500] == b[..500]
    ensures Excerpt(title, a) == Excerpt(title, b)
  {
  }
}
