/**
 * The three selector loops of `extractNewsContent` (actions/extract-news.ts) that read the
 * author, the publication date and time, and the main image. Each tries its selectors in list
 * order and stops at the first that yields something; the date loop can also go on past a
 * value whose ISO formatting throws. The loops only read the document. What they decide
 * depends on the document only through the value each selector yields, so their
 * specifications are stated over that list of values.
 */
module Metadata {
  import opened Results
  import opened Text
  import opened Dom
  import opened Fields

  // ---------------------------------------------------------------- first non-empty value

  /** The index of the first non-empty value from `k` on. */
  function FirstFilled(vs: seq<string>, k: nat): (r: Option<nat>)
    ensures r.Some? ==> k <= r.value < |vs| && vs[r.value] != ""
    decreases |vs| - k
  {
    if k >= |vs| then None else if vs[k] != "" then Some(k) else FirstFilled(vs, k + 1)
  }

  /** `FirstFilled` finds the first non-empty value, and finds none only when all are empty. */
  lemma {:induction false} FirstFilledSpec(vs: seq<string>, k: nat)
    ensures FirstFilled(vs, k).None? ==> forall j :: k <= j < |vs| ==> vs[j] == ""
    ensures FirstFilled(vs, k).Some? ==> forall j :: k <= j < FirstFilled(vs, k).value ==> vs[j] == ""
    decreases |vs| - k
  {
    if k < |vs| && vs[k] == "" {
      FirstFilledSpec(vs, k + 1);
    }
  }

  // ---------------------------------------------------------------- author

  /** The value of each author selector, in list order. */
  function AuthorValues(doc: seq<Node>): seq<string> {
    TextValues(doc, AuthorSelectors)
  }

  /** The author for the values of the author selectors: the first non-empty value with its
      `mailto:` tail cut, or "". */
  function AuthorOf(vs: seq<string>): string {
    match FirstFilled(vs, 0)
    case None => ""
    case Some(i) => CleanAuthor(vs[i])
  }

  /** The author loop: the first selector whose value (`content`, else the trimmed text) is
      not empty wins, and its value is kept with the `mailto:` tail cut; with no such selector
      the author is "". */
  method ExtractAuthor(doc: seq<Node>, sels: seq<Selector>) returns (author: string, winner: Option<nat>)
    ensures winner == FirstFilled(TextValues(doc, sels), 0)
    ensures author == AuthorOf(TextValues(doc, sels))
  {
    ghost var vs := TextValues(doc, sels);
    TextValuesLength(doc, sels);
    author, winner := "", None;
    var k := 0;
    while k < |sels|
      invariant 0 <= k <= |sels| && author == ""
      invariant FirstFilled(vs, 0) == FirstFilled(vs, k)
    {
      var sel := Select(doc, sels[k]);
      TextValuesAt(doc, sels, k);
      if sel != [] {
        author := ContentOrText(sel);
        assert author == vs[k];
        if author != "" {
          author, winner := CleanAuthor(author), Some(k);
          return;
        }
      } else {
        assert vs[k] == "";
      }
      k := k + 1;
    }
  }

  // ---------------------------------------------------------------- date

  /** The ISO formatting of a date text (`new Date(text)` rendered by `toLocaleDateString` and
      `toLocaleTimeString` for "tr-TR"): the date and the time, or None when it throws. */
  type IsoFormat = string -> Option<(string, string)>

  /** The value of each date selector, in list order. */
  function DateValues(doc: seq<Node>): seq<string> {
    TextValues(doc, DateSelectors)
  }

  /** What one non-empty date value makes of the date and time, and whether the loop goes on:
      a text containing "T" gets the ISO formatting, which leaves the raw text as the date and
      goes on when it throws, and goes on as well when it gives an empty date; any other text
      gets the pattern captures (or is kept as the date) and ends the loop. */
  function DateStep(v: string, iso: IsoFormat, time: string): (string, string, bool)
    requires v != ""
  {
    if 'T' in v then
      match iso(v)
      case None => (v, time, true)
      case Some(dt) => (dt.0, dt.1, dt.0 == "")
    else
      var (d, t) := NonIsoDate(v, time);
      (d, t, false)
  }

  /** A step that ends the loop leaves a non-empty date. */
  lemma DateStepEndsFilled(v: string, iso: IsoFormat, time: string)
    requires v != ""
    ensures !DateStep(v, iso, time).2 ==> DateStep(v, iso, time).0 != ""
  {
    NonIsoDateSpec(v, time);
  }

  /** The date loop from the `k`-th value on, with the date and time so far: empty values are
      skipped, the others stepped through until one ends the loop. */
  function DateLoop(vs: seq<string>, iso: IsoFormat, k: nat, date: string, time: string): (string, string)
    decreases |vs| - k
  {
    if k >= |vs| then (date, time)
    else if vs[k] == "" then DateLoop(vs, iso, k + 1, date, time)
    else
      var (d, t, goOn) := DateStep(vs[k], iso, time);
      if goOn then DateLoop(vs, iso, k + 1, d, t) else (d, t)
  }

  /** One turn of the date loop, at the `k`-th selector: an empty selection or an empty value
      leaves the date and time alone and goes on; any other value is stepped through. `stop`
      says the loop ends here. */
  method DateTurn(doc: seq<Node>, sels: seq<Selector>, k: nat, iso: IsoFormat, date0: string, time0: string)
    returns (date: string, time: string, stop: bool)
    requires k < |sels|
    ensures var vs := TextValues(doc, sels);
      DateLoop(vs, iso, k, date0, time0) == if stop then (date, time) else DateLoop(vs, iso, k + 1, date, time)
  {
    ghost var vs := TextValues(doc, sels);
    date, time, stop := date0, time0, false;
    var sel := Select(doc, sels[k]);
    TextValuesAt(doc, sels, k);
    if sel != [] {
      var text := ContentOrText(sel);
      assert text == vs[k];
      if text != "" {
        var step := DateStep(text, iso, time0);
        date, time, stop := step.0, step.1, !step.2;
      }
    } else {
      assert vs[k] == "";
    }
  }

  /** The date loop: the publication date and time. */
  method ExtractDate(doc: seq<Node>, sels: seq<Selector>, iso: IsoFormat) returns (date: string, time: string)
    ensures (date, time) == DateLoop(TextValues(doc, sels), iso, 0, "", "")
  {
    ghost var vs := TextValues(doc, sels);
    TextValuesLength(doc, sels);
    date, time := "", "";
    var k := 0;
    while k < |sels|
      invariant 0 <= k <= |sels|
      invariant DateLoop(vs, iso, 0, "", "") == DateLoop(vs, iso, k, date, time)
    {
      var stop;
      date, time, stop := DateTurn(doc, sels, k, iso, date, time);
      if stop {
        return;
      }
      k := k + 1;
    }
  }

  /** Without an ISO-looking value ("T" nowhere) the loop ends at the first non-empty value
      with its pattern captures, or with its raw text and the time as it was; with no
      non-empty value the date and time stay as they were. */
  lemma {:induction false} DateLoopNonIso(vs: seq<string>, iso: IsoFormat, k: nat, date: string, time: string)
    requires forall j :: k <= j < |vs| ==> 'T' !in vs[j]
    ensures FirstFilled(vs, k).None? ==> DateLoop(vs, iso, k, date, time) == (date, time)
    ensures FirstFilled(vs, k).Some? ==>
      DateLoop(vs, iso, k, date, time) == NonIsoDate(vs[FirstFilled(vs, k).value], time)
    decreases |vs| - k
  {
    if k < |vs| && vs[k] == "" {
      DateLoopNonIso(vs, iso, k + 1, date, time);
    }
  }

  /** A value whose ISO formatting throws does not end the loop: it becomes the date, the time
      stays as it was, and the loop goes on with the next value. With no later non-empty value
      it is the final date; a later value without "T" decides the final date and time through
      the pattern branch, the failed value's date being dropped. */
  lemma IsoFailureGoesOn(vs: seq<string>, iso: IsoFormat, k: nat, date: string, time: string)
    requires k < |vs| && 'T' in vs[k] && iso(vs[k]).None?
    ensures DateLoop(vs, iso, k, date, time) == DateLoop(vs, iso, k + 1, vs[k], time)
    ensures FirstFilled(vs, k + 1).None? ==> DateLoop(vs, iso, k, date, time) == (vs[k], time)
    ensures FirstFilled(vs, k + 1).Some? && 'T' !in vs[FirstFilled(vs, k + 1).value] ==>
      DateLoop(vs, iso, k, date, time) == NonIsoDate(vs[FirstFilled(vs, k + 1).value], time)
  {
    FirstFilledSpec(vs, k + 1);
    match FirstFilled(vs, k + 1)
    case None =>
      EmptyTail(vs, iso, k + 1, vs[k], time);
    case Some(m) =>
      SkipEmpty(vs, iso, k + 1, m, vs[k], time);
  }

  /** Empty values between `k` and `m` are skipped: the loop from `k` is the loop from `m`. */
  lemma {:induction false} SkipEmpty(vs: seq<string>, iso: IsoFormat, k: nat, m: nat, date: string, time: string)
    requires k <= m <= |vs|
    requires forall j :: k <= j < m ==> vs[j] == ""
    ensures DateLoop(vs, iso, k, date, time) == DateLoop(vs, iso, m, date, time)
    decreases m - k
  {
    if k < m {
      SkipEmpty(vs, iso, k + 1, m, date, time);
    }
  }

  /** When every value from `k` on is empty, the loop ends with the pair it was given. */
  lemma EmptyTail(vs: seq<string>, iso: IsoFormat, k: nat, date: string, time: string)
    requires forall j :: k <= j < |vs| ==> vs[j] == ""
    ensures DateLoop(vs, iso, k, date, time) == (date, time)
  {
    if k < |vs| {
      SkipEmpty(vs, iso, k, |vs|, date, time);
    }
  }

  // ---------------------------------------------------------------- image

  /** The value of each image selector, in list order. */
  function ImageValues(doc: seq<Node>): seq<string> {
    SrcValues(doc, ImageSelectors)
  }

  /** The image URL for the values of the image selectors: the first non-empty value
      normalised against the page URL, or "". */
  function ImageOf(vs: seq<string>, origin: string, pathname: string): string {
    match FirstFilled(vs, 0)
    case None => ""
    case Some(i) => NormalizeImageUrl(vs[i], origin, pathname)
  }

  /** The image loop: the first selector whose value (`content`, else `src`) is not empty
      wins, and its value is normalised against the page URL; with no such selector the image
      URL is "". */
  method ExtractImage(doc: seq<Node>, sels: seq<Selector>, origin: string, pathname: string)
    returns (imageUrl: string, winner: Option<nat>)
    ensures winner == FirstFilled(SrcValues(doc, sels), 0)
    ensures imageUrl == ImageOf(SrcValues(doc, sels), origin, pathname)
  {
    ghost var vs := SrcValues(doc, sels);
    SrcValuesLength(doc, sels);
    imageUrl, winner := "", None;
    var k := 0;
    while k < |sels|
      invariant 0 <= k <= |sels| && imageUrl == ""
      invariant FirstFilled(vs, 0) == FirstFilled(vs, k)
    {
      var sel := Select(doc, sels[k]);
      SrcValuesAt(doc, sels, k);
      if sel != [] {
        imageUrl := ContentOrSrc(sel);
        assert imageUrl == vs[k];
        if imageUrl != "" {
          imageUrl, winner := NormalizeImageUrl(imageUrl, origin, pathname), Some(k);
          return;
        }
      } else {
        assert vs[k] == "";
      }
      k := k + 1;
    }
  }
}
