/**
 * `sanitizeFilename` (lib/pdf-generator.ts) and the names under which the two PDFs are saved:
 * every forbidden character becomes "-", then every run of whitespace becomes one "-", and the
 * result is cut to 100 characters.
 */
module Filename {
  import opened Results
  import opened Text

  const MaxLength: nat := 100

  /** The class `[/\\?%*:|"<>]`. */
  predicate Forbidden(c: char) {
    c == '/' || c == '\\' || c == '?' || c == '%' || c == '*' || c == ':' || c == '|' || c == '"'
    || c == '<' || c == '>'
  }

  /** `name.replace(/[/\\?%*:|"<>]/g, "-")`: one "-" per forbidden character, everything else in
      place. */
  function ReplaceForbidden(s: string): (r: string)
    ensures |r| == |s|
    ensures forall i :: 0 <= i < |s| ==> r[i] == (if Forbidden(s[i]) then '-' else s[i])
  {
    if s == [] then [] else [if Forbidden(s[0]) then '-' else s[0]] + ReplaceForbidden(s[1..])
  }

  /** `s.replace(/\s+/g, "-")` read left to right: the first whitespace character of a run
      becomes "-", the rest of the run is dropped; `inRun` says whether the character before
      `s` was whitespace. */
  function Collapse(s: string, inRun: bool): string {
    if s == [] then []
    else if IsWhitespace(s[0]) then (if inRun then [] else "-") + Collapse(s[1..], true)
    else [s[0]] + Collapse(s[1..], false)
  }

  function CollapseWhitespace(s: string): string {
    Collapse(s, false)
  }

  /** The text before the cut. */
  function Transformed(name: string): string {
    CollapseWhitespace(ReplaceForbidden(name))
  }

  /** A character the output may hold. */
  predicate Allowed(c: char) {
    !Forbidden(c) && !IsWhitespace(c)
  }

  /** `sanitizeFilename(name)`: at most 100 characters, none forbidden and none whitespace; the
      100-character prefix of the transformed text; empty only for an empty name. */
  function SanitizeFilename(name: string): (r: string)
    ensures |r| <= MaxLength
    ensures forall i :: 0 <= i < |r| ==> Allowed(r[i])
    ensures |r| <= |Transformed(name)|
    ensures r == Transformed(name)[..|r|] && (|r| == MaxLength || r == Transformed(name))
    ensures r == [] <==> name == []
  {
    var t := Transformed(name);
    TransformedAllowed(name);
    TransformedEmpty(name);
    t[..if |t| < MaxLength then |t| else MaxLength]
  }

  lemma TransformedAllowed(name: string)
    ensures forall i :: 0 <= i < |Transformed(name)| ==> Allowed(Transformed(name)[i])
  {
    CollapseKeepsNoForbidden(ReplaceForbidden(name), false);
  }

  lemma TransformedEmpty(name: string)
    ensures Transformed(name) == [] <==> name == []
  {
  }

  /** Collapsing whitespace leaves no whitespace and brings in no forbidden character. */
  lemma {:induction false} CollapseKeepsNoForbidden(s: string, inRun: bool)
    requires forall i :: 0 <= i < |s| ==> !Forbidden(s[i])
    ensures forall i :: 0 <= i < |Collapse(s, inRun)| ==> Allowed(Collapse(s, inRun)[i])
  {
    if s != [] {
      CollapseKeepsNoForbidden(s[1..], IsWhitespace(s[0]));
    }
  }

  /** A name that is already short and clean is left alone. */
  lemma SanitizeClean(name: string)
    requires |name| <= MaxLength && forall i :: 0 <= i < |name| ==> Allowed(name[i])
    ensures SanitizeFilename(name) == name
  {
    ReplaceNothing(name);
    CollapseNothing(name, false);
  }

  lemma {:induction false} ReplaceNothing(s: string)
    requires forall i :: 0 <= i < |s| ==> !Forbidden(s[i])
    ensures ReplaceForbidden(s) == s
  {
    if s != [] { ReplaceNothing(s[1..]); }
  }

  lemma {:induction false} CollapseNothing(s: string, inRun: bool)
    requires forall i :: 0 <= i < |s| ==> !IsWhitespace(s[i])
    ensures Collapse(s, inRun) == s
  {
    if s != [] { CollapseNothing(s[1..], false); }
  }

  /** Sanitising twice is sanitising once. */
  lemma SanitizeIdempotent(name: string)
    ensures SanitizeFilename(SanitizeFilename(name)) == SanitizeFilename(name)
  {
    SanitizeClean(SanitizeFilename(name));
  }

  /** The whitespace around a hyphen is replaced run by run, so "a - b" becomes "a---b": the
      hyphen is kept and each single space beside it becomes one more. */
  lemma SpacedHyphen(a: string, b: string)
    requires a != [] && b != [] && |a| + |b| + 3 <= MaxLength
    requires forall i :: 0 <= i < |a| ==> Allowed(a[i])
    requires forall i :: 0 <= i < |b| ==> Allowed(b[i])
    ensures SanitizeFilename(a + " - " + b) == a + "---" + b
  {
    var s := a + " - " + b;
    forall i | 0 <= i < |s| ensures !Forbidden(s[i]) {
      if i >= |a| + 3 { assert s[i] == b[i - |a| - 3]; }
      else if i < |a| { assert s[i] == a[i]; }
    }
    ReplaceNothing(s);
    CollapseSpaced(a, b);
  }

  lemma CollapseSpaced(a: string, b: string)
    requires a != [] && b != []
    requires forall i :: 0 <= i < |a| ==> Allowed(a[i])
    requires forall i :: 0 <= i < |b| ==> Allowed(b[i])
    ensures CollapseWhitespace(a + " - " + b) == a + "---" + b
  {
    var v := "-" + " " + b;
    assert a + " - " + b == a + " " + v;
    CollapseRun("-", " ", b);
    CollapseNothing("-", false);
    CollapseNothing(b, false);
    assert CollapseWhitespace(v) == "--" + b;
    CollapseRun(a, " ", v);
    CollapseNothing(a, false);
    assert CollapseWhitespace(a + " " + v) == a + "-" + ("--" + b);
    assert a + "-" + ("--" + b) == a + "---" + b;
  }

  // ---------------------------------------------------------------- whitespace runs

  /** No run of whitespace crosses a boundary after a character that is not whitespace, so the
      two sides are collapsed separately. */
  lemma {:induction false} CollapseConcat(x: string, y: string, inRun: bool)
    requires x != [] && !IsWhitespace(x[|x| - 1])
    ensures Collapse(x + y, inRun) == Collapse(x, inRun) + Collapse(y, false)
  {
    var rest := x[1..];
    var ws := IsWhitespace(x[0]);
    var head: string := if ws then (if inRun then [] else "-") else [x[0]];
    assert (x + y)[0] == x[0] && (x + y)[1..] == rest + y;
    assert Collapse(x + y, inRun) == head + Collapse(rest + y, ws);
    assert Collapse(x, inRun) == head + Collapse(rest, ws);
    if rest == [] {
      assert rest + y == y && Collapse(rest, ws) == [];
    } else {
      assert rest[|rest| - 1] == x[|x| - 1];
      CollapseConcat(rest, y, ws);
    }
  }

  /** Inside a run, further whitespace adds nothing. */
  lemma {:induction false} CollapseBlank(w: string, v: string)
    requires Blank(w)
    ensures Collapse(w + v, true) == Collapse(v, true)
  {
    if w != [] {
      assert (w + v)[0] == w[0] && (w + v)[1..] == w[1..] + v;
      assert Blank(w[1..]) by {
        forall i | 0 <= i < |w[1..]| ensures IsWhitespace(w[1..][i]) { assert w[1..][i] == w[i + 1]; }
      }
      CollapseBlank(w[1..], v);
      assert IsWhitespace(w[0]);
      assert Collapse(w + v, true) == Collapse(w[1..] + v, true);
    } else {
      assert w + v == v;
    }
  }

  /** Each maximal run of whitespace becomes exactly one "-": a run `w` between text `u` that
      does not end in whitespace and text `v` that does not start with it. */
  lemma CollapseRun(u: string, w: string, v: string)
    requires w != [] && Blank(w)
    requires u == [] || !IsWhitespace(u[|u| - 1])
    requires v == [] || !IsWhitespace(v[0])
    ensures CollapseWhitespace(u + w + v) == CollapseWhitespace(u) + "-" + CollapseWhitespace(v)
  {
    var s := w + v;
    assert s[0] == w[0] && s[1..] == w[1..] + v;
    assert Blank(w[1..]) by {
      forall i | 0 <= i < |w[1..]| ensures IsWhitespace(w[1..][i]) { assert w[1..][i] == w[i + 1]; }
    }
    CollapseBlank(w[1..], v);
    assert Collapse(v, true) == Collapse(v, false);
    assert Collapse(s, false) == "-" + Collapse(v, false);
    if u == [] {
      assert u + w + v == s;
    } else {
      CollapseConcat(u, s, false);
      assert u + w + v == u + s;
    }
  }

  // ---------------------------------------------------------------- other characters

  /** A character the sanitiser never touches. */
  predicate Plain(c: char) {
    Allowed(c) && c != '-'
  }

  /** The plain characters of a text, in order. */
  function PlainPart(s: string): (r: string)
    ensures forall i :: 0 <= i < |r| ==> Plain(r[i])
  {
    if s == [] then [] else (if Plain(s[0]) then [s[0]] else []) + PlainPart(s[1..])
  }

  /** The transformation keeps every other character, in order: only forbidden characters,
      whitespace and hyphens are turned into or merged with hyphens. */
  lemma TransformedKeepsPlain(name: string)
    ensures PlainPart(Transformed(name)) == PlainPart(name)
  {
    ReplaceKeepsPlain(name);
    CollapseKeepsPlain(ReplaceForbidden(name), false);
  }

  lemma {:induction false} ReplaceKeepsPlain(s: string)
    ensures PlainPart(ReplaceForbidden(s)) == PlainPart(s)
  {
    if s != [] {
      ReplaceKeepsPlain(s[1..]);
      assert ReplaceForbidden(s)[1..] == ReplaceForbidden(s[1..]);
    }
  }

  lemma {:induction false} CollapseKeepsPlain(s: string, inRun: bool)
    ensures PlainPart(Collapse(s, inRun)) == PlainPart(s)
  {
    if s != [] {
      CollapseKeepsPlain(s[1..], IsWhitespace(s[0]));
      var head: string := if IsWhitespace(s[0]) then (if inRun then [] else "-") else [s[0]];
      PlainPartConcat(head, Collapse(s[1..], IsWhitespace(s[0])));
    }
  }

  lemma {:induction false} PlainPartConcat(a: string, b: string)
    ensures PlainPart(a + b) == PlainPart(a) + PlainPart(b)
  {
    if a != [] {
      assert (a + b)[0] == a[0] && (a + b)[1..] == a[1..] + b;
      PlainPartConcat(a[1..], b);
    } else {
      assert a + b == b;
    }
  }

  // ---------------------------------------------------------------- the PDF names

  /** The name of the original article's PDF: the sanitised title, or "haber" for an empty
      title, then ".pdf". The stem is never empty. */
  function OriginalPdfName(title: string): (n: string)
    ensures |n| >= 4 && n[|n| - 4..] == ".pdf"
    ensures 1 <= |n| - 4 <= MaxLength
    ensures forall i :: 0 <= i < |n| - 4 ==> Allowed(n[i])
    ensures title != "" ==> n == SanitizeFilename(title) + ".pdf"
  {
    var stem := SanitizeFilename(if title != "" then title else "haber");
    assert (stem + ".pdf")[..|stem|] == stem;
    stem + ".pdf"
  }

  const TranslationSuffix := "_çeviri.pdf"

  /** The name of the translation's PDF: the sanitised translated title, else the title, else
      "çeviri", then "_çeviri.pdf". The stem is never empty. */
  function TranslationPdfName(translatedTitle: Option<string>, title: string): (n: string)
    ensures |n| >= |TranslationSuffix| && n[|n| - |TranslationSuffix|..] == TranslationSuffix
    ensures 1 <= |n| - |TranslationSuffix| <= MaxLength
    ensures forall i :: 0 <= i < |n| - |TranslationSuffix| ==> Allowed(n[i])
    ensures translatedTitle.Some? && translatedTitle.value != "" ==>
      n == SanitizeFilename(translatedTitle.value) + TranslationSuffix
    ensures (translatedTitle == None || translatedTitle == Some("")) && title != "" ==>
      n == SanitizeFilename(title) + TranslationSuffix
  {
    var name :=
      if translatedTitle.Some? && translatedTitle.value != "" then translatedTitle.value
      else if title != "" then title
      else "çeviri";
    var stem := SanitizeFilename(name);
    assert (stem + TranslationSuffix)[..|stem|] == stem;
    stem + TranslationSuffix
  }

  /** Without a title the original is saved as "haber.pdf". */
  lemma OriginalPdfFallback()
    ensures OriginalPdfName("") == "haber.pdf"
  {
    SanitizeClean("haber");
  }

  /** Without a translated title or a title the translation is saved as "çeviri_çeviri.pdf". */
  lemma TranslationPdfFallback(translatedTitle: Option<string>)
    requires translatedTitle == None || translatedTitle == Some("")
    ensures TranslationPdfName(translatedTitle, "") == "çeviri" + TranslationSuffix
  {
    SanitizeClean("çeviri");
  }
}
