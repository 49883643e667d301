/** The lookup part of `display_section_content`: find the heading of a section
    in the full text by its title, and cut out the text up to the next numbered
    marker. What is shown afterwards (HTML clean-up, the dictionary side bar) is
    not part of this model. */
module Resolver {
  import opened Wrappers
  import opened Chars
  import opened Text
  import opened Patterns

  /** The text a heading must contain to belong to `title`: the title without its
      trailing whitespace, followed by an em-dash. */
  function Signature(title: string): (sig: string)
    ensures |sig| > 0 && sig[|sig| - 1] == EmDash
    ensures |sig| - 1 <= |title| && sig[..|sig| - 1] == title[..|sig| - 1]
    ensures AllIn(title, |sig| - 1, |title|, Space)
    ensures |sig| == 1 || !IsSpace(sig[|sig| - 2])
  {
    var t := RStrip(title);
    assert (t + [EmDash])[..|t|] == t;
    t + [EmDash]
  }

  /** The section headings of the full text, as `finditer` reports them. */
  function HeadingSpans(fullText: string): (r: seq<Span>)
    ensures Ordered(fullText, 0, r)
  {
    FindAll(Strict, fullText, 0)
  }

  /** `match.group()` of each section heading. Every one ends with an em-dash, so
      a signature can only be found at the end of a heading or before a dash
      inside it. */
  function HeadingTexts(fullText: string): (r: seq<string>)
    ensures forall c :: 0 <= c < |r| ==> EndsWithDash(r[c])
  {
    SpanTextsEndWithDash(fullText);
    Texts(fullText, HeadingSpans(fullText))
  }

  /** `c` is the first of `groups` that contains `sig`. */
  predicate FirstContaining(groups: seq<string>, sig: string, c: nat) {
    && c < |groups|
    && Contains(groups[c], sig)
    && forall c' :: 0 <= c' < c ==> !Contains(groups[c'], sig)
  }

  /** `end` is where the body that starts at `start` stops: no marker
      `\b\d{1,2}\.` starts in `[start, end)`, and one starts at `end` unless the
      text ends there. */
  ghost predicate IsSectionEnd(s: string, start: nat, end: nat) {
    && start <= end <= |s|
    && NoMatchIn(Marker, s, start, end)
    && (end < |s| ==> exists j: nat :: LongestAt(Marker, s, end, j))
  }

  /** `next_section_pattern.search(full_text, pos=start_pos)`: the start of the next
      marker, or the end of the text when there is none. */
  function SectionEnd(s: string, start: nat): (end: nat)
    requires start <= |s|
    ensures IsSectionEnd(s, start, end)
  {
    SearchCorrect(Marker, s, start);
    match Search(Marker, s, start)
    case Some(next) => next.start
    case None => |s|
  }

  /** The outcome of the lookup: the index of the chosen heading, where the body
      starts and ends, and the body itself. */
  datatype Resolution =
    | NotFound
    | Found(index: nat, start: nat, end: nat, body: string)

  /** The lookup of `display_section_content`: the first heading whose text contains
      the signature; its body runs from the end of that heading to the first
      `\b\d{1,2}\.` at or after it (or to the end of the text), stripped. */
  method ResolveSection(fullText: string, title: string) returns (r: Resolution)
    ensures r.NotFound? <==> forall c :: 0 <= c < |HeadingTexts(fullText)| ==> !Contains(HeadingTexts(fullText)[c], Signature(title))
    ensures r.Found? ==> FirstContaining(HeadingTexts(fullText), Signature(title), r.index)
    ensures r.Found? ==> r.index < |HeadingSpans(fullText)| && r.start == HeadingSpans(fullText)[r.index].end
    ensures r.Found? ==> IsSectionEnd(fullText, r.start, r.end) && r.body == Strip(fullText[r.start..r.end])
  {
    var sig := Signature(title);
    var sections := HeadingSpans(fullText);
    var groups := Texts(fullText, sections);
    assert groups == HeadingTexts(fullText);
    var current: Option<nat> := None;
    var i := 0;
    while i < |sections|
      invariant i <= |sections| && current == None
      invariant forall c :: 0 <= c < i ==> !Contains(groups[c], sig)
    {
      if Contains(groups[i], sig) {
        current := Some(i);
        break;
      }
      i := i + 1;
    }
    match current
    case None =>
      r := NotFound;
    case Some(c) =>
      var start := sections[c].end;
      var end := SectionEnd(fullText, start);
      r := Found(c, start, end, Strip(fullText[start..end]));
  }

  /** `rstrip` removes any whitespace appended to a string. */
  lemma {:induction false} RStripAppendedSpace(t: string, ws: string)
    requires forall x :: 0 <= x < |ws| ==> IsSpace(ws[x])
    ensures RStrip(t + ws) == RStrip(t)
    decreases |ws|
  {
    if ws != [] {
      var ws' := ws[..|ws| - 1];
      assert (t + ws)[..|t + ws| - 1] == t + ws';
      assert (t + ws)[|t + ws| - 1] == ws[|ws| - 1];
      RStripAppendedSpace(t, ws');
    } else {
      assert t + ws == t;
    }
  }

  /** Trailing whitespace in a title does not change what is looked up. */
  lemma SignatureIgnoresTrailingSpace(title: string, ws: string)
    requires forall x :: 0 <= x < |ws| ==> IsSpace(ws[x])
    ensures Signature(title + ws) == Signature(title)
  {
    RStripAppendedSpace(title, ws);
  }

  /** Every strict heading match ends with an em-dash. */
  lemma StrictMatchEndsWithDash(s: string, i: nat, j: nat)
    requires Matches(Strict, s, i, j)
    ensures i < j <= |s| && s[j - 1] == EmDash
  {
    if exists k: nat, m: nat, x: nat :: NumberedShape(s, i, k, m, x, j) {
    } else {
      var m: nat, x: nat :| ShortTitleShape(s, i, m, x, j);
    }
  }

  /** `g` is non-empty and ends with an em-dash. */
  predicate EndsWithDash(g: string) {
    |g| > 0 && g[|g| - 1] == EmDash
  }

  /** The text of heading `c` ends with an em-dash. */
  lemma SpanTextEndsWithDash(fullText: string, c: nat)
    requires c < |HeadingSpans(fullText)|
    ensures c < |Texts(fullText, HeadingSpans(fullText))| && EndsWithDash(Texts(fullText, HeadingSpans(fullText))[c])
  {
    var spans := HeadingSpans(fullText);
    var i, j := spans[c].start, spans[c].end;
    HeadingSpanEndsWithDash(fullText, c);
    assert Texts(fullText, spans)[c] == fullText[i..j];
  }

  /** Heading `c` ends with an em-dash in the full text. */
  lemma HeadingSpanEndsWithDash(fullText: string, c: nat)
    requires c < |HeadingSpans(fullText)|
    ensures var sp := HeadingSpans(fullText)[c]; sp.start < sp.end <= |fullText| && fullText[sp.end - 1] == EmDash
  {
    HeadingSpanMatches(fullText, c);
    StrictMatchEndsWithDash(fullText, HeadingSpans(fullText)[c].start, HeadingSpans(fullText)[c].end);
  }

  /** Heading `c` is a strict heading match. */
  lemma HeadingSpanMatches(fullText: string, c: nat)
    requires c < |HeadingSpans(fullText)|
    ensures Matches(Strict, fullText, HeadingSpans(fullText)[c].start, HeadingSpans(fullText)[c].end)
  {
    FindAllIsScan(Strict, fullText, 0);
    ScanMatches(Strict, fullText, 0, HeadingSpans(fullText), c);
  }

  /** The text of every section heading ends with an em-dash. */
  lemma SpanTextsEndWithDash(fullText: string)
    ensures var texts := Texts(fullText, HeadingSpans(fullText));
      forall c :: 0 <= c < |texts| ==> EndsWithDash(texts[c])
  {
    var texts := Texts(fullText, HeadingSpans(fullText));
    forall c | 0 <= c < |texts| ensures EndsWithDash(texts[c]) {
      SpanTextEndsWithDash(fullText, c);
    }
  }

  /** A section whose signature does not occur anywhere in the full text is never
      found: every heading text is a piece of the full text. */
  lemma AbsentSignatureNotFound(fullText: string, title: string)
    requires !Contains(fullText, Signature(title))
    ensures forall c :: 0 <= c < |HeadingTexts(fullText)| ==> !Contains(HeadingTexts(fullText)[c], Signature(title))
  {
    var sig := Signature(title);
    var spans := HeadingSpans(fullText);
    var groups := HeadingTexts(fullText);
    forall c | 0 <= c < |groups| ensures !Contains(groups[c], sig) {
      if Contains(groups[c], sig) {
        var b: nat :| OccursAt(groups[c], b, sig);
        var a, e := spans[c].start, spans[c].end;
        assert groups[c] == fullText[a..e];
        OccursInSlice(fullText, a, e, b, sig);
      }
    }
  }

  /** Every section heading starts with a digit or with "Short title.". */
  lemma StrictMatchStart(s: string, i: nat, j: nat)
    requires Matches(Strict, s, i, j)
    ensures i < |s| && (IsDigit(s[i]) || OccursAt(s, i, ShortTitle))
  {
    StrictAlternatives(s, i);
  }

  /** A text without digits and without "Short title." has no section headings, so
      every lookup in it ends in "not found". */
  lemma PlainTextHasNoHeadings(s: string)
    requires forall t :: 0 <= t < |s| ==> !IsDigit(s[t]) && !OccursAt(s, t, ShortTitle)
    ensures HeadingSpans(s) == []
  {
    var spans := HeadingSpans(s);
    FindAllIsScan(Strict, s, 0);
    if spans != [] {
      ScanMatches(Strict, s, 0, spans, 0);
      StrictMatchStart(s, spans[0].start, spans[0].end);
    }
  }
}
