/** `extract_text_from_pdf`: the full text of a document and the coarse list of
    heading candidates. The PDF library is replaced by the sequence of page texts
    it would return. */
module Extraction {
  import opened Chars
  import opened Text
  import opened Patterns

  /** What the application appends after every page. */
  const PageBreak: string := "\n\n"

  /** How many leading pages are scanned for heading candidates. */
  const ScannedPages: nat := 2

  function Min(a: nat, b: nat): nat {
    if a <= b then a else b
  }

  /** The full text: every page followed by a page break, in page order, so as long
      as all pages together plus two characters per page. */
  function JoinPages(pages: seq<string>): (r: string)
    ensures |r| == TotalLength(pages) + |PageBreak| * |pages|
  {
    if pages == [] then [] else JoinPages(pages[..|pages| - 1]) + pages[|pages| - 1] + PageBreak
  }

  /** The sum of the page lengths. */
  function TotalLength(pages: seq<string>): nat
  {
    if pages == [] then 0 else TotalLength(pages[..|pages| - 1]) + |pages[|pages| - 1]|
  }

  /** `re.findall(r'(\d+\.\s+[^\n]+)', text)` on one page. */
  function PageHeadings(page: string): seq<string>
  {
    Texts(page, FindAll(Heading, page, 0))
  }

  /** The candidates of the first `n` pages, in page order and then text order. */
  function HeadingsOf(pages: seq<string>, n: nat): seq<string>
    requires n <= |pages|
  {
    if n == 0 then [] else HeadingsOf(pages, n - 1) + PageHeadings(pages[n - 1])
  }

  /** The two page loops of `extract_text_from_pdf`. */
  method ExtractText(pages: seq<string>) returns (fullText: string, sections: seq<string>)
    ensures fullText == JoinPages(pages)
    ensures sections == HeadingsOf(pages, Min(|pages|, ScannedPages))
  {
    fullText := "";
    sections := [];
    var first := Min(|pages|, ScannedPages);
    for n := 0 to first
      invariant fullText == JoinPages(pages[..n])
      invariant sections == HeadingsOf(pages, n)
    {
      var text := pages[n];
      JoinPagesStep(pages, n);
      fullText := fullText + text + PageBreak;
      var matches := PageHeadings(text);
      sections := sections + matches;
    }
    assert fullText == JoinPages(pages[..first]);
    var n := ScannedPages;
    while n < |pages|
      invariant ScannedPages <= n && (n <= |pages| || n == ScannedPages)
      invariant fullText == JoinPages(pages[..Min(n, |pages|)])
      invariant sections == HeadingsOf(pages, first)
    {
      var text := pages[n];
      JoinPagesStep(pages, n);
      fullText := fullText + text + PageBreak;
      n := n + 1;
    }
    assert pages[..|pages|] == pages;
  }

  /** One more page adds that page and a page break to the full text. */
  lemma JoinPagesStep(pages: seq<string>, n: nat)
    requires n < |pages|
    ensures JoinPages(pages[..n + 1]) == JoinPages(pages[..n]) + pages[n] + PageBreak
  {
    assert pages[..n + 1][..n] == pages[..n];
  }

  /** Joining is a homomorphism from page lists to texts. */
  lemma {:induction false} JoinPagesAppend(a: seq<string>, b: seq<string>)
    ensures JoinPages(a + b) == JoinPages(a) + JoinPages(b)
    decreases |b|
  {
    if b == [] {
      assert a + b == a;
    } else {
      var b' := b[..|b| - 1];
      assert (a + b)[..|a + b| - 1] == a + b';
      JoinPagesAppend(a, b');
    }
  }

  /** Page `i` starts at offset `TotalLength(pages[..i]) + 2 * i` of the full text
      and is followed there by the page break. */
  lemma PageInFullText(pages: seq<string>, i: nat)
    requires i < |pages|
    ensures var o := TotalLength(pages[..i]) + |PageBreak| * i;
      && o + |pages[i]| + |PageBreak| <= |JoinPages(pages)|
      && JoinPages(pages)[o..o + |pages[i]|] == pages[i]
      && JoinPages(pages)[o + |pages[i]|..o + |pages[i]| + |PageBreak|] == PageBreak
  {
    var upto, rest := pages[..i + 1], pages[i + 1..];
    assert pages == upto + rest;
    JoinPagesAppend(upto, rest);
    JoinPagesStep(pages, i);
    var head := JoinPages(pages[..i]) + pages[i] + PageBreak;
    assert JoinPages(pages) == head + JoinPages(rest);
  }

  /** A coarse match is a coarse match of its own text as well: the pattern has
      no `\b`, so it does not look outside the span. */
  lemma HeadingMatchIsSelfContained(s: string, i: nat, j: nat)
    requires Matches(Heading, s, i, j)
    ensures i < j <= |s| && Matches(Heading, s[i..j], 0, j - i)
  {
    var k: nat, m: nat :| HeadingShape(s, i, k, m, j);
    var h := s[i..j];
    assert HeadingShape(h, 0, k - i, m - i, j - i);
  }

  /** `h` is, as a whole, a match of `\d+\.\s+[^\n]+`. */
  ghost predicate IsHeadingText(h: string) {
    Matches(Heading, h, 0, |h|)
  }

  /** A whole coarse match starts with a digit and does not end in a newline. */
  lemma HeadingTextFacts(h: string)
    requires IsHeadingText(h)
    ensures |h| > 0 && IsDigit(h[0]) && h[|h| - 1] != '\n'
  {
    var k: nat, m: nat :| HeadingShape(h, 0, k, m, |h|);
    assert InClass(Digit, h[0]) && InClass(NonNewline, h[|h| - 1]);
  }

  /** Each candidate of one page is the text of a coarse match in that page. */
  lemma PageHeadingIsSpan(page: string, h: string)
    requires h in PageHeadings(page)
    ensures exists i: nat, j: nat :: i <= j <= |page| && Matches(Heading, page, i, j) && h == page[i..j]
  {
    var spans := FindAll(Heading, page, 0);
    FindAllIsScan(Heading, page, 0);
    var texts := Texts(page, spans);
    var c :| 0 <= c < |texts| && texts[c] == h;
    var sp := spans[c];
    assert h == page[sp.start..sp.end];
    ScanMatches(Heading, page, 0, spans, c);
  }

  /** The text of a coarse match is, as a whole, a coarse match. */
  lemma SpanIsHeadingText(page: string, h: string, i: nat, j: nat)
    requires i <= j <= |page| && Matches(Heading, page, i, j) && h == page[i..j]
    ensures IsHeadingText(h) && IsDigit(h[0]) && h[|h| - 1] != '\n'
  {
    HeadingMatchIsSelfContained(page, i, j);
    HeadingTextFacts(h);
  }

  /** What every candidate is: a whole match of `\d+\.\s+[^\n]+`, which starts
      with a digit and does not end in a newline. */
  ghost predicate WellFormedHeading(h: string) {
    IsHeadingText(h) && |h| > 0 && IsDigit(h[0]) && h[|h| - 1] != '\n'
  }

  /** A candidate of one page is well formed. */
  lemma PageHeadingWellFormed(page: string, h: string)
    requires h in PageHeadings(page)
    ensures WellFormedHeading(h)
  {
    PageHeadingIsSpan(page, h);
    var i: nat, j: nat :| i <= j <= |page| && Matches(Heading, page, i, j) && h == page[i..j];
    SpanIsHeadingText(page, h, i, j);
  }

  /** Every candidate of the first `n` pages is well formed. */
  lemma {:induction false} HeadingsAreMatches(pages: seq<string>, n: nat)
    requires n <= |pages|
    ensures forall h :: h in HeadingsOf(pages, n) ==> WellFormedHeading(h)
  {
    if n > 0 {
      HeadingsAreMatches(pages, n - 1);
      var before, here := HeadingsOf(pages, n - 1), PageHeadings(pages[n - 1]);
      assert HeadingsOf(pages, n) == before + here;
      forall h | h in here
        ensures WellFormedHeading(h)
      {
        PageHeadingWellFormed(pages[n - 1], h);
      }
    }
  }

  /** Candidates depend on the first `n` pages only. */
  lemma {:induction false} HeadingsOfPrefix(a: seq<string>, b: seq<string>, n: nat)
    requires n <= |a| && n <= |b|
    requires forall t :: 0 <= t < n ==> a[t] == b[t]
    ensures HeadingsOf(a, n) == HeadingsOf(b, n)
  {
    if n > 0 {
      HeadingsOfPrefix(a, b, n - 1);
      HeadingsOfStep(a, b, n);
    }
  }

  /** One step of `HeadingsOf` on two documents that agree on page `n - 1`. */
  lemma HeadingsOfStep(a: seq<string>, b: seq<string>, n: nat)
    requires 0 < n <= |a| && n <= |b| && a[n - 1] == b[n - 1]
    requires HeadingsOf(a, n - 1) == HeadingsOf(b, n - 1)
    ensures HeadingsOf(a, n) == HeadingsOf(b, n)
  {
  }

  /** Pages after the second never contribute candidates: two documents whose first
      two pages agree get the same candidate list. */
  lemma LaterPagesIgnored(a: seq<string>, b: seq<string>)
    requires Min(|a|, ScannedPages) == Min(|b|, ScannedPages)
    requires a[..Min(|a|, ScannedPages)] == b[..Min(|b|, ScannedPages)]
    ensures HeadingsOf(a, Min(|a|, ScannedPages)) == HeadingsOf(b, Min(|b|, ScannedPages))
  {
    var n := Min(|a|, ScannedPages);
    forall t | 0 <= t < n ensures a[t] == b[t] {
      assert a[t] == a[..n][t];
    }
    HeadingsOfPrefix(a, b, n);
  }

  /** Every coarse match starts with a digit. */
  lemma HeadingStartsWithDigit(s: string, i: nat, j: nat)
    requires Matches(Heading, s, i, j)
    ensures i < |s| && IsDigit(s[i])
  {
    var k: nat, m: nat :| HeadingShape(s, i, k, m, j);
    assert InClass(Digit, s[i]);
  }

  /** A page without digits has no heading candidates. */
  lemma NoDigitsNoHeadings(page: string)
    requires forall t :: 0 <= t < |page| ==> !IsDigit(page[t])
    ensures PageHeadings(page) == []
  {
    var spans := FindAll(Heading, page, 0);
    FindAllIsScan(Heading, page, 0);
    if spans != [] {
      ScanMatches(Heading, page, 0, spans, 0);
      HeadingStartsWithDigit(page, spans[0].start, spans[0].end);
    }
  }
}
