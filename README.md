# Bare Acts text core in Dafny

This project models the text-processing core of `app.py`, the Streamlit application for
reading Indian "Bare Acts" PDFs. It covers six parts:

- **Extraction.** `extract_text_from_pdf` joins the page texts into one full text, each page
  followed by `"\n\n"`. It collects heading candidates with `\d+\.\s+[^\n]+` from the first two
  pages only.
- **Resolver.** The lookup part of `display_section_content` builds the signature
  `rstrip(title) + "—"`. It scans the full text with the strict section-heading pattern and picks
  the first heading whose text contains the signature. The body runs from the end of that heading
  to the next `\b\d{1,2}\.` marker, and is then stripped.
- **Keywords.** `extract_keywords` is a lower-cased `\b\w+\b` tokenisation, filtered against 33
  stopwords and all-digit tokens; it keeps order and duplicates. `suggest_bare_acts` intersects the
  keyword sets of the uploaded text and of a reference document.
- **Highlight.** `highlight_search_keywords` wraps every case-insensitive occurrence of a keyword
  in `<mark style="background-color: orange">…</mark>`.
- **Catalogue.** The table of contents is sorted by title, by title in reverse, or by act number.
  Python's `sorted` is stable in all three cases.

The regular expressions are modelled once, in `Patterns`. Each pattern has a declarative *shape*
predicate that gives the split points a match must have (`Matches`). Each pattern also has a
matcher that computes the end the engine reports at a position. That end is proved to be the
longest match there (`LongestAt`). For these four patterns, Python's greedy backtracking reaches
the longest end first, and the module comment gives the argument.

`Search` is `pattern.search(s, pos)` and `FindAll` is `finditer`/`findall`. Their behaviour is
characterised by `IsScan`: leftmost match, longest at that position, no overlap, and the scan
resumes at the end of each match. `ScanUnique` shows that only one list of spans meets this
description, so `FindAll` is *the* scan.

Files:
- `chars.dfy`: character classes.
- `text.dfy`: runs, `in`, `strip`, `rstrip`, `lower`.
- `patterns.dfy`: regular expressions and the scanner.
- `extraction.dfy`, `resolver.dfy`, `keywords.dfy`, `highlight.dfy`, `catalogue.dfy`: the five
  parts above.

Behaviour worth noting:

- **Keywords are a list.** Keyword extraction returns a list with order and duplicates kept; only
  the comparison turns it into a set (app.py:221, 241).
- **33 stopwords.** The stopword list has 33 words (app.py:214-219).
- **Candidates come from single pages.** Heading candidates are matched in each page's own text,
  not in the joined text, so their positions are page positions (app.py:127-128).
- **"Short title." without digits.** The strict pattern has a second alternative that needs no
  digits. A text without numbered lines can therefore still contain section headings
  (`Resolver.PlainTextHasNoHeadings` needs both "no digit" and "no `Short title.`").
- **No separator between reference pages.** The reference document's pages are joined without a
  separator (app.py:236).

## Model

| member | source | states |
|---|---|---|
| Chars.Lower | app.py:220 | a capital letter becomes the letter 32 code points on (its lower-case form); every other character is unchanged; classes are kept |
| Text.Contains | app.py:147 | `pat in t` holds exactly when `pat` occurs in `t` at some position |
| Text.RStrip | app.py:141 | the result is a prefix of the input, everything removed is whitespace, and it does not end in whitespace |
| Text.Strip | app.py:157-159 | the result occurs in the input with only whitespace before and after it, and it neither starts nor ends with whitespace |
| Text.LowerStr | app.py:220 | `text.lower()` has the same length, contains no capital letter, turns each capital into its lower-case letter and keeps every other character |
| Text.LowerStrIdempotent | app.py:220 | lower-casing twice is lower-casing once |
| Text.LowerStrFixes | app.py:220 | a string without capital letters is its own lower-cased form |
| Text.OccursInSlice | app.py:147 | an occurrence inside a slice is an occurrence in the whole string, shifted by the slice start |
| Patterns.HeadingEndAtCorrect | app.py:127-128 | the end computed for `\d+\.\s+[^\n]+` at a position is a match end and no match there is longer; no end means no match |
| Patterns.NumberedEndAtCorrect | app.py:141-142 | for `\b\d+\.\s+[^\d]+\s*—`: every match ends at or before the computed end, the computed end is reached by a match, and no end means no match |
| Patterns.ShortTitleEndAtCorrect | app.py:141-142 | the same three facts for `\bShort title\.\s+[^\n]+\.—` |
| Patterns.StrictAlternatives | app.py:141-142 | a numbered heading starts with a digit and a "Short title" heading with 'S', so the alternatives never compete |
| Patterns.StrictEndAtCorrect | app.py:141-142 | the end computed for the strict pattern is the longest match end at that position; no end means no match |
| Patterns.WordEndAtCorrect | app.py:220 | for `\b\w+\b` the computed end is the longest match end; no end means no match |
| Patterns.MatchEndCorrect | app.py:127-128 | for every pattern (also those at app.py:142, 153 and 220) the per-position end is the longest match, and none means no match at that position |
| Patterns.MatchBounds | app.py:127 | every match is a non-empty range of the text |
| Patterns.HeadingEndAt | app.py:127-128 | the end reported for `\d+\.\s+[^\n]+` lies at least four characters on and is not a newline; `HeadingEndAtCorrect` proves it the longest match |
| Patterns.NumberedEndAt | app.py:142 | the end reported for the numbered alternative follows an em-dash |
| Patterns.ShortTitleEndAt | app.py:142 | the end reported for the "Short title" alternative needs "Short title." at the start and follows ".—" |
| Patterns.StrictEndAt | app.py:142 | the end reported for the strict heading pattern follows an em-dash |
| Patterns.MarkerEndAt | app.py:153 | the end reported for `\b(\d{1,2})\.` follows one or two digits and a dot |
| Patterns.WordEndAt | app.py:220 | the end reported for `\b\w+\b` closes the whole run of word characters from the start |
| Patterns.MatchEnd | app.py:127-128 | for every pattern (also those at app.py:142, 153 and 220) a reported end lies after the position and inside the text |
| Patterns.Search | app.py:155 | a reported match lies at or after the start position and is a non-empty range of the text |
| Patterns.SearchCorrect | app.py:155 | `search(s, pos)` reports the longest match at the leftmost matching position at or after `pos`, and reports nothing exactly when no match starts there or later |
| Patterns.FindAll | app.py:128 | the spans are non-empty, inside the text, in text order and pairwise disjoint |
| Patterns.FindAllIsScan | app.py:142-143 | the spans are the scan `finditer` performs: leftmost, longest, continuing at each match end |
| Patterns.ScanUnique | app.py:143 | at most one span list is such a scan, so the scan is determined by the pattern and the text |
| Patterns.ScanMatches | app.py:143 | the c-th span is the engine's match at its start, and no match starts between the previous span and it |
| Extraction.ExtractText | app.py:115-137 | the full text is every page followed by `"\n\n"` in page order, and the candidates are those of the first `min(2, page_count)` pages in page order |
| Extraction.JoinPages | app.py:117-135 | the full text is as long as all pages together plus two characters per page |
| Extraction.JoinPagesStep | app.py:124 | one more page appends that page and the page break |
| Extraction.JoinPagesAppend | app.py:121-135 | joining distributes over concatenation of page lists |
| Extraction.PageInFullText | app.py:117-135 | page i sits in the full text at offset (length of the pages before it) + 2·i, followed by the page break |
| Extraction.HeadingMatchIsSelfContained | app.py:127-128 | a coarse match is also a match of its own text, because the pattern does not look outside the span |
| Extraction.HeadingTextFacts | app.py:127 | a whole coarse match starts with a digit and does not end in a newline |
| Extraction.PageHeadingIsSpan | app.py:128 | every candidate of a page is the text of a coarse match in that page |
| Extraction.SpanIsHeadingText | app.py:128 | the text of a coarse match is itself a whole match |
| Extraction.PageHeadingWellFormed | app.py:127-128 | every candidate of a page is a whole match of `\d+\.\s+[^\n]+`, starting with a digit and not ending in a newline |
| Extraction.HeadingsAreMatches | app.py:121-129 | every candidate of the scanned pages is such a whole match |
| Extraction.HeadingsOfPrefix | app.py:121-129 | the candidates of the first n pages depend on those pages only |
| Extraction.LaterPagesIgnored | app.py:121-135 | two documents whose first two pages agree get the same candidates, whatever follows |
| Extraction.HeadingStartsWithDigit | app.py:127 | every coarse match starts with a digit |
| Extraction.NoDigitsNoHeadings | app.py:127-128 | a page without digits yields no candidates |
| Resolver.Signature | app.py:141 | the signature is the title without trailing whitespace, followed by an em-dash |
| Resolver.HeadingSpans | app.py:142-143 | the heading spans are ordered, disjoint ranges of the full text |
| Resolver.HeadingTexts | app.py:142-147 | the text of every section heading is non-empty and ends with an em-dash, so a signature can only be found at the end of a heading or before a dash inside it |
| Resolver.SpanTextEndsWithDash | app.py:142-143 | the text of heading c ends with an em-dash |
| Resolver.SectionEnd | app.py:152-160 | the body ends where the first `\b\d{1,2}\.` at or after its start begins, or at the end of the text; no marker starts before that |
| Resolver.ResolveSection | app.py:140-160 | not found (the branch at app.py:179-180) exactly when no heading contains the signature; otherwise the first heading that contains it is chosen, the body starts at its end, stops at the next marker and is stripped |
| Resolver.RStripAppendedSpace | app.py:141 | `rstrip` removes any whitespace appended to a string |
| Resolver.SignatureIgnoresTrailingSpace | app.py:141 | titles that differ only in trailing whitespace have the same signature |
| Resolver.StrictMatchEndsWithDash | app.py:142 | every strict heading match ends with an em-dash |
| Resolver.HeadingSpanMatches | app.py:143 | every heading span is a strict match |
| Resolver.HeadingSpanEndsWithDash | app.py:142-143 | every heading span ends with an em-dash |
| Resolver.AbsentSignatureNotFound | app.py:145-149 | when the signature occurs nowhere in the full text, no heading contains it, so the lookup reports not found |
| Resolver.StrictMatchStart | app.py:142 | every section heading starts with a digit or with "Short title." |
| Resolver.PlainTextHasNoHeadings | app.py:142-143 | a text without digits and without "Short title." has no section headings |
| Keywords.Filter | app.py:221 | the comprehension keeps only words that are neither stopwords nor all digits, all taken from the input |
| Keywords.Tokens | app.py:220 | every token is a non-empty run of word characters |
| Keywords.ExtractKeywords | app.py:213-222 | every keyword is a token of the lower-cased text that is neither a stopword nor all digits |
| Keywords.FilterAppend | app.py:221 | the filter distributes over concatenation, so it keeps the relative order |
| Keywords.FilterCount | app.py:221 | a kept word appears as often in the output as in the input; any other word does not appear |
| Keywords.FilterMembership | app.py:221 | a word is in the output exactly when it is in the input and kept |
| Keywords.TokenIsMatch | app.py:220 | each token is a `\b\w+\b` match |
| Keywords.LowerTokenIsLowerWord | app.py:220 | each token of the lower-cased text is a non-empty run of word characters with no capital letter |
| Keywords.KeywordsClean | app.py:214-222 | no keyword is a stopword or all digits, and every keyword is a lower-case word |
| Keywords.KeywordsIgnoreCase | app.py:220 | a text and its lower-cased form have the same keywords |
| Keywords.CommonKeywordsMembership | app.py:238-241 | a word is common exactly when it is kept and is a token of both lower-cased texts |
| Keywords.CommonKeywordsSymmetric | app.py:241 | the common set does not depend on the order of the texts and lies in each side's keywords |
| Keywords.Concat | app.py:233-236 | the reference text is exactly as long as its pages together: no separator is added |
| Keywords.ConcatAppend | app.py:233-236 | the reference text is the page texts back to back: joining distributes over concatenation and one page is its own text |
| Keywords.SuggestBareActs | app.py:225-248 | a missing reference document is reported as such; otherwise the result is the common keyword set of the uploaded text and the reference pages joined without separator |
| Keywords.KeywordsIdempotent | app.py:213-222 | the keywords of a text, joined with spaces, have exactly themselves as keywords |
| Keywords.JoinedKeywords | app.py:213-222 | kept lower-case words joined with spaces have exactly themselves as keywords, in order and with repetitions |
| Keywords.FilterKeepsKept | app.py:221 | a list of kept words passes the filter unchanged |
| Keywords.JoinTokens | app.py:220 | `\b\w+\b` on words joined with spaces gives back the words |
| Keywords.FirstToken | app.py:220 | a whole word at a position is the first token from there |
| Keywords.WordRunAt | app.py:220 | a whole run of word characters after a non-word character is the next match, and the scan continues at its end |
| Keywords.SkipNonWord | app.py:220 | the scan passes over a non-word character |
| Highlight.HighlightKeyword | app.py:200-202 | the output is the text plus 46 characters of tags per match, and the text itself when nothing matches |
| Highlight.Pieces | app.py:201 | taking the inserted marks off the pieces gives back the original text, for every keyword including the empty one |
| Highlight.Render | app.py:201 | the output is the unmarked text plus 46 characters of tags per mark, and exactly the unmarked text when there is no mark |
| Highlight.PiecesFront | app.py:201 | with a non-empty keyword, the first piece is a prefix of the text and the rest are the pieces of the remainder |
| Highlight.UnmarkGlue | app.py:201 | a first piece and the pieces of the remainder unmark to the whole text |
| Highlight.ShiftedMatch | app.py:201 | a keyword match in a suffix is a match in the text, shifted |
| Highlight.ShiftFits | app.py:201 | a piece that fits a suffix fits the text, shifted |
| Highlight.FirstPieceFits | app.py:201 | the first piece fits the text at offset 0 |
| Highlight.ConsFits | app.py:201 | putting a piece in front keeps the later pieces fitting, one place on |
| Highlight.PiecesAtOffsets | app.py:201 | every piece is the text at its offset; every marked piece equals the keyword ignoring case; with a non-empty keyword no unchanged character sits where the keyword matches |
| Highlight.NoMatchUnchanged | app.py:201 | a text in which a non-empty keyword never matches comes back unchanged |
| Highlight.EmptyKeywordMarks | app.py:201 | an empty keyword gives 2·n + 1 pieces that alternate between an empty mark and one character of the text, starting and ending with a mark |
| Highlight.EmptyKeywordCount | app.py:201 | an empty keyword inserts n + 1 marks |
| Catalogue.StrLeRefl | app.py:67 | string `<=` is reflexive |
| Catalogue.StrLeTotal | app.py:67 | any two strings are comparable |
| Catalogue.StrLeTrans | app.py:67 | string `<=` is transitive |
| Catalogue.StrLeAntisymmetric | app.py:67 | strings that are `<=` each other are equal |
| Catalogue.LeProperties | app.py:66-71 | each option's order is total and transitive, and it ties exactly the entries with equal keys |
| Catalogue.Insert | app.py:66-71 | insertion adds one entry |
| Catalogue.SortActs | app.py:66-71 | the sorted table holds the same entries as the input |
| Catalogue.InsertCount | app.py:66-71 | insertion adds exactly the inserted entry |
| Catalogue.InsertSorted | app.py:66-71 | insertion keeps a list in order |
| Catalogue.WithKeyAppend | app.py:66-71 | selecting one key distributes over concatenation |
| Catalogue.InsertWithKey | app.py:66-71 | the inserted entry goes before every entry with its key |
| Catalogue.SortActsCorrect | app.py:66-71 | the table is in the requested order, holds the same entries, and keeps entries with equal keys in their original order, also with `reverse=True` |

## Left out

- Streamlit UI, login, session state and navigation (app.py:255-361): presentation and ambient state.
- PyMuPDF (`fitz.open`, `get_text`): the documents are given as sequences of page texts.
- Reading the reference PDF from disk: it is a parameter, `None` when the file does not exist.
- The `except` branch of `suggest_bare_acts`: it reports a library failure, which the model
  cannot produce.
- The display of the common keywords as a table: an empty set stands for the "no common keywords"
  message.
- BeautifulSoup clean-up of the body, the dictionary side bar and `fetch_definition`: foreign
  libraries and HTTP. The body is modelled before clean-up.
- `display_pdf`, the pandas tables, `extract_txt_titles` and `parse_date`: display plumbing, file
  I/O, or unused.
- The 'Date' sort option: it mixes string and `datetime` keys.
- Unrecognised sort options: they leave the result unbound. Only the other three options are
  modelled.
- Chars.IsDigit: `\d`, `\w` and `str.isdigit()` are restricted to ASCII. Python also accepts
  other Unicode digits and letters.
- Chars.Lower: lower-casing is restricted to ASCII letters. Python's `str.lower()` maps every
  Unicode letter.
- Highlight.MatchAt: case-insensitive matching compares ASCII-lower-cased characters, not Python's
  full Unicode case folding.
