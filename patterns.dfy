/** The regular expressions of app.py, their match semantics, and the scanner that
    enumerates matches the way `re.findall` / `re.finditer` / `re.search` do.

    A pattern "matches at i with end j" when `s[i..j]` can be produced by the
    pattern with `s` as context (so `\b` looks at `s[i - 1]`, also when a search
    starts at `i`).  Python's backtracking engine takes, among the ends a pattern
    can reach at a position, the first one in its greedy priority order.  For the
    four patterns below that end is the longest one: every quantifier is greedy
    over a single character class, and giving back characters can only move the
    final literal ('.', em-dash, ".—" or the end of a `[^\n]` run) to an earlier
    position.  The two alternatives of the strict heading pattern can never both
    match at one position (one starts with a digit, the other with 'S').  So a
    match is specified here as the longest end at its position. */
module Patterns {
  import opened Wrappers
  import opened Chars
  import opened Text

  /** The position range `[start, end)` of one match. */
  datatype Span = Span(start: nat, end: nat)

  /** The patterns the application scans with. */
  datatype Pattern =
    | Heading   // \d+\.\s+[^\n]+                                 (coarse heading candidates)
    | Strict    // \b\d+\.\s+[^\d]+\s*—|\bShort title\.\s+[^\n]+\.—  (section headings)
    | Marker    // \b(\d{1,2})\.                                 (start of the next section)
    | Word      // \b\w+\b                                        (word tokens)

  /** `\b` at position `i`: exactly one of `s[i - 1]`, `s[i]` is a word character
      (a position outside the string counts as a non-word character). */
  predicate Boundary(s: string, i: nat) {
    (0 < i <= |s| && IsWordChar(s[i - 1])) != (i < |s| && IsWordChar(s[i]))
  }

  /** `\d+\.\s+[^\n]+` with the digits in `[i, k)`, the dot at `k`, the blanks in
      `[k + 1, m)` and the rest of the line in `[m, j)`. */
  ghost predicate HeadingShape(s: string, i: nat, k: nat, m: nat, j: nat) {
    && i < k < |s| && k + 1 < m < j <= |s|
    && AllIn(s, i, k, Digit) && s[k] == '.' && AllIn(s, k + 1, m, Space) && AllIn(s, m, j, NonNewline)
  }

  /** `\b\d+\.\s+[^\d]+\s*—` with the digits in `[i, k)`, the dot at `k`, the blanks
      in `[k + 1, m)`, the digit-free run in `[m, x)`, the blanks in `[x, j - 1)`
      and the em-dash at `j - 1`. */
  ghost predicate NumberedShape(s: string, i: nat, k: nat, m: nat, x: nat, j: nat) {
    && Boundary(s, i) && i < k && k + 1 < m < x < j <= |s|
    && AllIn(s, i, k, Digit) && s[k] == '.' && AllIn(s, k + 1, m, Space)
    && AllIn(s, m, x, NonDigit) && AllIn(s, x, j - 1, Space) && s[j - 1] == EmDash
  }

  const ShortTitle: string := "Short title."

  /** A dot followed by an em-dash. */
  const DotDash: string := ['.', EmDash]

  /** `\bShort title\.\s+[^\n]+\.—` with the blanks in `[i + 12, m)`, the rest of
      the line in `[m, x)` and ".—" at `x`. */
  ghost predicate ShortTitleShape(s: string, i: nat, m: nat, x: nat, j: nat) {
    && Boundary(s, i) && OccursAt(s, i, ShortTitle) && i + |ShortTitle| < m < x && j == x + 2 && j <= |s|
    && AllIn(s, i + |ShortTitle|, m, Space) && AllIn(s, m, x, NonNewline) && s[x] == '.' && s[x + 1] == EmDash
  }

  /** `\b(\d{1,2})\.` */
  ghost predicate MarkerShape(s: string, i: nat, j: nat) {
    && Boundary(s, i) && i < |s| && IsDigit(s[i])
    && ((j == i + 2 && j <= |s| && s[i + 1] == '.')
        || (j == i + 3 && j <= |s| && IsDigit(s[i + 1]) && s[i + 2] == '.'))
  }

  /** `\b\w+\b` */
  ghost predicate WordShape(s: string, i: nat, j: nat) {
    i < j <= |s| && Boundary(s, i) && AllIn(s, i, j, WordChar) && Boundary(s, j)
  }

  /** Pattern `p` can match `s[i..j]` (in the context of `s`). */
  ghost predicate Matches(p: Pattern, s: string, i: nat, j: nat) {
    match p
    case Heading => exists k: nat, m: nat :: HeadingShape(s, i, k, m, j)
    case Strict =>
      || (exists k: nat, m: nat, x: nat :: NumberedShape(s, i, k, m, x, j))
      || (exists m: nat, x: nat :: ShortTitleShape(s, i, m, x, j))
    case Marker => MarkerShape(s, i, j)
    case Word => WordShape(s, i, j)
  }

  /** The match the regular-expression engine reports at `i` ends at `j`. */
  ghost predicate LongestAt(p: Pattern, s: string, i: nat, j: nat) {
    Matches(p, s, i, j) && forall j': nat :: Matches(p, s, i, j') ==> j' <= j
  }

  /** No match of `p` starts in `[lo, hi)`. */
  ghost predicate NoMatchIn(p: Pattern, s: string, lo: nat, hi: nat) {
    forall i: nat, j: nat :: lo <= i < hi ==> !Matches(p, s, i, j)
  }

  /** Every match is a non-empty range of `s`. */
  lemma MatchBounds(p: Pattern, s: string, i: nat, j: nat)
    requires Matches(p, s, i, j)
    ensures i < j <= |s|
  {
  }

  // ---------------------------------------------------------------------------
  // Matching at one position

  /** The end the engine reports for `\d+\.\s+[^\n]+` at `i`: it lies past the
      digits, the dot and a blank, and the match does not end in a newline. */
  function HeadingEndAt(s: string, i: nat): (r: Option<nat>)
    requires i <= |s|
    ensures r.Some? ==> i + 4 <= r.value <= |s| && s[r.value - 1] != '\n'
  {
    var k := RunEnd(s, i, Digit);
    if k == i || k == |s| || s[k] != '.' then None
    else
      var sp := RunEnd(s, k + 1, Space);
      if sp < k + 2 then None
      else if sp < |s| then Some(RunEnd(s, sp, NonNewline))
      else
        // the blanks reach the end of the text: `\s+` gives back characters until
        // `[^\n]+` can take the last non-newline one
        match LastIn(s, k + 2, |s|, NonNewline)
        case None => None
        case Some(t) => Some(t + 1)
  }

  /** Where the parts of any coarse heading match must lie. */
  lemma HeadingShapeFacts(s: string, i: nat, k: nat, m: nat, j: nat)
    requires HeadingShape(s, i, k, m, j)
    ensures k == RunEnd(s, i, Digit) && k + 2 <= m <= RunEnd(s, k + 1, Space)
    ensures AllIn(s, m, j, NonNewline)
  {
    RunWithin(s, i, k, Digit);
    RunWithin(s, k + 1, m, Space);
  }

  /** Every coarse heading match at `i` is found, and ends no later than the end
      the matcher reports. */
  lemma HeadingBound(s: string, i: nat, k: nat, m: nat, j: nat)
    requires HeadingShape(s, i, k, m, j)
    ensures i <= |s| && HeadingEndAt(s, i).Some? && j <= HeadingEndAt(s, i).value
  {
    HeadingShapeFacts(s, i, k, m, j);
    var sp := RunEnd(s, k + 1, Space);
    if sp < |s| {
      if sp <= j {
        assert AllIn(s, sp, j, NonNewline);
        RunWithin(s, sp, j, NonNewline);
      }
    } else {
      assert InClass(NonNewline, s[j - 1]);
    }
  }

  /** The end the matcher reports is the end of a coarse heading match. */
  lemma HeadingWitness(s: string, i: nat)
    requires i <= |s| && HeadingEndAt(s, i).Some?
    ensures exists k: nat, m: nat :: HeadingShape(s, i, k, m, HeadingEndAt(s, i).value)
  {
    var k := RunEnd(s, i, Digit);
    var sp := RunEnd(s, k + 1, Space);
    if sp < |s| {
      assert HeadingShape(s, i, k, sp, RunEnd(s, sp, NonNewline));
    } else {
      var t := LastIn(s, k + 2, |s|, NonNewline).value;
      assert HeadingShape(s, i, k, t, t + 1);
    }
  }

  lemma HeadingEndAtCorrect(s: string, i: nat)
    requires i <= |s|
    ensures HeadingEndAt(s, i).Some? ==> LongestAt(Heading, s, i, HeadingEndAt(s, i).value)
    ensures HeadingEndAt(s, i).None? ==> forall j: nat :: !Matches(Heading, s, i, j)
  {
    forall k: nat, m: nat, j: nat | HeadingShape(s, i, k, m, j)
      ensures HeadingEndAt(s, i).Some? && j <= HeadingEndAt(s, i).value
    {
      HeadingBound(s, i, k, m, j);
    }
    if HeadingEndAt(s, i).Some? {
      HeadingWitness(s, i);
    }
  }

  /** The end the engine reports for `\b\d+\.\s+[^\d]+\s*—` at `i`: the match
      ends with an em-dash. */
  function NumberedEndAt(s: string, i: nat): (r: Option<nat>)
    requires i <= |s|
    ensures r.Some? ==> i < r.value <= |s| && s[r.value - 1] == EmDash
  {
    var k := RunEnd(s, i, Digit);
    if !Boundary(s, i) || k == i || k == |s| || s[k] != '.' then None
    else if RunEnd(s, k + 1, Space) < k + 2 then None
    else
      // `[^\d]+\s*—` ends at the last em-dash before the next digit
      match LastIn(s, k + 3, RunEnd(s, k + 1, NonDigit), Dash)
      case None => None
      case Some(d) => Some(d + 1)
  }

  /** Where the parts of any numbered-heading match must lie. */
  lemma NumberedShapeFacts(s: string, i: nat, k: nat, m: nat, x: nat, j: nat)
    requires NumberedShape(s, i, k, m, x, j)
    ensures k == RunEnd(s, i, Digit) && k < |s| && k + 2 <= RunEnd(s, k + 1, Space)
    ensures k + 3 <= j - 1 < RunEnd(s, k + 1, NonDigit) && s[j - 1] == EmDash
  {
    RunWithin(s, i, k, Digit);
    RunWithin(s, k + 1, m, Space);
    assert AllIn(s, k + 1, j, NonDigit) by {
      forall t | k + 1 <= t < j ensures !IsDigit(s[t]) {
        if t < m { assert IsSpace(s[t]); }
        else if t < x { assert InClass(NonDigit, s[t]); }
        else if t < j - 1 { assert IsSpace(s[t]); }
      }
    }
    RunWithin(s, k + 1, j, NonDigit);
  }

  /** Every numbered-heading match at `i` is found, and ends no later than the end
      the matcher reports. */
  lemma NumberedBound(s: string, i: nat, k: nat, m: nat, x: nat, j: nat)
    requires NumberedShape(s, i, k, m, x, j)
    ensures i <= |s| && NumberedEndAt(s, i).Some? && j <= NumberedEndAt(s, i).value
  {
    NumberedShapeFacts(s, i, k, m, x, j);
    var d := LastIn(s, k + 3, RunEnd(s, k + 1, NonDigit), Dash);
    assert InClass(Dash, s[j - 1]);
  }

  /** The end the matcher reports is the end of a numbered-heading match. */
  lemma NumberedWitness(s: string, i: nat)
    requires i <= |s| && NumberedEndAt(s, i).Some?
    ensures exists k: nat, m: nat, x: nat :: NumberedShape(s, i, k, m, x, NumberedEndAt(s, i).value)
  {
    var k := RunEnd(s, i, Digit);
    var d := LastIn(s, k + 3, RunEnd(s, k + 1, NonDigit), Dash).value;
    assert IsSpace(s[k + 1]);
    assert NumberedShape(s, i, k, k + 2, d, d + 1);
  }

  lemma NumberedEndAtCorrect(s: string, i: nat)
    requires i <= |s|
    ensures NumberedEndAt(s, i).Some? ==> forall k: nat, m: nat, x: nat, j: nat :: NumberedShape(s, i, k, m, x, j) ==> j <= NumberedEndAt(s, i).value
    ensures NumberedEndAt(s, i).Some? ==> exists k: nat, m: nat, x: nat :: NumberedShape(s, i, k, m, x, NumberedEndAt(s, i).value)
    ensures NumberedEndAt(s, i).None? ==> forall k: nat, m: nat, x: nat, j: nat :: !NumberedShape(s, i, k, m, x, j)
  {
    forall k: nat, m: nat, x: nat, j: nat | NumberedShape(s, i, k, m, x, j)
      ensures NumberedEndAt(s, i).Some? && j <= NumberedEndAt(s, i).value
    {
      NumberedBound(s, i, k, m, x, j);
    }
    if NumberedEndAt(s, i).Some? {
      NumberedWitness(s, i);
    }
  }

  /** The end the engine reports for `\bShort title\.\s+[^\n]+\.—` at `i`: the
      match starts with "Short title." and ends with ".—". */
  function ShortTitleEndAt(s: string, i: nat): (r: Option<nat>)
    requires i <= |s|
    ensures r.Some? ==> OccursAt(s, i, ShortTitle) && i + |ShortTitle| + 2 < r.value <= |s|
    ensures r.Some? ==> OccursAt(s, r.value - 2, DotDash)
  {
    var b := i + |ShortTitle|;
    if !Boundary(s, i) || !OccursAt(s, i, ShortTitle) then None
    else
      var sp := RunEnd(s, b, Space);
      if sp <= b then None
      else
        // `[^\n]+\.—` ends at the last ".—" of the line that follows the blanks;
        // when ".—" comes right after the blanks, `\s+` must give one back
        match LastOccurrence(s, sp, RunEnd(s, sp, NonNewline), DotDash)
        case None => None
        case Some(x) =>
          if sp < x || (b + 1 < sp && s[sp - 1] != '\n') then Some(x + 2) else None
  }

  /** Where the parts of any "Short title" match must lie. */
  lemma ShortTitleShapeFacts(s: string, i: nat, m: nat, x: nat, j: nat)
    requires ShortTitleShape(s, i, m, x, j)
    ensures m <= RunEnd(s, i + |ShortTitle|, Space) <= x
    ensures x + 2 <= RunEnd(s, RunEnd(s, i + |ShortTitle|, Space), NonNewline)
    ensures OccursAt(s, x, DotDash)
  {
    var sp := RunEnd(s, i + |ShortTitle|, Space);
    RunWithin(s, i + |ShortTitle|, m, Space);
    assert sp <= x;
    assert AllIn(s, sp, x + 2, NonNewline);
    RunWithin(s, sp, x + 2, NonNewline);
    assert s[x..x + 2] == DotDash;
  }

  /** Every "Short title" match at `i` is found, and ends no later than the end
      the matcher reports. */
  lemma ShortTitleBound(s: string, i: nat, m: nat, x: nat, j: nat)
    requires ShortTitleShape(s, i, m, x, j)
    ensures i <= |s| && ShortTitleEndAt(s, i).Some? && j <= ShortTitleEndAt(s, i).value
  {
    ShortTitleShapeFacts(s, i, m, x, j);
    var b := i + |ShortTitle|;
    var sp := RunEnd(s, b, Space);
    var n := RunEnd(s, sp, NonNewline);
    var x0 := LastOccurrence(s, sp, n, DotDash).value;
    assert x <= x0;
    if x0 <= sp {
      assert InClass(NonNewline, s[sp - 1]);
    }
  }

  /** An occurrence of ".—" is a dot followed by an em-dash. */
  lemma DotDashAt(s: string, x: nat)
    requires OccursAt(s, x, DotDash)
    ensures x + 2 <= |s| && s[x] == '.' && s[x + 1] == EmDash
  {
    assert s[x..x + 2][0] == s[x] && s[x..x + 2][1] == s[x + 1];
  }

  /** The end the matcher reports is the end of a "Short title" match. */
  lemma ShortTitleWitness(s: string, i: nat)
    requires i <= |s| && ShortTitleEndAt(s, i).Some?
    ensures exists m: nat, x: nat :: ShortTitleShape(s, i, m, x, ShortTitleEndAt(s, i).value)
  {
    var b := i + |ShortTitle|;
    var sp := RunEnd(s, b, Space);
    var n := RunEnd(s, sp, NonNewline);
    var x := LastOccurrence(s, sp, n, DotDash).value;
    DotDashAt(s, x);
    assert AllIn(s, sp, x, NonNewline);
    if sp < x {
      assert ShortTitleShape(s, i, sp, x, x + 2);
    } else {
      assert ShortTitleShape(s, i, sp - 1, x, x + 2);
    }
  }

  lemma ShortTitleEndAtCorrect(s: string, i: nat)
    requires i <= |s|
    ensures ShortTitleEndAt(s, i).Some? ==> forall m: nat, x: nat, j: nat :: ShortTitleShape(s, i, m, x, j) ==> j <= ShortTitleEndAt(s, i).value
    ensures ShortTitleEndAt(s, i).Some? ==> exists m: nat, x: nat :: ShortTitleShape(s, i, m, x, ShortTitleEndAt(s, i).value)
    ensures ShortTitleEndAt(s, i).None? ==> forall m: nat, x: nat, j: nat :: !ShortTitleShape(s, i, m, x, j)
  {
    forall m: nat, x: nat, j: nat | ShortTitleShape(s, i, m, x, j)
      ensures ShortTitleEndAt(s, i).Some? && j <= ShortTitleEndAt(s, i).value
    {
      ShortTitleBound(s, i, m, x, j);
    }
    if ShortTitleEndAt(s, i).Some? {
      ShortTitleWitness(s, i);
    }
  }

  /** The end the engine reports for the strict heading pattern at `i`: the match
      ends with an em-dash. */
  function StrictEndAt(s: string, i: nat): (r: Option<nat>)
    requires i <= |s|
    ensures r.Some? ==> i < r.value <= |s| && s[r.value - 1] == EmDash
  {
    if i < |s| && IsDigit(s[i]) then NumberedEndAt(s, i) else ShortTitleEndAt(s, i)
  }

  /** The two alternatives are told apart by the first character: a digit for a
      numbered heading, 'S' for "Short title". */
  lemma StrictAlternatives(s: string, i: nat)
    ensures forall k: nat, m: nat, x: nat, j: nat :: NumberedShape(s, i, k, m, x, j) ==> i < |s| && IsDigit(s[i])
    ensures forall m: nat, x: nat, j: nat :: ShortTitleShape(s, i, m, x, j) ==> i < |s| && s[i] == 'S'
  {
    forall m: nat, x: nat, j: nat | ShortTitleShape(s, i, m, x, j) ensures i < |s| && s[i] == 'S' {
      assert s[i..i + |ShortTitle|][0] == 'S';
    }
    forall k: nat, m: nat, x: nat, j: nat | NumberedShape(s, i, k, m, x, j) ensures i < |s| && IsDigit(s[i]) {
      assert InClass(Digit, s[i]);
    }
  }

  lemma StrictEndAtCorrect(s: string, i: nat)
    requires i <= |s|
    ensures StrictEndAt(s, i).Some? ==> LongestAt(Strict, s, i, StrictEndAt(s, i).value)
    ensures StrictEndAt(s, i).None? ==> forall j: nat :: !Matches(Strict, s, i, j)
  {
    StrictAlternatives(s, i);
    if i < |s| && IsDigit(s[i]) {
      NumberedEndAtCorrect(s, i);
    } else {
      ShortTitleEndAtCorrect(s, i);
    }
  }

  /** The end the engine reports for `\b(\d{1,2})\.` at `i`: one or two digits and
      then a dot. */
  function MarkerEndAt(s: string, i: nat): (r: Option<nat>)
    requires i <= |s|
    ensures r.Some? ==> i + 2 <= r.value <= i + 3 && r.value <= |s| && s[r.value - 1] == '.'
    ensures r.Some? ==> AllIn(s, i, r.value - 1, Digit)
  {
    if !(i < |s| && Boundary(s, i) && IsDigit(s[i])) then None
    else if i + 2 < |s| && IsDigit(s[i + 1]) && s[i + 2] == '.' then Some(i + 3)
    else if i + 1 < |s| && s[i + 1] == '.' then Some(i + 2)
    else None
  }

  /** The end the engine reports for `\b\w+\b` at `i`: the whole run of word
      characters that starts there. */
  function WordEndAt(s: string, i: nat): (r: Option<nat>)
    requires i <= |s|
    ensures r.Some? ==> i < r.value <= |s| && AllIn(s, i, r.value, WordChar)
    ensures r.Some? ==> r.value == |s| || !IsWordChar(s[r.value])
  {
    if i < |s| && IsWordChar(s[i]) && Boundary(s, i) then Some(RunEnd(s, i, WordChar)) else None
  }

  lemma WordEndAtCorrect(s: string, i: nat)
    requires i <= |s|
    ensures WordEndAt(s, i).Some? ==> LongestAt(Word, s, i, WordEndAt(s, i).value)
    ensures WordEndAt(s, i).None? ==> forall j: nat :: !Matches(Word, s, i, j)
  {
    if i < |s| && IsWordChar(s[i]) && Boundary(s, i) {
      var e := RunEnd(s, i, WordChar);
      forall j: nat | WordShape(s, i, j) ensures j <= e {
        RunWithin(s, i, j, WordChar);
      }
    } else {
      forall j: nat | WordShape(s, i, j) ensures false {
      }
    }
  }

  /** The end of the match the engine reports at `i`, if `p` matches there. */
  function MatchEnd(p: Pattern, s: string, i: nat): (r: Option<nat>)
    requires i <= |s|
    ensures r.Some? ==> i < r.value <= |s|
  {
    match p
    case Heading => HeadingEndAt(s, i)
    case Strict => StrictEndAt(s, i)
    case Marker => MarkerEndAt(s, i)
    case Word => WordEndAt(s, i)
  }

  /** The reported end is the longest match at `i`; no end means no match at `i`. */
  lemma MatchEndCorrect(p: Pattern, s: string, i: nat)
    requires i <= |s|
    ensures MatchEnd(p, s, i).Some? ==> LongestAt(p, s, i, MatchEnd(p, s, i).value)
    ensures MatchEnd(p, s, i).None? ==> forall j: nat :: !Matches(p, s, i, j)
  {
    match p
    case Heading => HeadingEndAtCorrect(s, i);
    case Strict => StrictEndAtCorrect(s, i);
    case Marker =>
    case Word => WordEndAtCorrect(s, i);
  }

  // ---------------------------------------------------------------------------
  // Scanning

  /** `pattern.search(s, pos=from)`: the leftmost match starting at or after `from`. */
  function Search(p: Pattern, s: string, from: nat): (r: Option<Span>)
    requires from <= |s|
    ensures r.Some? ==> from <= r.value.start < r.value.end <= |s|
    decreases |s| - from
  {
    if from == |s| then None
    else match MatchEnd(p, s, from)
      case Some(e) => Some(Span(from, e))
      case None => Search(p, s, from + 1)
  }

  /** The search reports the longest match at the leftmost position where `p`
      matches, and nothing when `p` matches nowhere from `from` on. */
  lemma {:induction false} SearchCorrect(p: Pattern, s: string, from: nat)
    requires from <= |s|
    ensures var r := Search(p, s, from);
      && (r.Some? ==> NoMatchIn(p, s, from, r.value.start) && LongestAt(p, s, r.value.start, r.value.end))
      && (r.None? ==> NoMatchIn(p, s, from, |s|))
    decreases |s| - from
  {
    if from < |s| {
      MatchEndCorrect(p, s, from);
      if MatchEnd(p, s, from).None? {
        SearchCorrect(p, s, from + 1);
      }
    }
  }

  /** `spans` is what `finditer` reports from `from` on: the leftmost match, then
      the same again from where that match ends. */
  ghost predicate IsScan(p: Pattern, s: string, from: nat, spans: seq<Span>)
    decreases |spans|
  {
    if spans == [] then NoMatchIn(p, s, from, |s|)
    else
      && from <= spans[0].start
      && NoMatchIn(p, s, from, spans[0].start)
      && LongestAt(p, s, spans[0].start, spans[0].end)
      && IsScan(p, s, spans[0].end, spans[1..])
  }

  /** The spans are non-empty ranges of `s`, at or after `from`, in text order and
      pairwise disjoint. */
  predicate Ordered(s: string, from: nat, spans: seq<Span>) {
    && (forall n :: 0 <= n < |spans| ==> from <= spans[n].start < spans[n].end <= |s|)
    && (forall n :: 0 < n < |spans| ==> spans[n - 1].end <= spans[n].start)
  }

  /** `re.finditer` / `re.findall` from position `from`, as spans. */
  function FindAll(p: Pattern, s: string, from: nat): (r: seq<Span>)
    requires from <= |s|
    ensures Ordered(s, from, r)
    decreases |s| - from
  {
    match Search(p, s, from)
    case None => []
    case Some(sp) => [sp] + FindAll(p, s, sp.end)
  }

  /** What `FindAll` reports is the scan `finditer` performs. */
  lemma {:induction false} FindAllIsScan(p: Pattern, s: string, from: nat)
    requires from <= |s|
    ensures IsScan(p, s, from, FindAll(p, s, from))
    decreases |s| - from
  {
    SearchCorrect(p, s, from);
    match Search(p, s, from)
    case None =>
    case Some(sp) =>
      FindAllIsScan(p, s, sp.end);
      var r := FindAll(p, s, from);
      assert r[0] == sp && r[1..] == FindAll(p, s, sp.end);
  }

  /** The scan is determined by the pattern and the text: at most one list of
      spans satisfies `IsScan`. */
  lemma {:induction false} ScanUnique(p: Pattern, s: string, from: nat, a: seq<Span>, b: seq<Span>)
    requires IsScan(p, s, from, a) && IsScan(p, s, from, b)
    ensures a == b
    decreases |a|
  {
    if a != [] {
      MatchBounds(p, s, a[0].start, a[0].end);
    }
    if b != [] {
      MatchBounds(p, s, b[0].start, b[0].end);
    }
    if a != [] && b != [] {
      assert a[0] == b[0];
      ScanUnique(p, s, a[0].end, a[1..], b[1..]);
    }
  }

  /** The `c`-th span of a scan is the engine's match at its start, and no match
      starts between the previous span's end and it. */
  lemma {:induction false} ScanMatches(p: Pattern, s: string, from: nat, spans: seq<Span>, c: nat)
    requires IsScan(p, s, from, spans) && c < |spans|
    ensures LongestAt(p, s, spans[c].start, spans[c].end)
    ensures NoMatchIn(p, s, if c == 0 then from else spans[c - 1].end, spans[c].start)
    decreases c
  {
    if c > 0 {
      ScanMatches(p, s, spans[0].end, spans[1..], c - 1);
    }
  }

  /** `match.group()` for each span. */
  function Texts(s: string, spans: seq<Span>): (r: seq<string>)
    requires forall n :: 0 <= n < |spans| ==> spans[n].start <= spans[n].end <= |s|
    ensures |r| == |spans|
    ensures forall n :: 0 <= n < |spans| ==> r[n] == s[spans[n].start..spans[n].end]
  {
    seq(|spans|, n requires 0 <= n < |spans| => s[spans[n].start..spans[n].end])
  }
}
