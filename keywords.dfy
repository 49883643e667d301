/** `extract_keywords` and the keyword comparison of `suggest_bare_acts`. */
module Keywords {
  import opened Wrappers
  import opened Chars
  import opened Text
  import opened Patterns
  import opened Extraction

  /** The words `extract_keywords` drops. */
  const Stopwords: set<string> := {
    "a", "an", "and", "are", "as", "at", "be", "but", "by", "for", "if",
    "in", "into", "is", "it", "no", "not", "of", "on", "or", "such",
    "that", "the", "their", "then", "there", "these", "they", "this",
    "to", "was", "will", "with"
  }

  /** A non-empty run of word characters. */
  predicate IsWord(w: string) {
    |w| > 0 && forall x :: 0 <= x < |w| ==> IsWordChar(w[x])
  }

  /** `re.findall(r'\b\w+\b', s)`: every token is a non-empty run of word
      characters. */
  function Tokens(s: string): (r: seq<string>)
    ensures forall c :: 0 <= c < |r| ==> IsWord(r[c])
  {
    MatchTextsAreWords(s);
    Texts(s, FindAll(Word, s, 0))
  }

  /** The text of every `\b\w+\b` match is a word. */
  lemma MatchTextsAreWords(s: string)
    ensures forall c :: 0 <= c < |Texts(s, FindAll(Word, s, 0))| ==> IsWord(Texts(s, FindAll(Word, s, 0))[c])
  {
    var spans := FindAll(Word, s, 0);
    var r := Texts(s, spans);
    forall c | 0 <= c < |r| ensures IsWord(r[c]) {
      TokenIsMatch(s, c);
      var i := spans[c].start;
      assert r[c] == s[i..spans[c].end];
      forall x | 0 <= x < |r[c]| ensures IsWordChar(r[c][x]) {
        assert InClass(WordChar, s[i + x]);
      }
    }
  }

  /** `w.isdigit()`: non-empty and made of digits only. */
  predicate IsAllDigits(w: string) {
    |w| > 0 && forall x :: 0 <= x < |w| ==> IsDigit(w[x])
  }

  /** The condition of the list comprehension: not a stopword and not a number. */
  predicate Kept(w: string) {
    w !in Stopwords && !IsAllDigits(w)
  }

  /** `[word for word in words if word not in stopwords and not word.isdigit()]`. */
  function Filter(words: seq<string>): (r: seq<string>)
    ensures |r| <= |words|
    ensures forall x :: 0 <= x < |r| ==> Kept(r[x]) && r[x] in words
  {
    if words == [] then []
    else if Kept(words[0]) then [words[0]] + Filter(words[1..])
    else Filter(words[1..])
  }

  /** `extract_keywords(text)`: every keyword is a kept token of the lower-cased
      text. */
  function ExtractKeywords(text: string): (r: seq<string>)
    ensures forall x :: 0 <= x < |r| ==> Kept(r[x]) && r[x] in Tokens(LowerStr(text))
  {
    Filter(Tokens(LowerStr(text)))
  }

  /** `set(extract_keywords(a)) & set(extract_keywords(b))`. */
  function CommonKeywords(a: string, b: string): (r: set<string>)
    ensures forall w :: w in r ==> w in ExtractKeywords(a) && w in ExtractKeywords(b)
    ensures forall w :: w in ExtractKeywords(a) && w in ExtractKeywords(b) ==> w in r
  {
    (set w | w in ExtractKeywords(a)) * (set w | w in ExtractKeywords(b))
  }

  /** The filter keeps the kept words in their order, with their repetitions: it
      distributes over concatenation. */
  lemma {:induction false} FilterAppend(a: seq<string>, b: seq<string>)
    ensures Filter(a + b) == Filter(a) + Filter(b)
  {
    if a != [] {
      assert (a + b)[0] == a[0] && (a + b)[1..] == a[1..] + b;
      FilterAppend(a[1..], b);
    } else {
      assert a + b == b;
    }
  }

  /** A kept word occurs in the output as often as in the input; any other word
      does not occur at all. */
  lemma {:induction false} FilterCount(words: seq<string>, w: string)
    ensures multiset(Filter(words))[w] == if Kept(w) then multiset(words)[w] else 0
  {
    if words != [] {
      assert words == [words[0]] + words[1..];
      FilterCount(words[1..], w);
    }
  }

  /** A word is in the output exactly when it is in the input and kept. */
  lemma FilterMembership(words: seq<string>, w: string)
    ensures w in Filter(words) <==> w in words && Kept(w)
  {
    FilterCount(words, w);
    assert w in Filter(words) <==> multiset(Filter(words))[w] > 0;
    assert w in words <==> multiset(words)[w] > 0;
  }

  /** A word is a non-empty run of word characters without capital letters. */
  predicate IsLowerWord(w: string) {
    |w| > 0 && forall x :: 0 <= x < |w| ==> IsWordChar(w[x]) && !('A' <= w[x] <= 'Z')
  }

  /** Token `c` of `s` is a `\b\w+\b` match in `s`. */
  lemma TokenIsMatch(s: string, c: nat)
    requires c < |FindAll(Word, s, 0)|
    ensures WordShape(s, FindAll(Word, s, 0)[c].start, FindAll(Word, s, 0)[c].end)
  {
    FindAllIsScan(Word, s, 0);
    ScanMatches(Word, s, 0, FindAll(Word, s, 0), c);
  }

  /** Every token of a lower-cased text is a lower-case word. */
  lemma LowerTokenIsLowerWord(t: string, c: nat)
    requires c < |Tokens(LowerStr(t))|
    ensures IsLowerWord(Tokens(LowerStr(t))[c])
  {
    var s := LowerStr(t);
    var spans := FindAll(Word, s, 0);
    var i, j := spans[c].start, spans[c].end;
    TokenIsMatch(s, c);
    var w := Tokens(s)[c];
    assert w == s[i..j];
    forall x | 0 <= x < |w| ensures IsWordChar(w[x]) && !('A' <= w[x] <= 'Z') {
      assert w[x] == s[i + x] == Lower(t[i + x]);
      assert InClass(WordChar, s[i + x]);
    }
  }

  /** Every keyword is a lower-case word that is neither a stopword nor a number. */
  lemma KeywordsClean(text: string)
    ensures forall w :: w in ExtractKeywords(text) ==> Kept(w) && IsLowerWord(w)
  {
    var tokens := Tokens(LowerStr(text));
    forall w | w in ExtractKeywords(text) ensures Kept(w) && IsLowerWord(w) {
      FilterMembership(tokens, w);
      var c :| 0 <= c < |tokens| && tokens[c] == w;
      LowerTokenIsLowerWord(text, c);
    }
  }

  /** Keywords are insensitive to case: a text and its lower-cased form give the
      same list. */
  lemma KeywordsIgnoreCase(text: string)
    ensures ExtractKeywords(LowerStr(text)) == ExtractKeywords(text)
  {
    LowerStrIdempotent(text);
  }

  /** A word is common to both texts exactly when it is kept and is a token of
      both lower-cased texts. */
  lemma CommonKeywordsMembership(a: string, b: string, w: string)
    ensures w in CommonKeywords(a, b) <==> Kept(w) && w in Tokens(LowerStr(a)) && w in Tokens(LowerStr(b))
  {
    FilterMembership(Tokens(LowerStr(a)), w);
    FilterMembership(Tokens(LowerStr(b)), w);
  }

  /** The comparison does not depend on which text is the uploaded one, and its
      result is part of each side's keywords. */
  lemma CommonKeywordsSymmetric(a: string, b: string)
    ensures CommonKeywords(a, b) == CommonKeywords(b, a)
    ensures forall w :: w in CommonKeywords(a, b) ==> w in ExtractKeywords(a) && w in ExtractKeywords(b)
  {
  }

  /** The outcome of `suggest_bare_acts`: the reference document is missing, or the
      set of common keywords (empty when the application reports that none were
      found). */
  datatype Suggestion = ReferenceMissing | Common(words: set<string>)

  /** The page texts of the reference document joined without separator: as long
      as the pages together. */
  function Concat(pages: seq<string>): (r: string)
    ensures |r| == TotalLength(pages)
  {
    if pages == [] then [] else Concat(pages[..|pages| - 1]) + pages[|pages| - 1]
  }

  /** The reference text is the page texts back to back: joining distributes over
      concatenation of page lists, and one page is its own text. */
  lemma {:induction false} ConcatAppend(a: seq<string>, b: seq<string>)
    ensures Concat(a + b) == Concat(a) + Concat(b)
    ensures |a| == 1 ==> Concat(a) == a[0]
    decreases |b|
  {
    if b == [] {
      assert a + b == a;
    } else {
      var b' := b[..|b| - 1];
      assert (a + b)[..|a + b| - 1] == a + b';
      ConcatAppend(a, b');
    }
    if |a| == 1 {
      assert a[..0] == [];
    }
  }

  /** `suggest_bare_acts`: the reference document is given as its page texts, or as
      `None` when the file does not exist. */
  method SuggestBareActs(uploadedText: string, reference: Option<seq<string>>) returns (r: Suggestion)
    ensures reference.None? <==> r.ReferenceMissing?
    ensures reference.Some? ==> r == Common(CommonKeywords(uploadedText, Concat(reference.value)))
  {
    if reference.None? {
      return ReferenceMissing;
    }
    var pages := reference.value;
    var referenceText := "";
    for n := 0 to |pages|
      invariant referenceText == Concat(pages[..n])
    {
      assert pages[..n + 1][..n] == pages[..n];
      referenceText := referenceText + pages[n];
    }
    assert pages[..|pages|] == pages;
    r := Common(CommonKeywords(uploadedText, referenceText));
  }

  /** `" ".join(words)`. */
  function JoinWords(words: seq<string>): string {
    if words == [] then []
    else if |words| == 1 then words[0]
    else words[0] + " " + JoinWords(words[1..])
  }

  /** Extracting keywords is idempotent: the keywords of a text, joined with spaces,
      have themselves as keywords. */
  lemma KeywordsIdempotent(text: string)
    ensures ExtractKeywords(JoinWords(ExtractKeywords(text))) == ExtractKeywords(text)
  {
    KeywordsClean(text);
    JoinedKeywords(ExtractKeywords(text));
  }

  /** Kept lower-case words joined with spaces have exactly themselves as
      keywords. */
  lemma JoinedKeywords(words: seq<string>)
    requires forall w :: w in words ==> Kept(w) && IsLowerWord(w)
    ensures ExtractKeywords(JoinWords(words)) == words
  {
    var s := JoinWords(words);
    JoinHasNoCapitals(words);
    LowerStrFixes(s);
    JoinTokens(s, words, 0, 0);
    FilterKeepsKept(words);
  }

  /** A list of kept words passes the filter unchanged. */
  lemma {:induction false} FilterKeepsKept(words: seq<string>)
    requires forall w :: w in words ==> Kept(w)
    ensures Filter(words) == words
  {
    if words != [] {
      FilterKeepsKept(words[1..]);
    }
  }

  /** Lower-case words joined with spaces contain no capital letter. */
  lemma {:induction false} JoinHasNoCapitals(words: seq<string>)
    requires forall w :: w in words ==> IsLowerWord(w)
    ensures forall t :: 0 <= t < |JoinWords(words)| ==> !('A' <= JoinWords(words)[t] <= 'Z')
  {
    if |words| > 1 {
      JoinHasNoCapitals(words[1..]);
      var w, rest := words[0], JoinWords(words[1..]);
      assert JoinWords(words) == w + " " + rest;
      assert w in words && IsLowerWord(w);
      forall t | 0 <= t < |JoinWords(words)| ensures !('A' <= JoinWords(words)[t] <= 'Z') {
        if t < |w| {
          assert JoinWords(words)[t] == w[t];
        } else if t > |w| {
          assert JoinWords(words)[t] == rest[t - |w| - 1];
        }
      }
    } else if |words| == 1 {
      assert words[0] in words;
    }
  }

  /** The first word of a joined list, the blank after it and the rest. */
  lemma JoinWordsFront(words: seq<string>)
    requires words != []
    ensures var s, w := JoinWords(words), words[0];
      && |w| <= |s| && s[..|w|] == w
      && (|words| == 1 ==> |s| == |w|)
      && (|words| > 1 ==> |w| < |s| && s[|w|] == ' ' && s[|w| + 1..] == JoinWords(words[1..]))
  {
    if |words| > 1 {
      var w, rest := words[0], JoinWords(words[1..]);
      assert JoinWords(words) == w + " " + rest;
      assert (w + " " + rest)[|w| + 1..] == rest;
    }
  }

  /** A non-word character is skipped by the word scan. */
  lemma SkipNonWord(s: string, from: nat)
    requires from < |s| && !IsWordChar(s[from])
    ensures FindAll(Word, s, from) == FindAll(Word, s, from + 1)
  {
    assert Search(Word, s, from) == Search(Word, s, from + 1);
  }

  /** A whole run of word characters at `p` is the next token. */
  lemma WordRunAt(s: string, p: nat, e: nat)
    requires p < e <= |s| && (p == 0 || !IsWordChar(s[p - 1]))
    requires IsWord(s[p..e])
    requires e == |s| || !IsWordChar(s[e])
    ensures FindAll(Word, s, p) == [Span(p, e)] + FindAll(Word, s, e)
  {
    forall x | p <= x < e ensures InClass(WordChar, s[x]) {
      assert s[x] == s[p..e][x - p];
    }
    RunWithin(s, p, e, WordChar);
    assert RunEnd(s, p, WordChar) == e;
    assert Search(Word, s, p) == Some(Span(p, e));
  }

  /** The texts of a span followed by more spans. */
  lemma TextsCons(s: string, sp: Span, rest: seq<Span>)
    requires sp.start <= sp.end <= |s|
    requires forall n :: 0 <= n < |rest| ==> rest[n].start <= rest[n].end <= |s|
    ensures Texts(s, [sp] + rest) == [s[sp.start..sp.end]] + Texts(s, rest)
  {
    var all := [sp] + rest;
    assert forall n :: 0 < n < |all| ==> all[n] == rest[n - 1];
  }

  /** Where the first word of a joined list sits in a text that holds the list
      from `p` on. */
  lemma JoinedAt(s: string, words: seq<string>, p: nat)
    requires words != [] && p <= |s| && s[p..] == JoinWords(words)
    ensures var e := p + |words[0]|;
      && e <= |s| && s[p..e] == words[0]
      && (|words| == 1 ==> e == |s|)
      && (|words| > 1 ==> e < |s| && s[e] == ' ' && s[e + 1..] == JoinWords(words[1..]))
  {
    var w := words[0];
    var e := p + |w|;
    JoinWordsFront(words);
    assert s[p..][..|w|] == s[p..e];
    if |words| > 1 {
      assert s[e] == s[p..][|w|];
      assert s[e + 1..] == s[p..][|w| + 1..];
    }
  }

  /** A word at `p`, followed by a non-word character or the end of the text,
      is the first token from `p` on. */
  lemma FirstToken(s: string, words: seq<string>, p: nat)
    requires words != [] && IsWord(words[0])
    requires p + |words[0]| <= |s| && s[p..p + |words[0]|] == words[0]
    requires p == 0 || !IsWordChar(s[p - 1])
    requires p + |words[0]| == |s| || !IsWordChar(s[p + |words[0]|])
    requires Texts(s, FindAll(Word, s, p + |words[0]|)) == words[1..]
    ensures Texts(s, FindAll(Word, s, p)) == words
  {
    var e := p + |words[0]|;
    var rest := FindAll(Word, s, e);
    WordRunAt(s, p, e);
    TextsCons(s, Span(p, e), rest);
    var first := Texts(s, FindAll(Word, s, p));
    assert first == [s[p..e]] + Texts(s, rest);
    assert first == [words[0]] + words[1..];
    assert [words[0]] + words[1..] == words;
  }

  /** Scanning words joined with spaces, from the start of the joined text (or the
      non-word character just before it), gives back the words. */
  lemma {:induction false} JoinTokens(s: string, words: seq<string>, p: nat, from: nat)
    requires forall w :: w in words ==> IsWord(w)
    requires p <= |s| && s[p..] == JoinWords(words)
    requires p == 0 || !IsWordChar(s[p - 1])
    requires from == p || from + 1 == p
    ensures Texts(s, FindAll(Word, s, from)) == words
    decreases |words|, p - from
  {
    if from < p {
      SkipNonWord(s, from);
      JoinTokens(s, words, p, p);
    } else if words == [] {
      assert FindAll(Word, s, from) == [];
    } else {
      var e := p + |words[0]|;
      assert words[0] in words;
      JoinedAt(s, words, p);
      if |words| > 1 {
        assert forall w :: w in words[1..] ==> w in words;
        JoinTokens(s, words[1..], e + 1, e);
      } else {
        assert FindAll(Word, s, e) == [];
      }
      FirstToken(s, words, p);
    }
  }
}
