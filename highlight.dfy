/** `highlight_search_keywords`: every case-insensitive occurrence of the keyword
    is wrapped in an orange `<mark>` element. The substitution is described by the
    pieces it cuts the text into: unchanged characters and marked occurrences. */
module Highlight {
  import opened Chars

  const MarkOpen: string := "<mark style=\"background-color: orange\">"
  const MarkClose: string := "</mark>"

  /** What the two tags add around one match. */
  const TagLength: nat := 46

  /** A character the substitution leaves alone, or a match it wraps. */
  datatype Piece = Plain(text: string) | Marked(text: string)

  /** `a` and `b` are equal when case is ignored. */
  predicate EqualIgnoringCase(a: string, b: string) {
    |a| == |b| && forall x :: 0 <= x < |a| ==> Lower(a[x]) == Lower(b[x])
  }

  /** The escaped keyword, matched with `re.IGNORECASE`, matches at `o`. */
  predicate MatchAt(text: string, o: nat, kw: string) {
    o + |kw| <= |text| && EqualIgnoringCase(text[o..o + |kw|], kw)
  }

  /** How `re.sub` scans: the leftmost match, then on from its end; when the keyword
      is empty it matches (emptily) before every character and at the end. Taking
      the marks off again gives back the text. */
  function Pieces(text: string, kw: string): (r: seq<Piece>)
    ensures Unmark(r) == text
    decreases |text|
  {
    if kw == [] then
      if text == [] then [Marked([])]
      else
        var rest := Pieces(text[1..], kw);
        UnmarkGlue(text, 1, Plain([text[0]]), rest);
        UnmarkCons(Marked([]), [Plain([text[0]])] + rest);
        assert [Marked([]), Plain([text[0]])] + rest == [Marked([])] + ([Plain([text[0]])] + rest);
        [Marked([]), Plain([text[0]])] + rest
    else if text == [] then []
    else if MatchAt(text, 0, kw) then
      var rest := Pieces(text[|kw|..], kw);
      UnmarkGlue(text, |kw|, Marked(text[..|kw|]), rest);
      [Marked(text[..|kw|])] + rest
    else
      var rest := Pieces(text[1..], kw);
      UnmarkGlue(text, 1, Plain([text[0]]), rest);
      [Plain([text[0]])] + rest
  }

  /** The output string: marked pieces are wrapped in the mark element, so the
      output is the text plus one opening and one closing tag per mark. */
  function Render(pieces: seq<Piece>): (r: string)
    ensures |r| == |Unmark(pieces)| + TagLength * MarkCount(pieces)
    ensures MarkCount(pieces) == 0 ==> r == Unmark(pieces)
  {
    assert |MarkOpen| + |MarkClose| == TagLength;
    if pieces == [] then []
    else
      match pieces[0]
      case Plain(t) => t + Render(pieces[1..])
      case Marked(t) => MarkOpen + t + MarkClose + Render(pieces[1..])
  }

  /** The pieces with the marks taken off again. */
  function Unmark(pieces: seq<Piece>): string {
    if pieces == [] then [] else pieces[0].text + Unmark(pieces[1..])
  }

  /** The number of marked pieces. */
  function MarkCount(pieces: seq<Piece>): nat {
    if pieces == [] then 0 else (if pieces[0].Marked? then 1 else 0) + MarkCount(pieces[1..])
  }

  /** `highlight_search_keywords(text, keyword)`: the text with 46 characters of
      tags added per match, and the text itself when nothing matches. */
  function HighlightKeyword(text: string, kw: string): (r: string)
    ensures |r| == |text| + TagLength * MarkCount(Pieces(text, kw))
    ensures MarkCount(Pieces(text, kw)) == 0 ==> r == text
  {
    Render(Pieces(text, kw))
  }

  /** Unmarking takes the first piece's text and goes on with the rest. */
  lemma UnmarkCons(first: Piece, rest: seq<Piece>)
    ensures Unmark([first] + rest) == first.text + Unmark(rest)
  {
    assert ([first] + rest)[1..] == rest;
  }

  /** The length of the first piece for a non-empty keyword. */
  function FrontLength(text: string, kw: string): nat {
    if MatchAt(text, 0, kw) then |kw| else 1
  }

  /** With a non-empty keyword, the first piece is the text's first `n`
      characters and the rest are the pieces of `text[n..]`. */
  lemma PiecesFront(text: string, kw: string)
    requires kw != [] && text != []
    ensures var n := FrontLength(text, kw);
      && 0 < n <= |text|
      && Pieces(text, kw) == [Pieces(text, kw)[0]] + Pieces(text[n..], kw)
      && Pieces(text, kw)[0].text == text[..n]
  {
  }

  /** A first piece holding `text[..n]` before pieces that unmark to `text[n..]`
      unmark to `text`. */
  lemma UnmarkGlue(text: string, n: nat, first: Piece, rest: seq<Piece>)
    requires n <= |text| && first.text == text[..n] && Unmark(rest) == text[n..]
    ensures Unmark([first] + rest) == text
  {
    UnmarkCons(first, rest);
    assert text == text[..n] + text[n..];
  }

  /** Offset in the text at which piece `p` starts. */
  function Offset(pieces: seq<Piece>, p: nat): nat
    requires p <= |pieces|
  {
    |Unmark(pieces[..p])|
  }

  /** Unmarking distributes over the first piece. */
  lemma OffsetStep(first: Piece, rest: seq<Piece>, p: nat)
    requires 0 < p <= |rest| + 1
    ensures Offset([first] + rest, p) == |first.text| + Offset(rest, p - 1)
  {
    assert ([first] + rest)[..p][1..] == rest[..p - 1];
  }

  /** `piece` is the text at offset `o`: a marked piece is a match of the keyword
      ignoring case, and, when the keyword is not empty, an unchanged character sits
      where the keyword does not match. */
  predicate PieceFits(text: string, kw: string, piece: Piece, o: nat) {
    && o + |piece.text| <= |text|
    && piece.text == text[o..o + |piece.text|]
    && (piece.Marked? ==> MatchAt(text, o, kw) && |piece.text| == |kw|)
    && (piece.Plain? ==> |piece.text| == 1 && (kw != [] ==> !MatchAt(text, o, kw)))
  }

  /** A piece that fits a suffix of `text` fits `text`, shifted. */
  lemma ShiftFits(text: string, kw: string, n: nat, piece: Piece, o: nat)
    requires n <= |text| && PieceFits(text[n..], kw, piece, o)
    ensures PieceFits(text, kw, piece, n + o)
  {
    ShiftedMatch(text, n, o, kw);
    assert text[n..][o..o + |piece.text|] == text[n + o..n + o + |piece.text|];
  }

  /** The first piece fits at the start of the text. */
  lemma FirstPieceFits(text: string, kw: string)
    requires |Pieces(text, kw)| > 0
    ensures PieceFits(text, kw, Pieces(text, kw)[0], 0)
  {
  }

  /** Putting a piece of length `n` in front of the pieces of `text[n..]` keeps
      every later piece fitting, one place further on. */
  lemma ConsFits(text: string, kw: string, first: Piece, rest: seq<Piece>, p: nat)
    requires |first.text| <= |text| && 0 < p <= |rest|
    requires PieceFits(text[|first.text|..], kw, rest[p - 1], Offset(rest, p - 1))
    ensures PieceFits(text, kw, ([first] + rest)[p], Offset([first] + rest, p))
  {
    OffsetStep(first, rest, p);
    ShiftFits(text, kw, |first.text|, rest[p - 1], Offset(rest, p - 1));
  }

  /** Every piece fits the text at its offset: the pieces are the text, cut at the
      matches of the keyword. */
  lemma {:induction false} PiecesAtOffsets(text: string, kw: string, p: nat)
    requires p < |Pieces(text, kw)|
    ensures PieceFits(text, kw, Pieces(text, kw)[p], Offset(Pieces(text, kw), p))
    decreases |text|
  {
    if p == 0 {
      FirstPieceFits(text, kw);
    } else if kw == [] {
      var rest := Pieces(text[1..], kw);
      var tail := [Plain([text[0]])] + rest;
      assert Pieces(text, kw) == [Marked([])] + tail;
      if p == 1 {
        assert PieceFits(text, kw, tail[0], 0);
      } else {
        PiecesAtOffsets(text[1..], kw, p - 2);
        ConsFits(text, kw, Plain([text[0]]), rest, p - 1);
      }
      assert text[|Marked([]).text|..] == text;
      ConsFits(text, kw, Marked([]), tail, p);
    } else {
      var n := if MatchAt(text, 0, kw) then |kw| else 1;
      var first := Pieces(text, kw)[0];
      var rest := Pieces(text[n..], kw);
      assert Pieces(text, kw) == [first] + rest && |first.text| == n;
      PiecesAtOffsets(text[n..], kw, p - 1);
      ConsFits(text, kw, first, rest, p);
    }
  }

  /** A match inside a suffix of `text` is a match in `text`, shifted. */
  lemma ShiftedMatch(text: string, n: nat, o: nat, kw: string)
    requires n <= |text|
    ensures MatchAt(text[n..], o, kw) <==> MatchAt(text, n + o, kw)
    ensures o <= |text| - n ==> text[n..][o..] == text[n + o..]
  {
    if o + |kw| <= |text| - n {
      assert text[n..][o..o + |kw|] == text[n + o..n + o + |kw|];
    }
  }

  /** A text in which the keyword never matches comes back unchanged. */
  lemma {:induction false} NoMatchUnchanged(text: string, kw: string)
    requires kw != []
    requires forall o :: 0 <= o < |text| ==> !MatchAt(text, o, kw)
    ensures HighlightKeyword(text, kw) == text
    decreases |text|
  {
    if text != [] {
      forall o | 0 <= o < |text| - 1 ensures !MatchAt(text[1..], o, kw) {
        ShiftedMatch(text, 1, o, kw);
      }
      NoMatchUnchanged(text[1..], kw);
      assert [text[0]] + text[1..] == text;
    }
  }

  /** An empty keyword puts an empty mark before every character and one at the
      end: the pieces alternate between empty marks and single characters. */
  lemma {:induction false} EmptyKeywordMarks(text: string)
    ensures |Pieces(text, [])| == 2 * |text| + 1
    ensures forall p :: 0 <= p < |Pieces(text, [])| ==>
      Pieces(text, [])[p] == if p % 2 == 0 then Marked([]) else Plain([text[p / 2]])
    decreases |text|
  {
    if text != [] {
      EmptyKeywordMarks(text[1..]);
      var rest := Pieces(text[1..], []);
      var r := Pieces(text, []);
      assert r == [Marked([]), Plain([text[0]])] + rest;
      forall p | 2 <= p < |r| ensures r[p] == if p % 2 == 0 then Marked([]) else Plain([text[p / 2]]) {
        assert r[p] == rest[p - 2];
        assert (p - 2) % 2 == p % 2 && (p - 2) / 2 + 1 == p / 2;
      }
    }
  }

  /** So an empty keyword inserts `|text| + 1` marks. */
  lemma {:induction false} EmptyKeywordCount(text: string)
    ensures MarkCount(Pieces(text, [])) == |text| + 1
    decreases |text|
  {
    if text != [] {
      EmptyKeywordCount(text[1..]);
      var rest := Pieces(text[1..], []);
      assert ([Marked([]), Plain([text[0]])] + rest)[1..] == [Plain([text[0]])] + rest;
      assert ([Plain([text[0]])] + rest)[1..] == rest;
    }
  }
}
