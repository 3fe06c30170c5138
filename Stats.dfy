/** The integer statistics of `library_stats`: the word count of a text
    (`len(text.split())`) and, per paragraph of a text, the number of pieces
    `re.split(r' |—', paragraph)` yields. */
module Stats {
  import opened Text
  import Cleaning

  const EmDash: char := '—'

  /** `len(text.split())`. */
  function WordCount(text: string): nat {
    |Words(text)|
  }

  /** The word count is the number of places where a non-whitespace
      character starts the text or follows whitespace. */
  lemma WordCountStarts(text: string)
    ensures WordCount(text) == WordStarts(text, true)
  {
    WordCountIsWordStarts(text);
  }

  /** Words written out with single spaces between them are counted one by one. */
  lemma WordCountOfJoin(ws: seq<string>)
    requires forall w :: w in ws ==> w != [] && NoSpace(w)
    ensures WordCount(JoinWith(ws, " ")) == |ws|
  {
    WordsOfJoin(ws);
  }

  /** A cleaned text has words exactly when the cleaning kept a paragraph:
      a kept paragraph is not a heading, so it holds a character that is
      neither whitespace nor a heading character. */
  lemma CleanHasWords(text: string)
    ensures WordCount(Cleaning.Clean(text)) > 0 <==> Cleaning.KeptParagraphs(text) != []
  {
    var kept := Cleaning.KeptParagraphs(text);
    if kept != [] {
      var p := kept[0];
      Cleaning.KeptParagraphsExact(text);
      assert p in kept;
      var i :| 0 <= i < |p| && !Cleaning.IsHeadingChar(p[i]);
      var clean := Cleaning.Clean(text);
      assert clean[i] == p[i] by {
        if |kept| > 1 {
          assert clean == p + Cleaning.BlankLine + JoinWith(kept[1..], Cleaning.BlankLine);
        }
      }
      WordsNonEmpty(clean, i);
    }
  }

  /** One position of `r' |—'`: a space or an em dash. */
  predicate IsPieceBreak(c: char) {
    c == ' ' || c == EmDash
  }

  /** `re.split(r' |—', p)`: cut at every space and every em dash, keeping
      the empty pieces between adjacent separators and at the ends. */
  function Pieces(p: string): (ps: seq<string>)
    ensures |ps| >= 1
  {
    if p == [] then [""]
    else
      var rest := Pieces(p[1..]);
      if IsPieceBreak(p[0]) then [""] + rest
      else [[p[0]] + rest[0]] + rest[1..]
  }

  predicate NoPieceBreak(q: string) {
    forall i :: 0 <= i < |q| ==> !IsPieceBreak(q[i])
  }

  /** No piece holds a space or an em dash. */
  lemma {:induction false} PiecesFree(p: string)
    ensures forall k :: 0 <= k < |Pieces(p)| ==> NoPieceBreak(Pieces(p)[k])
  {
    if p != [] {
      PiecesFree(p[1..]);
      var rest := Pieces(p[1..]);
      if !IsPieceBreak(p[0]) {
        var first := [p[0]] + rest[0];
        assert NoPieceBreak(first) by {
          forall i | 0 <= i < |first| ensures !IsPieceBreak(first[i]) {
            if i > 0 { assert first[i] == rest[0][i - 1]; }
          }
        }
      }
    }
  }

  /** Number of spaces and em dashes in `p`. */
  function BreakCount(p: string): nat {
    if p == [] then 0 else (if IsPieceBreak(p[0]) then 1 else 0) + BreakCount(p[1..])
  }

  /** A paragraph has one piece more than it has separators. */
  lemma {:induction false} PieceCount(p: string)
    ensures |Pieces(p)| == 1 + BreakCount(p)
  {
    if p != [] {
      PieceCount(p[1..]);
    }
  }

  /** Joining the pieces back with a space gives the paragraph with every
      em dash turned into a space: the split loses nothing but which
      separator it was. */
  lemma {:induction false} PiecesJoin(p: string)
    ensures JoinWith(Pieces(p), " ") == SpacedOut(p)
  {
    if p != [] {
      PiecesJoin(p[1..]);
      var rest := Pieces(p[1..]);
      if IsPieceBreak(p[0]) {
        JoinCons("", rest, " ");
      } else {
        JoinGlue(p[0], rest);
      }
    }
  }

  /** Gluing a character to the front of the first piece puts it in front of
      the joined text. */
  lemma JoinGlue(c: char, rest: seq<string>)
    requires rest != []
    ensures JoinWith([[c] + rest[0]] + rest[1..], " ") == [c] + JoinWith(rest, " ")
  {
    if |rest| > 1 {
      assert rest == [rest[0]] + rest[1..];
      JoinCons(rest[0], rest[1..], " ");
      JoinCons([c] + rest[0], rest[1..], " ");
    }
  }

  /** `p` with every em dash replaced by a space. */
  function SpacedOut(p: string): (r: string)
    ensures |r| == |p|
  {
    if p == [] then [] else [if IsPieceBreak(p[0]) then ' ' else p[0]] + SpacedOut(p[1..])
  }

  /** `text.split('\n\n')` then the piece count of each paragraph, as the
      `words` column of `parlength` holds it. */
  function PieceCounts(text: string): (cs: seq<nat>)
    ensures |cs| == |SplitOn(text, "\n\n")|
    ensures forall i :: 0 <= i < |cs| ==> cs[i] == 1 + BreakCount(SplitOn(text, "\n\n")[i])
  {
    var paras := SplitOn(text, "\n\n");
    seq(|paras|, i requires 0 <= i < |paras| => PieceCountOf(paras[i]))
  }

  /** The piece count of one paragraph, with its value. */
  function PieceCountOf(p: string): (c: nat)
    ensures c == 1 + BreakCount(p)
  {
    PieceCount(p);
    |Pieces(p)|
  }

  /** `parlength` of a cleaned text counts the pieces of exactly the
      paragraphs the cleaning kept, in order; with none kept it sees one
      empty paragraph of one piece. */
  lemma CleanPieceCounts(text: string)
    ensures var kept := Cleaning.KeptParagraphs(text);
      var cs := PieceCounts(Cleaning.Clean(text));
      && (kept != [] ==> |cs| == |kept| && forall m :: 0 <= m < |kept| ==> cs[m] == 1 + BreakCount(kept[m]))
      && (kept == [] ==> cs == [1])
  {
    Cleaning.CleanSplitsBack(text);
  }
}
