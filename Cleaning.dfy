/** The cleaning half of `get_and_clean_text`, from the header-stripped text
    of a book to the cleaned text: line breaks inside paragraphs become
    spaces, runs of three or more line breaks become a blank line, the text
    is cut into paragraphs at blank lines, headings, chapter markers,
    one-word paragraphs and boilerplate are dropped, and the rest is joined
    back with blank lines. */
module Cleaning {
  import opened Text
  import opened Seqs

  const Break: char := '\n'
  const BlankLine: string := "\n\n"

  // ---------------------------------------------------------------------
  // re.sub('(?<=[^\n])\n{1}(?=[^\n])', ' ', text)

  /** The line feed at `k` has a character on each side and neither is a
      line feed. */
  predicate IsLoneBreak(s: string, k: nat)
    requires k < |s|
  {
    s[k] == Break && 0 < k < |s| - 1 && s[k - 1] != Break && s[k + 1] != Break
  }

  /** No line feed stands alone between two other characters. */
  predicate NoLoneBreak(s: string) {
    forall k :: 0 < k < |s| - 1 && s[k] == Break ==> s[k - 1] == Break || s[k + 1] == Break
  }

  /** Every lone line feed becomes a space; lookbehind and lookahead read the
      original text, so each line feed is judged on its original neighbours. */
  function JoinLines(s: string): (r: string)
    ensures |r| == |s|
    ensures forall k :: 0 <= k < |s| && s[k] != Break ==> r[k] == s[k]
    ensures forall k :: 0 <= k < |s| && r[k] != s[k] ==> s[k] == Break && r[k] == ' '
    ensures forall k :: (0 <= k < |s| && s[k] == Break &&
      (k == 0 || k == |s| - 1 || s[k - 1] == Break || s[k + 1] == Break)) ==> r[k] == Break
    ensures NoLoneBreak(r)
  {
    seq(|s|, k requires 0 <= k < |s| => if IsLoneBreak(s, k) then ' ' else s[k])
  }

  /** A text without lone line feeds is left as it is. */
  lemma JoinLinesKeeps(s: string)
    requires NoLoneBreak(s)
    ensures JoinLines(s) == s
  {
  }

  // ---------------------------------------------------------------------
  // re.sub('[\n]{3,}', '\n\n', text)

  /** Length of the run of line feeds at the front of `s`. */
  function BreakRun(s: string): (k: nat)
    ensures k <= |s|
    ensures forall i :: 0 <= i < k ==> s[i] == Break
    ensures k < |s| ==> s[k] != Break
  {
    if s == [] || s[0] != Break then 0 else 1 + BreakRun(s[1..])
  }

  /** No three line feeds in a row. */
  predicate NoTriple(s: string) {
    forall k :: 0 <= k < |s| - 2 ==> !(s[k] == Break && s[k + 1] == Break && s[k + 2] == Break)
  }

  /** The characters of `s` other than line feeds, in order. */
  function Unbroken(s: string): string {
    if s == [] then []
    else (if s[0] == Break then [] else [s[0]]) + Unbroken(s[1..])
  }

  /** Every maximal run of three or more line feeds becomes exactly two; the
      rest of the text is copied. */
  function CollapseBreaks(s: string): (r: string)
    ensures NoTriple(r)
    ensures s == [] <==> r == []
    ensures s != [] && s[0] != Break ==> r[0] == s[0]
    ensures Unbroken(r) == Unbroken(s)
    decreases |s|
  {
    if s == [] then []
    else if s[0] != Break then
      var rest := CollapseBreaks(s[1..]);
      NoTripleCons(s[0], rest);
      [s[0]] + rest
    else
      var k := BreakRun(s);
      var rest := CollapseBreaks(s[k..]);
      var run := if k >= 3 then BlankLine else s[..k];
      NoTripleAfterRun(run, rest);
      UnbrokenRun(run, rest);
      UnbrokenRun(s[..k], s[k..]);
      assert s == s[..k] + s[k..];
      run + rest
  }

  /** A character that is not a line feed in front keeps a text free of
      triple line feeds. */
  lemma NoTripleCons(c: char, s: string)
    requires c != Break && NoTriple(s)
    ensures NoTriple([c] + s)
  {
    var t := [c] + s;
    forall k | 0 <= k < |t| - 2 ensures !(t[k] == Break && t[k + 1] == Break && t[k + 2] == Break) {
      if k > 0 { assert t[k] == s[k - 1] && t[k + 1] == s[k] && t[k + 2] == s[k + 1]; }
    }
  }

  /** At most two line feeds in front of a text that starts otherwise keep it
      free of triple line feeds. */
  lemma NoTripleAfterRun(run: string, s: string)
    requires |run| <= 2 && forall i :: 0 <= i < |run| ==> run[i] == Break
    requires NoTriple(s) && (s == [] || s[0] != Break)
    ensures NoTriple(run + s)
  {
    var t := run + s;
    forall k | 0 <= k < |t| - 2 ensures !(t[k] == Break && t[k + 1] == Break && t[k + 2] == Break) {
      if k >= |run| {
        assert t[k] == s[k - |run|] && t[k + 1] == s[k + 1 - |run|] && t[k + 2] == s[k + 2 - |run|];
      } else {
        assert t[|run|] == s[0];
      }
    }
  }

  /** Line feeds in front contribute nothing to `Unbroken`. */
  lemma {:induction false} UnbrokenRun(run: string, s: string)
    requires forall i :: 0 <= i < |run| ==> run[i] == Break
    ensures Unbroken(run + s) == Unbroken(s)
  {
    if run != [] {
      assert (run + s)[0] == run[0] == Break;
      assert (run + s)[1..] == run[1..] + s;
      assert Unbroken(run + s) == Unbroken(run[1..] + s);
      UnbrokenRun(run[1..], s);
    } else {
      assert run + s == s;
    }
  }

  /** A text without triple line feeds is left as it is. */
  lemma {:induction false} CollapseKeeps(s: string)
    requires NoTriple(s)
    ensures CollapseBreaks(s) == s
    decreases |s|
  {
    if s != [] {
      if s[0] != Break {
        assert NoTriple(s[1..]) by {
          forall k | 0 <= k < |s| - 3 ensures !(s[1..][k] == Break && s[1..][k + 1] == Break && s[1..][k + 2] == Break) {
            assert s[1..][k] == s[k + 1];
          }
        }
        CollapseKeeps(s[1..]);
      } else {
        var k := BreakRun(s);
        assert k <= 2 by {
          if |s| >= 3 { assert !(s[0] == Break && s[1] == Break && s[2] == Break); }
        }
        assert NoTriple(s[k..]) by {
          forall i | 0 <= i < |s| - k - 2 ensures !(s[k..][i] == Break && s[k..][i + 1] == Break && s[k..][i + 2] == Break) {
            assert s[k..][i] == s[k + i];
          }
        }
        CollapseKeeps(s[k..]);
        assert s == s[..k] + s[k..];
      }
    }
  }

  /** `k` line feeds. */
  function Breaks(k: nat): (r: string)
    ensures |r| == k && forall i :: 0 <= i < k ==> r[i] == Break
  {
    seq(k, i => Break)
  }

  /** `BreakRun` is the one length whose prefix is all line feeds and which
      a character other than a line feed (or the end) follows. */
  lemma {:induction false} BreakRunIs(s: string, k: nat)
    requires k <= |s| && (forall i :: 0 <= i < k ==> s[i] == Break)
    requires k < |s| ==> s[k] != Break
    ensures BreakRun(s) == k
    decreases k
  {
    if k > 0 {
      BreakRunIs(s[1..], k - 1);
    }
  }

  /** A character other than a line feed in front is copied. */
  lemma CollapseCons(c: char, t: string)
    requires c != Break
    ensures CollapseBreaks([c] + t) == [c] + CollapseBreaks(t)
  {
    assert ([c] + t)[1..] == t;
  }

  /** A maximal run of line feeds in front becomes a blank line when it is
      three or longer and stays as it is otherwise. */
  lemma CollapseFront(r: string, t: string)
    requires r != [] && forall i :: 0 <= i < |r| ==> r[i] == Break
    requires t == [] || t[0] != Break
    ensures CollapseBreaks(r + t) == Breaks(if |r| >= 3 then 2 else |r|) + CollapseBreaks(t)
  {
    var s := r + t;
    BreakRunIs(s, |r|);
    assert s[..|r|] == r && s[|r|..] == t;
    assert BlankLine == Breaks(2);
    assert |r| < 3 ==> r == Breaks(|r|);
  }

  /** Text after a character other than a line feed is collapsed on its own:
      no run crosses that point. */
  lemma {:induction false} CollapseAppend(x: string, t: string)
    requires x == [] || x[|x| - 1] != Break
    ensures CollapseBreaks(x + t) == CollapseBreaks(x) + CollapseBreaks(t)
    decreases |x|
  {
    if x == [] {
      assert x + t == t;
    } else if x[0] != Break {
      var x1 := x[1..];
      assert x == [x[0]] + x1;
      CollapseAppend(x1, t);
      Regroup([x[0]], x1, t);
      CollapseCons(x[0], x1 + t);
      CollapseCons(x[0], x1);
      Regroup([x[0]], CollapseBreaks(x1), CollapseBreaks(t));
    } else {
      var j := BreakRun(x);
      var front, x1 := x[..j], x[j..];
      assert x == front + x1;
      CollapseAppend(x1, t);
      Regroup(front, x1, t);
      CollapseFront(front, x1 + t);
      CollapseFront(front, x1);
      Regroup(Breaks(if j >= 3 then 2 else j), CollapseBreaks(x1), CollapseBreaks(t));
    }
  }

  /** The rule of the substitution, run by run: a maximal run of `k` line
      feeds between `x` and `y` becomes a blank line when `k >= 3` and stays
      as it is otherwise, and the text on either side is collapsed on its
      own. */
  lemma CollapseRun(x: string, k: nat, y: string)
    requires k >= 1
    requires x == [] || x[|x| - 1] != Break
    requires y == [] || y[0] != Break
    ensures CollapseBreaks(x + Breaks(k) + y) ==
      CollapseBreaks(x) + Breaks(if k >= 3 then 2 else k) + CollapseBreaks(y)
  {
    var mid := Breaks(k);
    Regroup(x, mid, y);
    CollapseAppend(x, mid + y);
    CollapseFront(mid, y);
    Regroup(CollapseBreaks(x), Breaks(if k >= 3 then 2 else k), CollapseBreaks(y));
  }

  /** Collapsing twice is collapsing once. */
  lemma CollapseIdempotent(s: string)
    ensures CollapseBreaks(CollapseBreaks(s)) == CollapseBreaks(s)
  {
    CollapseKeeps(CollapseBreaks(s));
  }

  // ---------------------------------------------------------------------
  // The paragraph filter: '|'.join(patterns) searched in each paragraph

  /** `\w` below U+0250: an ASCII letter, digit or underscore, a letter
      from U+00C0 to U+024F, or one of the Latin-1 characters Python counts
      as alphanumeric (the ordinal indicators, micro sign, superscript digits
      and vulgar fractions).  Every character from U+0250 on counts as
      non-word here, letters included. */
  predicate IsWordChar(c: char) {
    ('a' <= c <= 'z') || ('A' <= c <= 'Z') || ('0' <= c <= '9') || c == '_'
    || c == '\U{AA}' || c == '\U{B2}' || c == '\U{B3}' || c == '\U{B5}' || c == '\U{B9}' || c == '\U{BA}'
    || ('\U{BC}' <= c <= '\U{BE}')
    || ('\U{C0}' <= c <= '\U{24F}' && c != '\U{D7}' && c != '\U{F7}')
  }

  /** `[A-Z\s\W\d]`. */
  predicate IsHeadingChar(c: char) {
    ('A' <= c <= 'Z') || IsSpace(c) || !IsWordChar(c) || ('0' <= c <= '9')
  }

  predicate IsAsciiLetter(c: char) {
    ('a' <= c <= 'z') || ('A' <= c <= 'Z')
  }

  /** `^$`: `$` also matches just before a final line feed. */
  predicate IsBlank(p: string) {
    p == [] || p == [Break]
  }

  /** `^[A-Z\s\W\d]+$`: nothing but capitals, digits, whitespace and
      punctuation (a line feed is whitespace, so the final-line-feed case of
      `$` adds nothing). */
  predicate IsHeading(p: string) {
    p != [] && forall i :: 0 <= i < |p| ==> IsHeadingChar(p[i])
  }

  /** `^Chapter`, `^CHAPTER`, `^\s+Chapter`. */
  predicate IsChapterMarker(p: string) {
    "Chapter" <= p || "CHAPTER" <= p
    || exists k :: 1 <= k <= |p| && (forall i :: 0 <= i < k ==> IsSpace(p[i])) && "Chapter" <= p[k..]
  }

  /** `^[A-Za-z]+$`: one run of ASCII letters, optionally followed by a final
      line feed. */
  predicate IsSingleWord(p: string) {
    var body := if p != [] && p[|p| - 1] == Break then p[..|p| - 1] else p;
    body != [] && forall i :: 0 <= i < |body| ==> IsAsciiLetter(body[i])
  }

  /** `Gutenberg`, `Illustration`, `Online Distributed Proofreading Team`,
      `.jpg` (any character but a line feed, then `jpg`), anywhere. */
  predicate IsBoilerplate(p: string) {
    Search(p, "Gutenberg") || Search(p, "Illustration")
    || Search(p, "Online Distributed Proofreading Team") || Search(p, ".jpg")
  }

  /** The paragraph matches one of the patterns, so it is dropped. */
  predicate IsNoise(p: string) {
    IsBlank(p) || IsHeading(p) || IsChapterMarker(p) || IsSingleWord(p) || IsBoilerplate(p)
  }

  predicate IsProse(p: string) {
    !IsNoise(p)
  }

  // ---------------------------------------------------------------------
  // The whole cleaning step

  /** The text after both substitutions. */
  function Normalized(text: string): string {
    CollapseBreaks(JoinLines(text))
  }

  /** `text.split('\n\n')` of the normalized text. */
  function Paragraphs(text: string): seq<string> {
    SplitOn(Normalized(text), BlankLine)
  }

  /** The paragraphs that match no pattern, in order. */
  function KeptParagraphs(text: string): seq<string> {
    Filter(Paragraphs(text), IsProse)
  }

  /** `clean_text`. */
  function Clean(text: string): string {
    JoinWith(KeptParagraphs(text), BlankLine)
  }

  /** The cleaned text is the kept paragraphs joined by blank lines, and a
      paragraph is kept exactly when it is a paragraph of the normalized text
      that matches no pattern. */
  lemma KeptParagraphsExact(text: string)
    ensures forall p :: p in KeptParagraphs(text) <==> p in Paragraphs(text) && IsProse(p)
    ensures KeptParagraphs(text) == Drop(Paragraphs(text), Rejected(Paragraphs(text), IsProse))
  {
    FilterMembers(Paragraphs(text), IsProse);
    FilterIsDrop(Paragraphs(text), IsProse);
  }

  /** Splitting the normalized text gives back its paragraphs, none of which
      holds a blank line. */
  lemma ParagraphsCoverText(text: string)
    ensures JoinWith(Paragraphs(text), BlankLine) == Normalized(text)
    ensures forall p :: p in Paragraphs(text) ==> !Contains(p, BlankLine)
  {
    JoinSplit(Normalized(text), BlankLine);
    SplitPiecesFree(Normalized(text), BlankLine);
  }

  // ---------------------------------------------------------------------
  // Splitting the cleaned text again, as `parlength` does

  /** The paragraph is empty or does not end with a line feed. */
  predicate EndsClean(q: string) {
    q == [] || q[|q| - 1] != Break
  }

  /** Every paragraph but the last ends clean. */
  predicate InnerEndsClean(qs: seq<string>) {
    forall m :: 0 <= m < |qs| - 1 ==> EndsClean(qs[m])
  }

  /** A piece of `split('\n\n')` other than the last does not end with a
      line feed: a line feed there would have started an earlier blank line. */
  lemma {:induction false} SplitEndsClean(s: string)
    ensures InnerEndsClean(SplitOn(s, BlankLine))
    decreases |s|
  {
    var i := FindFrom(s, BlankLine, 0);
    if i != -1 {
      var rest := s[i + |BlankLine|..];
      SplitEndsClean(rest);
      var parts := SplitOn(s, BlankLine);
      assert parts == [s[..i]] + SplitOn(rest, BlankLine);
      assert EndsClean(s[..i]) by {
        if i > 0 {
          assert !OccursAt(s, BlankLine, i - 1);
          assert OccursAt(s, BlankLine, i);
          assert s[i - 1..i + 1] == [s[i - 1], s[i]];
          assert s[..i][i - 1] == s[i - 1];
        }
      }
      forall m | 1 <= m < |parts| - 1 ensures EndsClean(parts[m]) {
        assert parts[m] == SplitOn(rest, BlankLine)[m - 1];
      }
    }
  }

  /** Keeping some of the paragraphs keeps every one but the last ending
      clean: a kept paragraph followed by another kept one was followed by
      one in the input too. */
  lemma FilterEndsClean(qs: seq<string>, keep: string -> bool)
    requires InnerEndsClean(qs)
    ensures InnerEndsClean(Filter(qs, keep))
  {
    if qs != [] {
      var init := qs[..|qs| - 1];
      FilterMembers(init, keep);
      var kept := Filter(init, keep);
      forall q | q in kept ensures EndsClean(q) {
        var m :| 0 <= m < |init| && init[m] == q;
      }
    }
  }

  /** In a paragraph without blank lines that ends clean, followed by a
      blank line, the first blank line is the one that follows. */
  lemma NoEarlierBlankLine(q: string, tail: string)
    requires !Contains(q, BlankLine) && EndsClean(q)
    ensures forall j: nat :: j < |q| ==> !OccursAt(q + BlankLine + tail, BlankLine, j)
  {
    var s := q + BlankLine + tail;
    forall j: nat | j < |q| ensures !OccursAt(s, BlankLine, j) {
      if j + 2 <= |q| {
        assert q[j..j + 2] == s[j..j + 2];
        assert !OccursAt(q, BlankLine, j);
      } else {
        assert s[j] == q[|q| - 1];
      }
    }
  }

  /** Paragraphs without blank lines, all but the last ending clean, joined
      by blank lines, split back into the same paragraphs. */
  lemma {:induction false} SplitJoined(qs: seq<string>)
    requires qs != []
    requires forall q :: q in qs ==> !Contains(q, BlankLine)
    requires InnerEndsClean(qs)
    ensures SplitOn(JoinWith(qs, BlankLine), BlankLine) == qs
  {
    var q := qs[0];
    assert q in qs;
    if |qs| == 1 {
      assert JoinWith(qs, BlankLine) == q;
      assert !Contains(q, BlankLine);
      assert qs == [q];
    } else {
      var rest := qs[1..];
      assert qs == [q] + rest;
      JoinCons(q, rest, BlankLine);
      var tail := JoinWith(rest, BlankLine);
      var s := q + BlankLine + tail;
      assert OccursAt(s, BlankLine, |q|) by { assert s[|q|..|q| + 2] == BlankLine; }
      NoEarlierBlankLine(q, tail);
      FindFromFirst(s, BlankLine, |q|);
      assert s[|q| + |BlankLine|..] == tail;
      assert s[..|q|] == q;
      assert SplitOn(s, BlankLine) == [q] + SplitOn(tail, BlankLine);
      forall p | p in rest ensures !Contains(p, BlankLine) { assert p in qs; }
      assert InnerEndsClean(rest) by {
        forall m | 0 <= m < |rest| - 1 ensures EndsClean(rest[m]) { assert rest[m] == qs[m + 1]; }
      }
      SplitJoined(rest);
      assert JoinWith(qs, BlankLine) == s;
    }
  }

  /** Splitting the cleaned text on blank lines, as `parlength` does, gives
      back exactly the kept paragraphs, or a single empty paragraph when
      nothing was kept. */
  lemma CleanSplitsBack(text: string)
    ensures KeptParagraphs(text) != [] ==> SplitOn(Clean(text), BlankLine) == KeptParagraphs(text)
    ensures KeptParagraphs(text) == [] ==> Clean(text) == [] && SplitOn(Clean(text), BlankLine) == [[]]
  {
    var kept := KeptParagraphs(text);
    if kept != [] {
      ParagraphsCoverText(text);
      FilterMembers(Paragraphs(text), IsProse);
      SplitEndsClean(Normalized(text));
      FilterEndsClean(Paragraphs(text), IsProse);
      SplitJoined(kept);
    } else {
      assert FindFrom([], BlankLine, 0) == -1;
    }
  }
}
