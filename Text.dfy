/** String helpers shared by the query builder, the catalog filters, the
    text cleaner and the statistics: Python's whitespace class, `sep.join`,
    `str.split(sep)`, `str.split()`, and `re.search` for the literal patterns
    the script uses (whose only metacharacter is `.`). */
module Text {

  /** Python's `str.isspace()`, which `str.split()` and the regex class `\s`
      use: tab to carriage return, the separator controls 0x1C-0x1F, space,
      next line, no-break space, and the Unicode space separators, line
      separator and paragraph separator. */
  predicate IsSpace(c: char) {
    ('\t' <= c <= '\r') || ('\U{1C}' <= c <= ' ') || c == '\U{85}' || c == '\U{A0}'
    || c == '\U{1680}' || ('\U{2000}' <= c <= '\U{200A}') || c == '\U{2028}' || c == '\U{2029}'
    || c == '\U{202F}' || c == '\U{205F}' || c == '\U{3000}'
  }

  predicate NoSpace(s: string) {
    forall i :: 0 <= i < |s| ==> !IsSpace(s[i])
  }

  /** `t` occurs in `s` starting at position `k`. */
  predicate OccursAt(s: string, t: string, k: nat) {
    k + |t| <= |s| && s[k..k + |t|] == t
  }

  /** `t in s` for strings. */
  predicate Contains(s: string, t: string) {
    exists k: nat :: k <= |s| && OccursAt(s, t, k)
  }

  /** `sep.join(xs)`. */
  function JoinWith(xs: seq<string>, sep: string): string {
    if xs == [] then ""
    else if |xs| == 1 then xs[0]
    else xs[0] + sep + JoinWith(xs[1..], sep)
  }

  /** The first occurrence of `sep` in `s` at or after `k`, as `str.find` finds it. */
  function FindFrom(s: string, sep: string, k: nat): (r: int)
    requires sep != []
    ensures r == -1 || (k <= r && OccursAt(s, sep, r))
    ensures forall j: nat :: k <= j && (r == -1 || j < r) ==> !OccursAt(s, sep, j)
    decreases |s| - k
  {
    if k + |sep| > |s| then -1
    else if s[k..k + |sep|] == sep then k
    else FindFrom(s, sep, k + 1)
  }

  /** `find` returns the first occurrence. */
  lemma FindFromFirst(s: string, sep: string, i: nat)
    requires sep != [] && OccursAt(s, sep, i)
    requires forall j: nat :: j < i ==> !OccursAt(s, sep, j)
    ensures FindFrom(s, sep, 0) == i
  {
    var r := FindFrom(s, sep, 0);
    assert r != -1 && r <= i;
    assert OccursAt(s, sep, r);
  }

  /** `s.split(sep)` for a non-empty separator: cut at the leftmost occurrence,
      then go on after it. */
  function SplitOn(s: string, sep: string): (parts: seq<string>)
    requires sep != []
    ensures |parts| >= 1
    decreases |s|
  {
    var i := FindFrom(s, sep, 0);
    if i == -1 then [s] else [s[..i]] + SplitOn(s[i + |sep|..], sep)
  }

  /** No piece of a split contains the separator. */
  lemma {:induction false} SplitPiecesFree(s: string, sep: string)
    requires sep != []
    ensures forall p :: p in SplitOn(s, sep) ==> !Contains(p, sep)
    decreases |s|
  {
    var i := FindFrom(s, sep, 0);
    if i == -1 {
      assert !Contains(s, sep);
    } else {
      SplitPiecesFree(s[i + |sep|..], sep);
      assert !Contains(s[..i], sep) by {
        forall j: nat | j <= i ensures !OccursAt(s[..i], sep, j) {
          if j + |sep| <= i {
            assert s[..i][j..j + |sep|] == s[j..j + |sep|];
            assert !OccursAt(s, sep, j);
          }
        }
      }
      assert SplitOn(s, sep) == [s[..i]] + SplitOn(s[i + |sep|..], sep);
    }
  }

  /** Joining a non-empty tail puts one separator after the head. */
  lemma JoinCons(x: string, xs: seq<string>, sep: string)
    requires xs != []
    ensures JoinWith([x] + xs, sep) == x + sep + JoinWith(xs, sep)
  {
    var ys := [x] + xs;
    assert |ys| > 1 && ys[0] == x && ys[1..] == xs;
  }

  /** Splitting and joining with the same separator gives the text back. */
  lemma {:induction false} JoinSplit(s: string, sep: string)
    requires sep != []
    ensures JoinWith(SplitOn(s, sep), sep) == s
    decreases |s|
  {
    var i := FindFrom(s, sep, 0);
    if i == -1 {
      assert SplitOn(s, sep) == [s];
    } else {
      var head, tail := s[..i], s[i + |sep|..];
      assert s == head + sep + tail by {
        assert OccursAt(s, sep, i);
        assert s[i..i + |sep|] == sep;
        assert s == s[..i] + s[i..i + |sep|] + s[i + |sep|..];
      }
      JoinSplit(tail, sep);
      var rest := SplitOn(tail, sep);
      assert SplitOn(s, sep) == [head] + rest;
      JoinCons(head, rest, sep);
    }
  }

  /** Length of the run of non-whitespace characters at the front of `s`. */
  function UntilSpace(s: string): (k: nat)
    ensures k <= |s| && NoSpace(s[..k])
    ensures k < |s| ==> IsSpace(s[k])
    ensures k == 0 <==> s == [] || IsSpace(s[0])
  {
    if s == [] || IsSpace(s[0]) then 0 else 1 + UntilSpace(s[1..])
  }

  /** The non-whitespace run at the front of `s` is the prefix `w` that a
      whitespace character (or the end) follows. */
  lemma {:induction false} UntilSpaceOf(s: string, w: string)
    requires NoSpace(w) && w <= s
    requires |w| < |s| ==> IsSpace(s[|w|])
    ensures UntilSpace(s) == |w|
    decreases |w|
  {
    if w != [] {
      assert s[0] == w[0];
      assert w[1..] <= s[1..];
      UntilSpaceOf(s[1..], w[1..]);
    }
  }

  /** `s.split()`: the maximal runs of non-whitespace characters, in order. */
  function Words(s: string): (ws: seq<string>)
    ensures forall w :: w in ws ==> w != [] && NoSpace(w)
    decreases |s|
  {
    if s == [] then []
    else if IsSpace(s[0]) then Words(s[1..])
    else
      var k := UntilSpace(s);
      [s[..k]] + Words(s[k..])
  }

  /** A text holding a non-whitespace character has at least one word. */
  lemma {:induction false} WordsNonEmpty(s: string, i: nat)
    requires i < |s| && !IsSpace(s[i])
    ensures Words(s) != []
    decreases i
  {
    if IsSpace(s[0]) {
      WordsNonEmpty(s[1..], i - 1);
    }
  }

  /** Whitespace only. */
  predicate AllSpace(g: string) {
    forall i :: 0 <= i < |g| ==> IsSpace(g[i])
  }

  /** The whitespace runs of `s` around its words: the one before the first
      word, those between words, and the one after the last word. */
  function Gaps(s: string): (gs: seq<string>)
    ensures gs != []
    ensures forall g :: g in gs ==> AllSpace(g)
    ensures s != [] && IsSpace(s[0]) ==> gs[0] != []
    decreases |s|
  {
    if s == [] then [""]
    else if IsSpace(s[0]) then
      var gs := Gaps(s[1..]);
      var first := [s[0]] + gs[0];
      assert AllSpace(first) by {
        assert gs[0] in gs;
        forall i | 0 <= i < |first| ensures IsSpace(first[i]) {
          if i > 0 { assert first[i] == gs[0][i - 1]; } else { assert first[0] == s[0]; }
        }
      }
      [first] + gs[1..]
    else [""] + Gaps(s[UntilSpace(s)..])
  }

  /** `gs[0] + ws[0] + gs[1] + ... + ws[n-1] + gs[n]`. */
  function Weave(gs: seq<string>, ws: seq<string>): string
    requires |gs| == |ws| + 1
  {
    if ws == [] then gs[0] else gs[0] + ws[0] + Weave(gs[1..], ws[1..])
  }

  /** A character in front of the first gap is a character in front of the
      woven text. */
  lemma WeaveFront(c: char, gs: seq<string>, ws: seq<string>)
    requires |gs| == |ws| + 1
    ensures Weave([[c] + gs[0]] + gs[1..], ws) == [c] + Weave(gs, ws)
  {
    var hs := [[c] + gs[0]] + gs[1..];
    assert hs[1..] == gs[1..];
  }

  /** `s.split()` drops nothing but whitespace: `s` is its words, in order,
      with a whitespace run before the first, a non-empty whitespace run
      between each two, and a whitespace run after the last. */
  lemma {:induction false} WordsWoven(s: string)
    ensures |Gaps(s)| == |Words(s)| + 1
    ensures forall i :: 0 < i < |Words(s)| ==> Gaps(s)[i] != []
    ensures s == Weave(Gaps(s), Words(s))
    decreases |s|
  {
    if s != [] {
      if IsSpace(s[0]) {
        WordsWoven(s[1..]);
        WovenAfterSpace(s);
      } else {
        WordsWoven(s[UntilSpace(s)..]);
        WovenAfterWord(s);
      }
    }
  }

  /** The step of `WordsWoven` over a leading whitespace character. */
  lemma WovenAfterSpace(s: string)
    requires s != [] && IsSpace(s[0])
    requires |Gaps(s[1..])| == |Words(s[1..])| + 1
    requires forall i :: 0 < i < |Words(s[1..])| ==> Gaps(s[1..])[i] != []
    requires s[1..] == Weave(Gaps(s[1..]), Words(s[1..]))
    ensures |Gaps(s)| == |Words(s)| + 1
    ensures forall i :: 0 < i < |Words(s)| ==> Gaps(s)[i] != []
    ensures s == Weave(Gaps(s), Words(s))
  {
    var gs := Gaps(s[1..]);
    assert Gaps(s) == [[s[0]] + gs[0]] + gs[1..];
    assert Words(s) == Words(s[1..]);
    WeaveFront(s[0], gs, Words(s[1..]));
    assert s == [s[0]] + s[1..];
  }

  /** The step of `WordsWoven` over a leading word. */
  lemma WovenAfterWord(s: string)
    requires s != [] && !IsSpace(s[0])
    requires var rest := s[UntilSpace(s)..];
      && |Gaps(rest)| == |Words(rest)| + 1
      && (forall i :: 0 < i < |Words(rest)| ==> Gaps(rest)[i] != [])
      && rest == Weave(Gaps(rest), Words(rest))
    ensures |Gaps(s)| == |Words(s)| + 1
    ensures forall i :: 0 < i < |Words(s)| ==> Gaps(s)[i] != []
    ensures s == Weave(Gaps(s), Words(s))
  {
    var k := UntilSpace(s);
    var rest := s[k..];
    assert Words(s) == [s[..k]] + Words(rest);
    assert Gaps(s) == [""] + Gaps(rest);
    assert Words(rest) != [] ==> rest != [] && IsSpace(rest[0]);
    assert s == "" + s[..k] + rest;
  }

  /** The number of positions where a word begins: a non-space character that
      is first or follows a space (`afterSpace` says whether the character
      before `s` was a space or there was none). */
  function WordStarts(s: string, afterSpace: bool): nat {
    if s == [] then 0
    else (if afterSpace && !IsSpace(s[0]) then 1 else 0) + WordStarts(s[1..], IsSpace(s[0]))
  }

  /** Inside a word no new word starts. */
  lemma {:induction false} WordStartsInWord(s: string, k: nat)
    requires k <= |s| && NoSpace(s[..k])
    ensures WordStarts(s, false) == WordStarts(s[k..], false)
    decreases k
  {
    if k > 0 {
      assert !IsSpace(s[0]) by { assert s[..k][0] == s[0]; }
      var t := s[1..][..k - 1];
      assert NoSpace(t) by {
        forall i | 0 <= i < |t| ensures !IsSpace(t[i]) {
          assert t[i] == s[..k][i + 1];
        }
      }
      WordStartsInWord(s[1..], k - 1);
      assert s[1..][k - 1..] == s[k..];
    }
  }

  /** `len(s.split())` counts the places where a word begins. */
  lemma {:induction false} WordCountIsWordStarts(s: string)
    ensures |Words(s)| == WordStarts(s, true)
    decreases |s|
  {
    if s != [] {
      if IsSpace(s[0]) {
        WordCountIsWordStarts(s[1..]);
      } else {
        var k := UntilSpace(s);
        WordCountIsWordStarts(s[k..]);
        var t := s[1..][..k - 1];
        assert NoSpace(t) by {
          forall i | 0 <= i < |t| ensures !IsSpace(t[i]) {
            assert t[i] == s[..k][i + 1];
          }
        }
        WordStartsInWord(s[1..], k - 1);
        assert s[1..][k - 1..] == s[k..];
        if k < |s| {
          assert WordStarts(s[k..], false) == WordStarts(s[k..], true);
        }
      }
    }
  }

  /** Words separated by single spaces split back into the same words. */
  lemma {:induction false} WordsOfJoin(ws: seq<string>)
    requires forall w :: w in ws ==> w != [] && NoSpace(w)
    ensures Words(JoinWith(ws, " ")) == ws
  {
    if ws != [] {
      var w := ws[0];
      var s := JoinWith(ws, " ");
      if |ws| > 1 {
        var rest := JoinWith(ws[1..], " ");
        JoinCons(w, ws[1..], " ");
        assert ws == [w] + ws[1..];
        assert s == w + " " + rest;
        assert w in ws;
        assert w <= s;
        forall v | v in ws[1..] ensures v != [] && NoSpace(v) {
          assert v in ws;
        }
        assert s[..|w|] == w;
        assert s[|w|] == ' ';
        UntilSpaceOf(s, w);
        assert s[|w|..] == " " + rest;
        assert Words(" " + rest) == Words(rest) by { assert (" " + rest)[1..] == rest; }
        WordsOfJoin(ws[1..]);
      } else {
        assert s == w;
        assert w in ws;
        UntilSpaceOf(s, w);
        assert s[..|w|] == w;
        assert s[|w|..] == [];
      }
    }
  }

  /** One position of the pattern `p` against one character: `.` is any
      character except a line feed (Python's `re` without DOTALL). */
  predicate CharMatches(p: char, c: char) {
    if p == '.' then c != '\n' else c == p
  }

  /** The literal pattern `pat` matches `s` at position `k`. */
  predicate MatchesAt(s: string, pat: string, k: nat) {
    k + |pat| <= |s| && forall i :: 0 <= i < |pat| ==> CharMatches(pat[i], s[k + i])
  }

  /** `re.search(pat, s)` succeeds, for a pattern whose only metacharacter is `.`. */
  predicate Search(s: string, pat: string) {
    exists k: nat :: k <= |s| && MatchesAt(s, pat, k)
  }

  /** The alternatives of the regex `'|'.join(pats)`: an empty list joins to
      the empty pattern, which is one alternative. */
  function Alternatives(pats: seq<string>): (alts: seq<string>)
    ensures alts != []
  {
    if pats == [] then [""] else pats
  }

  /** `re.search('|'.join(pats), s)` succeeds. */
  predicate SearchAny(s: string, pats: seq<string>) {
    exists p :: p in Alternatives(pats) && Search(s, p)
  }

  /** Without a `.`, a pattern is found exactly where it occurs literally. */
  lemma SearchLiteral(s: string, pat: string)
    requires forall i :: 0 <= i < |pat| ==> pat[i] != '.'
    ensures Search(s, pat) <==> Contains(s, pat)
  {
    if Search(s, pat) {
      var k: nat :| k <= |s| && MatchesAt(s, pat, k);
      assert s[k..k + |pat|] == pat by {
        forall i | 0 <= i < |pat| ensures s[k..k + |pat|][i] == pat[i] {
          assert CharMatches(pat[i], s[k + i]);
        }
      }
      assert OccursAt(s, pat, k);
    }
    if Contains(s, pat) {
      var k: nat :| k <= |s| && OccursAt(s, pat, k);
      assert k + |pat| <= |s|;
      assert MatchesAt(s, pat, k) by {
        forall i | 0 <= i < |pat| ensures CharMatches(pat[i], s[k + i]) {
          assert s[k..k + |pat|][i] == s[k + i];
        }
      }
    }
  }

  /** An empty alternative matches every string; so does an empty list of
      patterns. */
  lemma EmptyAlternativeMatchesAll(s: string, pats: seq<string>)
    requires pats == [] || "" in pats
    ensures SearchAny(s, pats)
  {
    assert MatchesAt(s, "", 0);
    assert "" in Alternatives(pats);
  }
}
