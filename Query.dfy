/** The catalog query of `query_author`: a SQL `SELECT` over the Gutenberg
    cache that keeps English (`languageid = 1`) book-type (`typeid = -1`)
    entries whose author name contains every whitespace-separated token of
    the searched name, most downloaded first, at most 50 rows.  Tokens are
    pasted into `LIKE` patterns verbatim, without escaping. */
module Query {
  import opened Text

  datatype Option<T> = None | Some(value: T)

  /** Everything before the `%s` of the query template. */
  const Head: string :=
    "SELECT DISTINCT books.gutenbergbookid, authors.name, titles.name, books.numdownloads "
    + "FROM books, authors, book_authors, titles "
    + "WHERE authors.id = book_authors.authorid "
    + "AND books.id = book_authors.bookid "
    + "AND books.id = titles.bookid "
    + "AND books.languageid = 1 "
    + "AND books.typeid = -1 "
    + "AND "

  /** Everything after the `%s` of the query template. */
  const Tail: string := " ORDER BY books.numdownloads DESC LIMIT 50"

  const ClauseOpen: string := "authors.name LIKE ('%"
  const ClauseClose: string := "%')"
  const Conjunction: string := " AND "

  /** `"authors.name LIKE ('%" + tok + "%')"`. */
  function Clause(tok: string): string {
    ClauseOpen + tok + ClauseClose
  }

  /** One clause per token, in token order. */
  function Clauses(toks: seq<string>): (cs: seq<string>)
    ensures |cs| == |toks|
  {
    if toks == [] then [] else [Clause(toks[0])] + Clauses(toks[1..])
  }

  /** The template with the clauses joined by `' AND '` substituted for `%s`. */
  function QueryOf(toks: seq<string>): string {
    Head + JoinWith(Clauses(toks), Conjunction) + Tail
  }

  /** `query_author(name)`. */
  function QueryAuthor(name: string): (q: string)
    ensures Head <= q
    ensures |Head| + |Tail| <= |q| && q[|q| - |Tail|..] == Tail
  {
    var q := QueryOf(Words(name));
    assert q[..|Head|] == Head;
    assert q[|q| - |Tail|..] == Tail;
    q
  }

  /** Reads the tokens back out of a query text, or fails if the text is not
      of the shape `QueryOf` produces. */
  function ParseQuery(q: string): Option<seq<string>> {
    if |q| < |Head| + |Tail| || q[..|Head|] != Head || q[|q| - |Tail|..] != Tail then None
    else
      var middle := q[|Head|..|q| - |Tail|];
      if middle == [] then Some([]) else ParseClauses(middle)
  }

  /** The token of the clause at the front of `rest` and the text after the
      clause.  A token holds no whitespace, so the clause runs from its
      opening to the next whitespace character. */
  function FirstClause(rest: string): Option<(string, string)> {
    if !(ClauseOpen <= rest) then None
    else
      var after := rest[|ClauseOpen|..];
      var k := UntilSpace(after);
      if k < |ClauseClose| || after[k - |ClauseClose|..k] != ClauseClose then None
      else Some((after[..k - |ClauseClose|], after[k..]))
  }

  /** A non-empty list of clauses separated by `' AND '`. */
  function ParseClauses(rest: string): Option<seq<string>>
    decreases |rest|, 1
  {
    match FirstClause(rest)
    case None => None
    case Some((tok, remaining)) =>
      FirstClauseShorter(rest);
      ParseAfterClause(tok, remaining)
  }

  /** What may follow the clause of `tok`: nothing, or `' AND '` and more clauses. */
  function ParseAfterClause(tok: string, remaining: string): Option<seq<string>>
    decreases |remaining|, 0
  {
    if remaining == [] then Some([tok])
    else if Conjunction <= remaining then
      match ParseClauses(remaining[|Conjunction|..])
      case None => None
      case Some(toks) => Some([tok] + toks)
    else None
  }

  /** Once the front clause is read, parsing goes on after it. */
  lemma ParseClausesVia(rest: string, tok: string, remaining: string)
    requires FirstClause(rest) == Some((tok, remaining))
    ensures ParseClauses(rest) == ParseAfterClause(tok, remaining)
  {
  }

  /** A clause is read off the front of the text it came from. */
  lemma FirstClauseShorter(rest: string)
    requires FirstClause(rest).Some?
    ensures rest == Clause(FirstClause(rest).value.0) + FirstClause(rest).value.1
  {
    var after := rest[|ClauseOpen|..];
    var k := UntilSpace(after);
    assert after[..k] == after[..k - |ClauseClose|] + after[k - |ClauseClose|..k];
    assert after == after[..k] + after[k..];
    assert rest == ClauseOpen + after;
  }

  /** A clause of a whitespace-free token, followed by whitespace or nothing,
      is read whole. */
  lemma FirstClauseOf(tok: string, next: string)
    requires NoSpace(tok)
    requires next != [] ==> IsSpace(next[0])
    ensures FirstClause(Clause(tok) + next) == Some((tok, next))
  {
    var rest := Clause(tok) + next;
    assert rest == ClauseOpen + (tok + ClauseClose + next);
    assert ClauseOpen <= rest;
    var after := rest[|ClauseOpen|..];
    assert after == tok + ClauseClose + next;
    var w := tok + ClauseClose;
    assert NoSpace(w) by {
      forall i | 0 <= i < |w| ensures !IsSpace(w[i]) {
        if i >= |tok| { assert w[i] == ClauseClose[i - |tok|]; }
      }
    }
    assert w <= after;
    if next != [] { assert after[|w|] == next[0]; }
    UntilSpaceOf(after, w);
    var k := |w|;
    assert after[k - |ClauseClose|..k] == ClauseClose;
    assert after[..k - |ClauseClose|] == tok;
    assert after[k..] == next;
  }

  /** The clauses of whitespace-free tokens, joined by `' AND '`, parse back
      to those tokens. */
  lemma {:induction false} ParseClausesOf(toks: seq<string>)
    requires toks != []
    requires forall i :: 0 <= i < |toks| ==> NoSpace(toks[i])
    ensures ParseClauses(JoinWith(Clauses(toks), Conjunction)) == Some(toks)
  {
    var t, more := toks[0], toks[1..];
    assert toks == [t] + more;
    if more == [] {
      assert JoinWith(Clauses(toks), Conjunction) == Clause(t) by {
        assert Clauses(toks) == [Clause(t)] + Clauses([]);
      }
      ParseSingleClause(t);
      assert toks == [t];
    } else {
      forall i | 0 <= i < |more| ensures NoSpace(more[i]) { assert more[i] == toks[i + 1]; }
      ParseClausesOf(more);
      JoinClausesCons(t, more);
      ParseClausesCons(t, JoinWith(Clauses(more), Conjunction), more);
      assert JoinWith(Clauses(toks), Conjunction) ==
        Clause(t) + Conjunction + JoinWith(Clauses(more), Conjunction);
    }
  }

  /** The clause of one whitespace-free token parses back to that token. */
  lemma ParseSingleClause(t: string)
    requires NoSpace(t)
    ensures ParseClauses(Clause(t)) == Some([t])
  {
    assert Clause(t) + [] == Clause(t);
    FirstClauseOf(t, []);
    ParseClausesVia(Clause(t), t, []);
  }

  /** A clause and a conjunction in front of a parsing clause list add the
      clause's token in front. */
  lemma ParseClausesCons(t: string, tail: string, ts: seq<string>)
    requires NoSpace(t)
    requires ParseClauses(tail) == Some(ts)
    ensures ParseClauses(Clause(t) + Conjunction + tail) == Some([t] + ts)
  {
    var next := Conjunction + tail;
    assert Clause(t) + Conjunction + tail == Clause(t) + next;
    assert next[0] == ' ';
    FirstClauseOf(t, next);
    ParseClausesVia(Clause(t) + next, t, next);
    AfterConjunction(t, tail, ts);
  }

  /** `' AND '` and a parsing clause list after a clause add to its token. */
  lemma AfterConjunction(t: string, tail: string, ts: seq<string>)
    requires ParseClauses(tail) == Some(ts)
    ensures ParseAfterClause(t, Conjunction + tail) == Some([t] + ts)
  {
    var next := Conjunction + tail;
    assert Conjunction <= next;
    assert next[|Conjunction|..] == tail;
  }

  /** The query for whitespace-free tokens parses back to those tokens. */
  lemma ParseQueryOf(toks: seq<string>)
    requires forall t :: t in toks ==> NoSpace(t)
    ensures ParseQuery(QueryOf(toks)) == Some(toks)
  {
    var q := QueryOf(toks);
    var middle := JoinWith(Clauses(toks), Conjunction);
    assert q[..|Head|] == Head;
    assert q[|q| - |Tail|..] == Tail;
    assert q[|Head|..|q| - |Tail|] == middle;
    if toks != [] {
      forall i | 0 <= i < |toks| ensures NoSpace(toks[i]) { assert toks[i] in toks; }
      ParseClausesOf(toks);
      assert middle != [] by {
        assert Clauses(toks) == [Clause(toks[0])] + Clauses(toks[1..]);
        if |toks| > 1 {
          JoinCons(Clause(toks[0]), Clauses(toks[1..]), Conjunction);
        }
      }
    }
  }

  /** What a successful parse after a clause is made of. */
  lemma AfterClauseParts(tok: string, remaining: string, toks: seq<string>)
    requires ParseAfterClause(tok, remaining) == Some(toks)
    ensures toks != [] && toks[0] == tok
    ensures remaining == [] ==> toks == [tok]
    ensures remaining != [] ==>
      Conjunction <= remaining && ParseClauses(remaining[|Conjunction|..]) == Some(toks[1..])
  {
    if remaining != [] {
      var more := ParseClauses(remaining[|Conjunction|..]).value;
      assert toks == [tok] + more;
    }
  }

  /** The clause list of a token in front of more tokens. */
  lemma JoinClausesCons(tok: string, toks: seq<string>)
    requires toks != []
    ensures JoinWith(Clauses([tok] + toks), Conjunction) ==
      Clause(tok) + Conjunction + JoinWith(Clauses(toks), Conjunction)
  {
    assert ([tok] + toks)[1..] == toks;
    JoinCons(Clause(tok), Clauses(toks), Conjunction);
  }

  /** A clause list that parses is the clause list of what it parses to. */
  lemma {:induction false} ParseClausesExact(rest: string, toks: seq<string>)
    requires ParseClauses(rest) == Some(toks)
    ensures toks != [] && rest == JoinWith(Clauses(toks), Conjunction)
    decreases |rest|
  {
    var (tok, remaining) := FirstClause(rest).value;
    FirstClauseShorter(rest);
    ParseClausesVia(rest, tok, remaining);
    AfterClauseParts(tok, remaining, toks);
    if remaining == [] {
      assert rest == Clause(tok) + [];
      assert Clauses(toks) == [Clause(tok)] + Clauses([]);
    } else {
      var more := remaining[|Conjunction|..];
      ParseClausesExact(more, toks[1..]);
      assert remaining == Conjunction + more;
      assert toks == [tok] + toks[1..];
      JoinClausesCons(tok, toks[1..]);
    }
  }

  /** What a parsed query is made of. */
  lemma ParseQueryParts(q: string, toks: seq<string>)
    requires ParseQuery(q) == Some(toks)
    ensures |Head| + |Tail| <= |q|
    ensures q == Head + q[|Head|..|q| - |Tail|] + Tail
    ensures q[|Head|..|q| - |Tail|] == [] ==> toks == []
    ensures q[|Head|..|q| - |Tail|] != [] ==> ParseClauses(q[|Head|..|q| - |Tail|]) == Some(toks)
  {
    Framed(q, Head, Tail);
  }

  /** A text that starts with `h` and ends with `t` is `h`, the middle, `t`. */
  lemma Framed(q: string, h: string, t: string)
    requires |h| + |t| <= |q| && q[..|h|] == h && q[|q| - |t|..] == t
    ensures q == h + q[|h|..|q| - |t|] + t
  {
    assert q == q[..|h|] + q[|h|..|q| - |t|] + q[|q| - |t|..];
  }

  /** A text that parses is exactly the query of the tokens it parses to:
      the query text and its token list determine each other. */
  lemma ParseQueryExact(q: string, toks: seq<string>)
    requires ParseQuery(q) == Some(toks)
    ensures q == QueryOf(toks)
  {
    ParseQueryParts(q, toks);
    var middle := q[|Head|..|q| - |Tail|];
    if middle != [] {
      ParseClausesExact(middle, toks);
    }
  }

  /** `query_author` emits one `LIKE` clause per token of `name.split()`, in
      order, each token verbatim: reading the clauses back gives the tokens. */
  lemma QueryAuthorTokens(name: string)
    ensures ParseQuery(QueryAuthor(name)) == Some(Words(name))
  {
    ParseQueryOf(Words(name));
  }
}
