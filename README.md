# Literary texts dataset: a verified model of its selection and cleaning logic

`docs/datasets/literary/literary.py` builds the literary-texts dataset of the
repository. It runs these steps:

1. It queries a local Project Gutenberg cache for the most downloaded English
   books of a list of authors.
2. It drops duplicate and near-duplicate titles, and drops books whose author
   or title is on an exclude list.
3. It downloads and cleans each text.
4. It computes per-book statistics and the edge list of a book network.

This project models the deterministic parts of that script in Dafny. Each part
is proved against a specification.

- **Query** (`Query.dfy`) covers `query_author`, the SQL text builder.
  - The name is split on whitespace, and each token goes into an
    `authors.name LIKE ('%tok%')` clause without escaping.
  - The clauses are joined by `AND` inside a fixed query template, which pins
    the language, the book type, the order and the 50-row limit.
  - The proofs show that the tokens can be read back out of the query text,
    so the text and the token list determine each other.
- **Catalog** (`Catalog.dfy`) covers the row selection of `remove_duplicates`
  and the two exclude filters.
  - Deduplication by Gutenberg id keeps the first row of each id.
  - The similarity matrix is masked in place. It is an
    `array2<Cell>` of `NaN | Sim(real)`, given as input.
  - A loop flags the rows that hold a similarity of at least 0.5.
  - Titles containing `Vol`, `vol`, `Part` or `part` are spared.
  - The flagged rows are then dropped.
  - When similarity is a relation between two titles, as it is for count
    vectors, `remove_duplicates` as a whole is proved idempotent.
  - The exclude lists are regexes built with `'|'.join` and applied with
    `str.contains`.
- **Cleaning** (`Cleaning.dfy`) covers the text normalisation and paragraph
  filter of `get_and_clean_text`.
  - Lone line feeds become spaces, and runs of three or more line feeds
    become a blank line.
  - The text is split into paragraphs on blank lines. Each regex of the
    filter is written as a predicate on the paragraph.
  - The paragraphs that match no regex are kept and joined back with blank
    lines.
  - `parlength` later splits the cleaned text on blank lines again. When at
    least one paragraph was kept, that split is proved to give back exactly
    the kept paragraphs; when none was, it gives one empty paragraph.
- **Stats** (`Stats.dfy`) covers two counts: the word count
  `len(text.split())`, and the per-paragraph piece count
  `len(re.split(r' |—', p))` used by `parlength`. A cleaned text has a
  positive word count exactly when the cleaning kept a paragraph, so a book
  whose every paragraph is dropped gets 0 words.
- **Network** (`Network.dfy`) covers the sorted pair list
  `sorted(set(combinations(range(n), 2)))`. It is proved to enumerate each
  pair `i < j < n` once, in lexicographic order. That order is the one of
  SciPy's condensed distance vector.
- **Text** (`Text.dfy`) and **Seqs** (`Seqs.dfy`) hold the shared pieces.
  - `Text` has Python's whitespace class, `sep.join`, `str.split(sep)`,
    `str.split()` and `re.search` for the literal patterns the script uses.
  - `Seqs` has `df.drop(...).reset_index(drop=True)` and `df.loc[mask]` over
    sequences of rows.

Regexes are modelled with Python's semantics:

- `.` matches any character except a line feed.
- `$` also matches just before a final line feed.
- `^` anchors at the start of the paragraph (no MULTILINE).
- `\s` is `str.isspace()`.
- An empty `'|'.join([])` is the empty regex, which matches everything.

## Model

| member | source | states |
|---|---|---|
| Text.FindFrom | docs/datasets/literary/literary.py:185 | the result is -1 or an occurrence of the separator at or after the start, and no earlier occurrence exists |
| Text.FindFromFirst | docs/datasets/literary/literary.py:185 | `find` returns the first occurrence of the separator |
| Text.SplitOn | docs/datasets/literary/literary.py:185 | definition of `s.split(sep)`: cut at the leftmost occurrence, then go on after it; at least one piece. `Text.FindFrom` makes each cut the leftmost occurrence, and for blank lines `Cleaning.SplitEndsClean` states that no piece but the last ends in a line feed; `Text.JoinSplit` and `Text.SplitPiecesFree` state that the pieces rejoin to the text and hold no separator |
| Text.JoinWith | docs/datasets/literary/literary.py:196 | definition of `sep.join(xs)`; `Text.JoinSplit` proves it undoes `SplitOn` |
| Text.SplitPiecesFree | docs/datasets/literary/literary.py:185 | no piece of `text.split(sep)` contains the separator |
| Text.JoinSplit | docs/datasets/literary/literary.py:185 | `sep.join(s.split(sep)) == s`: splitting on blank lines loses nothing |
| Text.Words | docs/datasets/literary/literary.py:40 | definition of `s.split()`: every token is non-empty and free of whitespace; `Text.WordsWoven` states that the tokens are the maximal non-whitespace runs |
| Text.WordsWoven | docs/datasets/literary/literary.py:40 | `s` is its words, in order, with a whitespace run before the first, a non-empty whitespace run between each two, and a whitespace run after the last: `s.split()` drops whitespace and nothing else |
| Text.WordCountIsWordStarts | docs/datasets/literary/literary.py:215 | `len(s.split())` equals the number of positions where a non-whitespace character starts the text or follows whitespace |
| Text.WordsNonEmpty | docs/datasets/literary/literary.py:215 | a text holding a non-whitespace character has at least one word |
| Text.WordsOfJoin | docs/datasets/literary/literary.py:215 | non-empty whitespace-free words joined by single spaces split back into the same words |
| Text.Search | docs/datasets/literary/literary.py:168-169 | definition of `re.search` for a pattern whose only metacharacter is `.`, which matches any character but a line feed |
| Text.SearchAny | docs/datasets/literary/literary.py:168-169 | definition of `re.search('\|'.join(pats), s)`: some alternative matches, and an empty list is the one empty alternative |
| Text.SearchLiteral | docs/datasets/literary/literary.py:168-169 | for a pattern without `.`, `re.search` succeeds exactly when the pattern occurs as a substring |
| Text.EmptyAlternativeMatchesAll | docs/datasets/literary/literary.py:168 | a regex joined from an empty list, or one with an empty alternative, matches every string |
| Query.Clauses | docs/datasets/literary/literary.py:52 | one `LIKE` clause per token |
| Query.QueryOf | docs/datasets/literary/literary.py:41-52 | definition of the query text for a token list; `Query.ParseQueryOf` and `Query.ParseQueryExact` prove it is one-to-one and can be read back |
| Query.ParseQuery | docs/datasets/literary/literary.py:41-52 | definition of reading the tokens back out of a query text (fixed head, `LIKE` clauses joined by `' AND '`, fixed tail); the round trips are in `Query.ParseQueryOf` and `Query.ParseQueryExact` |
| Query.QueryAuthor | docs/datasets/literary/literary.py:39-54 | the query starts with the fixed `SELECT ... languageid = 1 AND books.typeid = -1 AND ` text and ends with `ORDER BY books.numdownloads DESC LIMIT 50` |
| Query.QueryAuthorTokens | docs/datasets/literary/literary.py:40-52 | reading the `LIKE` clauses back out of `query_author(name)` gives exactly `name.split()`, in order and verbatim |
| Query.ParseQueryOf | docs/datasets/literary/literary.py:41-52 | for whitespace-free tokens, the query of the tokens parses back to the tokens |
| Query.ParseQueryExact | docs/datasets/literary/literary.py:41-52 | a text that parses is exactly the query of the tokens it parses to, so query texts and token lists determine each other |
| Query.ParseClausesOf | docs/datasets/literary/literary.py:52 | the `' AND '`-joined clauses of whitespace-free tokens parse back to those tokens |
| Query.ParseClausesExact | docs/datasets/literary/literary.py:52 | a clause list that parses is the joined clause list of its tokens |
| Query.ParseSingleClause | docs/datasets/literary/literary.py:52 | the clause of a single whitespace-free token parses back to that one token |
| Query.AfterConjunction | docs/datasets/literary/literary.py:52 | after a clause, `' AND '` followed by a clause list that parses continues the token list |
| Query.JoinClausesCons | docs/datasets/literary/literary.py:52 | the `' AND '`-join of clauses is the first clause, `' AND '`, then the join of the rest |
| Query.AfterClauseParts | docs/datasets/literary/literary.py:52 | text after a clause that parses is either nothing (last token) or `' AND '` and a clause list of the remaining tokens |
| Query.ParseQueryParts | docs/datasets/literary/literary.py:41-53 | a query text that parses is the fixed head, the joined clauses and the fixed tail |
| Query.FirstClauseOf | docs/datasets/literary/literary.py:52 | the clause of a whitespace-free token is read back whole |
| Seqs.KeptIndices | docs/datasets/literary/literary.py:76 | the positions surviving `drop` are ascending and are exactly those below the length that are not dropped |
| Seqs.Drop | docs/datasets/literary/literary.py:76 | definition of `df.drop(d).reset_index(drop=True)`, never longer than its input; `Seqs.DropSelects` states which rows it keeps |
| Seqs.DropSelects | docs/datasets/literary/literary.py:76 | `df.drop(d).reset_index(drop=True)` is the rows at the surviving positions, in order |
| Seqs.DropNothing | docs/datasets/literary/literary.py:76 | dropping no existing position keeps every row |
| Seqs.Filter | docs/datasets/literary/literary.py:60 | definition of `df.loc[mask]`, never longer than its input; `Seqs.FilterIsDrop` and `Seqs.FilterMembers` state which rows it keeps |
| Seqs.RejectedCount | docs/datasets/literary/literary.py:60 | every row is kept by the mask or rejected by it: the rejected positions and the kept rows add up to the row count |
| Seqs.FilterIsDrop | docs/datasets/literary/literary.py:60 | `df.loc[mask]` is dropping the rows where the mask is false, so order is kept |
| Seqs.FilterMembers | docs/datasets/literary/literary.py:195 | a row survives a mask exactly when it is a row of the input that passes |
| Seqs.FilterAllPass | docs/datasets/literary/literary.py:195 | a mask every row passes keeps every row |
| Seqs.FilterNone | docs/datasets/literary/literary.py:168 | a mask no row passes keeps no row |
| Seqs.FilterTwice | docs/datasets/literary/literary.py:168-169 | two masks applied in turn are one mask that requires both |
| Catalog.DuplicatedIdsFirst | docs/datasets/literary/literary.py:59 | `duplicated(keep='first')` leaves each id exactly one unmarked row, at or before each of its rows, and no two unmarked rows share an id |
| Catalog.FirstOccurrence | docs/datasets/literary/literary.py:59 | every id has a first row, one not marked as duplicated |
| Catalog.DedupById | docs/datasets/literary/literary.py:59-60 | definition of the id deduplication, `df.loc[~duplicated_ids].reset_index(drop=True)`; `Catalog.DedupKeepsFirst` states which rows it keeps |
| Catalog.DedupKeepsFirst | docs/datasets/literary/literary.py:59-60 | the rows kept are the unmarked rows, in input order, every first row is kept, and the kept ids are pairwise distinct |
| Catalog.DedupSameIds | docs/datasets/literary/literary.py:59-60 | deduplication keeps the set of ids |
| Catalog.DedupIdempotent | docs/datasets/literary/literary.py:59-60 | deduplicating twice is deduplicating once |
| Catalog.NearDuplicates | docs/datasets/literary/literary.py:65-70 | the near-duplicates are rows of the matrix similar (at least 0.5) to an earlier row; the first row never is one |
| Catalog.MaskUpperTriangle | docs/datasets/literary/literary.py:65 | the diagonal and upper triangle become NaN, and the strict lower triangle is unchanged |
| Catalog.FlagRows | docs/datasets/literary/literary.py:67-70 | the flagged rows are ascending and are exactly the rows holding a non-NaN value of at least 0.5 |
| Catalog.SeriesTitleContains | docs/datasets/literary/literary.py:73 | `str.contains('Vol\|vol\|Part\|part')` holds exactly when the title contains one of the four words as a substring |
| Catalog.SeriesRowsContain | docs/datasets/literary/literary.py:73 | `indices_keep` is exactly the rows whose title contains `Vol`, `vol`, `Part` or `part` as a substring |
| Catalog.Survivors | docs/datasets/literary/literary.py:72-76 | definition of the similarity step's drop, `df.drop(indices).reset_index(drop=True)` with the series titles taken out of `indices`; `Catalog.SurvivorsExact` states which rows it keeps |
| Catalog.SurvivorsExact | docs/datasets/literary/literary.py:73-76 | a row survives the similarity step exactly when it is similar to no earlier row or is a series title, and survivors keep their order |
| Catalog.SurvivorsKeep | docs/datasets/literary/literary.py:73-76 | a series title, or a row similar to no earlier row, is never removed |
| Catalog.FirstRowSurvives | docs/datasets/literary/literary.py:65-76 | when the first row is not a near-duplicate (which `Catalog.NearDuplicates` guarantees), it survives and stays first |
| Catalog.RemoveDuplicates | docs/datasets/literary/literary.py:56-78 | the result is the id-deduplicated rows minus exactly the near-duplicates of the unmasked matrix that are not series titles, and the matrix ends with NaN on and above the diagonal and its old values below |
| Catalog.NearOf | docs/datasets/literary/literary.py:62-70 | definition of the rows similar to an earlier row when similarity is a relation between two books; `Catalog.NearDuplicatesOf` ties it to the matrix |
| Catalog.Deduplicated | docs/datasets/literary/literary.py:56-78 | definition of `remove_duplicates` as the id step then the similarity step; `Catalog.DeduplicatedIdempotent` states its idempotence |
| Catalog.NearDuplicatesOf | docs/datasets/literary/literary.py:62-70 | when cell `(i, j)` is a hit exactly when rows `i` and `j` are similar, the flagged rows are those `NearOf` names, so `RemoveDuplicates` returns `Deduplicated` |
| Catalog.SurvivorsIdempotent | docs/datasets/literary/literary.py:62-76 | a second similarity step over the survivors removes nothing |
| Catalog.SurvivorsDistinct | docs/datasets/literary/literary.py:59-76 | rows with pairwise distinct ids keep them through the similarity step, so a second id step removes nothing |
| Catalog.DeduplicatedIdempotent | docs/datasets/literary/literary.py:56-78 | `remove_duplicates(remove_duplicates(df)) == remove_duplicates(df)` |
| Catalog.ExcludeListedOnce | docs/datasets/literary/literary.py:168-169 | the author filter followed by the title filter is one filter that drops an entry when either matches |
| Catalog.ExcludeListed | docs/datasets/literary/literary.py:168-169 | definition of the two exclude filters in turn; `Catalog.ExcludeListedExact` states which entries stay |
| Catalog.ExcludeListedExact | docs/datasets/literary/literary.py:168-169 | an entry stays exactly when neither its author nor its title matches the exclude regexes, and the entries that stay keep their order |
| Catalog.EmptyAuthorListDropsAll | docs/datasets/literary/literary.py:168 | an empty author exclude list would drop the whole library |
| Catalog.ExcludeNothingMatched | docs/datasets/literary/literary.py:168-169 | a library in which no entry matches an exclude pattern comes through unchanged |
| Cleaning.JoinLines | docs/datasets/literary/literary.py:181 | the length is unchanged, and only line feeds change, each into a space. A line feed at an end or next to another line feed stays. No lone line feed remains |
| Cleaning.JoinLinesKeeps | docs/datasets/literary/literary.py:181 | a text without lone line feeds is unchanged |
| Cleaning.BreakRun | docs/datasets/literary/literary.py:182 | the length of the maximal run of line feeds at the front |
| Cleaning.CollapseBreaks | docs/datasets/literary/literary.py:182 | the result has no three line feeds in a row, keeps every other character in order, is empty only for the empty text, and keeps a first character that is not a line feed |
| Cleaning.CollapseRun | docs/datasets/literary/literary.py:182 | a maximal run of `k` line feeds becomes exactly two line feeds when `k >= 3` and stays as it is when `k` is 1 or 2, and the text on either side is collapsed on its own |
| Cleaning.CollapseAppend | docs/datasets/literary/literary.py:182 | no run of line feeds crosses a character other than a line feed: the text up to it and the text after it are collapsed separately |
| Cleaning.CollapseFront | docs/datasets/literary/literary.py:182 | a maximal run of line feeds at the front becomes two line feeds when it has three or more, and stays otherwise |
| Cleaning.CollapseKeeps | docs/datasets/literary/literary.py:182 | a text without three line feeds in a row is unchanged |
| Cleaning.CollapseIdempotent | docs/datasets/literary/literary.py:182 | collapsing twice is collapsing once |
| Cleaning.IsBlank | docs/datasets/literary/literary.py:187 | definition of `^$`: the empty paragraph or a single line feed, since `$` also matches before a final line feed |
| Cleaning.IsHeading | docs/datasets/literary/literary.py:188 | definition of `^[A-Z\s\W\d]+$`: a non-empty paragraph of capitals, digits, whitespace and non-word characters only |
| Cleaning.IsChapterMarker | docs/datasets/literary/literary.py:189-191 | definition of `^Chapter`, `^CHAPTER` and `^\s+Chapter` |
| Cleaning.IsSingleWord | docs/datasets/literary/literary.py:192 | definition of `^[A-Za-z]+$`: one run of ASCII letters, optionally followed by a final line feed |
| Cleaning.IsBoilerplate | docs/datasets/literary/literary.py:193 | definition of the four unanchored patterns, `.jpg` with `.` as any character but a line feed |
| Cleaning.IsNoise | docs/datasets/literary/literary.py:186-195 | definition of `'\|'.join(patterns)` searched in a paragraph: one of the ten patterns matches |
| Cleaning.Normalized | docs/datasets/literary/literary.py:181-182 | definition of the text after both substitutions; `Cleaning.JoinLines`, `Cleaning.CollapseBreaks` and `Cleaning.CollapseRun` state what each does |
| Cleaning.Paragraphs | docs/datasets/literary/literary.py:185 | definition of `text.split('\n\n')` of the normalised text; `Cleaning.ParagraphsCoverText` states that it covers the text |
| Cleaning.KeptParagraphs | docs/datasets/literary/literary.py:186-195 | definition of the paragraph filter; `Cleaning.KeptParagraphsExact` states which paragraphs stay |
| Cleaning.Clean | docs/datasets/literary/literary.py:174-198 | definition of `clean_text`, the kept paragraphs joined by blank lines; `Cleaning.CleanSplitsBack` proves they can be split back out |
| Cleaning.KeptParagraphsExact | docs/datasets/literary/literary.py:185-196 | a paragraph is kept exactly when it is a paragraph of the normalised text that matches none of the ten patterns, and kept paragraphs keep their order |
| Cleaning.SplitEndsClean | docs/datasets/literary/literary.py:185 | every paragraph of `split('\n\n')` except the last is empty or does not end with a line feed |
| Cleaning.FilterEndsClean | docs/datasets/literary/literary.py:195 | dropping paragraphs keeps every paragraph but the last free of a final line feed |
| Cleaning.NoEarlierBlankLine | docs/datasets/literary/literary.py:196 | in a paragraph without blank lines and without a final line feed, followed by a blank line, the first blank line is the one after the paragraph |
| Cleaning.SplitJoined | docs/datasets/literary/literary.py:196 | paragraphs without blank lines, all but the last without a final line feed, joined by blank lines split back into themselves |
| Cleaning.CleanSplitsBack | docs/datasets/literary/literary.py:196 | splitting the cleaned text on blank lines gives exactly the kept paragraphs, or one empty paragraph when none is kept |
| Cleaning.ParagraphsCoverText | docs/datasets/literary/literary.py:185 | the paragraphs joined by blank lines are the normalised text, and none holds a blank line |
| Stats.WordCountStarts | docs/datasets/literary/literary.py:215 | the `words` statistic counts the places where a word begins |
| Stats.WordCountOfJoin | docs/datasets/literary/literary.py:215 | words written with single spaces are counted one by one |
| Stats.WordCount | docs/datasets/literary/literary.py:215 | definition of `len(text.split())`; `Stats.WordCountStarts` counts it independently |
| Stats.CleanHasWords | docs/datasets/literary/literary.py:181-196 | the word count of a cleaned text is positive exactly when the cleaning kept a paragraph; with none kept, `clean_text` is `''` and the count is 0 |
| Stats.Pieces | docs/datasets/literary/literary.py:221 | definition of `re.split(r' \|—', p)`, at least one piece; `Stats.PieceCount`, `Stats.PiecesFree` and `Stats.PiecesJoin` state what the pieces are |
| Stats.PieceCount | docs/datasets/literary/literary.py:221 | `len(re.split(r' \|—', p))` is one more than the number of spaces and em dashes in `p` |
| Stats.PiecesFree | docs/datasets/literary/literary.py:221 | no piece holds a space or an em dash |
| Stats.PiecesJoin | docs/datasets/literary/literary.py:221 | the pieces joined by spaces give the paragraph with em dashes turned into spaces |
| Stats.PieceCountOf | docs/datasets/literary/literary.py:221 | the piece count of one paragraph is one more than its separator count |
| Stats.PieceCounts | docs/datasets/literary/literary.py:219-221 | one count per paragraph of `text.split('\n\n')`, each one more than that paragraph's separator count |
| Stats.CleanPieceCounts | docs/datasets/literary/literary.py:219-223 | `parlength` of a cleaned text counts one plus the separators of each kept paragraph, in order, and a single 1 when no paragraph was kept |
| Network.RowExact | docs/datasets/literary/literary.py:233 | the pairs of row `i` are exactly those with first position `i` and second between `i` and `n`, strictly increasing |
| Network.TriClosed | docs/datasets/literary/literary.py:233 | `2 * Tri(m) == m * (m - 1)` |
| Network.CombinationsFromMembers | docs/datasets/literary/literary.py:233 | the pairs from row `i` on are exactly those with `i <= a < b < n` |
| Network.CombinationsFromIncreasing | docs/datasets/literary/literary.py:233 | itertools emits the pairs in strictly increasing lexicographic order |
| Network.CombinationsExact | docs/datasets/literary/literary.py:233 | the pairs are exactly `i < j < n`, strictly increasing, `n(n-1)/2` of them |
| Network.Combinations | docs/datasets/literary/literary.py:233 | definition of `itertools.combinations(range(n), 2)`, row after row; `Network.CombinationsExact` states what it holds and in which order |
| Network.SortedListingUnique | docs/datasets/literary/literary.py:233-234 | two strictly increasing lists of the same pairs are equal |
| Network.SortedPairsAreCombinations | docs/datasets/literary/literary.py:233-234 | `pairs` after the set and the sort is the itertools enumeration itself, whatever order the set yields |
| Network.TriDifference | docs/datasets/literary/literary.py:235 | the rows before row `i` hold `n*i - Tri(i+1)` pairs |
| Network.HalfProduct | docs/datasets/literary/literary.py:235 | `i*(i+1)/2` is the triangular number `Tri(i+1)` |
| Network.CombinationsFromAt | docs/datasets/literary/literary.py:233-235 | pair `(i, j)` sits after all the rows before `i`, at offset `j-i-1` in its row |
| Network.RowsBeforeCount | docs/datasets/literary/literary.py:233 | the rows from `i0` up to row `i` hold `Tri(n-i0) - Tri(n-i)` pairs |
| Network.CondensedIndexFormula | docs/datasets/literary/literary.py:235 | the condensed index used here is SciPy's `n*i - i*(i+1)/2 + (j-i-1)` exactly, with integer halving |
| Network.CondensedIndex | docs/datasets/literary/literary.py:235 | definition of SciPy's condensed index through triangular numbers; `Network.CondensedIndexFormula` ties it to SciPy's own formula |
| Network.CondensedIndexCounts | docs/datasets/literary/literary.py:235 | SciPy's condensed index `n*i - i*(i+1)/2 + (j-i-1)` counts the pairs before `(i, j)` |
| Network.CondensedIndexMatches | docs/datasets/literary/literary.py:233-235 | the pair at the condensed index of `(i, j)` in the sorted pair list is `(i, j)`, so links and distances line up |

## Left out

- Database access (`sqlite3`, `pd.read_sql_query`, `connection.close()`) is not modelled. The query is modelled only as text, and its results are the input rows.
- Downloading and header stripping (`gutenbergpy`) are not modelled. The cleaning model starts from the stripped, decoded text.
- `CountVectorizer` and `cosine_similarity` are floating-point library calls. `RemoveDuplicates` takes the similarity matrix of the deduplicated titles as input. It does not model the exception `CountVectorizer` raises on an empty query result or an all-stop-word vocabulary.
- Some statistics are floating-point numerics and are not modelled: TextBlob polarity, the UMAP embedding, `pdist` distances, `max(distances) - distances`, the 8.5 link threshold, the rescale to [0, 5] (which divides by zero when one link survives), and the mean in `parlength`.
- The driver loops are not modelled: the loop over authors that concatenates the library (lines 118-125), the loop over book ids that collects texts (lines 200-203), and the column assignments. The author and exclude lists are parameters, not constants.
- Cleaning.IsWordChar: `\w` is exact below U+0250. Every letter at or above U+0250 counts as non-word, Latin ones included (U+0259 'ə', U+1EA0 'Ạ'), although Python counts them as word characters. A paragraph made only of such letters is therefore dropped as a heading, where the script keeps it.
- Seqs.Drop: a label at or above the row count is skipped, where pandas `drop` raises `KeyError`. No call in the script can pass one, since its labels come from `enumerate` over the rows and from row masks.
- Catalog.NearDuplicatesOf: ties the matrix to the relation `similar` only when cell `(i, j)` is a function of rows `i` and `j`. This holds for count vectors over a vocabulary fitted on all titles, but it is assumed here, not derived from `CountVectorizer`.
- Text.Search: exclude patterns are assumed to use no regex metacharacter other than `.`. This holds for the lists in the script.
- The pandas machinery is modelled as sequences of records: DataFrames, index labels (always 0..n-1 after `reset_index`), `concat`, and NaN cells in text columns.
- Working-directory changes, the `collections.MutableSet` patch, and the CSV and JSON exports are not modelled.
