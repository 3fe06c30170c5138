/** Catalog row selection: `remove_duplicates` (first by Gutenberg id, then
    by title similarity, sparing multi-volume titles) and the exclude lists
    applied to the assembled library.  The cosine-similarity matrix of the
    titles is an input: how it is computed is not modelled. */
module Catalog {
  import opened Text
  import opened Seqs

  /** One row of a query result: `gutid`, `author`, `title`, `downloads`. */
  datatype Book = Book(gutid: int, author: string, title: string, downloads: int)

  /** One row of the library: a book, the name it was found under (`query`)
      and the nationality that name is listed under. */
  datatype Entry = Entry(book: Book, query: string, nationality: string)

  // ---------------------------------------------------------------------
  // Step 1: duplicates by id, `df['gutid'].duplicated(keep='first')`

  /** Some earlier row has the same id as row `k`. */
  predicate RepeatsEarlierId(rows: seq<Book>, k: nat)
    requires k < |rows|
  {
    exists j :: 0 <= j < k && rows[j].gutid == rows[k].gutid
  }

  /** The positions `duplicated(keep='first')` marks. */
  function DuplicatedIds(rows: seq<Book>): (d: set<nat>)
    ensures forall k: nat :: k in d <==> k < |rows| && RepeatsEarlierId(rows, k)
  {
    set k: nat | k < |rows| && RepeatsEarlierId(rows, k)
  }

  /** Every id of `rows` keeps exactly one unmarked position: one at or
      before each of its rows, and no two unmarked rows share an id. */
  lemma DuplicatedIdsFirst(rows: seq<Book>)
    ensures forall k :: 0 <= k < |rows| ==> UnmarkedFirst(rows, k)
    ensures forall a: nat, b: nat :: a < b < |rows| && a !in DuplicatedIds(rows) && b !in DuplicatedIds(rows) ==>
      rows[a].gutid != rows[b].gutid
  {
    forall k | 0 <= k < |rows| ensures UnmarkedFirst(rows, k) {
      FirstOccurrence(rows, k);
      var f: nat :| f <= k && rows[f].gutid == rows[k].gutid && !RepeatsEarlierId(rows, f);
      assert f !in DuplicatedIds(rows);
    }
    forall a: nat, b: nat | a < b < |rows| && a !in DuplicatedIds(rows) && b !in DuplicatedIds(rows)
      ensures rows[a].gutid != rows[b].gutid
    {
      assert !RepeatsEarlierId(rows, b);
    }
  }

  /** Some position at or before row `k` holds its id and is not marked. */
  predicate UnmarkedFirst(rows: seq<Book>, k: nat)
    requires k < |rows|
  {
    exists f :: 0 <= f <= k && f !in DuplicatedIds(rows) && rows[f].gutid == rows[k].gutid
  }

  /** `df.loc[~duplicated_ids].reset_index(drop=True)`. */
  function DedupById(rows: seq<Book>): seq<Book> {
    Drop(rows, DuplicatedIds(rows))
  }

  function Ids(rows: seq<Book>): set<int> {
    set b | b in rows :: b.gutid
  }

  /** Every id has a first row, one that repeats no earlier id. */
  lemma {:induction false} FirstOccurrence(rows: seq<Book>, k: nat)
    requires k < |rows|
    ensures exists f :: 0 <= f <= k && rows[f].gutid == rows[k].gutid && !RepeatsEarlierId(rows, f)
    decreases k
  {
    if RepeatsEarlierId(rows, k) {
      var j :| 0 <= j < k && rows[j].gutid == rows[k].gutid;
      FirstOccurrence(rows, j);
    }
  }

  /** The rows kept are exactly the first row of each id, in input order,
      and they carry pairwise distinct ids. */
  lemma DedupKeepsFirst(rows: seq<Book>)
    ensures var r := DedupById(rows);
      var ks := KeptIndices(|rows|, DuplicatedIds(rows));
      && |r| == |ks|
      && (forall m :: 0 <= m < |r| ==> r[m] == rows[ks[m]] && !RepeatsEarlierId(rows, ks[m]))
      && (forall k :: 0 <= k < |rows| && !RepeatsEarlierId(rows, k) ==> k in ks)
      && (forall a, b :: 0 <= a < b < |r| ==> r[a].gutid != r[b].gutid)
  {
    var ks := KeptIndices(|rows|, DuplicatedIds(rows));
    DropSelects(rows, DuplicatedIds(rows));
    var r := DedupById(rows);
    forall a, b | 0 <= a < b < |r| ensures r[a].gutid != r[b].gutid {
      assert ks[a] < ks[b];
      assert !RepeatsEarlierId(rows, ks[b]);
    }
  }

  /** Deduplication neither loses nor invents an id. */
  lemma DedupSameIds(rows: seq<Book>)
    ensures Ids(DedupById(rows)) == Ids(rows)
  {
    var r := DedupById(rows);
    var ks := KeptIndices(|rows|, DuplicatedIds(rows));
    DedupKeepsFirst(rows);
    forall id | id in Ids(rows) ensures id in Ids(r) {
      var k :| 0 <= k < |rows| && rows[k].gutid == id;
      FirstOccurrence(rows, k);
      var f :| 0 <= f <= k && rows[f].gutid == id && !RepeatsEarlierId(rows, f);
      var m :| 0 <= m < |ks| && ks[m] == f;
      assert r[m] in r;
    }
    forall id | id in Ids(r) ensures id in Ids(rows) {
      var m :| 0 <= m < |r| && r[m].gutid == id;
      assert rows[ks[m]] in rows;
    }
  }

  /** Deduplicating by id a second time removes nothing. */
  lemma DedupIdempotent(rows: seq<Book>)
    ensures DedupById(DedupById(rows)) == DedupById(rows)
  {
    var r := DedupById(rows);
    DedupKeepsFirst(rows);
    assert forall k: nat :: k < |r| ==> !RepeatsEarlierId(r, k);
    DropNothing(r, DuplicatedIds(r));
  }

  // ---------------------------------------------------------------------
  // Step 2: near-duplicate titles

  /** An entry of the similarity matrix; `NaN` is what the mask writes. */
  datatype Cell = NaN | Sim(value: real)

  const Threshold: real := 0.5

  /** `not np.isnan(x) and x >= 0.5`. */
  predicate IsHit(c: Cell) {
    c.Sim? && c.value >= Threshold
  }

  /** Row `i` of the matrix holds a hit somewhere. */
  ghost predicate RowHasHit(sim: array2<Cell>, i: nat)
    reads sim
    requires i < sim.Length0
  {
    exists j :: 0 <= j < sim.Length1 && IsHit(sim[i, j])
  }

  /** Row `i` is similar to some earlier row: a hit in the strict lower
      triangle. */
  ghost predicate SimilarToEarlier(sim: array2<Cell>, i: nat)
    reads sim
    requires i < sim.Length0
  {
    exists j :: 0 <= j < i && j < sim.Length1 && IsHit(sim[i, j])
  }

  /** The rows that are similar to an earlier row; the first row never is,
      so `remove_duplicates` always keeps it. */
  ghost function NearDuplicates(sim: array2<Cell>): (d: set<nat>)
    reads sim
    ensures forall i: nat :: i in d <==> i < sim.Length0 && SimilarToEarlier(sim, i)
    ensures 0 !in d
    ensures forall i :: i in d ==> 0 < i < sim.Length0
  {
    set i: nat | i < sim.Length0 && SimilarToEarlier(sim, i)
  }

  /** `cosine_sim[np.triu_indices_from(cosine_sim)] = np.nan`: the diagonal
      and the upper triangle become NaN, the strict lower triangle stays. */
  method MaskUpperTriangle(sim: array2<Cell>)
    modifies sim
    ensures forall i, j :: 0 <= i < sim.Length0 && 0 <= j < sim.Length1 ==>
      sim[i, j] == if i <= j then NaN else old(sim[i, j])
  {
    forall i, j | 0 <= i < sim.Length0 && i <= j < sim.Length1 {
      sim[i, j] := NaN;
    }
  }

  /** Lines 67-70: the positions of the rows holding a hit, ascending. */
  method FlagRows(sim: array2<Cell>) returns (indices: seq<nat>)
    ensures Increasing(indices)
    ensures forall i: nat :: i in indices <==> i < sim.Length0 && RowHasHit(sim, i)
  {
    indices := [];
    for i := 0 to sim.Length0
      invariant Increasing(indices)
      invariant forall k: nat :: k in indices <==> k < i && RowHasHit(sim, k)
    {
      // any(not np.isnan(x) and x >= 0.5 for x in row)
      var found := false;
      var j := 0;
      while j < sim.Length1 && !found
        invariant 0 <= j <= sim.Length1
        invariant found <==> exists c :: 0 <= c < j && IsHit(sim[i, c])
      {
        found := IsHit(sim[i, j]);
        j := j + 1;
      }
      if found {
        assert forall a :: 0 <= a < |indices| ==> indices[a] in indices;
        indices := indices + [i];
      }
    }
  }

  /** `'Vol|vol|Part|part'`. */
  const SeriesMarkers: seq<string> := ["Vol", "vol", "Part", "part"]

  /** The title marks one volume or part of a series. */
  predicate IsSeriesTitle(title: string) {
    SearchAny(title, SeriesMarkers)
  }

  /** The regex `'Vol|vol|Part|part'` has no metacharacter, so a title
      matches it exactly when it contains one of the four words as a
      substring (`"Volume"`, `"Counterpart"` and `"Apart"` included). */
  lemma SeriesTitleContains(title: string)
    ensures IsSeriesTitle(title) <==> exists m :: m in SeriesMarkers && Contains(title, m)
  {
    forall m | m in SeriesMarkers ensures Search(title, m) <==> Contains(title, m) {
      SearchLiteral(title, m);
    }
  }

  /** `indices_keep`: the positions of series titles. */
  function SeriesRows(rows: seq<Book>): (keep: set<nat>)
    ensures forall k: nat :: k in keep <==> k < |rows| && IsSeriesTitle(rows[k].title)
  {
    set k: nat | k < |rows| && IsSeriesTitle(rows[k].title)
  }

  /** `indices_keep` holds exactly the positions of the titles containing
      `Vol`, `vol`, `Part` or `part` as a substring. */
  lemma SeriesRowsContain(rows: seq<Book>)
    ensures forall k: nat :: k in SeriesRows(rows) <==>
      k < |rows| && exists m :: m in SeriesMarkers && Contains(rows[k].title, m)
  {
    forall k: nat | k < |rows| {
      SeriesTitleContains(rows[k].title);
    }
  }

  /** The rows left by the similarity step: a row goes only when it is similar
      to an earlier row and its title is not a series title. */
  function Survivors(rows: seq<Book>, near: set<nat>): seq<Book> {
    Drop(rows, near - SeriesRows(rows))
  }

  /** A row survives the similarity step exactly when it is similar to no
      earlier row or is a series title; survivors keep their order. */
  lemma SurvivorsExact(rows: seq<Book>, near: set<nat>)
    ensures var r := Survivors(rows, near);
      var ks := KeptIndices(|rows|, near - SeriesRows(rows));
      && |r| == |ks|
      && (forall m :: 0 <= m < |r| ==> r[m] == rows[ks[m]])
      && (forall k :: 0 <= k < |rows| ==>
            (k in ks <==> k !in near || IsSeriesTitle(rows[k].title)))
  {
    DropSelects(rows, near - SeriesRows(rows));
  }

  /** No series title and no row without an earlier similar row is ever
      removed by the similarity step. */
  lemma SurvivorsKeep(rows: seq<Book>, near: set<nat>, k: nat)
    requires k < |rows|
    requires k !in near || IsSeriesTitle(rows[k].title)
    ensures rows[k] in Survivors(rows, near)
  {
    var ks := KeptIndices(|rows|, near - SeriesRows(rows));
    SurvivorsExact(rows, near);
    var m :| 0 <= m < |ks| && ks[m] == k;
    assert Survivors(rows, near)[m] == rows[k];
  }

  /** With no earlier row to resemble, the first row always survives and
      stays first. */
  lemma FirstRowSurvives(rows: seq<Book>, near: set<nat>)
    requires rows != [] && 0 !in near
    ensures Survivors(rows, near) != [] && Survivors(rows, near)[0] == rows[0]
  {
    var ks := KeptIndices(|rows|, near - SeriesRows(rows));
    SurvivorsExact(rows, near);
    assert 0 in ks;
  }

  /** `remove_duplicates(df)` with the title similarity of the id-deduplicated
      rows given as `sim`, which it masks in place. */
  method RemoveDuplicates(df: seq<Book>, sim: array2<Cell>) returns (result: seq<Book>)
    requires sim.Length0 == |DedupById(df)| && sim.Length1 == |DedupById(df)|
    modifies sim
    ensures result == Survivors(DedupById(df), old(NearDuplicates(sim)))
    ensures forall i, j :: 0 <= i < sim.Length0 && 0 <= j < sim.Length1 ==>
      sim[i, j] == if i <= j then NaN else old(sim[i, j])
  {
    var rows := DedupById(df);
    ghost var near := NearDuplicates(sim);
    MaskUpperTriangle(sim);
    var indices := FlagRows(sim);
    var keep := SeriesRows(rows);
    var dropped := Filter(indices, (i: nat) => i !in keep);
    FilterMembers(indices, (i: nat) => i !in keep);
    forall i: nat | i < sim.Length0 ensures i in indices <==> i in near {
      if RowHasHit(sim, i) {
        var j :| 0 <= j < sim.Length1 && IsHit(sim[i, j]);
        assert j < i && IsHit(old(sim[i, j]));
      }
      if i in near {
        var j :| 0 <= j < i && j < sim.Length1 && IsHit(old(sim[i, j]));
        assert IsHit(sim[i, j]);
      }
    }
    var dropSet := set i | i in dropped;
    assert dropSet == near - keep;
    result := Drop(rows, dropSet);
  }

  // ---------------------------------------------------------------------
  // The whole deduplication, with similarity as a relation between titles

  /** The rows similar to an earlier row under `similar`.  Word counts over a
      vocabulary fitted on all titles hold every word of both titles, so the
      cosine similarity of two titles depends on those two titles alone and
      "at least 0.5" is a relation between two books. */
  function NearOf(similar: (Book, Book) -> bool, rows: seq<Book>): set<nat> {
    set i: nat | i < |rows| && exists j :: 0 <= j < i && similar(rows[i], rows[j])
  }

  /** `remove_duplicates(df)`: the id step, then the similarity step. */
  function Deduplicated(similar: (Book, Book) -> bool, df: seq<Book>): seq<Book> {
    var rows := DedupById(df);
    Survivors(rows, NearOf(similar, rows))
  }

  /** A matrix whose cell `(i, j)` is a hit exactly when rows `i` and `j` are
      similar flags the rows `NearOf` names, so `RemoveDuplicates` returns
      `Deduplicated(similar, df)` for such a matrix. */
  lemma NearDuplicatesOf(similar: (Book, Book) -> bool, rows: seq<Book>, sim: array2<Cell>)
    requires sim.Length0 == |rows| && sim.Length1 == |rows|
    requires forall i, j :: 0 <= i < |rows| && 0 <= j < |rows| ==>
      (IsHit(sim[i, j]) <==> similar(rows[i], rows[j]))
    ensures NearDuplicates(sim) == NearOf(similar, rows)
  {
  }

  /** After the similarity step no row that is not a series title is similar
      to an earlier row, so a second similarity step removes nothing. */
  lemma SurvivorsIdempotent(similar: (Book, Book) -> bool, rows: seq<Book>)
    ensures var r := Survivors(rows, NearOf(similar, rows));
      Survivors(r, NearOf(similar, r)) == r
  {
    var near := NearOf(similar, rows);
    var r := Survivors(rows, near);
    var ks := KeptIndices(|rows|, near - SeriesRows(rows));
    SurvivorsExact(rows, near);
    forall k | k in NearOf(similar, r) ensures k in SeriesRows(r) {
      var j :| 0 <= j < k && similar(r[k], r[j]);
      assert ks[j] < ks[k];
      assert ks[k] in near;
      assert ks[k] in ks;
    }
    DropNothing(r, NearOf(similar, r) - SeriesRows(r));
  }

  /** A subsequence of rows with distinct ids has distinct ids, so the id
      step leaves the output of the similarity step alone. */
  lemma SurvivorsDistinct(rows: seq<Book>, near: set<nat>)
    requires forall a, b :: 0 <= a < b < |rows| ==> rows[a].gutid != rows[b].gutid
    ensures DedupById(Survivors(rows, near)) == Survivors(rows, near)
  {
    var r := Survivors(rows, near);
    var ks := KeptIndices(|rows|, near - SeriesRows(rows));
    SurvivorsExact(rows, near);
    forall k, j | 0 <= j < k < |r| ensures r[j].gutid != r[k].gutid {
      assert ks[j] < ks[k];
    }
    DropNothing(r, DuplicatedIds(r));
  }

  /** Removing duplicates twice is removing them once. */
  lemma DeduplicatedIdempotent(similar: (Book, Book) -> bool, df: seq<Book>)
    ensures Deduplicated(similar, Deduplicated(similar, df)) == Deduplicated(similar, df)
  {
    var rows := DedupById(df);
    var r := Survivors(rows, NearOf(similar, rows));
    DedupKeepsFirst(df);
    SurvivorsDistinct(rows, NearOf(similar, rows));
    SurvivorsIdempotent(similar, rows);
  }

  // ---------------------------------------------------------------------
  // Exclude lists

  /** The library minus every entry whose author matches an excluded-author
      pattern, then minus every entry whose title matches an excluded-title
      pattern. */
  function ExcludeListed(library: seq<Entry>, excludeAuthors: seq<string>, excludeTitles: seq<string>): seq<Entry> {
    Filter(Filter(library, AuthorAllowed(excludeAuthors)), TitleAllowed(excludeTitles))
  }

  /** The row mask of line 168. */
  function AuthorAllowed(excludeAuthors: seq<string>): Entry -> bool {
    (e: Entry) => !SearchAny(e.book.author, excludeAuthors)
  }

  /** The row mask of line 169. */
  function TitleAllowed(excludeTitles: seq<string>): Entry -> bool {
    (e: Entry) => !SearchAny(e.book.title, excludeTitles)
  }

  /** Whether the author or the title of `e` matches an exclude list. */
  predicate Excluded(e: Entry, excludeAuthors: seq<string>, excludeTitles: seq<string>) {
    SearchAny(e.book.author, excludeAuthors) || SearchAny(e.book.title, excludeTitles)
  }

  /** Both masks at once. */
  function Allowed(excludeAuthors: seq<string>, excludeTitles: seq<string>): Entry -> bool {
    (e: Entry) => !Excluded(e, excludeAuthors, excludeTitles)
  }

  /** The two filters in a row are one filter by both masks. */
  lemma ExcludeListedOnce(library: seq<Entry>, excludeAuthors: seq<string>, excludeTitles: seq<string>)
    ensures ExcludeListed(library, excludeAuthors, excludeTitles) ==
      Filter(library, Allowed(excludeAuthors, excludeTitles))
  {
    FilterTwice(library, AuthorAllowed(excludeAuthors), TitleAllowed(excludeTitles),
      Allowed(excludeAuthors, excludeTitles));
  }

  /** An entry stays exactly when neither its author nor its title matches,
      and the entries that stay keep their order: the result is the library
      with the excluded positions dropped. */
  lemma ExcludeListedExact(library: seq<Entry>, excludeAuthors: seq<string>, excludeTitles: seq<string>)
    ensures forall e :: e in ExcludeListed(library, excludeAuthors, excludeTitles) <==>
      e in library && !Excluded(e, excludeAuthors, excludeTitles)
    ensures ExcludeListed(library, excludeAuthors, excludeTitles) ==
      Drop(library, set k: nat | k < |library| && Excluded(library[k], excludeAuthors, excludeTitles))
  {
    var allowed := Allowed(excludeAuthors, excludeTitles);
    ExcludeListedOnce(library, excludeAuthors, excludeTitles);
    FilterMembers(library, allowed);
    FilterIsDrop(library, allowed);
    DropSameBelow(library, Rejected(library, allowed),
      set k: nat | k < |library| && Excluded(library[k], excludeAuthors, excludeTitles));
  }

  /** The exclude filters remove nothing else: a library in which no entry
      matches comes through unchanged. */
  lemma ExcludeNothingMatched(library: seq<Entry>, excludeAuthors: seq<string>, excludeTitles: seq<string>)
    requires forall k :: 0 <= k < |library| ==> !Excluded(library[k], excludeAuthors, excludeTitles)
    ensures ExcludeListed(library, excludeAuthors, excludeTitles) == library
  {
    ExcludeListedOnce(library, excludeAuthors, excludeTitles);
    FilterAllPass(library, Allowed(excludeAuthors, excludeTitles));
  }

  /** An empty exclude list joins to the empty regex, which matches every
      author, so the whole library is dropped. */
  lemma EmptyAuthorListDropsAll(library: seq<Entry>, excludeTitles: seq<string>)
    ensures ExcludeListed(library, [], excludeTitles) == []
  {
    var pa := AuthorAllowed([]);
    forall e: Entry ensures !pa(e) { EmptyAlternativeMatchesAll(e.book.author, []); }
    FilterNone(library, pa);
  }
}
