/** The edge list of `library_network`: every pair of row positions of
    `library_stats`, `itertools.combinations(range(n), 2)` put through a set
    and sorted.  The pairs come out in lexicographic order, which is the
    order of SciPy's condensed distance vector, so the `k`-th pair and the
    `k`-th distance belong to the same two books. */
module Network {

  type Pair = (nat, nat)

  /** Tuple order: by first position, then by second. */
  predicate LexLess(a: Pair, b: Pair) {
    a.0 < b.0 || (a.0 == b.0 && a.1 < b.1)
  }

  /** Each pair strictly before the next, hence no pair twice. */
  predicate LexIncreasing(ps: seq<Pair>) {
    forall a, b :: 0 <= a < b < |ps| ==> LexLess(ps[a], ps[b])
  }

  /** The pairs `(i, j)` for `j` from `i + 1` to `n - 1`. */
  function Row(i: nat, n: nat): (r: seq<Pair>)
    ensures |r| == if i < n then n - i - 1 else 0
    ensures forall k :: 0 <= k < |r| ==> r[k] == (i, i + 1 + k)
  {
    if i < n then seq(n - i - 1, k requires 0 <= k < n - i - 1 => (i, i + 1 + k)) else []
  }

  /** Row `i` holds exactly the pairs with first position `i` and second
      between `i` and `n`, in increasing order. */
  lemma RowExact(i: nat, n: nat)
    ensures forall a: nat, b: nat :: (a, b) in Row(i, n) <==> a == i && i < b < n
    ensures LexIncreasing(Row(i, n))
  {
    var r := Row(i, n);
    forall b: nat | i < b < n ensures (i, b) in r {
      assert r[b - i - 1] == (i, b);
    }
  }

  /** `combinations(range(i, n), 2)` in the order itertools emits them: the
      row of `i`, then the rows after it. */
  function CombinationsFrom(i: nat, n: nat): seq<Pair>
    decreases n - i
  {
    if i >= n then [] else Row(i, n) + CombinationsFrom(i + 1, n)
  }

  /** `itertools.combinations(range(n), 2)`. */
  function Combinations(n: nat): seq<Pair> {
    CombinationsFrom(0, n)
  }

  /** The number of pairs of `m` things. */
  function Tri(m: nat): nat {
    if m == 0 then 0 else Tri(m - 1) + (m - 1)
  }

  lemma {:induction false} TriClosed(m: nat)
    ensures 2 * Tri(m) == m * (m - 1)
  {
    if m > 0 {
      TriClosed(m - 1);
      assert (m - 1) * (m - 2) + 2 * (m - 1) == m * (m - 1);
    }
  }

  /** The pairs from row `i` on are exactly those with `i <= a < b < n`. */
  lemma {:induction false} CombinationsFromMembers(i: nat, n: nat)
    ensures |CombinationsFrom(i, n)| == Tri(if i < n then n - i else 0)
    ensures forall a: nat, b: nat :: (a, b) in CombinationsFrom(i, n) <==> i <= a < b < n
    decreases n - i
  {
    if i < n {
      CombinationsFromMembers(i + 1, n);
      var row, rest := Row(i, n), CombinationsFrom(i + 1, n);
      assert Tri(n - i) == Tri(n - i - 1) + (n - i - 1);
      assert |CombinationsFrom(i + 1, n)| == Tri(n - i - 1);
      RowExact(i, n);
    }
  }

  /** The enumeration is in strictly increasing lexicographic order. */
  lemma {:induction false} CombinationsFromIncreasing(i: nat, n: nat)
    ensures LexIncreasing(CombinationsFrom(i, n))
    decreases n - i
  {
    if i < n {
      CombinationsFromIncreasing(i + 1, n);
      CombinationsFromMembers(i + 1, n);
      var row, rest := Row(i, n), CombinationsFrom(i + 1, n);
      var all := row + rest;
      forall a, b | 0 <= a < b < |all| ensures LexLess(all[a], all[b]) {
        if b >= |row| {
          assert all[b] == rest[b - |row|] && all[b] in rest;
          assert all[b].0 > i;
          if a >= |row| { assert all[a] == rest[a - |row|]; }
        }
      }
    }
  }

  /** `combinations(range(n), 2)` holds each pair `i < j < n` once, in
      lexicographic order, `n(n-1)/2` of them. */
  lemma CombinationsExact(n: nat)
    ensures forall i: nat, j: nat :: (i, j) in Combinations(n) <==> i < j < n
    ensures LexIncreasing(Combinations(n))
    ensures 2 * |Combinations(n)| == n * (n - 1)
  {
    CombinationsFromMembers(0, n);
    CombinationsFromIncreasing(0, n);
    TriClosed(n);
  }

  /** Two strictly increasing listings of the same pairs are the same list. */
  lemma {:induction false} SortedListingUnique(xs: seq<Pair>, ys: seq<Pair>)
    requires LexIncreasing(xs) && LexIncreasing(ys)
    requires forall p :: p in xs <==> p in ys
    ensures xs == ys
  {
    assert xs != [] ==> xs[0] in ys;
    assert ys != [] ==> ys[0] in xs;
    if xs != [] && ys != [] {
      assert xs[0] == ys[0] by {
        assert xs[0] in ys && ys[0] in xs;
        var a :| 0 <= a < |ys| && ys[a] == xs[0];
        var b :| 0 <= b < |xs| && xs[b] == ys[0];
        assert a > 0 ==> LexLess(ys[0], xs[0]);
        assert b > 0 ==> LexLess(xs[0], ys[0]);
      }
      var xt, yt := xs[1..], ys[1..];
      assert LexIncreasing(xt) && LexIncreasing(yt) by {
        forall a, b | 0 <= a < b < |xt| ensures LexLess(xt[a], xt[b]) { assert xt[a] == xs[a + 1]; }
        forall a, b | 0 <= a < b < |yt| ensures LexLess(yt[a], yt[b]) { assert yt[a] == ys[a + 1]; }
      }
      forall p ensures p in xt <==> p in yt {
        if p in xt {
          var a :| 0 <= a < |xt| && xt[a] == p;
          assert LexLess(xs[0], xs[a + 1]);
          assert p in ys && p != ys[0];
          var b :| 0 <= b < |ys| && ys[b] == p;
          assert ys[1..][b - 1] == p;
        }
        if p in yt {
          var b :| 0 <= b < |yt| && yt[b] == p;
          assert LexLess(ys[0], ys[b + 1]);
          assert p in xs && p != xs[0];
          var a :| 0 <= a < |xs| && xs[a] == p;
          assert xs[1..][a - 1] == p;
        }
      }
      SortedListingUnique(xt, yt);
      assert xs == [xs[0]] + xt && ys == [ys[0]] + yt;
    }
  }

  /** `pairs = list(set(combinations(range(n), 2))); pairs.sort()`: whatever
      order the set yields, a sorted list of its members without repeats is
      the itertools enumeration itself. */
  lemma SortedPairsAreCombinations(n: nat, pairs: seq<Pair>)
    requires forall p :: p in pairs <==> p in Combinations(n)
    requires LexIncreasing(pairs)
    ensures pairs == Combinations(n)
  {
    CombinationsExact(n);
    SortedListingUnique(pairs, Combinations(n));
  }

  /** SciPy's position of the distance between `i` and `j` (`i < j < n`) in
      the condensed distance vector. */
  function CondensedIndex(n: nat, i: nat, j: nat): int {
    n * i - Tri(i + 1) + (j - i - 1)
  }

  /** `CondensedIndex` is SciPy's `n*i - i*(i+1)/2 + (j-i-1)`. */
  lemma CondensedIndexFormula(n: nat, i: nat, j: nat)
    ensures CondensedIndex(n, i, j) == n * i - (i * (i + 1)) / 2 + (j - i - 1)
  {
    HalfProduct(i);
  }

  /** The number of pairs in the rows from `i0` up to, not including, `i`. */
  function RowsBefore(i0: nat, i: nat, n: nat): nat
    requires i0 <= i < n
    decreases i - i0
  {
    if i0 == i then 0 else (n - i0 - 1) + RowsBefore(i0 + 1, i, n)
  }

  /** The rows from `i0` up to `i` hold `Tri(n - i0) - Tri(n - i)` pairs. */
  lemma {:induction false} RowsBeforeCount(i0: nat, i: nat, n: nat)
    requires i0 <= i < n
    ensures RowsBefore(i0, i, n) == Tri(n - i0) - Tri(n - i)
    decreases i - i0
  {
    if i0 < i {
      RowsBeforeCount(i0 + 1, i, n);
      assert Tri(n - i0) == Tri(n - i0 - 1) + (n - i0 - 1);
    }
  }

  /** Pair `(i, j)` sits after the rows before `i`, at offset `j - i - 1` in
      its own row. */
  lemma {:induction false} CombinationsFromAt(i0: nat, n: nat, i: nat, j: nat)
    requires i0 <= i < j < n
    ensures RowsBefore(i0, i, n) + (j - i - 1) < |CombinationsFrom(i0, n)|
    ensures CombinationsFrom(i0, n)[RowsBefore(i0, i, n) + (j - i - 1)] == (i, j)
    decreases i - i0
  {
    var row, rest := Row(i0, n), CombinationsFrom(i0 + 1, n);
    assert CombinationsFrom(i0, n) == row + rest;
    if i0 < i {
      CombinationsFromAt(i0 + 1, n, i, j);
      var k := RowsBefore(i0 + 1, i, n) + (j - i - 1);
      assert RowsBefore(i0, i, n) + (j - i - 1) == |row| + k;
      assert (row + rest)[|row| + k] == rest[k];
    } else {
      assert (row + rest)[j - i - 1] == row[j - i - 1];
    }
  }

  /** The rows before row `i` hold `n * i - Tri(i + 1)` pairs. */
  lemma {:induction false} TriDifference(n: nat, i: nat)
    requires i <= n
    ensures Tri(n) - Tri(n - i) == n * i - Tri(i + 1)
  {
    if i > 0 {
      TriDifference(n, i - 1);
      assert Tri(n - (i - 1)) == Tri(n - i) + (n - i);
      assert Tri(i + 1) == Tri(i) + i;
      assert n * i == n * (i - 1) + n;
    }
  }

  /** The halved product in SciPy's formula is a triangular number. */
  lemma HalfProduct(i: nat)
    ensures (i * (i + 1)) / 2 == Tri(i + 1)
  {
    TriClosed(i + 1);
    assert i * (i + 1) == 2 * Tri(i + 1);
  }

  /** The `k`-th pair of the sorted list is the pair the `k`-th condensed
      distance belongs to. */
  lemma CondensedIndexMatches(n: nat, i: nat, j: nat)
    requires i < j < n
    ensures 0 <= CondensedIndex(n, i, j) < |Combinations(n)|
    ensures Combinations(n)[CondensedIndex(n, i, j)] == (i, j)
  {
    CondensedIndexCounts(n, i, j);
    RowsBeforeCount(0, i, n);
    CombinationsFromAt(0, n, i, j);
  }

  /** SciPy's formula counts the pairs in the rows before `i`, then steps
      along row `i`. */
  lemma CondensedIndexCounts(n: nat, i: nat, j: nat)
    requires i <= n
    ensures CondensedIndex(n, i, j) == Tri(n) - Tri(n - i) + (j - i - 1)
  {
    TriDifference(n, i);
  }
}
