/** Row selection over sequences: what pandas does with `df.drop(indices)`
    and with `df.loc[mask]`, followed by `reset_index(drop=True)`.
    Rows are positions 0..n-1, so a DataFrame after `reset_index` is a `seq`. */
module Seqs {

  /** Strictly increasing sequence of positions. */
  predicate Increasing(ks: seq<nat>) {
    forall a, b :: 0 <= a < b < |ks| ==> ks[a] < ks[b]
  }

  /** The positions below `n` that survive dropping the labels in `drop`,
      in ascending order. */
  function KeptIndices(n: nat, drop: set<nat>): (ks: seq<nat>)
    ensures Increasing(ks)
    ensures forall k: nat :: k in ks <==> k < n && k !in drop
    ensures forall m :: 0 <= m < |ks| ==> ks[m] < n
  {
    if n == 0 then []
    else
      var prefix := KeptIndices(n - 1, drop);
      if n - 1 in drop then prefix else prefix + [n - 1]
  }

  /** `df.drop(drop).reset_index(drop=True)`: every row whose position is not
      in `drop`, in the original order. */
  function Drop<T>(xs: seq<T>, drop: set<nat>): (r: seq<T>)
    ensures |r| <= |xs|
  {
    if xs == [] then []
    else
      var prefix := Drop(xs[..|xs| - 1], drop);
      if |xs| - 1 in drop then prefix else prefix + [xs[|xs| - 1]]
  }

  /** The rows `Drop` keeps are exactly the rows at `KeptIndices`, in that order. */
  lemma {:induction false} DropSelects<T>(xs: seq<T>, drop: set<nat>)
    ensures |Drop(xs, drop)| == |KeptIndices(|xs|, drop)|
    ensures forall m :: 0 <= m < |Drop(xs, drop)| ==>
      Drop(xs, drop)[m] == xs[KeptIndices(|xs|, drop)[m]]
  {
    if xs != [] {
      var init := xs[..|xs| - 1];
      DropSelects(init, drop);
      assert |init| == |xs| - 1;
      forall m | 0 <= m < |Drop(init, drop)|
        ensures xs[KeptIndices(|init|, drop)[m]] == init[KeptIndices(|init|, drop)[m]]
      {
      }
    }
  }

  /** Dropping nothing that exists keeps every row. */
  lemma {:induction false} DropNothing<T>(xs: seq<T>, drop: set<nat>)
    requires forall k :: k in drop ==> k >= |xs|
    ensures Drop(xs, drop) == xs
  {
    if xs != [] {
      var init := xs[..|xs| - 1];
      DropNothing(init, drop);
      assert init + [xs[|xs| - 1]] == xs;
    }
  }

  /** `df.loc[mask]` with `mask` given per row: the rows satisfying `keep`, in order. */
  function Filter<T>(xs: seq<T>, keep: T -> bool): (r: seq<T>)
    ensures |r| <= |xs|
  {
    if xs == [] then []
    else
      var prefix := Filter(xs[..|xs| - 1], keep);
      if keep(xs[|xs| - 1]) then prefix + [xs[|xs| - 1]] else prefix
  }

  /** Positions whose row fails `keep`. */
  function Rejected<T>(xs: seq<T>, keep: T -> bool): (d: set<nat>)
    ensures forall k: nat :: k in d <==> k < |xs| && !keep(xs[k])
  {
    set k: nat | k < |xs| && !keep(xs[k])
  }

  /** Every row is either kept by the mask or rejected by it: the rejected
      positions and the kept rows add up to the whole frame. */
  lemma {:induction false} RejectedCount<T>(xs: seq<T>, keep: T -> bool)
    ensures |Rejected(xs, keep)| + |Filter(xs, keep)| == |xs|
  {
    if xs != [] {
      var init, last := xs[..|xs| - 1], |xs| - 1;
      RejectedCount(init, keep);
      var before := Rejected(init, keep);
      assert forall k: nat :: k < last ==> xs[k] == init[k];
      if keep(xs[last]) {
        assert Rejected(xs, keep) == before;
      } else {
        assert Rejected(xs, keep) == before + {last};
        assert last !in before;
      }
    }
  }

  /** Selecting by a row mask is dropping the positions where the mask is false,
      so `Filter` inherits the order facts of `Drop`. */
  lemma {:induction false} FilterIsDrop<T>(xs: seq<T>, keep: T -> bool)
    ensures Filter(xs, keep) == Drop(xs, Rejected(xs, keep))
  {
    if xs != [] {
      var init := xs[..|xs| - 1];
      FilterIsDrop(init, keep);
      DropSameBelow(init, Rejected(init, keep), Rejected(xs, keep));
    }
  }

  /** `Drop` only looks at labels below the length of the sequence. */
  lemma {:induction false} DropSameBelow<T>(xs: seq<T>, d1: set<nat>, d2: set<nat>)
    requires forall k :: k < |xs| ==> (k in d1 <==> k in d2)
    ensures Drop(xs, d1) == Drop(xs, d2)
  {
    if xs != [] {
      DropSameBelow(xs[..|xs| - 1], d1, d2);
    }
  }

  /** A filtered row is a row of the input that passes, and every passing row
      of the input is in the result. */
  lemma {:induction false} FilterMembers<T>(xs: seq<T>, keep: T -> bool)
    ensures forall x :: x in Filter(xs, keep) <==> x in xs && keep(x)
  {
    if xs != [] {
      var init := xs[..|xs| - 1];
      FilterMembers(init, keep);
      assert xs == init + [xs[|xs| - 1]];
    }
  }

  /** Filtering rows that all pass changes nothing. */
  lemma {:induction false} FilterAllPass<T>(xs: seq<T>, keep: T -> bool)
    requires forall k :: 0 <= k < |xs| ==> keep(xs[k])
    ensures Filter(xs, keep) == xs
  {
    if xs != [] {
      var init := xs[..|xs| - 1];
      FilterAllPass(init, keep);
      assert init + [xs[|xs| - 1]] == xs;
    }
  }

  /** A mask no row passes keeps no row. */
  lemma {:induction false} FilterNone<T>(xs: seq<T>, keep: T -> bool)
    requires forall x :: !keep(x)
    ensures Filter(xs, keep) == []
  {
    if xs != [] {
      FilterNone(xs[..|xs| - 1], keep);
    }
  }

  /** Filtering by one mask and then another is filtering by both. */
  lemma {:induction false} FilterTwice<T>(xs: seq<T>, p: T -> bool, q: T -> bool, both: T -> bool)
    requires forall x :: both(x) == (p(x) && q(x))
    ensures Filter(Filter(xs, p), q) == Filter(xs, both)
  {
    if xs != [] {
      var init := xs[..|xs| - 1];
      FilterTwice(init, p, q, both);
      var x := xs[|xs| - 1];
      if p(x) {
        assert Filter(xs, p)[..|Filter(xs, p)| - 1] == Filter(init, p);
      }
    }
  }

  /** Concatenation regrouped; stated once so that proofs about long
      concatenations need not rediscover it element by element. */
  lemma Regroup<T>(a: seq<T>, b: seq<T>, c: seq<T>)
    ensures a + (b + c) == a + b + c
  {
  }
}
