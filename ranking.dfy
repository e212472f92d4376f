/**
 * The top-K selection of the search route (app.py:169, 183, 186):
 * `sorted(scores.items(), key=lambda x: x[1], reverse=True)[:K]`.
 *
 * Python's `sorted` is stable, also with `reverse=True`: items with equal
 * scores keep the order they had in the input (the dictionary's insertion
 * order). Scores are modelled as reals.
 */
module Ranking {
  import opened Basics

  const K := 10

  /** A `(url, score)` pair of `scores.items()`. */
  type Scored = (string, real)

  predicate Descending(xs: seq<Scored>) {
    forall i, j | 0 <= i < j < |xs| :: xs[i].1 >= xs[j].1
  }

  /** The items with score `v`, in order. */
  function WithScore(xs: seq<Scored>, v: real): (r: seq<Scored>)
    ensures |r| <= |xs|
    ensures forall i | 0 <= i < |r| :: r[i].1 == v
  {
    if xs == [] then []
    else (if xs[0].1 == v then [xs[0]] else []) + WithScore(xs[1..], v)
  }

  /** Places `x` before the first item whose score is not greater than its
      own: `x` came first in the input, so it stays ahead of equal scores. */
  function Insert(x: Scored, ys: seq<Scored>): (r: seq<Scored>)
    ensures |r| == |ys| + 1
    ensures multiset(r) == multiset(ys) + multiset{x}
  {
    if ys == [] || ys[0].1 <= x.1 then [x] + ys
    else
      assert ys == [ys[0]] + ys[1..];
      [ys[0]] + Insert(x, ys[1..])
  }

  /** `sorted(items, key=lambda x: x[1], reverse=True)` */
  function SortDesc(xs: seq<Scored>): (r: seq<Scored>)
    ensures |r| == |xs|
    ensures multiset(r) == multiset(xs)
  {
    if xs == [] then []
    else
      assert xs == [xs[0]] + xs[1..];
      Insert(xs[0], SortDesc(xs[1..]))
  }

  /** `sorted(...)[:K]` */
  function TopK(xs: seq<Scored>): (r: seq<Scored>)
    ensures |r| == Min(|xs|, K)
  {
    var sorted := SortDesc(xs);
    sorted[..Min(|sorted|, K)]
  }

  // ------------------------------------------------------------ properties

  /** Inserting into a non-increasing sequence keeps it non-increasing. */
  lemma {:induction false} InsertDescending(x: Scored, ys: seq<Scored>)
    requires Descending(ys)
    ensures Descending(Insert(x, ys))
    decreases |ys|
  {
    if ys == [] || ys[0].1 <= x.1 {
      forall z | z in ys ensures z.1 <= x.1 {
        var i :| 0 <= i < |ys| && ys[i] == z;
        assert ys[0].1 >= ys[i].1;
      }
      DescendingCons(x, ys);
    } else {
      var rest := ys[1..];
      assert Descending(rest);
      InsertDescending(x, rest);
      var r := Insert(x, rest);
      forall z | z in r ensures z.1 <= ys[0].1 {
        assert z in multiset(r);
        if z != x {
          assert z in multiset(rest);
          var i :| 0 <= i < |rest| && rest[i] == z;
          assert ys[i + 1] == z;
        }
      }
      DescendingCons(ys[0], r);
    }
  }

  /** Putting an item that scores at least as much as all others in front of
      a non-increasing sequence keeps it non-increasing. */
  lemma DescendingCons(y: Scored, r: seq<Scored>)
    requires Descending(r) && forall z | z in r :: z.1 <= y.1
    ensures Descending([y] + r)
  {
    var s := [y] + r;
    forall i, j | 0 <= i < j < |s| ensures s[i].1 >= s[j].1 {
      assert s[j] == r[j - 1] && r[j - 1] in r;
      if i > 0 {
        assert s[i] == r[i - 1];
      }
    }
  }

  /** The sort puts the items in non-increasing score order. */
  lemma {:induction false} SortDescending(xs: seq<Scored>)
    ensures Descending(SortDesc(xs))
    decreases |xs|
  {
    if xs != [] {
      SortDescending(xs[1..]);
      InsertDescending(xs[0], SortDesc(xs[1..]));
    }
  }

  lemma {:induction false} WithScoreAppend(xs: seq<Scored>, ys: seq<Scored>, v: real)
    ensures WithScore(xs + ys, v) == WithScore(xs, v) + WithScore(ys, v)
    decreases |xs|
  {
    if xs == [] {
      assert xs + ys == ys;
    } else {
      assert (xs + ys)[0] == xs[0];
      assert (xs + ys)[1..] == xs[1..] + ys;
      WithScoreAppend(xs[1..], ys, v);
    }
  }

  /** Inserting `x` puts it ahead of every item with its score, and leaves
      the items of any other score in their order. */
  lemma {:induction false} InsertStable(x: Scored, ys: seq<Scored>, v: real)
    requires Descending(ys)
    ensures WithScore(Insert(x, ys), v) == (if x.1 == v then [x] else []) + WithScore(ys, v)
    decreases |ys|
  {
    if ys == [] || ys[0].1 <= x.1 {
      WithScoreAppend([x], ys, v);
    } else {
      assert Descending(ys[1..]);
      InsertStable(x, ys[1..], v);
      WithScoreAppend([ys[0]], Insert(x, ys[1..]), v);
      WithScoreAppend([ys[0]], ys[1..], v);
      assert [ys[0]] + ys[1..] == ys;
      if x.1 == v {
        assert ys[0].1 != v;
      }
    }
  }

  /** The sort is stable: for every score, the items with that score come out
      in the order they went in. */
  lemma {:induction false} SortStable(xs: seq<Scored>, v: real)
    ensures WithScore(SortDesc(xs), v) == WithScore(xs, v)
    decreases |xs|
  {
    if xs != [] {
      SortStable(xs[1..], v);
      SortDescending(xs[1..]);
      InsertStable(xs[0], SortDesc(xs[1..]), v);
      WithScoreAppend([xs[0]], xs[1..], v);
      assert [xs[0]] + xs[1..] == xs;
    }
  }

  /** The first K items are the best: they are in non-increasing order, they
      come from the input, and every item left out scores at most as much as
      every item kept. */
  lemma TopKIsTop(xs: seq<Scored>)
    ensures Descending(TopK(xs))
    ensures multiset(TopK(xs)) <= multiset(xs)
    ensures |xs| <= K ==> multiset(TopK(xs)) == multiset(xs)
    ensures forall x, y | x in multiset(xs) - multiset(TopK(xs)) && y in TopK(xs) :: x.1 <= y.1
  {
    var sorted := SortDesc(xs);
    SortDescending(xs);
    var n := Min(|sorted|, K);
    var top := sorted[..n];
    assert TopK(xs) == top;
    assert Descending(top) by {
      assert forall i | 0 <= i < n :: top[i] == sorted[i];
    }
    SplitMultiset(sorted, n);
    assert |xs| <= K ==> sorted[n..] == [];
    forall x, y | x in multiset(xs) - multiset(top) && y in top ensures x.1 <= y.1 {
      assert x in multiset(sorted[n..]);
      PrefixDominates(sorted, n, x, y);
    }
  }

  lemma SplitMultiset(s: seq<Scored>, n: nat)
    requires n <= |s|
    ensures multiset(s) == multiset(s[..n]) + multiset(s[n..])
  {
    assert s == s[..n] + s[n..];
  }

  /** In a non-increasing sequence, nothing after position `n` beats
      anything before it. */
  lemma PrefixDominates(s: seq<Scored>, n: nat, x: Scored, y: Scored)
    requires Descending(s) && n <= |s|
    requires x in multiset(s[n..]) && y in s[..n]
    ensures x.1 <= y.1
  {
    var j :| 0 <= j < |s[n..]| && s[n..][j] == x;
    var i :| 0 <= i < n && s[..n][i] == y;
    assert s[n + j] == x && s[i] == y;
  }
}
