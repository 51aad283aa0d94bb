/**
 * The Python builtins the matcher leans on: `sorted(key=..., reverse=True)`, which is
 * stable, `max` over `(dice, MatchingPair)` tuples and `itertools.product`.
 */
module Builtins {
  import opened Base
  import opened Nodes
  import opened Context

  /** Keys never increase along the sequence. */
  predicate SortedDescending<T>(xs: seq<(real, T)>)
  {
    forall i, j | 0 <= i < j < |xs| :: xs[i].0 >= xs[j].0
  }

  /** Places `x` after every element whose key is at least its key. */
  function InsertDescending<T>(ys: seq<(real, T)>, x: (real, T)): (r: seq<(real, T)>)
    ensures |r| == |ys| + 1
  {
    if ys == [] then [x]
    else if ys[0].0 < x.0 then [x] + ys
    else [ys[0]] + InsertDescending(ys[1..], x)
  }

  /**
   * `sort(key=..., reverse=True)`: a stable sort on descending keys, built by inserting the
   * elements in their original order, each behind the elements already placed with a key
   * at least as large.
   */
  function SortDescending<T>(xs: seq<(real, T)>): (r: seq<(real, T)>)
    ensures |r| == |xs|
  {
    if xs == [] then [] else InsertDescending(SortDescending(xs[..|xs| - 1]), xs[|xs| - 1])
  }

  lemma {:induction false} InsertDescendingFacts<T>(ys: seq<(real, T)>, x: (real, T))
    requires SortedDescending(ys)
    ensures SortedDescending(InsertDescending(ys, x))
    ensures multiset(InsertDescending(ys, x)) == multiset(ys) + multiset{x}
  {
    InsertDescendingKeeps(ys, x);
    InsertDescendingSorted(ys, x);
  }

  lemma {:induction false} InsertDescendingKeeps<T>(ys: seq<(real, T)>, x: (real, T))
    ensures multiset(InsertDescending(ys, x)) == multiset(ys) + multiset{x}
  {
    if ys != [] && ys[0].0 >= x.0 {
      InsertDescendingKeeps(ys[1..], x);
      assert ys == [ys[0]] + ys[1..];
    }
  }

  lemma {:induction false} InsertDescendingSorted<T>(ys: seq<(real, T)>, x: (real, T))
    requires SortedDescending(ys)
    ensures SortedDescending(InsertDescending(ys, x))
  {
    if ys != [] && ys[0].0 >= x.0 {
      SortedTail(ys);
      InsertDescendingSorted(ys[1..], x);
      InsertDescendingKeeps(ys[1..], x);
      var r := InsertDescending(ys[1..], x);
      forall z | z in r ensures ys[0].0 >= z.0 {
        assert z in multiset(r);
        if z != x {
          var j :| 0 <= j < |ys[1..]| && ys[1..][j] == z;
          assert ys[j + 1] == z;
        }
      }
      SortedCons(ys[0], r);
    } else if ys != [] {
      SortedCons(x, ys);
    }
  }

  /** A key at least every key of a descending sequence can lead it. */
  lemma SortedCons<T>(a: (real, T), r: seq<(real, T)>)
    requires SortedDescending(r) && forall z | z in r :: a.0 >= z.0
    ensures SortedDescending([a] + r)
  {
    forall i, j | 0 <= i < j < |r| + 1 ensures ([a] + r)[i].0 >= ([a] + r)[j].0 {
      assert ([a] + r)[j] == r[j - 1] && r[j - 1] in r;
      if i > 0 { assert ([a] + r)[i] == r[i - 1]; }
    }
  }

  /** The sort returns the same elements, keys in descending order. */
  lemma {:induction false} SortDescendingIsSortedPermutation<T>(xs: seq<(real, T)>)
    ensures SortedDescending(SortDescending(xs))
    ensures multiset(SortDescending(xs)) == multiset(xs)
  {
    if xs != [] {
      var n := |xs|;
      SortDescendingIsSortedPermutation(xs[..n - 1]);
      InsertDescendingFacts(SortDescending(xs[..n - 1]), xs[n - 1]);
      assert xs == xs[..n - 1] + [xs[n - 1]];
    }
  }

  /** The elements whose key is `k`, in their order. */
  function WithKey<T>(xs: seq<(real, T)>, k: real): seq<(real, T)>
  {
    if xs == [] then []
    else (if xs[0].0 == k then [xs[0]] else []) + WithKey(xs[1..], k)
  }

  lemma {:induction false} WithKeyAppend<T>(a: seq<(real, T)>, b: seq<(real, T)>, k: real)
    ensures WithKey(a + b, k) == WithKey(a, k) + WithKey(b, k)
  {
    if a != [] {
      assert (a + b)[1..] == a[1..] + b;
      WithKeyAppend(a[1..], b, k);
    } else {
      assert a + b == b;
    }
  }

  /** Past a key smaller than `k`, a descending sequence holds no element with key `k`. */
  lemma {:induction false} WithKeyBelow<T>(ys: seq<(real, T)>, k: real)
    requires SortedDescending(ys) && ys != [] && ys[0].0 < k
    ensures WithKey(ys, k) == []
  {
    if |ys| > 1 {
      SortedTail(ys);
      assert ys[1].0 <= ys[0].0;
      WithKeyBelow(ys[1..], k);
    }
  }

  lemma SortedTail<T>(ys: seq<(real, T)>)
    requires SortedDescending(ys) && ys != []
    ensures SortedDescending(ys[1..])
  {
    forall i, j | 0 <= i < j < |ys| - 1 ensures ys[1..][i].0 >= ys[1..][j].0 {
      assert ys[1..][i] == ys[i + 1] && ys[1..][j] == ys[j + 1];
    }
  }

  /** Inserting behind the larger or equal keys puts `x` after every element with its own key. */
  lemma {:induction false} InsertDescendingStable<T>(ys: seq<(real, T)>, x: (real, T), k: real)
    requires SortedDescending(ys)
    ensures WithKey(InsertDescending(ys, x), k) == WithKey(ys, k) + (if x.0 == k then [x] else [])
  {
    assert [x][1..] == [];
    if ys == [] {
    } else if ys[0].0 < x.0 {
      assert InsertDescending(ys, x) == [x] + ys;
      WithKeyAppend([x], ys, k);
      if x.0 == k {
        WithKeyBelow(ys, k);
      }
    } else {
      assert [ys[0]][1..] == [];
      var tail := if x.0 == k then [x] else [];
      var r := InsertDescending(ys[1..], x);
      SortedTail(ys);
      InsertDescendingStable(ys[1..], x, k);
      assert InsertDescending(ys, x) == [ys[0]] + r;
      WithKeyAppend([ys[0]], r, k);
      assert ys == [ys[0]] + ys[1..];
      WithKeyAppend([ys[0]], ys[1..], k);
      assert WithKey(InsertDescending(ys, x), k) == WithKey([ys[0]], k) + (WithKey(ys[1..], k) + tail);
    }
  }

  /**
   * The sort is stable: the elements sharing a key come out in the order they came in, as
   * Python's `sort` with `reverse=True` keeps them.
   */
  lemma {:induction false} SortDescendingStable<T>(xs: seq<(real, T)>, k: real)
    ensures WithKey(SortDescending(xs), k) == WithKey(xs, k)
  {
    if xs != [] {
      var n := |xs|;
      SortDescendingStable(xs[..n - 1], k);
      SortDescendingIsSortedPermutation(xs[..n - 1]);
      InsertDescendingStable(SortDescending(xs[..n - 1]), xs[n - 1], k);
      assert xs == xs[..n - 1] + [xs[n - 1]];
      WithKeyAppend(xs[..n - 1], [xs[n - 1]], k);
    }
  }

  /** Tuple order as Python compares `(dice, MatchingPair)`: first by dice, then by pair. */
  predicate Greater(a: (real, MatchingPair), b: (real, MatchingPair))
  {
    a.0 > b.0 || (a.0 == b.0 && PairLess(b.1, a.1))
  }

  /** `max(..., default=...)`: a left-to-right scan keeping the first of equal maxima; None when empty. */
  function Best(ws: seq<(real, MatchingPair)>): (r: Option<(real, MatchingPair)>)
    ensures r.None? <==> ws == []
    ensures r.Some? ==> r.value in ws
    ensures r.Some? ==> forall k | 0 <= k < |ws| :: !Greater(ws[k], r.value)
  {
    if ws == [] then None
    else
      var n := |ws|;
      var b := Best(ws[..n - 1]);
      assert forall k | 0 <= k < n - 1 :: ws[k] == ws[..n - 1][k];
      if b.None? || Greater(ws[n - 1], b.value) then Some(ws[n - 1]) else b
  }

  /** `itertools.product`: every source id with every target id, source-major. */
  function Product(a: seq<NodeId>, b: seq<NodeId>): (r: seq<MatchingPair>)
    ensures |r| == |a| * |b|
  {
    if a == [] then []
    else Product(a[..|a| - 1], b) + seq(|b|, k requires 0 <= k < |b| => MatchingPair(a[|a| - 1], b[k]))
  }

  /** Every pair of the product joins an element of each list, and every such pair is in it. */
  lemma {:induction false} ProductMembers(a: seq<NodeId>, b: seq<NodeId>)
    ensures forall p | p in Product(a, b) :: p.source in a && p.target in b
    ensures forall s, t | s in a && t in b :: MatchingPair(s, t) in Product(a, b)
  {
    if a != [] {
      var n := |a|;
      ProductMembers(a[..n - 1], b);
      var row := seq(|b|, k requires 0 <= k < |b| => MatchingPair(a[n - 1], b[k]));
      assert Product(a, b) == Product(a[..n - 1], b) + row;
      forall s, t | s in a && t in b ensures MatchingPair(s, t) in Product(a, b) {
        var i :| 0 <= i < n && a[i] == s;
        var j :| 0 <= j < |b| && b[j] == t;
        if i < n - 1 {
          assert s in a[..n - 1];
        } else {
          assert row[j] == MatchingPair(s, t);
        }
      }
      forall p | p in Product(a, b) ensures p.source in a && p.target in b {
        if p in row {
          var j :| 0 <= j < |b| && row[j] == p;
        } else {
          assert p in Product(a[..n - 1], b);
        }
      }
    }
  }

  /** The second components, in order. */
  function Seconds<T>(xs: seq<(real, T)>): (r: seq<T>)
    ensures |r| == |xs| && forall i | 0 <= i < |xs| :: r[i] == xs[i].1
  {
    seq(|xs|, i requires 0 <= i < |xs| => xs[i].1)
  }
}
