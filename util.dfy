/**
 * Helpers of astdiff/util.py: `group_by`, `longest_common_subsequence` and the
 * height-indexed priority queue (also the older copy in astdiff/queue.py).
 */
module Util {
  import opened Base
  import opened Nodes

  // ---------------------------------------------------------------------------------------
  // group_by

  /** The items whose key is `k`, in input order. */
  function Filter<T, K(==)>(items: seq<T>, key: T -> K, k: K): seq<T>
  {
    if items == [] then []
    else
      var init := Filter(items[..|items| - 1], key, k);
      if key(items[|items| - 1]) == k then init + [items[|items| - 1]] else init
  }

  /** The distinct keys, in the order a dict first sees them. */
  function GroupKeys<T, K(==)>(items: seq<T>, key: T -> K): seq<K>
  {
    if items == [] then []
    else
      var init := GroupKeys(items[..|items| - 1], key);
      var k := key(items[|items| - 1]);
      if k in init then init else init + [k]
  }

  /** Sum of the group sizes, over the keys in `ks`. */
  function GroupSizes<T, K(==)>(items: seq<T>, key: T -> K, ks: seq<K>): nat
  {
    if ks == [] then 0 else GroupSizes(items, key, ks[..|ks| - 1]) + |Filter(items, key, ks[|ks| - 1])|
  }

  /**
   * `group_by`: a fold appending every item to the list of its key. The dict comes back
   * with its keys in insertion order.
   */
  method GroupBy<T, K(==)>(items: seq<T>, key: T -> K) returns (keys: seq<K>, groups: map<K, seq<T>>)
    ensures keys == GroupKeys(items, key)
    ensures groups.Keys == set k | k in keys
    ensures forall k | k in groups :: groups[k] == Filter(items, key, k)
  {
    keys, groups := [], map[];
    for i := 0 to |items|
      invariant keys == GroupKeys(items[..i], key)
      invariant groups.Keys == set k | k in keys
      invariant forall k | k in groups :: groups[k] == Filter(items[..i], key, k)
    {
      assert items[..i + 1][..i] == items[..i];
      var k := key(items[i]);
      if k in groups {
        groups := groups[k := groups[k] + [items[i]]];
      } else {
        FilterEmpty(items[..i], key, k);
        groups := groups[k := [items[i]]];
        keys := keys + [k];
      }
    }
    assert items[..|items|] == items;
  }

  /** A key has a non-empty group exactly when some item carries it. */
  lemma {:induction false} FilterEmpty<T, K>(items: seq<T>, key: T -> K, k: K)
    ensures Filter(items, key, k) == [] <==> k !in GroupKeys(items, key)
  {
    if items != [] {
      FilterEmpty(items[..|items| - 1], key, k);
    }
  }

  /** Every group holds only items of its key, and each item sits in the group of its key. */
  lemma {:induction false} FilterMembers<T, K>(items: seq<T>, key: T -> K, k: K)
    ensures forall x | x in Filter(items, key, k) :: key(x) == k && x in items
    ensures forall x | x in items && key(x) == k :: x in Filter(items, key, k)
  {
    if items != [] {
      FilterMembers(items[..|items| - 1], key, k);
      assert items == items[..|items| - 1] + [items[|items| - 1]];
    }
  }

  lemma {:induction false} GroupKeysDistinct<T, K>(items: seq<T>, key: T -> K)
    ensures NoDup(GroupKeys(items, key))
    ensures forall k :: k in GroupKeys(items, key) <==> exists x | x in items :: key(x) == k
  {
    if items != [] {
      var init := items[..|items| - 1];
      GroupKeysDistinct(init, key);
      assert items == init + [items[|items| - 1]];
      forall k ensures k in GroupKeys(items, key) <==> exists x | x in items :: key(x) == k {
        if k in GroupKeys(init, key) {
          var x :| x in init && key(x) == k;
          assert x in items;
        }
      }
    }
  }

  lemma {:induction false} GroupSizesStep<T, K>(items: seq<T>, key: T -> K, ks: seq<K>)
    requires items != [] && NoDup(ks)
    ensures GroupSizes(items, key, ks)
         == GroupSizes(items[..|items| - 1], key, ks) + (if key(items[|items| - 1]) in ks then 1 else 0)
  {
    if ks != [] {
      var init := ks[..|ks| - 1];
      assert NoDup(init);
      GroupSizesStep(items, key, init);
      assert ks == init + [ks[|ks| - 1]];
    }
  }

  /** `group_by` neither loses nor duplicates items: the group sizes add up to the item count. */
  lemma {:induction false} GroupByKeepsCount<T, K>(items: seq<T>, key: T -> K)
    ensures GroupSizes(items, key, GroupKeys(items, key)) == |items|
  {
    if items != [] {
      var init := items[..|items| - 1];
      var k := key(items[|items| - 1]);
      var ks := GroupKeys(init, key);
      GroupByKeepsCount(init, key);
      GroupKeysDistinct(items, key);
      GroupKeysDistinct(init, key);
      if k in ks {
        GroupSizesStep(items, key, ks);
      } else {
        GroupSizesStep(items, key, ks);
        FilterEmpty(init, key, k);
        assert (ks + [k])[..|ks|] == ks;
      }
    }
  }

  // ---------------------------------------------------------------------------------------
  // longest_common_subsequence

  /** The table entry `cache[s][t]`: the LCS length of `source[s..]` and `target[t..]`. */
  function LcsLength<T>(source: seq<T>, target: seq<T>, eq: (T, T) -> bool, s: nat, t: nat): nat
    requires s <= |source| && t <= |target|
    decreases |source| - s + |target| - t
  {
    if s == |source| || t == |target| then 0
    else if eq(source[s], target[t]) then LcsLength(source, target, eq, s + 1, t + 1) + 1
    else if LcsLength(source, target, eq, s + 1, t) >= LcsLength(source, target, eq, s, t + 1) then
      LcsLength(source, target, eq, s + 1, t)
    else LcsLength(source, target, eq, s, t + 1)
  }

  /** The index pairs the two cursors collect from position (s, t), source cursor first on a tie. */
  function LcsIndices<T>(source: seq<T>, target: seq<T>, eq: (T, T) -> bool, s: nat, t: nat): seq<(nat, nat)>
    requires s <= |source| && t <= |target|
    decreases |source| - s + |target| - t
  {
    if s == |source| || t == |target| then []
    else if eq(source[s], target[t]) then [(s, t)] + LcsIndices(source, target, eq, s + 1, t + 1)
    else if LcsLength(source, target, eq, s + 1, t) >= LcsLength(source, target, eq, s, t + 1) then
      LcsIndices(source, target, eq, s + 1, t)
    else LcsIndices(source, target, eq, s, t + 1)
  }

  predicate IndicesIn<T>(source: seq<T>, target: seq<T>, ps: seq<(nat, nat)>)
  {
    forall k | 0 <= k < |ps| :: ps[k].0 < |source| && ps[k].1 < |target|
  }

  /** The element pairs at the given index pairs. */
  function Pick<T>(source: seq<T>, target: seq<T>, ps: seq<(nat, nat)>): (r: seq<(T, T)>)
    requires IndicesIn(source, target, ps)
    ensures |r| == |ps|
    ensures forall k | 0 <= k < |ps| :: r[k] == (source[ps[k].0], target[ps[k].1])
  {
    seq(|ps|, k requires 0 <= k < |ps| => (source[ps[k].0], target[ps[k].1]))
  }

  /**
   * A common subsequence of `source[s..]` and `target[t..]` under `eq`: index pairs inside
   * the ranges, increasing on both sides, each pair equal under `eq`.
   */
  predicate IsCommon<T>(source: seq<T>, target: seq<T>, eq: (T, T) -> bool, s: nat, t: nat, ps: seq<(nat, nat)>)
  {
    && (forall k | 0 <= k < |ps| ::
          s <= ps[k].0 < |source| && t <= ps[k].1 < |target| && eq(source[ps[k].0], target[ps[k].1]))
    && (forall i, j | 0 <= i < j < |ps| :: ps[i].0 < ps[j].0 && ps[i].1 < ps[j].1)
  }

  /**
   * `longest_common_subsequence`: fills the length table from the back, then walks two
   * cursors from the front, yielding a pair on a match and otherwise advancing the cursor
   * whose step keeps the longer remainder (the source cursor on a tie).
   */
  method LongestCommonSubsequence<T>(source: seq<T>, target: seq<T>, eq: (T, T) -> bool)
    returns (pairs: seq<(T, T)>)
    ensures LcsIndicesFacts(source, target, eq, 0, 0)
    ensures pairs == Pick(source, target, LcsIndices(source, target, eq, 0, 0))
    ensures source == [] || target == [] ==> pairs == []
  {
    var n, m := |source|, |target|;
    var cache := LcsTable(source, target, eq);
    LcsIndicesHold(source, target, eq, 0, 0);
    var i, j := 0, 0;
    pairs := [];
    while i < n && j < m
      invariant i <= n && j <= m
      invariant LcsIndicesFacts(source, target, eq, i, j)
      invariant pairs + Pick(source, target, LcsIndices(source, target, eq, i, j))
             == Pick(source, target, LcsIndices(source, target, eq, 0, 0))
      decreases n - i + m - j
    {
      CursorStep(source, target, eq, i, j);
      TableRead(source, target, eq, cache, i, j);
      if eq(source[i], target[j]) {
        pairs := pairs + [(source[i], target[j])];
        i, j := i + 1, j + 1;
      } else if Get(cache, i + 1, j) >= Get(cache, i, j + 1) {
        i := i + 1;
      } else {
        j := j + 1;
      }
    }
  }

  /** One move of the cursors: the pairs still to come, seen from the next position. */
  lemma CursorStep<T>(source: seq<T>, target: seq<T>, eq: (T, T) -> bool, i: nat, j: nat)
    requires i < |source| && j < |target|
    ensures LcsIndicesFacts(source, target, eq, i + 1, j + 1)
    ensures LcsIndicesFacts(source, target, eq, i + 1, j)
    ensures LcsIndicesFacts(source, target, eq, i, j + 1)
    ensures LcsIndicesFacts(source, target, eq, i, j)
    ensures eq(source[i], target[j]) ==>
              Pick(source, target, LcsIndices(source, target, eq, i, j))
              == [(source[i], target[j])] + Pick(source, target, LcsIndices(source, target, eq, i + 1, j + 1))
    ensures !eq(source[i], target[j]) && LcsLength(source, target, eq, i + 1, j) >= LcsLength(source, target, eq, i, j + 1) ==>
              LcsIndices(source, target, eq, i, j) == LcsIndices(source, target, eq, i + 1, j)
    ensures !eq(source[i], target[j]) && LcsLength(source, target, eq, i + 1, j) < LcsLength(source, target, eq, i, j + 1) ==>
              LcsIndices(source, target, eq, i, j) == LcsIndices(source, target, eq, i, j + 1)
  {
    LcsIndicesHold(source, target, eq, i + 1, j + 1);
    LcsIndicesHold(source, target, eq, i + 1, j);
    LcsIndicesHold(source, target, eq, i, j + 1);
    LcsIndicesHold(source, target, eq, i, j);
    if eq(source[i], target[j]) {
      PickCons(source, target, (i, j), LcsIndices(source, target, eq, i + 1, j + 1));
    }
  }

  /** The table-filling half: every entry `cache[s][t]` is the LCS length of the two suffixes. */
  method LcsTable<T>(source: seq<T>, target: seq<T>, eq: (T, T) -> bool) returns (cache: map<(int, int), nat>)
    ensures TableFrom(source, target, eq, cache, 0, 0)
  {
    var n, m := |source|, |target|;
    cache := map[];
    var s := n;
    while s > 0
      invariant 0 <= s <= n
      invariant TableFrom(source, target, eq, cache, s, 0)
    {
      s := s - 1;
      var t := m;
      while t > 0
        invariant 0 <= t <= m
        invariant TableFrom(source, target, eq, cache, s, t)
      {
        t := t - 1;
        var v: nat;
        if eq(source[s], target[t]) {
          v := Get(cache, s + 1, t + 1) + 1;
        } else if Get(cache, s + 1, t) >= Get(cache, s, t + 1) {
          v := Get(cache, s + 1, t);
        } else {
          v := Get(cache, s, t + 1);
        }
        TableStep(source, target, eq, cache, s, t, v);
        cache := cache[(s, t) := v];
      }
    }
  }

  /**
   * The table is filled below row `s`, and on row `s` from column `t` on; it only holds
   * entries inside the two ranges, so anything on the border reads as 0.
   */
  predicate TableFrom<T>(source: seq<T>, target: seq<T>, eq: (T, T) -> bool, cache: map<(int, int), nat>, s: nat, t: nat)
  {
    && s <= |source| && t <= |target|
    && (forall p | p in cache :: 0 <= p.0 < |source| && 0 <= p.1 < |target|)
    && (forall i, j | s < i <= |source| && 0 <= j <= |target| :: Get(cache, i, j) == LcsLength(source, target, eq, i, j))
    && (forall j | t <= j <= |target| :: Get(cache, s, j) == LcsLength(source, target, eq, s, j))
  }

  /** The two entries the cursor loop compares are the LCS lengths they stand for. */
  lemma TableRead<T>(source: seq<T>, target: seq<T>, eq: (T, T) -> bool, cache: map<(int, int), nat>, i: nat, j: nat)
    requires TableFrom(source, target, eq, cache, 0, 0) && i < |source| && j < |target|
    ensures Get(cache, i + 1, j) == LcsLength(source, target, eq, i + 1, j)
    ensures Get(cache, i, j + 1) == LcsLength(source, target, eq, i, j + 1)
  {
  }

  lemma TableStep<T>(source: seq<T>, target: seq<T>, eq: (T, T) -> bool, cache: map<(int, int), nat>, s: nat, t: nat, v: nat)
    requires s < |source| && t < |target| && TableFrom(source, target, eq, cache, s, t + 1)
    requires v == if eq(source[s], target[t]) then Get(cache, s + 1, t + 1) + 1
                 else if Get(cache, s + 1, t) >= Get(cache, s, t + 1) then Get(cache, s + 1, t)
                 else Get(cache, s, t + 1)
    ensures TableFrom(source, target, eq, cache[(s, t) := v], s, t)
    ensures t == 0 ==> TableFrom(source, target, eq, cache[(s, t) := v], s, 0)
  {
    assert v == LcsLength(source, target, eq, s, t);
  }

  /** A missing table entry reads as 0, as in a `defaultdict(int)`. */
  function Get(cache: map<(int, int), nat>, s: int, t: int): nat
  {
    if (s, t) in cache then cache[(s, t)] else 0
  }

  lemma PickCons<T>(source: seq<T>, target: seq<T>, p: (nat, nat), ps: seq<(nat, nat)>)
    requires p.0 < |source| && p.1 < |target| && IndicesIn(source, target, ps)
    ensures IndicesIn(source, target, ps)
    ensures Pick(source, target, [p] + ps) == [(source[p.0], target[p.1])] + Pick(source, target, ps)
  {
    var l := Pick(source, target, [p] + ps);
    var r := [(source[p.0], target[p.1])] + Pick(source, target, ps);
    forall k | 0 <= k < |l| ensures l[k] == r[k] {
      if k > 0 {
        assert ([p] + ps)[k] == ps[k - 1];
      }
    }
  }

  /** What the collected index pairs satisfy: a common subsequence whose length is the table entry. */
  predicate LcsIndicesFacts<T>(source: seq<T>, target: seq<T>, eq: (T, T) -> bool, s: nat, t: nat)
    requires s <= |source| && t <= |target|
  {
    var ps := LcsIndices(source, target, eq, s, t);
    IndicesIn(source, target, ps) && IsCommon(source, target, eq, s, t, ps)
    && |ps| == LcsLength(source, target, eq, s, t)
  }

  lemma {:induction false} LcsIndicesHold<T>(source: seq<T>, target: seq<T>, eq: (T, T) -> bool, s: nat, t: nat)
    requires s <= |source| && t <= |target|
    ensures LcsIndicesFacts(source, target, eq, s, t)
    decreases |source| - s + |target| - t
  {
    if s < |source| && t < |target| {
      if eq(source[s], target[t]) {
        LcsIndicesHold(source, target, eq, s + 1, t + 1);
        CommonCons(source, target, eq, s, t, LcsIndices(source, target, eq, s + 1, t + 1));
      } else if LcsLength(source, target, eq, s + 1, t) >= LcsLength(source, target, eq, s, t + 1) {
        LcsIndicesHold(source, target, eq, s + 1, t);
        CommonWiden(source, target, eq, s + 1, t, s, t, LcsIndices(source, target, eq, s + 1, t));
      } else {
        LcsIndicesHold(source, target, eq, s, t + 1);
        CommonWiden(source, target, eq, s, t + 1, s, t, LcsIndices(source, target, eq, s, t + 1));
      }
    }
  }

  /** A matching pair in front of a common subsequence of the remainders is a common subsequence. */
  lemma CommonCons<T>(source: seq<T>, target: seq<T>, eq: (T, T) -> bool, s: nat, t: nat, rest: seq<(nat, nat)>)
    requires s < |source| && t < |target| && eq(source[s], target[t])
    requires IndicesIn(source, target, rest) && IsCommon(source, target, eq, s + 1, t + 1, rest)
    ensures IndicesIn(source, target, [(s, t)] + rest) && IsCommon(source, target, eq, s, t, [(s, t)] + rest)
  {
    var ps := [(s, t)] + rest;
    assert forall k | 0 < k < |ps| :: ps[k] == rest[k - 1];
  }

  /** A common subsequence from a later position is one from an earlier position too. */
  lemma CommonWiden<T>(source: seq<T>, target: seq<T>, eq: (T, T) -> bool, s: nat, t: nat, s0: nat, t0: nat, ps: seq<(nat, nat)>)
    requires s0 <= s && t0 <= t && IsCommon(source, target, eq, s, t, ps)
    ensures IsCommon(source, target, eq, s0, t0, ps)
  {
  }

  /** Each step of a cursor loses at most one from the remaining LCS length, and never gains. */
  lemma {:induction false} LcsLengthSteps<T>(source: seq<T>, target: seq<T>, eq: (T, T) -> bool, s: nat, t: nat)
    requires s <= |source| && t <= |target|
    ensures s < |source| ==> LcsLength(source, target, eq, s + 1, t) <= LcsLength(source, target, eq, s, t)
                              <= LcsLength(source, target, eq, s + 1, t) + 1
    ensures t < |target| ==> LcsLength(source, target, eq, s, t + 1) <= LcsLength(source, target, eq, s, t)
                              <= LcsLength(source, target, eq, s, t + 1) + 1
    decreases |source| - s + |target| - t
  {
    if s < |source| && t < |target| {
      LcsLengthSteps(source, target, eq, s + 1, t);
      LcsLengthSteps(source, target, eq, s, t + 1);
      LcsLengthSteps(source, target, eq, s + 1, t + 1);
    }
  }

  /** The table entry is the length of a longest common subsequence: no common subsequence is longer. */
  lemma {:induction false} LcsIsLongest<T>(source: seq<T>, target: seq<T>, eq: (T, T) -> bool, s: nat, t: nat, ps: seq<(nat, nat)>)
    requires s <= |source| && t <= |target|
    requires IsCommon(source, target, eq, s, t, ps)
    ensures |ps| <= LcsLength(source, target, eq, s, t)
    decreases |source| - s + |target| - t
  {
    if ps != [] {
      LcsLengthSteps(source, target, eq, s, t);
      var p := ps[0];
      if p.0 > s {
        LcsIsLongest(source, target, eq, s + 1, t, ps);
      } else if p.1 > t {
        LcsIsLongest(source, target, eq, s, t + 1, ps);
      } else {
        var rest := ps[1..];
        assert IsCommon(source, target, eq, s + 1, t + 1, rest) by {
          forall k | 0 <= k < |rest| ensures s + 1 <= rest[k].0 && t + 1 <= rest[k].1 {
            assert rest[k] == ps[k + 1];
          }
        }
        LcsIsLongest(source, target, eq, s + 1, t + 1, rest);
      }
    }
  }

  /** Under a reflexive `eq`, a sequence against itself yields every position paired with itself. */
  lemma {:induction false} LcsOfEqualInputs<T>(xs: seq<T>, eq: (T, T) -> bool, s: nat)
    requires forall x :: eq(x, x)
    requires s <= |xs|
    ensures LcsIndices(xs, xs, eq, s, s) == seq(|xs| - s, k => (s + k, s + k))
    decreases |xs| - s
  {
    if s < |xs| {
      LcsOfEqualInputs(xs, eq, s + 1);
      assert eq(xs[s], xs[s]);
      var rest := seq(|xs| - (s + 1), k => (s + 1 + k, s + 1 + k));
      var all := seq(|xs| - s, k => (s + k, s + k));
      assert LcsIndices(xs, xs, eq, s, s) == [(s, s)] + rest;
      assert all == [(s, s)] + rest by {
        forall k | 0 <= k < |all| ensures all[k] == ([(s, s)] + rest)[k] {
          if k > 0 {
            assert ([(s, s)] + rest)[k] == rest[k - 1];
          }
        }
      }
    }
  }

  /** Equal inputs under a reflexive `eq` give the zip of the input with itself. */
  lemma LcsOfEqualInputsIsZip<T>(xs: seq<T>, eq: (T, T) -> bool)
    requires forall x :: eq(x, x)
    ensures IndicesIn(xs, xs, LcsIndices(xs, xs, eq, 0, 0))
    ensures Pick(xs, xs, LcsIndices(xs, xs, eq, 0, 0)) == seq(|xs|, k requires 0 <= k < |xs| => (xs[k], xs[k]))
  {
    LcsOfEqualInputs(xs, eq, 0);
  }

  /** On a tie the source cursor moves first: "12" against "21" keeps the later "2", and the swapped call keeps "1". */
  lemma LcsTieBreak()
    ensures var eq := (a: char, b: char) => a == b;
      && LcsIndices("12", "21", eq, 0, 0) == [(1, 0)]
      && LcsIndices("21", "12", eq, 0, 0) == [(1, 0)]
      && Pick("12", "21", [(1, 0)]) == [('2', '2')]
      && Pick("21", "12", [(1, 0)]) == [('1', '1')]
  {
    var eq := (a: char, b: char) => a == b;
    assert LcsLength("12", "21", eq, 1, 0) == 1;
    assert LcsLength("12", "21", eq, 0, 1) == 1;
    assert LcsLength("21", "12", eq, 1, 0) == 1;
    assert LcsLength("21", "12", eq, 0, 1) == 1;
  }

  // ---------------------------------------------------------------------------------------
  // HeightIndexedPriorityQueue

  /** The ids stored with height `h`, in the order they were pushed. */
  function Layer(entries: seq<(nat, NodeId)>, h: nat): seq<NodeId>
  {
    if entries == [] then []
    else (if entries[0].0 == h then [entries[0].1] else []) + Layer(entries[1..], h)
  }

  /** The entries whose height is not `h`, in the order they were pushed. */
  function Others(entries: seq<(nat, NodeId)>, h: nat): seq<(nat, NodeId)>
  {
    if entries == [] then []
    else (if entries[0].0 != h then [entries[0]] else []) + Others(entries[1..], h)
  }

  /** The largest stored height, 0 when nothing is stored. */
  function MaxHeight(entries: seq<(nat, NodeId)>): (r: nat)
    ensures forall k | 0 <= k < |entries| :: entries[k].0 <= r
    ensures entries != [] ==> exists k | 0 <= k < |entries| :: entries[k].0 == r
    ensures entries == [] ==> r == 0
  {
    if entries == [] then 0
    else
      var r := MaxHeight(entries[1..]);
      assert forall k | 1 <= k < |entries| :: entries[k] == entries[1..][k - 1];
      if entries[0].0 >= r then entries[0].0 else r
  }

  /** The metadata height of a node that has metadata. */
  function HeightOf(nodes: seq<Node>, id: NodeId): nat
    requires id < |nodes| && nodes[id].metadata.Some?
  {
    nodes[id].metadata.value.height
  }

  predicate ChildrenMeasured(nodes: seq<Node>, id: NodeId)
  {
    && id < |nodes|
    && forall k | 0 <= k < |nodes[id].children| ::
         nodes[id].children[k] < |nodes| && nodes[nodes[id].children[k]].metadata.Some?
  }

  /** `Node.__lt__` on arena ids; an id outside the arena is never smaller than another. */
  predicate IdLess(nodes: seq<Node>, a: NodeId, b: NodeId)
  {
    a < |nodes| && b < |nodes| && Less(nodes[a], nodes[b])
  }

  /** Ascending by `Node.__lt__`: no id is smaller than one before it. */
  predicate Ascending(nodes: seq<Node>, ids: seq<NodeId>)
  {
    forall i, j | 0 <= i < j < |ids| :: !IdLess(nodes, ids[j], ids[i])
  }

  lemma IdLessOrder(nodes: seq<Node>, a: NodeId, b: NodeId, c: NodeId)
    ensures !IdLess(nodes, a, a)
    ensures IdLess(nodes, a, b) && IdLess(nodes, b, c) ==> IdLess(nodes, a, c)
  {
    if a < |nodes| && b < |nodes| && c < |nodes| {
      FieldsOrderIsStrictTotal(CompareFields(nodes[a]), CompareFields(nodes[b]), CompareFields(nodes[c]));
    } else if a < |nodes| {
      FieldsOrderIsStrictTotal(CompareFields(nodes[a]), CompareFields(nodes[a]), CompareFields(nodes[a]));
    }
  }

  /**
   * `HeightIndexedPriorityQueue`: a max-priority queue on metadata height. The heap list
   * is kept as the entries in the order they were pushed; `heappop` takes the tallest
   * entry, and among equally tall ones the smallest node by `Node.__lt__`.
   */
  class HeightQueue {
    var entries: seq<(nat, NodeId)>

    constructor()
      ensures entries == []
    {
      entries := [];
    }

    /** `__len__`. */
    function Len(): (r: nat)
      reads this
      ensures r == |entries|
    {
      |entries|
    }

    /** `peek_max`: the height of the tallest node, or 0 when the queue is empty. */
    function PeekMax(): (r: nat)
      reads this
      ensures forall k | 0 <= k < |entries| :: entries[k].0 <= r
      ensures entries != [] ==> exists k | 0 <= k < |entries| :: entries[k].0 == r
      ensures entries == [] ==> r == 0
    {
      MaxHeight(entries)
    }

    /** `push`: one entry more, keyed by the node's height. */
    method Push(nodes: seq<Node>, id: NodeId)
      requires id < |nodes| && nodes[id].metadata.Some?
      modifies this
      ensures entries == old(entries) + [(HeightOf(nodes, id), id)]
    {
      entries := entries + [(nodes[id].metadata.value.height, id)];
    }

    /** `open`: pushes every child of the node, left to right. */
    method Open(nodes: seq<Node>, id: NodeId)
      requires ChildrenMeasured(nodes, id)
      modifies this
      ensures |entries| == |old(entries)| + |nodes[id].children|
      ensures entries == old(entries) + ChildEntries(nodes, id)
    {
      var children := nodes[id].children;
      ghost var start := entries;
      for k := 0 to |children|
        invariant entries == start + ChildEntries(nodes, id)[..k]
      {
        assert ChildEntries(nodes, id)[..k + 1] == ChildEntries(nodes, id)[..k] + [(HeightOf(nodes, children[k]), children[k])];
        Push(nodes, children[k]);
      }
      assert ChildEntries(nodes, id)[..|children|] == ChildEntries(nodes, id);
    }

    /**
     * `pop`: takes out every node at the current maximum height, smallest node first. The
     * loop stops once the maximum drops; when the maximum was 0 (an empty queue, or only
     * zero heights) the final `heappop` meets an empty heap and raises, which `ok == false`
     * reports.
     */
    method Pop(nodes: seq<Node>) returns (layer: seq<NodeId>, ok: bool)
      modifies this
      ensures multiset(layer) == multiset(Layer(old(entries), old(MaxHeight(entries))))
      ensures Ascending(nodes, layer)
      ensures entries == Others(old(entries), old(MaxHeight(entries)))
      ensures ok <==> old(MaxHeight(entries)) > 0
    {
      var maxHeight := PeekMax();
      ghost var start := entries;
      layer := [];
      PopLeavesShorter(entries, maxHeight);
      while entries != [] && PeekMax() == maxHeight
        invariant multiset(layer) + multiset(Layer(entries, maxHeight)) == multiset(Layer(start, maxHeight))
        invariant Others(entries, maxHeight) == Others(start, maxHeight)
        invariant forall k | 0 <= k < |entries| :: entries[k].0 <= maxHeight
        invariant Ascending(nodes, layer)
        invariant forall a, y | a in layer && y in Layer(entries, maxHeight) :: !IdLess(nodes, y, a)
        decreases |entries|
      {
        var i := SmallestAt(nodes, entries, maxHeight);
        var x := entries[i].1;
        var rest := entries[..i] + entries[i + 1..];
        PopStep(nodes, entries, maxHeight, layer, i);
        layer := layer + [x];
        entries := rest;
      }
      if entries != [] {
        NoneAtMax(entries, maxHeight);
      }
      ok := maxHeight > 0;
    }
  }

  /** The entries `open` pushes for the children of a node. */
  function ChildEntries(nodes: seq<Node>, id: NodeId): (r: seq<(nat, NodeId)>)
    requires ChildrenMeasured(nodes, id)
    ensures |r| == |nodes[id].children|
  {
    var cs := nodes[id].children;
    seq(|cs|, k requires 0 <= k < |cs| => (HeightOf(nodes, cs[k]), cs[k]))
  }

  /** The first position holding height `h`. */
  method FirstAt(entries: seq<(nat, NodeId)>, h: nat) returns (i: nat)
    requires exists k | 0 <= k < |entries| :: entries[k].0 == h
    ensures i < |entries| && entries[i].0 == h
    ensures forall k | 0 <= k < i :: entries[k].0 != h
  {
    i := 0;
    while entries[i].0 != h
      invariant i < |entries|
      invariant forall k | 0 <= k < i :: entries[k].0 != h
      invariant exists k | i <= k < |entries| :: entries[k].0 == h
      decreases |entries| - i
    {
      i := i + 1;
    }
  }

  /** The position of a smallest node, by `Node.__lt__`, among the entries at height `h`. */
  method SmallestAt(nodes: seq<Node>, entries: seq<(nat, NodeId)>, h: nat) returns (i: nat)
    requires exists k | 0 <= k < |entries| :: entries[k].0 == h
    ensures i < |entries| && entries[i].0 == h
    ensures forall k | 0 <= k < |entries| && entries[k].0 == h :: !IdLess(nodes, entries[k].1, entries[i].1)
  {
    i := FirstAt(entries, h);
    IdLessOrder(nodes, entries[i].1, entries[i].1, entries[i].1);
    for j := i + 1 to |entries|
      invariant i < |entries| && entries[i].0 == h
      invariant forall k | 0 <= k < j && entries[k].0 == h :: !IdLess(nodes, entries[k].1, entries[i].1)
    {
      if entries[j].0 == h && IdLess(nodes, entries[j].1, entries[i].1) {
        forall k | 0 <= k < j && entries[k].0 == h ensures !IdLess(nodes, entries[k].1, entries[j].1) {
          IdLessOrder(nodes, entries[k].1, entries[j].1, entries[i].1);
        }
        IdLessOrder(nodes, entries[j].1, entries[j].1, entries[j].1);
        i := j;
      }
    }
  }

  /** One round of `pop`: the smallest entry at height `h` joins the layer, which stays ascending. */
  lemma PopStep(nodes: seq<Node>, entries: seq<(nat, NodeId)>, h: nat, layer: seq<NodeId>, i: nat)
    requires i < |entries| && entries[i].0 == h
    requires forall k | 0 <= k < |entries| :: entries[k].0 <= h
    requires forall k | 0 <= k < |entries| && entries[k].0 == h :: !IdLess(nodes, entries[k].1, entries[i].1)
    requires Ascending(nodes, layer)
    requires forall a, y | a in layer && y in Layer(entries, h) :: !IdLess(nodes, y, a)
    ensures var rest := entries[..i] + entries[i + 1..];
      && multiset(layer + [entries[i].1]) + multiset(Layer(rest, h)) == multiset(layer) + multiset(Layer(entries, h))
      && Others(rest, h) == Others(entries, h)
      && (forall k | 0 <= k < |rest| :: rest[k].0 <= h)
      && Ascending(nodes, layer + [entries[i].1])
      && (forall a, y | a in layer + [entries[i].1] && y in Layer(rest, h) :: !IdLess(nodes, y, a))
  {
    var rest := entries[..i] + entries[i + 1..];
    LayerRemove(entries, i, h);
    SmallestOfLayer(nodes, entries, h, i, rest);
    forall y | y in Layer(rest, h) ensures y in Layer(entries, h) {
      assert y in multiset(Layer(entries, h));
    }
    AscendingAppend(nodes, layer, entries[i].1, Layer(entries, h), Layer(rest, h));
  }

  /** Appending a smallest remaining id keeps a list ascending and below what remains. */
  lemma AscendingAppend(nodes: seq<Node>, layer: seq<NodeId>, x: NodeId, pending: seq<NodeId>, rest: seq<NodeId>)
    requires Ascending(nodes, layer)
    requires x in pending && forall y | y in pending :: !IdLess(nodes, y, x)
    requires forall a, y | a in layer && y in pending :: !IdLess(nodes, y, a)
    requires forall y | y in rest :: y in pending
    ensures Ascending(nodes, layer + [x])
    ensures forall a, y | a in layer + [x] && y in rest :: !IdLess(nodes, y, a)
  {
    forall i, j | 0 <= i < j < |layer + [x]| ensures !IdLess(nodes, (layer + [x])[j], (layer + [x])[i]) {
      if j == |layer| { assert (layer + [x])[i] in layer; }
    }
  }

  /** The id picked by `SmallestAt` is in the layer, and no id of the layer is smaller. */
  lemma SmallestOfLayer(nodes: seq<Node>, entries: seq<(nat, NodeId)>, h: nat, i: nat, rest: seq<(nat, NodeId)>)
    requires i < |entries| && entries[i].0 == h && rest == entries[..i] + entries[i + 1..]
    requires forall k | 0 <= k < |entries| :: entries[k].0 <= h
    requires forall k | 0 <= k < |entries| && entries[k].0 == h :: !IdLess(nodes, entries[k].1, entries[i].1)
    ensures entries[i].1 in Layer(entries, h)
    ensures forall y | y in Layer(entries, h) :: !IdLess(nodes, y, entries[i].1)
    ensures forall k | 0 <= k < |rest| :: rest[k].0 <= h
  {
    PopLeavesShorter(entries, h);
    assert entries[i] in entries;
    forall y | y in Layer(entries, h) ensures !IdLess(nodes, y, entries[i].1) {
      var k :| 0 <= k < |entries| && entries[k] == (h, y);
    }
    forall k | 0 <= k < |rest| ensures rest[k].0 <= h {
      if k < i { assert rest[k] == entries[k]; } else { assert rest[k] == entries[k + 1]; }
    }
  }

  /** Taking an entry at height `h` out of the queue takes its id out of the layer and keeps the others. */
  lemma LayerRemove(entries: seq<(nat, NodeId)>, i: nat, h: nat)
    requires i < |entries| && entries[i].0 == h
    ensures multiset(Layer(entries, h)) == multiset(Layer(entries[..i] + entries[i + 1..], h)) + multiset{entries[i].1}
    ensures Others(entries, h) == Others(entries[..i] + entries[i + 1..], h)
  {
    assert entries == entries[..i] + ([entries[i]] + entries[i + 1..]);
    LayerAppend(entries[..i], [entries[i]] + entries[i + 1..], h);
    LayerAppend(entries[..i], entries[i + 1..], h);
    assert ([entries[i]] + entries[i + 1..])[1..] == entries[i + 1..];
  }

  lemma {:induction false} LayerAppend(a: seq<(nat, NodeId)>, b: seq<(nat, NodeId)>, h: nat)
    ensures Layer(a + b, h) == Layer(a, h) + Layer(b, h)
    ensures Others(a + b, h) == Others(a, h) + Others(b, h)
  {
    if a != [] {
      assert (a + b)[1..] == a[1..] + b;
      LayerAppend(a[1..], b, h);
    } else {
      assert a + b == b;
    }
  }

  lemma {:induction false} NoneBefore(a: seq<(nat, NodeId)>, h: nat)
    requires forall k | 0 <= k < |a| :: a[k].0 != h
    ensures Layer(a, h) == [] && Others(a, h) == a
  {
    if a != [] {
      NoneBefore(a[1..], h);
    }
  }

  /** When the maximum has dropped below `h`, nothing is left at height `h`. */
  lemma {:induction false} NoneAtMax(entries: seq<(nat, NodeId)>, h: nat)
    requires MaxHeight(entries) != h
    requires forall k | 0 <= k < |entries| :: entries[k].0 <= h
    ensures Layer(entries, h) == [] && Others(entries, h) == entries
  {
    NoneBefore(entries, h);
  }

  /** After `pop` only strictly shorter nodes remain, and every popped node had the old maximum height. */
  lemma {:induction false} PopLeavesShorter(entries: seq<(nat, NodeId)>, h: nat)
    requires forall k | 0 <= k < |entries| :: entries[k].0 <= h
    ensures forall k | 0 <= k < |Others(entries, h)| :: Others(entries, h)[k].0 < h
    ensures |Layer(entries, h)| + |Others(entries, h)| == |entries|
    ensures forall x :: x in Layer(entries, h) <==> (h, x) in entries
  {
    if entries != [] {
      PopLeavesShorter(entries[1..], h);
      assert entries == [entries[0]] + entries[1..];
    }
  }
}
