/**
 * The GumTree matcher (astdiff/matcher/gumtree.py): a greedy top-down phase matching the
 * tallest isomorphic subtrees, then a bottom-up phase matching containers by the share of
 * matched descendants, with recovery matching among the children of each new pair.
 *
 * All node lookups read the one arena of the context; the matcher only ever changes the
 * matching set and its own dice cache.
 */
module GumTree {
  import opened Base
  import opened Nodes
  import opened Traversal
  import opened Context
  import opened Util
  import opened GumTreeUtils
  import opened Builtins

  /** The constants recommended by Falleri et al. */
  const DefaultMinHeight: int := 2
  const DefaultMaxSize: int := 100
  const DefaultMinDice: real := 0.5

  /** Every node carries metadata: `attach_metadata` has run on both trees. */
  predicate Measured(nodes: seq<Node>)
  {
    forall i | 0 <= i < |nodes| :: nodes[i].metadata.Some?
  }

  function SizeOf(nodes: seq<Node>, id: NodeId): nat
    requires id < |nodes| && nodes[id].metadata.Some?
  {
    nodes[id].metadata.value.size
  }

  // ---------------------------------------------------------------------------------------
  // _descendant_matches

  /**
   * `_descendant_matches`: asserts that the two nodes can match and have as many children,
   * yields their pair, then the matches of the children zipped left to right. The flag is
   * false when an assertion fails; the pairs are those yielded before it failed.
   */
  function DescendantMatches(nodes: seq<Node>, s: NodeId, t: NodeId): (r: (seq<MatchingPair>, bool))
    requires Ordered(nodes) && s < |nodes| && t < |nodes|
    ensures r.1 ==> r.0 != [] && r.0[0] == MatchingPair(s, t)
    decreases |nodes| - s, 1, 0
  {
    if !CanMatch(nodes[s], nodes[t]) || |nodes[s].children| != |nodes[t].children| then ([], false)
    else
      var rest := ChildMatches(nodes, s, t, |nodes[s].children|);
      ([MatchingPair(s, t)] + rest.0, rest.1)
  }

  /** The matches yielded for the first `n` child pairs, stopping at the first failure. */
  function ChildMatches(nodes: seq<Node>, s: NodeId, t: NodeId, n: nat): (r: (seq<MatchingPair>, bool))
    requires Ordered(nodes) && s < |nodes| && t < |nodes|
    requires |nodes[s].children| == |nodes[t].children| && n <= |nodes[s].children|
    decreases |nodes| - s, 0, n
  {
    if n == 0 then ([], true)
    else
      var init := ChildMatches(nodes, s, t, n - 1);
      if !init.1 then init
      else
        var last := DescendantMatches(nodes, nodes[s].children[n - 1], nodes[t].children[n - 1]);
        (init.0 + last.0, last.1)
  }

  /** `ps` pairs up the first `|ps|` elements of `a` and of `b`, position by position. */
  predicate ZipPrefix(ps: seq<MatchingPair>, a: seq<NodeId>, b: seq<NodeId>)
  {
    |ps| <= |a| && |ps| <= |b| && forall k | 0 <= k < |ps| :: ps[k] == MatchingPair(a[k], b[k])
  }

  /** Every pair joins two nodes of the same kind. */
  predicate PairsCanMatch(nodes: seq<Node>, ps: seq<MatchingPair>)
  {
    forall k | 0 <= k < |ps| :: ps[k].source < |nodes| && ps[k].target < |nodes| && CanMatch(nodes[ps[k].source], nodes[ps[k].target])
  }

  lemma ZipExtend(ps: seq<MatchingPair>, a: seq<NodeId>, b: seq<NodeId>, a': seq<NodeId>, b': seq<NodeId>)
    requires ZipPrefix(ps, a, b)
    ensures ZipPrefix(ps, a + a', b + b')
  {
  }

  lemma ZipAppend(ps: seq<MatchingPair>, qs: seq<MatchingPair>, a: seq<NodeId>, b: seq<NodeId>, c: seq<NodeId>, d: seq<NodeId>)
    requires ZipPrefix(ps, a, b) && |ps| == |a| == |b| && ZipPrefix(qs, c, d)
    ensures ZipPrefix(ps + qs, a + c, b + d)
  {
    forall k | 0 <= k < |ps + qs| ensures (ps + qs)[k] == MatchingPair((a + c)[k], (b + d)[k]) {
      if k >= |ps| {
        assert (ps + qs)[k] == qs[k - |ps|];
      }
    }
  }

  /** The child walks of a node, one per child. */
  function ChildWalks(nodes: seq<Node>, id: NodeId): (r: seq<seq<NodeId>>)
    requires Ordered(nodes) && id < |nodes|
    ensures |r| == |nodes[id].children|
  {
    var cs := nodes[id].children;
    seq(|cs|, k requires 0 <= k < |cs| => PreOrder(nodes, cs[k]))
  }

  lemma ChildWalksMakeWalk(nodes: seq<Node>, id: NodeId)
    requires Ordered(nodes) && id < |nodes|
    ensures PreOrder(nodes, id) == [id] + Concat(ChildWalks(nodes, id))
  {
  }

  lemma ConcatPrefixStep(ws: seq<seq<NodeId>>, n: nat)
    requires 0 < n <= |ws|
    ensures Concat(ws[..n]) == Concat(ws[..n - 1]) + ws[n - 1]
  {
    assert ws[..n][..n - 1] == ws[..n - 1];
  }

  /**
   * The yielded pairs zip the two pre-order walks: the k-th pair joins the k-th node of
   * each walk, and when no assertion fails the walks are exhausted together. Every yielded
   * pair passed the `can_match` assertion.
   */
  lemma {:induction false} DescendantMatchesZipWalks(nodes: seq<Node>, s: NodeId, t: NodeId)
    requires Ordered(nodes) && s < |nodes| && t < |nodes|
    ensures ZipPrefix(DescendantMatches(nodes, s, t).0, PreOrder(nodes, s), PreOrder(nodes, t))
    ensures DescendantMatches(nodes, s, t).1 ==>
              |DescendantMatches(nodes, s, t).0| == |PreOrder(nodes, s)| == |PreOrder(nodes, t)|
    ensures PairsCanMatch(nodes, DescendantMatches(nodes, s, t).0)
    decreases |nodes| - s, 1, 0
  {
    if CanMatch(nodes[s], nodes[t]) && |nodes[s].children| == |nodes[t].children| {
      var n := |nodes[s].children|;
      var ws, wt := ChildWalks(nodes, s), ChildWalks(nodes, t);
      ChildMatchesZipWalks(nodes, s, t, n);
      ChildWalksMakeWalk(nodes, s);
      ChildWalksMakeWalk(nodes, t);
      assert ws[..n] == ws && wt[..n] == wt;
      var rest := ChildMatches(nodes, s, t, n).0;
      ZipAppend([MatchingPair(s, t)], rest, [s], [t], Concat(ws), Concat(wt));
    }
  }

  lemma {:induction false} ChildMatchesZipWalks(nodes: seq<Node>, s: NodeId, t: NodeId, n: nat)
    requires Ordered(nodes) && s < |nodes| && t < |nodes|
    requires |nodes[s].children| == |nodes[t].children| && n <= |nodes[s].children|
    ensures ZipPrefix(ChildMatches(nodes, s, t, n).0, Concat(ChildWalks(nodes, s)[..n]), Concat(ChildWalks(nodes, t)[..n]))
    ensures ChildMatches(nodes, s, t, n).1 ==>
              |ChildMatches(nodes, s, t, n).0| == |Concat(ChildWalks(nodes, s)[..n])| == |Concat(ChildWalks(nodes, t)[..n])|
    ensures PairsCanMatch(nodes, ChildMatches(nodes, s, t, n).0)
    decreases |nodes| - s, 0, n
  {
    var ws, wt := ChildWalks(nodes, s), ChildWalks(nodes, t);
    if n == 0 {
      assert ws[..0] == [] && wt[..0] == [];
    } else {
      ChildMatchesZipWalks(nodes, s, t, n - 1);
      var init := ChildMatches(nodes, s, t, n - 1);
      ConcatPrefixStep(ws, n);
      ConcatPrefixStep(wt, n);
      if !init.1 {
        ZipExtend(init.0, Concat(ws[..n - 1]), Concat(wt[..n - 1]), ws[n - 1], wt[n - 1]);
      } else {
        var cs, ct := nodes[s].children[n - 1], nodes[t].children[n - 1];
        var last := DescendantMatches(nodes, cs, ct);
        assert ChildMatches(nodes, s, t, n) == (init.0 + last.0, last.1);
        DescendantMatchesZipWalks(nodes, cs, ct);
        assert ws[n - 1] == PreOrder(nodes, cs) && wt[n - 1] == PreOrder(nodes, ct);
        ZipAppend(init.0, last.0, Concat(ws[..n - 1]), Concat(wt[..n - 1]), ws[n - 1], wt[n - 1]);
      }
    }
  }

  /**
   * No assertion of `_descendant_matches` fails exactly when the two subtrees are
   * isomorphic without values (`isomorphic_to_without_values`).
   */
  lemma {:induction false} DescendantMatchesSucceedIff(nodes: seq<Node>, s: NodeId, t: NodeId)
    requires Ordered(nodes) && s < |nodes| && t < |nodes|
    ensures DescendantMatches(nodes, s, t).1 <==> IsomorphicToWithoutValues(nodes, s, t)
    decreases |nodes| - s, 1, 0
  {
    if CanMatch(nodes[s], nodes[t]) && |nodes[s].children| == |nodes[t].children| {
      ChildMatchesSucceedIff(nodes, s, t, |nodes[s].children|);
    }
  }

  lemma {:induction false} ChildMatchesSucceedIff(nodes: seq<Node>, s: NodeId, t: NodeId, n: nat)
    requires Ordered(nodes) && s < |nodes| && t < |nodes|
    requires |nodes[s].children| == |nodes[t].children| && n <= |nodes[s].children|
    ensures ChildMatches(nodes, s, t, n).1 <==>
              forall k | 0 <= k < n :: IsomorphicToWithoutValues(nodes, nodes[s].children[k], nodes[t].children[k])
    decreases |nodes| - s, 0, n
  {
    if n > 0 {
      ChildMatchesSucceedIff(nodes, s, t, n - 1);
      DescendantMatchesSucceedIff(nodes, nodes[s].children[n - 1], nodes[t].children[n - 1]);
    }
  }

  /** A walk from a node inside the walk from `r` stays inside the walk from `r`. */
  lemma {:induction false} WalkWithinWalk(nodes: seq<Node>, r: NodeId, x: NodeId)
    requires Ordered(nodes) && r < |nodes| && x < |nodes| && x in PreOrder(nodes, r)
    ensures forall y | y in PreOrder(nodes, x) :: y in PreOrder(nodes, r)
    decreases |nodes| - r
  {
    if x != r {
      var parts := ChildWalks(nodes, r);
      InConcat(parts, x);
      var k :| 0 <= k < |parts| && x in parts[k];
      ChildWalksMakeWalk(nodes, r);
      WalkWithinWalk(nodes, nodes[r].children[k], x);
      ChildWalkIncluded(nodes, r, k);
    }
  }

  /**
   * The pairs `_descendant_matches` yields for a pair inside two subtrees stay inside them:
   * sources in the walk from `sroot`, targets in the walk from `troot`.
   */
  lemma DescendantMatchesStayInside(nodes: seq<Node>, s: NodeId, t: NodeId, sroot: NodeId, troot: NodeId)
    requires Ordered(nodes) && sroot < |nodes| && troot < |nodes|
    requires s in PreOrder(nodes, sroot) && t in PreOrder(nodes, troot)
    ensures s < |nodes| && t < |nodes|
    ensures forall k | 0 <= k < |DescendantMatches(nodes, s, t).0| ::
              && DescendantMatches(nodes, s, t).0[k].source in PreOrder(nodes, s)
              && DescendantMatches(nodes, s, t).0[k].target in PreOrder(nodes, t)
              && DescendantMatches(nodes, s, t).0[k].source in PreOrder(nodes, sroot)
              && DescendantMatches(nodes, s, t).0[k].target in PreOrder(nodes, troot)
  {
    PreOrderRange(nodes, sroot);
    PreOrderRange(nodes, troot);
    assert s < |nodes| && t < |nodes|;
    DescendantMatchesZipWalks(nodes, s, t);
    WalkWithinWalk(nodes, sroot, s);
    WalkWithinWalk(nodes, troot, t);
  }

  // ---------------------------------------------------------------------------------------
  // _dice_coefficient

  /** The ids of the descendants of a node, as the set the source builds. */
  function DescendantSet(nodes: seq<Node>, id: NodeId): set<NodeId>
    requires Ordered(nodes) && id < |nodes|
  {
    set x: NodeId | x in Descendants(nodes, id)
  }

  /** The source descendants whose partner in the source-to-target map is a target descendant. */
  function Common(m: Matching, sd: set<NodeId>, td: set<NodeId>): set<NodeId>
  {
    set x: NodeId | x in sd && x in m.st && m.st[x] in td
  }

  /**
   * The dice coefficient `2 * common / (|sd| + |td|)`; None where both descendant sets are
   * empty and the division raises.
   */
  function DiceValue(nodes: seq<Node>, m: Matching, s: NodeId, t: NodeId): (r: Option<real>)
    requires Ordered(nodes) && s < |nodes| && t < |nodes|
  {
    var sd, td := DescendantSet(nodes, s), DescendantSet(nodes, t);
    if |sd| + |td| == 0 then None
    else Some(2.0 * (|Common(m, sd, td)| as real) / ((|sd| + |td|) as real))
  }

  /** The image of a set under a map that is one-to-one on it has as many elements. */
  lemma {:induction false} InjectiveImageSize(c: set<NodeId>, f: map<NodeId, NodeId>)
    requires forall x | x in c :: x in f
    requires forall x, y | x in c && y in c && x != y :: f[x] != f[y]
    ensures |set x | x in c :: f[x]| == |c|
    decreases |c|
  {
    if c != {} {
      var x :| x in c;
      var c' := c - {x};
      InjectiveImageSize(c', f);
      assert (set y | y in c :: f[y]) == (set y | y in c' :: f[y]) + {f[x]};
      assert f[x] !in (set y | y in c' :: f[y]);
    }
  }

  lemma SubsetSize(a: set<NodeId>, b: set<NodeId>)
    requires a <= b
    ensures |a| <= |b|
  {
    assert b == a + (b - a);
  }

  /** With mutually inverse maps the common descendants are no more than either side's. */
  lemma CommonBounded(m: Matching, sd: set<NodeId>, td: set<NodeId>)
    requires Bijective(m)
    ensures |Common(m, sd, td)| <= |sd| && |Common(m, sd, td)| <= |td|
  {
    var c := Common(m, sd, td);
    SubsetSize(c, sd);
    forall x, y | x in c && y in c && x != y ensures m.st[x] != m.st[y] {
      assert m.ts[m.st[x]] == x && m.ts[m.st[y]] == y;
    }
    InjectiveImageSize(c, m.st);
    SubsetSize(set x | x in c :: m.st[x], td);
  }

  /** Twice a count bounded by both sides, over their sum, lies between 0 and 1. */
  lemma RatioInUnitInterval(c: nat, a: nat, b: nat)
    requires c <= a && c <= b && a + b > 0
    ensures 0.0 <= 2.0 * (c as real) / ((a + b) as real) <= 1.0
  {
    var d := (a + b) as real;
    var v := 2.0 * (c as real) / d;
    assert v * d == 2.0 * (c as real);
    assert 2.0 * (c as real) <= d;
  }

  /**
   * With mutually inverse maps the count of common descendants is at most either
   * descendant count, so the coefficient lies between 0 and 1.
   */
  lemma DiceInUnitInterval(nodes: seq<Node>, m: Matching, s: NodeId, t: NodeId)
    requires Ordered(nodes) && s < |nodes| && t < |nodes| && Bijective(m)
    ensures DiceValue(nodes, m, s, t).Some? ==> 0.0 <= DiceValue(nodes, m, s, t).value <= 1.0
  {
    var sd, td := DescendantSet(nodes, s), DescendantSet(nodes, t);
    CommonBounded(m, sd, td);
    if |sd| + |td| > 0 {
      RatioInUnitInterval(|Common(m, sd, td)|, |sd|, |td|);
    }
  }

  /** A node with children has a descendant, so the division never raises for it. */
  lemma DiceDefinedWithChildren(nodes: seq<Node>, m: Matching, s: NodeId, t: NodeId)
    requires Ordered(nodes) && s < |nodes| && t < |nodes| && nodes[s].children != []
    ensures DiceValue(nodes, m, s, t).Some?
  {
    var c := nodes[s].children[0];
    ChildWalkIncluded(nodes, s, 0);
    PreOrderRange(nodes, c);
    assert c in PreOrder(nodes, s) && c != s;
    assert c in Descendants(nodes, s);
    assert c in DescendantSet(nodes, s);
  }

  /** Every value the dice cache holds lies between 0 and 1. */
  predicate CacheInRange(cache: map<(int, int), real>)
  {
    forall k | k in cache :: 0.0 <= cache[k] <= 1.0
  }

  /** The key `_dice_coefficient` caches a value under: the hashcodes of the two compared nodes. */
  function CacheKey(nodes: seq<Node>, a: NodeId, b: NodeId): (int, int)
    requires a < |nodes| && b < |nodes| && nodes[a].metadata.Some? && nodes[b].metadata.Some?
  {
    (nodes[a].metadata.value.hashcode, nodes[b].metadata.value.hashcode)
  }

  /** The nodes compared when parents are compared: each node's parent, or the node itself at a root. */
  function DiceNode(nodes: seq<Node>, x: NodeId, compareParents: bool): (r: NodeId)
    requires Closed(nodes) && x < |nodes|
    ensures r < |nodes|
    ensures !compareParents ==> r == x
  {
    if compareParents && nodes[x].parent.Some? then nodes[x].parent.value else x
  }

  // ---------------------------------------------------------------------------------------
  // Termination of the top-down phase

  /** The sizes of the subtrees rooted at the given ids. */
  function Sizes(nodes: seq<Node>, ids: seq<NodeId>): (r: seq<int>)
    requires Ordered(nodes) && AllIn(nodes, ids)
    ensures |r| == |ids|
  {
    seq(|ids|, k requires 0 <= k < |ids| => |PreOrder(nodes, ids[k])|)
  }

  /** The number of nodes still reachable from the given ids, counted with repetition. */
  function Weight(nodes: seq<Node>, ids: seq<NodeId>): int
    requires Ordered(nodes) && AllIn(nodes, ids)
  {
    Sum(Sizes(nodes, ids))
  }

  function Ids(entries: seq<(nat, NodeId)>): (r: seq<NodeId>)
    ensures |r| == |entries|
    ensures forall k | 0 <= k < |r| :: r[k] == entries[k].1
  {
    seq(|entries|, k requires 0 <= k < |entries| => entries[k].1)
  }

  lemma {:induction false} SumAppend(a: seq<int>, b: seq<int>)
    ensures Sum(a + b) == Sum(a) + Sum(b)
    decreases |b|
  {
    if b == [] {
      assert a + b == a;
    } else {
      assert (a + b)[..|a + b| - 1] == a + b[..|b| - 1];
      SumAppend(a, b[..|b| - 1]);
    }
  }

  lemma WeightAppend(nodes: seq<Node>, a: seq<NodeId>, b: seq<NodeId>)
    requires Ordered(nodes) && AllIn(nodes, a) && AllIn(nodes, b)
    ensures AllIn(nodes, a + b)
    ensures Weight(nodes, a + b) == Weight(nodes, a) + Weight(nodes, b)
  {
    assert Sizes(nodes, a + b) == Sizes(nodes, a) + Sizes(nodes, b);
    SumAppend(Sizes(nodes, a), Sizes(nodes, b));
  }

  lemma WeightOne(nodes: seq<Node>, x: NodeId)
    requires Ordered(nodes) && x < |nodes|
    ensures AllIn(nodes, [x]) && Weight(nodes, [x]) == |PreOrder(nodes, x)| >= 1
  {
    var v := |PreOrder(nodes, x)|;
    assert Sizes(nodes, [x]) == [v];
    assert [v][..0] == [];
    assert Sum([v]) == Sum([v][..0]) + v;
  }

  /** Each node weighs at least one, so a non-empty list weighs at least its length. */
  lemma {:induction false} WeightAtLeastLength(nodes: seq<Node>, ids: seq<NodeId>)
    requires Ordered(nodes) && AllIn(nodes, ids)
    ensures Weight(nodes, ids) >= |ids|
    decreases |ids|
  {
    if ids != [] {
      var n := |ids|;
      assert ids == ids[..n - 1] + [ids[n - 1]];
      WeightAppend(nodes, ids[..n - 1], [ids[n - 1]]);
      WeightOne(nodes, ids[n - 1]);
      WeightAtLeastLength(nodes, ids[..n - 1]);
    }
  }

  /** Popping a height layer splits the weight of a queue between the layer and the rest. */
  lemma {:induction false} WeightOfLayerSplit(nodes: seq<Node>, entries: seq<(nat, NodeId)>, h: nat)
    requires Ordered(nodes) && AllIn(nodes, Ids(entries))
    ensures AllIn(nodes, Layer(entries, h)) && AllIn(nodes, Ids(Others(entries, h)))
    ensures Weight(nodes, Ids(entries)) == Weight(nodes, Layer(entries, h)) + Weight(nodes, Ids(Others(entries, h)))
  {
    if entries != [] {
      var e, rest := entries[0], entries[1..];
      assert Ids(entries) == [e.1] + Ids(rest);
      WeightOfLayerSplit(nodes, rest, h);
      WeightAppend(nodes, [e.1], Ids(rest));
      if e.0 == h {
        LayerHeadWeight(nodes, entries, h);
      } else {
        assert Layer(entries, h) == Layer(rest, h);
        OthersHeadWeight(nodes, entries, h);
      }
    }
  }

  /** The first entry, of the popped height, goes to the layer and takes its weight along. */
  lemma LayerHeadWeight(nodes: seq<Node>, entries: seq<(nat, NodeId)>, h: nat)
    requires Ordered(nodes) && entries != [] && entries[0].0 == h && entries[0].1 < |nodes|
    requires AllIn(nodes, Layer(entries[1..], h))
    ensures AllIn(nodes, Layer(entries, h)) && Others(entries, h) == Others(entries[1..], h)
    ensures Weight(nodes, Layer(entries, h)) == Weight(nodes, [entries[0].1]) + Weight(nodes, Layer(entries[1..], h))
  {
    assert Layer(entries, h) == [entries[0].1] + Layer(entries[1..], h);
    WeightAppend(nodes, [entries[0].1], Layer(entries[1..], h));
  }

  /** The first entry, of another height, goes to the rest and takes its weight along. */
  lemma OthersHeadWeight(nodes: seq<Node>, entries: seq<(nat, NodeId)>, h: nat)
    requires Ordered(nodes) && entries != [] && entries[0].0 != h && entries[0].1 < |nodes|
    requires AllIn(nodes, Ids(Others(entries[1..], h)))
    ensures AllIn(nodes, Ids(Others(entries, h)))
    ensures Weight(nodes, Ids(Others(entries, h))) == Weight(nodes, [entries[0].1]) + Weight(nodes, Ids(Others(entries[1..], h)))
  {
    assert Ids(Others(entries, h)) == [entries[0].1] + Ids(Others(entries[1..], h));
    WeightAppend(nodes, [entries[0].1], Ids(Others(entries[1..], h)));
  }

  /** Opening a node replaces it by its children: one node less is reachable. */
  lemma ChildEntriesWeight(nodes: seq<Node>, x: NodeId)
    requires Ordered(nodes) && Measured(nodes) && x < |nodes|
    ensures ChildrenMeasured(nodes, x)
    ensures AllIn(nodes, Ids(ChildEntries(nodes, x)))
    ensures Weight(nodes, Ids(ChildEntries(nodes, x))) + 1 == |PreOrder(nodes, x)|
  {
    var ws := ChildWalks(nodes, x);
    ChildWalksMakeWalk(nodes, x);
    ConcatLength(ws);
    assert Ids(ChildEntries(nodes, x)) == nodes[x].children;
    assert Sizes(nodes, nodes[x].children) == seq(|ws|, i requires 0 <= i < |ws| => |ws[i]|);
  }

  /**
   * A list without repetitions drawn from another list weighs at most as much, and after
   * opening each of its nodes the loss is at least one when the other list is non-empty.
   */
  lemma {:induction false} WeightOfSublist(nodes: seq<Node>, a: seq<NodeId>, b: seq<NodeId>)
    requires Ordered(nodes) && AllIn(nodes, b) && NoDup(a) && forall x | x in a :: x in b
    ensures AllIn(nodes, a)
    ensures Weight(nodes, a) <= Weight(nodes, b)
    decreases |a|
  {
    forall k | 0 <= k < |a| ensures a[k] < |nodes| {
      assert a[k] in a && a[k] in b;
      var j :| 0 <= j < |b| && b[j] == a[k];
    }
    WeightAtLeastLength(nodes, b);
    if a != [] {
      var n := |a|;
      var x := a[n - 1];
      var b' := Without(b, x);
      forall k | 0 <= k < |b'| ensures b'[k] < |nodes| {
        assert b'[k] in b;
        var j :| 0 <= j < |b| && b[j] == b'[k];
      }
      assert forall y | y in a[..n - 1] :: y in b' by {
        forall y | y in a[..n - 1] ensures y in b' {
          var i :| 0 <= i < n - 1 && a[i] == y;
          assert a[i] != a[n - 1];
        }
      }
      WeightOfSublist(nodes, a[..n - 1], b');
      WeightWithout(nodes, b, x);
      assert a == a[..n - 1] + [x];
      WeightAppend(nodes, a[..n - 1], [x]);
      WeightOne(nodes, x);
    }
  }

  lemma {:induction false} WeightWithout(nodes: seq<Node>, b: seq<NodeId>, x: NodeId)
    requires Ordered(nodes) && AllIn(nodes, b) && x in b
    ensures x < |nodes| && AllIn(nodes, Without(b, x))
    ensures Weight(nodes, Without(b, x)) + |PreOrder(nodes, x)| <= Weight(nodes, b)
    decreases |b|
  {
    assert b == [b[0]] + b[1..];
    WeightAppend(nodes, [b[0]], b[1..]);
    WeightOne(nodes, b[0]);
    assert AllIn(nodes, b[1..]);
    if b[0] == x {
      assert Without(b, x) == Without(b[1..], x);
      if x in b[1..] {
        WeightWithout(nodes, b[1..], x);
      } else {
        assert Without(b[1..], x) == b[1..];
      }
    } else {
      WeightWithout(nodes, b[1..], x);
      assert Without(b, x) == [b[0]] + Without(b[1..], x);
      WeightAppend(nodes, [b[0]], Without(b[1..], x));
    }
  }

  lemma WeightLossOfSublist(nodes: seq<Node>, a: seq<NodeId>, b: seq<NodeId>)
    requires Ordered(nodes) && AllIn(nodes, b) && NoDup(a) && forall x | x in a :: x in b
    requires b != []
    ensures AllIn(nodes, a)
    ensures Weight(nodes, a) - |a| <= Weight(nodes, b) - 1
  {
    WeightOfSublist(nodes, a, b);
    WeightAtLeastLength(nodes, b);
    if a == [] {
      assert Weight(nodes, a) == 0;
    }
  }

  // ---------------------------------------------------------------------------------------
  // Parent chains

  /** The ids below `n`, as a set. */
  function IdsBelow(n: nat): (r: set<NodeId>)
    ensures forall x: int :: x in r <==> 0 <= x < n
  {
    if n == 0 then {} else IdsBelow(n - 1) + {n - 1}
  }

  /** The node `n` parent steps above `x`, if the chain is that long. */
  function Up(nodes: seq<Node>, x: NodeId, n: nat): (r: Option<NodeId>)
    requires Closed(nodes) && x < |nodes|
    ensures r.Some? ==> r.value < |nodes|
  {
    if n == 0 then Some(x)
    else
      match Up(nodes, x, n - 1)
      case None => None
      case Some(c) => nodes[c].parent
  }

  /** In a well-formed arena a node reached by parent steps from inside a tree is in that tree. */
  lemma ParentStaysInTree(nodes: seq<Node>, root: NodeId, x: NodeId)
    requires WellFormed(nodes) && root < |nodes| && nodes[root].parent.None?
    requires x < |nodes| && x in PreOrder(nodes, root) && nodes[x].parent.Some?
    ensures nodes[x].parent.value in PreOrder(nodes, root)
  {
    PreOrderRange(nodes, root);
    WalkParentInWalk(nodes, root, x);
  }

  // ---------------------------------------------------------------------------------------
  // The state the matcher works on

  /** The registry lists a whole tree of the arena in pre-order from its first node. */
  predicate IsTree(nodes: seq<Node>, tree: seq<NodeId>)
  {
    && Ordered(nodes)
    && tree != [] && tree[0] < |nodes|
    && tree == PreOrder(nodes, tree[0])
  }

  /**
   * What the matcher needs of its context: a well-formed arena where every node carries
   * metadata, and two registries listing disjoint trees from roots without parents.
   */
  predicate Ready(nodes: seq<Node>, sources: seq<NodeId>, targets: seq<NodeId>)
  {
    && WellFormed(nodes) && Closed(nodes) && Measured(nodes)
    && IsTree(nodes, sources) && IsTree(nodes, targets)
    && (forall x | x in sources :: x < |nodes|)
    && (forall x | x in targets :: x < |nodes|)
    && nodes[sources[0]].parent.None? && nodes[targets[0]].parent.None?
    && (forall x | x in sources :: x !in targets)
  }

  /**
   * A pair the matcher may record: a source node and a target node of the same kind, or
   * the two roots, which the bottom-up phase pairs without comparing kinds.
   */
  predicate PairFits(nodes: seq<Node>, sources: seq<NodeId>, targets: seq<NodeId>, p: MatchingPair)
  {
    && p.source in sources && p.target in targets
    && p.source < |nodes| && p.target < |nodes|
    && (|| CanMatch(nodes[p.source], nodes[p.target])
        || (sources != [] && targets != [] && p == MatchingPair(sources[0], targets[0])))
  }

  /** Every recorded pair fits. */
  predicate Fits(nodes: seq<Node>, sources: seq<NodeId>, targets: seq<NodeId>, m: Matching)
  {
    forall s | s in m.st :: PairFits(nodes, sources, targets, MatchingPair(s, m.st[s]))
  }

  /** `update` with fitting pairs keeps every recorded pair fitting. */
  lemma AddAllFits(nodes: seq<Node>, sources: seq<NodeId>, targets: seq<NodeId>, m: Matching, ps: seq<MatchingPair>)
    requires Fits(nodes, sources, targets, m)
    requires forall p | p in ps :: PairFits(nodes, sources, targets, p)
    ensures Fits(nodes, sources, targets, AddAll(m, ps).0)
  {
    AddAllFrom(m, ps);
  }

  /** With mutually inverse maps, the keys of the target map are target nodes partnered with source nodes. */
  lemma FitsTargets(nodes: seq<Node>, sources: seq<NodeId>, targets: seq<NodeId>, m: Matching)
    requires Bijective(m) && Fits(nodes, sources, targets, m)
    ensures forall t | t in m.ts :: t in targets && m.ts[t] in sources
    ensures forall x | x in sources && (forall y | y in sources :: y !in targets) :: x !in m.ts
  {
    forall t | t in m.ts ensures t in targets && m.ts[t] in sources {
      assert PairFits(nodes, sources, targets, MatchingPair(m.ts[t], m.st[m.ts[t]]));
    }
  }


  /** `x` lies strictly below `s`. */
  predicate Below(nodes: seq<Node>, x: NodeId, s: NodeId)
    requires Ordered(nodes) && s < |nodes|
  {
    x in PreOrder(nodes, s) && x != s
  }

  /** Every node matched since `m0` lies strictly below `s` (a source) or `t` (a target). */
  predicate AddedBelow(nodes: seq<Node>, m0: Matching, m: Matching, s: NodeId, t: NodeId)
    requires Ordered(nodes) && s < |nodes| && t < |nodes|
  {
    && (forall x | x in m.st && x !in m0.st :: Below(nodes, x, s))
    && (forall y | y in m.ts && y !in m0.ts :: Below(nodes, y, t))
  }

  lemma AddedBelowTrans(nodes: seq<Node>, m0: Matching, m1: Matching, m2: Matching, s: NodeId, t: NodeId)
    requires Ordered(nodes) && s < |nodes| && t < |nodes|
    requires AddedBelow(nodes, m0, m1, s, t) && AddedBelow(nodes, m1, m2, s, t)
    requires Kept(m0, m1) && Kept(m1, m2)
    ensures AddedBelow(nodes, m0, m2, s, t) && Kept(m0, m2)
  {
  }

  /** `update` keeps what was recorded, and adds only the pairs it is given. */
  lemma AddAllBelow(nodes: seq<Node>, m: Matching, ps: seq<MatchingPair>, s: NodeId, t: NodeId)
    requires Ordered(nodes) && s < |nodes| && t < |nodes|
    requires forall p | p in ps :: Below(nodes, p.source, s) && Below(nodes, p.target, t)
    ensures AddedBelow(nodes, m, AddAll(m, ps).0, s, t) && Kept(m, AddAll(m, ps).0)
  {
    AddAllFrom(m, ps);
  }

  /** A node in the walk from a node strictly below `s` is itself strictly below `s`. */
  lemma BelowWithin(nodes: seq<Node>, x: NodeId, c: NodeId, s: NodeId)
    requires Ordered(nodes) && s < |nodes| && c < |nodes| && Below(nodes, c, s) && x in PreOrder(nodes, c)
    ensures Below(nodes, x, s)
  {
    WalkWithinWalk(nodes, s, c);
    PreOrderRange(nodes, s);
    PreOrderRange(nodes, c);
  }

  /** A child lies strictly below its parent. */
  lemma ChildBelow(nodes: seq<Node>, s: NodeId, c: NodeId)
    requires Ordered(nodes) && s < |nodes| && c in nodes[s].children
    ensures s < c < |nodes| && Below(nodes, c, s)
  {
    var k :| 0 <= k < |nodes[s].children| && nodes[s].children[k] == c;
    ChildWalkIncluded(nodes, s, k);
  }

  /** The walk from a node of a tree stays in the tree. */
  lemma InTree(nodes: seq<Node>, tree: seq<NodeId>, x: NodeId)
    requires IsTree(nodes, tree) && x in tree
    ensures x < |nodes|
    ensures forall y | y in PreOrder(nodes, x) :: y in tree
    ensures forall c | c in nodes[x].children :: c in tree
  {
    PreOrderRange(nodes, tree[0]);
    WalkWithinWalk(nodes, tree[0], x);
    forall c | c in nodes[x].children ensures c in tree {
      ChildBelow(nodes, x, c);
    }
  }

  /** The pairs `_descendant_matches` yields for a source node and a target node all fit. */
  lemma DescendantPairsFit(nodes: seq<Node>, sources: seq<NodeId>, targets: seq<NodeId>, s: NodeId, t: NodeId)
    requires Ready(nodes, sources, targets) && s in sources && t in targets
    ensures forall p | p in DescendantMatches(nodes, s, t).0 :: PairFits(nodes, sources, targets, p)
  {
    var ps := DescendantMatches(nodes, s, t).0;
    DescendantMatchesStayInside(nodes, s, t, sources[0], targets[0]);
    DescendantMatchesZipWalks(nodes, s, t);
    forall p | p in ps ensures PairFits(nodes, sources, targets, p) {
      var k :| 0 <= k < |ps| && ps[k] == p;
    }
  }

  /**
   * The pairs `_descendant_matches` yields for a child of `s` and a child of `t` lie
   * strictly below `s` and `t`.
   */
  lemma DescendantPairsBelow(nodes: seq<Node>, s: NodeId, t: NodeId, a: NodeId, b: NodeId)
    requires Ordered(nodes) && s < |nodes| && t < |nodes|
    requires a in nodes[s].children && b in nodes[t].children
    ensures a < |nodes| && b < |nodes|
    ensures forall p | p in DescendantMatches(nodes, a, b).0 :: Below(nodes, p.source, s) && Below(nodes, p.target, t)
  {
    ChildBelow(nodes, s, a);
    ChildBelow(nodes, t, b);
    var ps := DescendantMatches(nodes, a, b).0;
    DescendantMatchesZipWalks(nodes, a, b);
    forall p | p in ps ensures Below(nodes, p.source, s) && Below(nodes, p.target, t) {
      var k :| 0 <= k < |ps| && ps[k] == p;
      BelowWithin(nodes, p.source, a, s);
      BelowWithin(nodes, p.target, b, t);
    }
  }

  /**
   * A pair whose two nodes were free stays free when everything matched since lies
   * strictly below them, so the `add` that follows a recovery never fails its assertion.
   */
  lemma RecoveredPairIsFree(nodes: seq<Node>, m0: Matching, m: Matching, p: MatchingPair)
    requires Ordered(nodes) && p.source < |nodes| && p.target < |nodes|
    requires p.source !in m0.st && p.target !in m0.ts
    requires AddedBelow(nodes, m0, m, p.source, p.target)
    ensures !IsMatched(m, p)
  {
  }

  /** The equality functions recovery matching hands to the LCS: with or without values. */
  function ChildEquality(nodes: seq<Node>, withValues: bool): (NodeId, NodeId) -> bool
  {
    if withValues then (a: NodeId, b: NodeId) => a < |nodes| && b < |nodes| && IsomorphicTo(nodes[a], nodes[b])
    else (a: NodeId, b: NodeId) => Ordered(nodes) && a < |nodes| && b < |nodes| && IsomorphicToWithoutValues(nodes, a, b)
  }

  /** Every picked pair takes its elements from the two inputs. */
  lemma PickedFrom<T>(source: seq<T>, target: seq<T>, ps: seq<(nat, nat)>)
    requires IndicesIn(source, target, ps)
    ensures forall k | 0 <= k < |ps| :: Pick(source, target, ps)[k].0 in source && Pick(source, target, ps)[k].1 in target
  {
  }

  /** `longest_common_subsequence` on two lists of node ids; its pairs come from the two lists. */
  method ChildLcs(sc: seq<NodeId>, tc: seq<NodeId>, eq: (NodeId, NodeId) -> bool) returns (pairs: seq<(NodeId, NodeId)>)
    ensures LcsIndicesFacts(sc, tc, eq, 0, 0)
    ensures pairs == Pick(sc, tc, LcsIndices(sc, tc, eq, 0, 0))
    ensures forall k | 0 <= k < |pairs| :: pairs[k].0 in sc && pairs[k].1 in tc
  {
    pairs := LongestCommonSubsequence(sc, tc, eq);
    PickedFrom(sc, tc, LcsIndices(sc, tc, eq, 0, 0));
  }

  /** What a recovery adds below a child pair lies below the parent pair too. */
  lemma BelowWithinAll(nodes: seq<Node>, m0: Matching, m: Matching, p: MatchingPair, s: NodeId, t: NodeId)
    requires Ordered(nodes) && s < |nodes| && t < |nodes| && p.source < |nodes| && p.target < |nodes|
    requires Below(nodes, p.source, s) && Below(nodes, p.target, t)
    requires AddedBelow(nodes, m0, m, p.source, p.target)
    ensures AddedBelow(nodes, m0, m, s, t)
  {
    forall x | x in m.st && x !in m0.st ensures Below(nodes, x, s) {
      BelowWithin(nodes, x, p.source, s);
    }
    forall y | y in m.ts && y !in m0.ts ensures Below(nodes, y, t) {
      BelowWithin(nodes, y, p.target, t);
    }
  }

  /** `s` is recorded with partner `t`. */
  predicate Paired(m: Matching, s: NodeId, t: NodeId)
  {
    s in m.st && m.st[s] == t
  }

  /** The first source id of the mapping is recorded with its first target id as partner. */
  predicate PairedFirst(m: Matching, u: Mapping)
  {
    u.sourceIds != [] && u.targetIds != [] && u.sourceIds[0] in m.st && m.st[u.sourceIds[0]] == u.targetIds[0]
  }

  /** `add` of a fitting pair below `s` and `t` keeps every pair fitting and adds only below. */
  lemma WithKeeps(nodes: seq<Node>, sources: seq<NodeId>, targets: seq<NodeId>, m: Matching, p: MatchingPair, s: NodeId, t: NodeId)
    requires Fits(nodes, sources, targets, m) && PairFits(nodes, sources, targets, p) && !IsMatched(m, p)
    requires Ordered(nodes) && s < |nodes| && t < |nodes| && Below(nodes, p.source, s) && Below(nodes, p.target, t)
    ensures Fits(nodes, sources, targets, With(m, p))
    ensures AddedBelow(nodes, m, With(m, p), s, t) && Kept(m, With(m, p))
  {
  }

  /** `add` of a fitting pair keeps every pair fitting; of a free pair, keeps every recorded pair. */
  lemma AddFits(nodes: seq<Node>, sources: seq<NodeId>, targets: seq<NodeId>, m: Matching, p: MatchingPair)
    requires Fits(nodes, sources, targets, m) && PairFits(nodes, sources, targets, p) && !IsMatched(m, p)
    ensures Fits(nodes, sources, targets, With(m, p)) && Kept(m, With(m, p))
  {
  }

  /** Every source node matched since `m0` has an id of at least `s`. */
  predicate AddedFrom(m0: Matching, m: Matching, s: NodeId)
  {
    forall x | x in m.st && x !in m0.st :: s <= x
  }

  /**
   * The state of the `match_containers` walk: nothing recorded is dropped; once the walk
   * has passed the source root, the roots are paired as `RootsPaired` says; before that, a
   * source root free at the start is still free.
   */
  predicate WalkState(start: Matching, m: Matching, sroot: NodeId, troot: NodeId, covered: bool)
  {
    && Kept(start, m)
    && (covered ==> RootsPaired(start, m, sroot, troot))
    && (!covered && sroot !in start.st ==> sroot !in m.st)
  }

  /** A step at a node `x` no smaller than the source root keeps the walk state. */
  lemma WalkStateStep(start: Matching, m: Matching, m2: Matching, sroot: NodeId, troot: NodeId, x: NodeId, covered: bool)
    requires WalkState(start, m, sroot, troot, covered)
    requires Kept(m, m2) && AddedFrom(m, m2, x) && sroot <= x
    requires x == sroot ==> RootsPaired(m, m2, sroot, troot)
    ensures WalkState(start, m2, sroot, troot, covered || x == sroot)
  {
    KeptTrans(start, m, m2);
  }

  /** The post-order walk of a tree visits nodes of the tree only, none with an id below the root's. */
  lemma WalkFromRoot(nodes: seq<Node>, tree: seq<NodeId>)
    requires IsTree(nodes, tree)
    ensures forall y | y in PostOrder(nodes, tree[0]) :: y in tree && tree[0] <= y
  {
    PostOrderSameNodes(nodes, tree[0]);
    PreOrderRange(nodes, tree[0]);
  }

  /** Nodes added strictly below `s` have larger ids than `s`. */
  lemma BelowFrom(nodes: seq<Node>, m0: Matching, m: Matching, s: NodeId, t: NodeId)
    requires Ordered(nodes) && s < |nodes| && t < |nodes| && AddedBelow(nodes, m0, m, s, t)
    ensures AddedFrom(m0, m, s)
  {
    PreOrderRange(nodes, s);
  }

  /**
   * After recovery below a free fitting pair, the pair is still free, and adding it keeps
   * every pair fitting and every earlier pair, adds no source node above the pair's, and
   * extends the matching that adding the pair first would have given.
   */
  lemma AddAfterRecovery(nodes: seq<Node>, sources: seq<NodeId>, targets: seq<NodeId>, m0: Matching, m1: Matching, p: MatchingPair)
    requires Ordered(nodes) && PairFits(nodes, sources, targets, p) && Fits(nodes, sources, targets, m1)
    requires p.source !in m0.st && p.target !in m0.ts
    requires AddedBelow(nodes, m0, m1, p.source, p.target) && Kept(m0, m1)
    ensures AddedFrom(m0, m1, p.source) && !IsMatched(m1, p)
    ensures Fits(nodes, sources, targets, With(m1, p)) && Kept(m0, With(m1, p))
    ensures AddedFrom(m0, With(m1, p), p.source) && Kept(With(m0, p), With(m1, p))
  {
    BelowFrom(nodes, m0, m1, p.source, p.target);
    RecoveredPairIsFree(nodes, m0, m1, p);
    AddFits(nodes, sources, targets, m1, p);
    KeptWith(m0, m1, p);
  }

  /** Adding a free pair after growing the matching extends both the grown matching and the pair added first. */
  lemma KeptWith(m0: Matching, m1: Matching, p: MatchingPair)
    requires Kept(m0, m1) && !IsMatched(m1, p) && AddedFrom(m0, m1, p.source)
    ensures Kept(m0, With(m1, p)) && Kept(With(m0, p), With(m1, p)) && AddedFrom(m0, With(m1, p), p.source)
  {
  }

  /** The cache keys of the pairs of `x` with each candidate's target (a dummy key outside the arena). */
  function CacheKeys(nodes: seq<Node>, x: NodeId, cands: seq<MatchingPair>): (r: seq<(int, int)>)
    ensures |r| == |cands|
    ensures Measured(nodes) && x < |nodes| ==>
      forall j | 0 <= j < |cands| && cands[j].target < |nodes| :: r[j] == CacheKey(nodes, x, cands[j].target)
  {
    seq(|cands|, j requires 0 <= j < |cands| =>
      if Measured(nodes) && x < |nodes| && cands[j].target < |nodes| then CacheKey(nodes, x, cands[j].target) else (0, 0))
  }

  /** The dice coefficients of `x` with each candidate's target on the matching `m` (None outside the arena). */
  function DiceValues(nodes: seq<Node>, m: Matching, x: NodeId, cands: seq<MatchingPair>): (r: seq<Option<real>>)
    ensures |r| == |cands|
    ensures Ordered(nodes) && x < |nodes| ==>
      forall j | 0 <= j < |cands| && cands[j].target < |nodes| :: r[j] == DiceValue(nodes, m, x, cands[j].target)
  {
    seq(|cands|, j requires 0 <= j < |cands| =>
      if Ordered(nodes) && x < |nodes| && cands[j].target < |nodes| then DiceValue(nodes, m, x, cands[j].target) else None)
  }

  /** The cache keys of the parents of each pair, as `_dice_coefficient` forms them with `compare_parents`. */
  function ParentKeys(nodes: seq<Node>, pairs: seq<MatchingPair>): (r: seq<(int, int)>)
    ensures |r| == |pairs|
    ensures Closed(nodes) && Measured(nodes) ==>
      forall j | 0 <= j < |pairs| && pairs[j].source < |nodes| && pairs[j].target < |nodes| ::
        r[j] == CacheKey(nodes, DiceNode(nodes, pairs[j].source, true), DiceNode(nodes, pairs[j].target, true))
  {
    seq(|pairs|, j requires 0 <= j < |pairs| =>
      if Closed(nodes) && Measured(nodes) && pairs[j].source < |nodes| && pairs[j].target < |nodes|
      then CacheKey(nodes, DiceNode(nodes, pairs[j].source, true), DiceNode(nodes, pairs[j].target, true))
      else (0, 0))
  }

  /** The dice coefficients of the parents of each pair on the matching `m` (None outside the arena). */
  function ParentDice(nodes: seq<Node>, m: Matching, pairs: seq<MatchingPair>): (r: seq<Option<real>>)
    ensures |r| == |pairs|
    ensures Closed(nodes) && Ordered(nodes) ==>
      forall j | 0 <= j < |pairs| && pairs[j].source < |nodes| && pairs[j].target < |nodes| ::
        r[j] == DiceValue(nodes, m, DiceNode(nodes, pairs[j].source, true), DiceNode(nodes, pairs[j].target, true))
  {
    seq(|pairs|, j requires 0 <= j < |pairs| =>
      if Closed(nodes) && Ordered(nodes) && pairs[j].source < |nodes| && pairs[j].target < |nodes|
      then DiceValue(nodes, m, DiceNode(nodes, pairs[j].source, true), DiceNode(nodes, pairs[j].target, true))
      else None)
  }

  /**
   * What the weighing loop has established after `|ws|` candidates `pairs` with keys
   * `keys` and coefficients `dice`: each weight is labelled with its candidate, the cache
   * holds every weight under its key, and a key neither cached before nor met earlier is
   * given its coefficient.
   */
  predicate Weighed(c0: map<(int, int), real>, c: map<(int, int), real>, pairs: seq<MatchingPair>,
                    keys: seq<(int, int)>, dice: seq<Option<real>>, ws: seq<(real, MatchingPair)>)
  {
    && |ws| <= |pairs| && |ws| <= |keys| && |ws| <= |dice|
    && (forall j | 0 <= j < |ws| :: ws[j].1 == pairs[j])
    && CacheHolds(c0, c, keys, ws)
    && FreshWeights(c0, keys, dice, ws)
  }

  /** The cache keeps its earlier entries, gains only the keys met, and holds every weight under its key. */
  predicate CacheHolds(c0: map<(int, int), real>, c: map<(int, int), real>, keys: seq<(int, int)>, ws: seq<(real, MatchingPair)>)
    requires |ws| <= |keys|
  {
    && (forall key | key in c0 :: key in c && c[key] == c0[key])
    && (forall key | key in c :: key in c0 || key in keys[..|ws|])
    && (forall j | 0 <= j < |ws| :: keys[j] in c && c[keys[j]] == ws[j].0)
  }

  /** A key neither cached before nor met earlier is given its coefficient. */
  predicate FreshWeights(c0: map<(int, int), real>, keys: seq<(int, int)>, dice: seq<Option<real>>, ws: seq<(real, MatchingPair)>)
    requires |ws| <= |keys| && |ws| <= |dice|
  {
    forall j | 0 <= j < |ws| ::
      keys[j] !in c0 && (forall i | 0 <= i < j :: keys[i] != keys[j]) ==> Some(ws[j].0) == dice[j]
  }

  /** One weighing step: a cached key gives its cached value, any other its coefficient, which is then cached. */
  lemma WeighedStep(c0: map<(int, int), real>, c: map<(int, int), real>, c2: map<(int, int), real>,
                    pairs: seq<MatchingPair>, keys: seq<(int, int)>, dice: seq<Option<real>>, ws: seq<(real, MatchingPair)>, d: real)
    requires Weighed(c0, c, pairs, keys, dice, ws) && |ws| < |pairs| && |ws| < |keys| && |ws| < |dice|
    requires keys[|ws|] in c ==> d == c[keys[|ws|]] && c2 == c
    requires keys[|ws|] !in c ==> Some(d) == dice[|ws|] && c2 == c[keys[|ws|] := d]
    ensures Weighed(c0, c2, pairs, keys, dice, ws + [(d, pairs[|ws|])])
  {
    var ws2 := ws + [(d, pairs[|ws|])];
    CacheHoldsStep(c0, c, c2, keys, ws, ws2);
    FreshWeightsStep(c0, c, keys, dice, ws, ws2);
  }

  lemma CacheHoldsStep(c0: map<(int, int), real>, c: map<(int, int), real>, c2: map<(int, int), real>,
                       keys: seq<(int, int)>, ws: seq<(real, MatchingPair)>, ws2: seq<(real, MatchingPair)>)
    requires |ws| < |keys| && CacheHolds(c0, c, keys, ws)
    requires |ws2| == |ws| + 1 && ws2[..|ws|] == ws
    requires keys[|ws|] in c ==> ws2[|ws|].0 == c[keys[|ws|]] && c2 == c
    requires keys[|ws|] !in c ==> c2 == c[keys[|ws|] := ws2[|ws|].0]
    ensures CacheHolds(c0, c2, keys, ws2)
  {
    var k := |ws|;
    assert keys[..k + 1] == keys[..k] + [keys[k]];
    forall j | 0 <= j < k + 1 ensures keys[j] in c2 && c2[keys[j]] == ws2[j].0 {
      if j < k {
        assert ws2[j] == ws[j];
        if keys[j] == keys[k] {
          assert keys[k] in c;
        }
      }
    }
  }

  lemma FreshWeightsStep(c0: map<(int, int), real>, c: map<(int, int), real>,
                         keys: seq<(int, int)>, dice: seq<Option<real>>, ws: seq<(real, MatchingPair)>, ws2: seq<(real, MatchingPair)>)
    requires |ws| < |keys| && |ws| < |dice| && CacheHolds(c0, c, keys, ws) && FreshWeights(c0, keys, dice, ws)
    requires |ws2| == |ws| + 1 && ws2[..|ws|] == ws
    requires keys[|ws|] !in c ==> Some(ws2[|ws|].0) == dice[|ws|]
    ensures FreshWeights(c0, keys, dice, ws2)
  {
    var k := |ws|;
    forall j | 0 <= j < k + 1 && keys[j] !in c0 && (forall i | 0 <= i < j :: keys[i] != keys[j])
      ensures Some(ws2[j].0) == dice[j]
    {
      if j < k {
        assert ws2[j] == ws[j];
      }
    }
  }

  /** The nodes of `xs` that have no partner, in order. */
  function UnmatchedIn(m: Matching, xs: seq<NodeId>): (r: seq<NodeId>)
    ensures forall x :: x in r <==> x in xs && x !in m.st && x !in m.ts
  {
    if xs == [] then []
    else (if xs[0] !in m.st && xs[0] !in m.ts then [xs[0]] else []) + UnmatchedIn(m, xs[1..])
  }

  /** `any(partner(x) for x in xs)`. */
  predicate AnyMatched(m: Matching, xs: seq<NodeId>)
  {
    exists k | 0 <= k < |xs| :: xs[k] in m.st || xs[k] in m.ts
  }

  // ---------------------------------------------------------------------------------------
  // What recovery matching records, on matching values

  /**
   * `matching_set.update(self._descendant_matches(MatchingPair(s, t)))`: the matching after
   * the update, and whether neither of the two failed an assertion.
   */
  function SubtreeUpdate(nodes: seq<Node>, m: Matching, s: NodeId, t: NodeId): (Matching, bool)
    requires Ordered(nodes) && s < |nodes| && t < |nodes|
  {
    var dm := DescendantMatches(nodes, s, t);
    var added := AddAll(m, dm.0);
    (added.0, added.1 && dm.1)
  }

  /** The pairs of `_descendant_matches(x, y)` all yielded without a failed assertion and all recorded. */
  ghost predicate SubtreeMatched(nodes: seq<Node>, m: Matching, x: NodeId, y: NodeId)
  {
    && Ordered(nodes) && x < |nodes| && y < |nodes|
    && DescendantMatches(nodes, x, y).1
    && forall p | p in DescendantMatches(nodes, x, y).0 :: Paired(m, p.source, p.target)
  }

  /**
   * An update that succeeds matches the two subtrees node by node, the two nodes first, and
   * keeps what was recorded.
   */
  lemma SubtreeUpdateMatches(nodes: seq<Node>, m: Matching, s: NodeId, t: NodeId)
    requires Ordered(nodes) && s < |nodes| && t < |nodes| && Bijective(m)
    ensures Kept(m, SubtreeUpdate(nodes, m, s, t).0) && Bijective(SubtreeUpdate(nodes, m, s, t).0)
    ensures SubtreeUpdate(nodes, m, s, t).1 ==> SubtreeMatched(nodes, SubtreeUpdate(nodes, m, s, t).0, s, t)
    ensures SubtreeUpdate(nodes, m, s, t).1 ==> Paired(SubtreeUpdate(nodes, m, s, t).0, s, t)
  {
    var dm := DescendantMatches(nodes, s, t);
    AddAllFrom(m, dm.0);
    AddAllKeepsBijection(m, dm.0);
    var r := AddAll(m, dm.0).0;
    if SubtreeUpdate(nodes, m, s, t).1 {
      forall p | p in dm.0 ensures Paired(r, p.source, p.target) {
        var k :| 0 <= k < |dm.0| && dm.0[k] == p;
      }
      assert dm.0[0] in dm.0;
    }
  }

  /** A recorded subtree match survives while nothing recorded is dropped. */
  lemma SubtreeMatchedKept(nodes: seq<Node>, m0: Matching, m: Matching, x: NodeId, y: NodeId)
    requires Kept(m0, m) && SubtreeMatched(nodes, m0, x, y)
    ensures SubtreeMatched(nodes, m, x, y)
  {
    forall p | p in DescendantMatches(nodes, x, y).0 ensures Paired(m, p.source, p.target) {
      assert Paired(m0, p.source, p.target);
    }
  }

  /** The pairs `longest_common_subsequence` yields for two lists of node ids. */
  ghost function LcsPairs(sc: seq<NodeId>, tc: seq<NodeId>, eq: (NodeId, NodeId) -> bool): (r: seq<(NodeId, NodeId)>)
    ensures forall k | 0 <= k < |r| :: r[k].0 in sc && r[k].1 in tc
  {
    LcsIndicesHold(sc, tc, eq, 0, 0);
    Pick(sc, tc, LcsIndices(sc, tc, eq, 0, 0))
  }

  /** Every pair of node ids lies in the arena. */
  predicate PairsIn(nodes: seq<Node>, pairs: seq<(NodeId, NodeId)>)
  {
    forall k | 0 <= k < |pairs| :: pairs[k].0 < |nodes| && pairs[k].1 < |nodes|
  }

  /**
   * One pair of the loop of `_attempt_longest_common_subsequence_matching`: skipped when a
   * node of either subtree has a partner, otherwise `update` with the two subtrees.
   */
  function LcsStep(nodes: seq<Node>, m: Matching, a: NodeId, b: NodeId): (Matching, bool)
    requires Ordered(nodes) && a < |nodes| && b < |nodes|
  {
    if AnyMatched(m, PreOrder(nodes, a)) || AnyMatched(m, PreOrder(nodes, b)) then (m, true)
    else SubtreeUpdate(nodes, m, a, b)
  }

  /** The loop over the LCS pairs, in order, stopping at the first failed assertion. */
  function LcsFold(nodes: seq<Node>, m: Matching, pairs: seq<(NodeId, NodeId)>): (Matching, bool)
    requires Ordered(nodes) && PairsIn(nodes, pairs)
  {
    if pairs == [] then (m, true)
    else
      var r := LcsFold(nodes, m, pairs[..|pairs| - 1]);
      if !r.1 then r else LcsStep(nodes, r.0, pairs[|pairs| - 1].0, pairs[|pairs| - 1].1)
  }

  /**
   * `_attempt_longest_common_subsequence_matching(s, t, equals_fn)`: the LCS of the children
   * of `s` and `t` unmatched in `m`, under `isomorphic_to` or `isomorphic_to_without_values`,
   * walked by `LcsFold`.
   */
  ghost function LcsMatching(nodes: seq<Node>, m: Matching, s: NodeId, t: NodeId, withValues: bool): (Matching, bool)
    requires Ordered(nodes) && s < |nodes| && t < |nodes|
  {
    var sc, tc := UnmatchedIn(m, nodes[s].children), UnmatchedIn(m, nodes[t].children);
    var pairs := LcsPairs(sc, tc, ChildEquality(nodes, withValues));
    assert PairsIn(nodes, pairs) by {
      forall k | 0 <= k < |pairs| ensures pairs[k].0 < |nodes| && pairs[k].1 < |nodes| {
        ChildBelow(nodes, s, pairs[k].0);
        ChildBelow(nodes, t, pairs[k].1);
      }
    }
    LcsFold(nodes, m, pairs)
  }

  /** `LcsMatching` walks the LCS of the unmatched children. */
  lemma LcsMatchingIs(nodes: seq<Node>, m: Matching, s: NodeId, t: NodeId, withValues: bool)
    requires Ordered(nodes) && s < |nodes| && t < |nodes|
    ensures var pairs := LcsPairs(UnmatchedIn(m, nodes[s].children), UnmatchedIn(m, nodes[t].children), ChildEquality(nodes, withValues));
      PairsIn(nodes, pairs) && LcsMatching(nodes, m, s, t, withValues) == LcsFold(nodes, m, pairs)
  {
  }

  /** One more pair of the LCS loop: the fold over a prefix, then `LcsStep` unless it failed. */
  lemma LcsFoldPrefix(nodes: seq<Node>, m: Matching, pairs: seq<(NodeId, NodeId)>, i: nat)
    requires Ordered(nodes) && PairsIn(nodes, pairs) && i < |pairs|
    ensures PairsIn(nodes, pairs[..i]) && PairsIn(nodes, pairs[..i + 1])
    ensures var r := LcsFold(nodes, m, pairs[..i]);
      LcsFold(nodes, m, pairs[..i + 1]) == if !r.1 then r else LcsStep(nodes, r.0, pairs[i].0, pairs[i].1)
  {
    assert pairs[..i + 1][..i] == pairs[..i];
  }

  /** Once an assertion fails the LCS loop is over: the pairs after it change nothing. */
  lemma {:induction false} LcsFoldStops(nodes: seq<Node>, m: Matching, pairs: seq<(NodeId, NodeId)>, j: nat)
    requires Ordered(nodes) && PairsIn(nodes, pairs) && j <= |pairs|
    requires PairsIn(nodes, pairs[..j]) && !LcsFold(nodes, m, pairs[..j]).1
    ensures LcsFold(nodes, m, pairs) == LcsFold(nodes, m, pairs[..j])
    decreases |pairs| - j
  {
    if j < |pairs| {
      LcsFoldPrefix(nodes, m, pairs, j);
      LcsFoldStops(nodes, m, pairs, j + 1);
    } else {
      assert pairs[..j] == pairs;
    }
  }

  /** `lambda x: x.label` on node ids. */
  function KindIn(nodes: seq<Node>): NodeId -> string
  {
    (x: NodeId) => if x < |nodes| then nodes[x].kind else ""
  }

  /**
   * `_attempt_recovery_matching(MatchingPair(s, t))`: nothing when either subtree has at
   * least `maxSize` nodes; otherwise LCS matching with values, then without, then
   * histogram matching, stopping at the first failed assertion.
   */
  ghost function RecoveryOf(nodes: seq<Node>, maxSize: int, m: Matching, s: NodeId, t: NodeId): (Matching, bool)
    requires Ordered(nodes) && Measured(nodes) && s < |nodes| && t < |nodes|
    decreases |nodes| - s, 1, 0
  {
    if SizeOf(nodes, s) >= maxSize || SizeOf(nodes, t) >= maxSize then (m, true)
    else
      var r1 := LcsMatching(nodes, m, s, t, true);
      if !r1.1 then r1
      else
        var r2 := LcsMatching(nodes, r1.0, s, t, false);
        if !r2.1 then r2
        else HistogramOf(nodes, maxSize, r2.0, s, t, |GroupKeys(nodes[s].children, KindIn(nodes))|)
  }

  /**
   * `_attempt_histogram_matching(s, t)` over the first `n` labels of the children of `s`,
   * in the order first seen: when exactly one child of `s` and one child of `t` carry the
   * label and neither is matched, `add` of the two and recovery below them.
   */
  ghost function HistogramOf(nodes: seq<Node>, maxSize: int, m: Matching, s: NodeId, t: NodeId, n: nat): (Matching, bool)
    requires Ordered(nodes) && Measured(nodes) && s < |nodes| && t < |nodes|
    requires n <= |GroupKeys(nodes[s].children, KindIn(nodes))|
    decreases |nodes| - s, 0, n
  {
    if n == 0 then (m, true)
    else
      var r := HistogramOf(nodes, maxSize, m, s, t, n - 1);
      if !r.1 then r
      else HistogramStep(nodes, maxSize, r.0, s, t, GroupKeys(nodes[s].children, KindIn(nodes))[n - 1])
  }

  /**
   * One label `k` of `_attempt_histogram_matching(s, t)`: when exactly one child of `s`
   * and one child of `t` carry it and neither is matched, `add` of the two and recovery
   * below them; otherwise nothing.
   */
  ghost function HistogramStep(nodes: seq<Node>, maxSize: int, m: Matching, s: NodeId, t: NodeId, k: string): (Matching, bool)
    requires Ordered(nodes) && Measured(nodes) && s < |nodes| && t < |nodes|
    decreases |nodes| - s, 0, 0
  {
    var sg, tg := Filter(nodes[s].children, KindIn(nodes), k), Filter(nodes[t].children, KindIn(nodes), k);
    if |sg| == 1 && |tg| == 1 && !IsMatched(m, MatchingPair(sg[0], tg[0])) then
      FilterMembers(nodes[s].children, KindIn(nodes), k);
      FilterMembers(nodes[t].children, KindIn(nodes), k);
      assert sg[0] in sg && tg[0] in tg;
      ChildBelow(nodes, s, sg[0]);
      ChildBelow(nodes, t, tg[0]);
      RecoveryOf(nodes, maxSize, With(m, MatchingPair(sg[0], tg[0])), sg[0], tg[0])
    else (m, true)
  }

  /** `skeys`, `sgroups` and `tgroups` are the `group_by` of the children of `s` and `t` by label. */
  predicate LabelGroups(nodes: seq<Node>, s: NodeId, t: NodeId, skeys: seq<string>,
                        sgroups: map<string, seq<NodeId>>, tgroups: map<string, seq<NodeId>>)
    requires s < |nodes| && t < |nodes|
  {
    && skeys == GroupKeys(nodes[s].children, KindIn(nodes))
    && (forall k | k in skeys :: k in sgroups && sgroups[k] == Filter(nodes[s].children, KindIn(nodes), k))
    && tgroups.Keys == (set x | x in GroupKeys(nodes[t].children, KindIn(nodes)))
    && (forall x | x in tgroups :: tgroups[x] == Filter(nodes[t].children, KindIn(nodes), x))
  }

  /** One more label: the recovery of that label, unless an earlier one failed. */
  lemma HistogramNext(nodes: seq<Node>, maxSize: int, m: Matching, s: NodeId, t: NodeId, n: nat)
    requires Ordered(nodes) && Measured(nodes) && s < |nodes| && t < |nodes|
    requires n < |GroupKeys(nodes[s].children, KindIn(nodes))|
    ensures var r := HistogramOf(nodes, maxSize, m, s, t, n);
            r.1 ==> HistogramOf(nodes, maxSize, m, s, t, n + 1)
                    == HistogramStep(nodes, maxSize, r.0, s, t, GroupKeys(nodes[s].children, KindIn(nodes))[n])
  {
  }

  /** The two children `HistogramStep` pairs carry its label and lie directly below `s` and `t`. */
  lemma HistogramStepIs(nodes: seq<Node>, maxSize: int, m: Matching, s: NodeId, t: NodeId, k: string, sg: seq<NodeId>, tg: seq<NodeId>)
    requires Ordered(nodes) && Measured(nodes) && s < |nodes| && t < |nodes|
    requires sg == Filter(nodes[s].children, KindIn(nodes), k) && tg == Filter(nodes[t].children, KindIn(nodes), k)
    ensures |sg| == 1 && |tg| == 1 ==>
              && sg[0] in nodes[s].children && tg[0] in nodes[t].children
              && sg[0] < |nodes| && tg[0] < |nodes| && nodes[sg[0]].kind == k == nodes[tg[0]].kind
    ensures HistogramStep(nodes, maxSize, m, s, t, k)
            == if |sg| == 1 && |tg| == 1 && !IsMatched(m, MatchingPair(sg[0], tg[0]))
               then RecoveryOf(nodes, maxSize, With(m, MatchingPair(sg[0], tg[0])), sg[0], tg[0])
               else (m, true)
  {
    if |sg| == 1 && |tg| == 1 {
      FilterMembers(nodes[s].children, KindIn(nodes), k);
      FilterMembers(nodes[t].children, KindIn(nodes), k);
      assert sg[0] in sg && tg[0] in tg;
      ChildBelow(nodes, s, sg[0]);
      ChildBelow(nodes, t, tg[0]);
      assert KindIn(nodes)(sg[0]) == k == KindIn(nodes)(tg[0]);
    }
  }

  /**
   * The matching after label `i` of the histogram pass: the pass up to `i + 1` when that
   * label succeeded, the whole pass when it failed.
   */
  lemma HistogramAfter(nodes: seq<Node>, maxSize: int, start: Matching, s: NodeId, t: NodeId, i: nat, m: Matching, r: (Matching, bool))
    requires Ordered(nodes) && Measured(nodes) && s < |nodes| && t < |nodes|
    requires i < |GroupKeys(nodes[s].children, KindIn(nodes))|
    requires HistogramOf(nodes, maxSize, start, s, t, i) == (m, true)
    requires r == HistogramStep(nodes, maxSize, m, s, t, GroupKeys(nodes[s].children, KindIn(nodes))[i])
    ensures r.1 ==> HistogramOf(nodes, maxSize, start, s, t, i + 1) == r
    ensures !r.1 ==> HistogramOf(nodes, maxSize, start, s, t, |GroupKeys(nodes[s].children, KindIn(nodes))|) == r
  {
    HistogramNext(nodes, maxSize, start, s, t, i);
    if !r.1 {
      HistogramStops(nodes, maxSize, start, s, t, i + 1, |GroupKeys(nodes[s].children, KindIn(nodes))|);
    }
  }

  /** Once a label's recovery fails, the later labels change nothing. */
  lemma {:induction false} HistogramStops(nodes: seq<Node>, maxSize: int, m: Matching, s: NodeId, t: NodeId, j: nat, n: nat)
    requires Ordered(nodes) && Measured(nodes) && s < |nodes| && t < |nodes|
    requires j <= n <= |GroupKeys(nodes[s].children, KindIn(nodes))|
    requires !HistogramOf(nodes, maxSize, m, s, t, j).1
    ensures HistogramOf(nodes, maxSize, m, s, t, n) == HistogramOf(nodes, maxSize, m, s, t, j)
  {
    if j < n {
      HistogramStops(nodes, maxSize, m, s, t, j, n - 1);
    }
  }

  // ---------------------------------------------------------------------------------------
  // Queues and stores of the top-down phase

  /** The ids in a queue are nodes of the given tree. */
  predicate Queued(nodes: seq<Node>, tree: seq<NodeId>, entries: seq<(nat, NodeId)>)
  {
    forall k | 0 <= k < |entries| :: entries[k].1 in tree && entries[k].1 < |nodes|
  }

  lemma QueuedAllIn(nodes: seq<Node>, tree: seq<NodeId>, entries: seq<(nat, NodeId)>)
    requires Queued(nodes, tree, entries)
    ensures AllIn(nodes, Ids(entries))
    ensures forall x | x in Ids(entries) :: x in tree
  {
  }

  /** The entries `open` pushes for each of the given nodes in turn. */
  function OpenedEntries(nodes: seq<Node>, ids: seq<NodeId>): seq<(nat, NodeId)>
    requires Ordered(nodes) && Measured(nodes) && AllIn(nodes, ids)
  {
    if ids == [] then []
    else OpenedEntries(nodes, ids[..|ids| - 1]) + ChildEntries(nodes, ids[|ids| - 1])
  }

  /** Opening two lists of nodes one after the other pushes the entries of each in turn. */
  lemma {:induction false} OpenedEntriesAppend(nodes: seq<Node>, a: seq<NodeId>, b: seq<NodeId>)
    requires Ordered(nodes) && Measured(nodes) && AllIn(nodes, a) && AllIn(nodes, b)
    ensures AllIn(nodes, a + b)
    ensures OpenedEntries(nodes, a + b) == OpenedEntries(nodes, a) + OpenedEntries(nodes, b)
    decreases |b|
  {
    assert AllIn(nodes, a + b) by {
      forall k | 0 <= k < |a + b| ensures (a + b)[k] < |nodes| {
        if k >= |a| { assert (a + b)[k] == b[k - |a|]; }
      }
    }
    if b == [] {
      assert a + b == a;
    } else {
      var n := |b|;
      assert (a + b)[..|a + b| - 1] == a + b[..n - 1];
      assert (a + b)[|a + b| - 1] == b[n - 1];
      OpenedEntriesAppend(nodes, a, b[..n - 1]);
    }
  }

  /** Opening one node more pushes its children's entries after the others. */
  lemma OpenedEntriesStep(nodes: seq<Node>, ids: seq<NodeId>, k: nat,
                          start: seq<(nat, NodeId)>, before: seq<(nat, NodeId)>, after: seq<(nat, NodeId)>)
    requires Ordered(nodes) && Measured(nodes) && AllIn(nodes, ids) && k < |ids|
    requires AllIn(nodes, ids[..k]) && before == start + OpenedEntries(nodes, ids[..k])
    requires ChildrenMeasured(nodes, ids[k]) && after == before + ChildEntries(nodes, ids[k])
    ensures AllIn(nodes, ids[..k + 1]) && after == start + OpenedEntries(nodes, ids[..k + 1])
  {
    assert ids[..k + 1][..k] == ids[..k];
    assert OpenedEntries(nodes, ids[..k + 1]) == OpenedEntries(nodes, ids[..k]) + ChildEntries(nodes, ids[k]);
  }

  /** Opening the nodes of `b` after those of `a` queues what opening `a + b` queues. */
  lemma OpenedEntriesJoin(nodes: seq<Node>, a: seq<NodeId>, b: seq<NodeId>,
                          start: seq<(nat, NodeId)>, before: seq<(nat, NodeId)>, after: seq<(nat, NodeId)>)
    requires Ordered(nodes) && Measured(nodes) && AllIn(nodes, a) && AllIn(nodes, b)
    requires before == start + OpenedEntries(nodes, a) && after == before + OpenedEntries(nodes, b)
    ensures AllIn(nodes, a + b) && after == start + OpenedEntries(nodes, a + b)
  {
    OpenedEntriesAppend(nodes, a, b);
    AppendAssoc(start, OpenedEntries(nodes, a), OpenedEntries(nodes, b));
  }

  /**
   * `open` for each of the given nodes in turn: each is replaced by its children, so the
   * weight grows by the weight of the nodes minus their number.
   */
  method OpenIds(nodes: seq<Node>, tree: seq<NodeId>, q: HeightQueue, ids: seq<NodeId>)
    requires IsTree(nodes, tree) && Measured(nodes) && Queued(nodes, tree, q.entries)
    requires forall x | x in ids :: x in tree
    modifies q
    ensures Queued(nodes, tree, q.entries)
    ensures AllIn(nodes, ids) && AllIn(nodes, Ids(q.entries)) && AllIn(nodes, Ids(old(q.entries)))
    ensures Weight(nodes, Ids(q.entries)) + |ids| == Weight(nodes, Ids(old(q.entries))) + Weight(nodes, ids)
    ensures q.entries == old(q.entries) + OpenedEntries(nodes, ids)
  {
    ghost var start := q.entries;
    QueuedAllIn(nodes, tree, start);
    forall j | 0 <= j < |ids| ensures ids[j] < |nodes| {
      assert ids[j] in ids;
      InTree(nodes, tree, ids[j]);
    }
    for k := 0 to |ids|
      invariant Queued(nodes, tree, q.entries)
      invariant AllIn(nodes, ids) && AllIn(nodes, ids[..k]) && AllIn(nodes, Ids(q.entries))
      invariant Weight(nodes, Ids(q.entries)) + k == Weight(nodes, Ids(start)) + Weight(nodes, ids[..k])
      invariant q.entries == start + OpenedEntries(nodes, ids[..k])
    {
      var x := ids[k];
      assert x in ids;
      InTree(nodes, tree, x);
      ChildEntriesWeight(nodes, x);
      ghost var before := q.entries;
      q.Open(nodes, x);
      OpenStep(nodes, tree, ids, k, start, before, q.entries);
      OpenedEntriesStep(nodes, ids, k, start, before, q.entries);
    }
    assert ids[..|ids|] == ids;
  }

  /** One step of `OpenIds`: the children of `ids[k]` join the queue, and the weight moves with them. */
  lemma OpenStep(nodes: seq<Node>, tree: seq<NodeId>, ids: seq<NodeId>, k: nat, start: seq<(nat, NodeId)>,
                 before: seq<(nat, NodeId)>, after: seq<(nat, NodeId)>)
    requires IsTree(nodes, tree) && Measured(nodes) && k < |ids| && ids[k] in tree
    requires Queued(nodes, tree, before) && AllIn(nodes, Ids(start))
    requires AllIn(nodes, ids[..k]) && AllIn(nodes, Ids(before))
    requires Weight(nodes, Ids(before)) + k == Weight(nodes, Ids(start)) + Weight(nodes, ids[..k])
    requires ChildrenMeasured(nodes, ids[k]) && after == before + ChildEntries(nodes, ids[k])
    ensures Queued(nodes, tree, after)
    ensures AllIn(nodes, ids[..k + 1]) && AllIn(nodes, Ids(after))
    ensures Weight(nodes, Ids(after)) + (k + 1) == Weight(nodes, Ids(start)) + Weight(nodes, ids[..k + 1])
  {
    var x := ids[k];
    InTree(nodes, tree, x);
    OpenQueued(nodes, tree, x, before, after);
    OpenWeight(nodes, x, before, after);
    assert ids[..k + 1] == ids[..k] + [x];
    WeightOne(nodes, x);
    WeightAppend(nodes, ids[..k], [x]);
  }

  /** The children of a node of the tree are in the tree. */
  lemma OpenQueued(nodes: seq<Node>, tree: seq<NodeId>, x: NodeId, before: seq<(nat, NodeId)>, after: seq<(nat, NodeId)>)
    requires IsTree(nodes, tree) && x in tree && Measured(nodes) && Queued(nodes, tree, before)
    requires ChildrenMeasured(nodes, x) && after == before + ChildEntries(nodes, x)
    ensures Queued(nodes, tree, after)
  {
    InTree(nodes, tree, x);
    forall j | 0 <= j < |after| ensures after[j].1 in tree && after[j].1 < |nodes| {
      if j >= |before| {
        assert after[j].1 == nodes[x].children[j - |before|];
      }
    }
  }

  /** Opening `x` trades its own weight, less one, for the weight of its children. */
  lemma OpenWeight(nodes: seq<Node>, x: NodeId, before: seq<(nat, NodeId)>, after: seq<(nat, NodeId)>)
    requires Ordered(nodes) && Measured(nodes) && x < |nodes| && AllIn(nodes, Ids(before))
    requires ChildrenMeasured(nodes, x) && after == before + ChildEntries(nodes, x)
    ensures AllIn(nodes, Ids(after))
    ensures Weight(nodes, Ids(after)) + 1 == Weight(nodes, Ids(before)) + |PreOrder(nodes, x)|
  {
    ChildEntriesWeight(nodes, x);
    assert Ids(after) == Ids(before) + Ids(ChildEntries(nodes, x));
    WeightAppend(nodes, Ids(before), Ids(ChildEntries(nodes, x)));
  }

  lemma {:induction false} OthersMembers(entries: seq<(nat, NodeId)>, h: nat)
    ensures forall e | e in Others(entries, h) :: e in entries
  {
    if entries != [] {
      OthersMembers(entries[1..], h);
      assert forall e | e in entries[1..] :: e in entries;
    }
  }

  /** Popping a layer from a queue of tree nodes leaves tree nodes on both sides of the split. */
  lemma PopFacts(nodes: seq<Node>, tree: seq<NodeId>, entries: seq<(nat, NodeId)>)
    requires Queued(nodes, tree, entries) && MaxHeight(entries) > 0
    ensures Layer(entries, MaxHeight(entries)) != []
    ensures forall x | x in Layer(entries, MaxHeight(entries)) :: x in tree && x < |nodes|
    ensures Queued(nodes, tree, Others(entries, MaxHeight(entries)))
  {
    var h := MaxHeight(entries);
    PopLeavesShorter(entries, h);
    OthersMembers(entries, h);
    var k :| 0 <= k < |entries| && entries[k].0 == h;
    assert entries[k] in entries;
    forall x | x in Layer(entries, h) ensures x in tree && x < |nodes| {
      var i :| 0 <= i < |entries| && entries[i] == (h, x);
    }
    var rest := Others(entries, h);
    forall j | 0 <= j < |rest| ensures rest[j].1 in tree && rest[j].1 < |nodes| {
      assert rest[j] in rest;
      var i :| 0 <= i < |entries| && entries[i] == rest[j];
    }
  }

  /** The popped layer, in whatever order, holds the tree nodes of the tallest layer and weighs what it does. */
  lemma PoppedLayer(nodes: seq<Node>, tree: seq<NodeId>, entries: seq<(nat, NodeId)>, layer: seq<NodeId>)
    requires Ordered(nodes) && Queued(nodes, tree, entries) && MaxHeight(entries) > 0
    requires multiset(layer) == multiset(Layer(entries, MaxHeight(entries)))
    ensures layer != [] && (forall x | x in layer :: x in tree) && AllIn(nodes, layer)
    ensures AllIn(nodes, Layer(entries, MaxHeight(entries)))
    ensures Weight(nodes, layer) == Weight(nodes, Layer(entries, MaxHeight(entries)))
  {
    var full := Layer(entries, MaxHeight(entries));
    PopFacts(nodes, tree, entries);
    LayerInTree(nodes, tree, full, layer);
    WeightPermutation(nodes, layer, full);
  }

  /** A reordering of a list of tree nodes is a list of the same tree nodes. */
  lemma LayerInTree(nodes: seq<Node>, tree: seq<NodeId>, full: seq<NodeId>, layer: seq<NodeId>)
    requires full != [] && multiset(layer) == multiset(full)
    requires forall x | x in full :: x in tree && x < |nodes|
    ensures layer != [] && (forall x | x in layer :: x in tree) && AllIn(nodes, layer) && AllIn(nodes, full)
  {
    assert full[0] in multiset(layer);
    forall x | x in layer ensures x in tree && x < |nodes| {
      assert x in multiset(full);
    }
    forall k | 0 <= k < |layer| ensures layer[k] < |nodes| {
      assert layer[k] in layer;
    }
    forall k | 0 <= k < |full| ensures full[k] < |nodes| {
      assert full[k] in full;
    }
  }

  /** The weight of a list of nodes does not depend on their order. */
  lemma {:induction false} WeightPermutation(nodes: seq<Node>, a: seq<NodeId>, b: seq<NodeId>)
    requires Ordered(nodes) && AllIn(nodes, a) && AllIn(nodes, b) && multiset(a) == multiset(b)
    ensures Weight(nodes, a) == Weight(nodes, b)
    decreases |a|
  {
    if a == [] {
      assert |b| == |multiset(b)| == 0;
    } else {
      assert a[0] in multiset(b);
      var i :| 0 <= i < |b| && b[i] == a[0];
      MultisetRemove(a, b, i);
      WeightRemove(nodes, b, i);
      WeightAppend(nodes, [a[0]], a[1..]);
      assert a == [a[0]] + a[1..];
      WeightPermutation(nodes, a[1..], b[..i] + b[i + 1..]);
    }
  }

  /** Taking one node out of a list takes its own weight away. */
  lemma WeightRemove(nodes: seq<Node>, b: seq<NodeId>, i: nat)
    requires Ordered(nodes) && AllIn(nodes, b) && i < |b|
    ensures AllIn(nodes, [b[i]]) && AllIn(nodes, b[..i] + b[i + 1..])
    ensures Weight(nodes, b) == Weight(nodes, [b[i]]) + Weight(nodes, b[..i] + b[i + 1..])
  {
    assert b == b[..i] + [b[i]] + b[i + 1..];
    WeightAppend(nodes, b[..i], [b[i]]);
    WeightAppend(nodes, b[..i] + [b[i]], b[i + 1..]);
    WeightAppend(nodes, b[..i], b[i + 1..]);
  }

  /**
   * A queue that lost its tallest entries, popped as `layer`, and gained the children of
   * `ids`, in that order.
   */
  ghost predicate Opened(nodes: seq<Node>, before: seq<(nat, NodeId)>, after: seq<(nat, NodeId)>,
                         layer: seq<NodeId>, ids: seq<NodeId>)
  {
    && Ordered(nodes) && Measured(nodes) && AllIn(nodes, ids)
    && multiset(layer) == multiset(Layer(before, MaxHeight(before)))
    && after == Others(before, MaxHeight(before)) + OpenedEntries(nodes, ids)
  }

  /**
   * The unequal-height branches of `match_anchors`: pop the tallest layer and open each of
   * its nodes. The queue loses weight, which is what makes the loop terminate.
   */
  method PopAndOpen(nodes: seq<Node>, tree: seq<NodeId>, q: HeightQueue) returns (ghost layer: seq<NodeId>)
    requires IsTree(nodes, tree) && Measured(nodes) && Queued(nodes, tree, q.entries)
    requires q.PeekMax() > 0
    modifies q
    ensures Queued(nodes, tree, q.entries)
    ensures AllIn(nodes, Ids(q.entries)) && AllIn(nodes, Ids(old(q.entries)))
    ensures Weight(nodes, Ids(q.entries)) < Weight(nodes, Ids(old(q.entries)))
    ensures Opened(nodes, old(q.entries), q.entries, layer, layer)
  {
    ghost var start := q.entries;
    QueuedAllIn(nodes, tree, start);
    PopFacts(nodes, tree, start);
    WeightOfLayerSplit(nodes, start, MaxHeight(start));
    var popped, _ := q.Pop(nodes);
    layer := popped;
    PoppedLayer(nodes, tree, start, popped);
    OpenIds(nodes, tree, q, popped);
    WeightAtLeastLength(nodes, popped);
  }

  /** Every id stored in a mapping comes from the given source or target layer. */
  predicate StoredFrom(mappings: map<int, Mapping>, ls: seq<NodeId>, lt: seq<NodeId>)
  {
    forall h | h in mappings ::
      && (forall x | x in mappings[h].sourceIds :: x in ls)
      && (forall y | y in mappings[h].targetIds :: y in lt)
  }

  /** The ids of a stored mapping come from the layers. */
  lemma StoredMember(store: MappingStore, ls: seq<NodeId>, lt: seq<NodeId>, m: Mapping)
    requires store.Valid() && StoredFrom(store.mappings, ls, lt) && m in store.Values()
    ensures forall x | x in m.sourceIds :: x in ls
    ensures forall y | y in m.targetIds :: y in lt
  {
    var k :| 0 <= k < |store.hashes| && store.Values()[k] == m;
    var h := store.hashes[k];
    assert h in store.mappings && store.mappings[h] == m;
  }

  /** The node is stored on the source side under its own hashcode. */
  predicate HoldsSource(mappings: map<int, Mapping>, nodes: seq<Node>, x: NodeId)
    requires x < |nodes| && nodes[x].metadata.Some?
  {
    var h := nodes[x].metadata.value.hashcode;
    h in mappings && x in mappings[h].sourceIds
  }

  /** The node is stored on the target side under its own hashcode. */
  predicate HoldsTarget(mappings: map<int, Mapping>, nodes: seq<Node>, y: NodeId)
    requires y < |nodes| && nodes[y].metadata.Some?
  {
    var h := nodes[y].metadata.value.hashcode;
    h in mappings && y in mappings[h].targetIds
  }

  /** Storing `ls[k]` on the source side keeps every earlier id where it was. */
  lemma AddSourceStep(nodes: seq<Node>, before: map<int, Mapping>, after: map<int, Mapping>, ls: seq<NodeId>, k: nat)
    requires AllIn(nodes, ls) && Measured(nodes) && k < |ls| && StoredFrom(before, ls, [])
    requires forall j | 0 <= j < k :: HoldsSource(before, nodes, ls[j])
    requires var h := nodes[ls[k]].metadata.value.hashcode;
      after == before[h := AddSourceId(if h in before then before[h] else EmptyMapping, ls[k])]
    ensures StoredFrom(after, ls, [])
    ensures forall j | 0 <= j < k + 1 :: HoldsSource(after, nodes, ls[j])
  {
    assert ls[k] in ls;
  }

  /** Storing `lt[k]` on the target side keeps every earlier id where it was. */
  lemma AddTargetStep(nodes: seq<Node>, before: map<int, Mapping>, after: map<int, Mapping>,
                      ls: seq<NodeId>, lt: seq<NodeId>, k: nat)
    requires AllIn(nodes, ls) && AllIn(nodes, lt) && Measured(nodes) && k < |lt| && StoredFrom(before, ls, lt)
    requires forall x | x in ls :: HoldsSource(before, nodes, x)
    requires forall j | 0 <= j < k :: HoldsTarget(before, nodes, lt[j])
    requires var h := nodes[lt[k]].metadata.value.hashcode;
      after == before[h := AddTargetId(if h in before then before[h] else EmptyMapping, lt[k])]
    ensures StoredFrom(after, ls, lt)
    ensures forall x | x in ls :: HoldsSource(after, nodes, x)
    ensures forall j | 0 <= j < k + 1 :: HoldsTarget(after, nodes, lt[j])
  {
    assert lt[k] in lt;
  }

  /** The `add_source` loop of the equal-height branch. */
  method AddSources(nodes: seq<Node>, store: MappingStore, ls: seq<NodeId>)
    requires Measured(nodes) && AllIn(nodes, ls)
    requires store.Valid() && store.Grouped(nodes) && store.mappings == map[]
    modifies store
    ensures store.Valid() && store.Grouped(nodes) && StoredFrom(store.mappings, ls, [])
    ensures forall x | x in ls :: HoldsSource(store.mappings, nodes, x)
  {
    for k := 0 to |ls|
      invariant store.Valid() && store.Grouped(nodes) && StoredFrom(store.mappings, ls, [])
      invariant forall j | 0 <= j < k :: HoldsSource(store.mappings, nodes, ls[j])
    {
      ghost var before := store.mappings;
      store.AddSource(nodes, ls[k]);
      AddSourceStep(nodes, before, store.mappings, ls, k);
    }
  }

  /** The `add_target` loop of the equal-height branch. */
  method AddTargets(nodes: seq<Node>, store: MappingStore, ls: seq<NodeId>, lt: seq<NodeId>)
    requires Measured(nodes) && AllIn(nodes, ls) && AllIn(nodes, lt)
    requires store.Valid() && store.Grouped(nodes) && StoredFrom(store.mappings, ls, [])
    requires forall x | x in ls :: HoldsSource(store.mappings, nodes, x)
    modifies store
    ensures store.Valid() && store.Grouped(nodes) && StoredFrom(store.mappings, ls, lt)
    ensures forall x | x in ls :: HoldsSource(store.mappings, nodes, x)
    ensures forall y | y in lt :: HoldsTarget(store.mappings, nodes, y)
  {
    for k := 0 to |lt|
      invariant store.Valid() && store.Grouped(nodes) && StoredFrom(store.mappings, ls, lt)
      invariant forall x | x in ls :: HoldsSource(store.mappings, nodes, x)
      invariant forall j | 0 <= j < k :: HoldsTarget(store.mappings, nodes, lt[j])
    {
      ghost var before := store.mappings;
      store.AddTarget(nodes, lt[k]);
      AddTargetStep(nodes, before, store.mappings, ls, lt, k);
    }
  }

  /** The grouping step of the equal-height branch: every popped node stored under its hashcode. */
  method BuildStore(nodes: seq<Node>, ls: seq<NodeId>, lt: seq<NodeId>) returns (store: MappingStore)
    requires Measured(nodes) && AllIn(nodes, ls) && AllIn(nodes, lt)
    ensures fresh(store) && store.Valid() && store.Grouped(nodes) && StoredFrom(store.mappings, ls, lt)
    ensures forall x | x in ls :: HoldsSource(store.mappings, nodes, x)
    ensures forall y | y in lt :: HoldsTarget(store.mappings, nodes, y)
  {
    store := new MappingStore();
    AddSources(nodes, store, ls);
    AddTargets(nodes, store, ls, lt);
  }

  /** The opened nodes so far: popped nodes, without repeats, whose hashcodes are among `hs`. */
  predicate OpenedFrom(nodes: seq<Node>, seen: seq<NodeId>, layer: seq<NodeId>, hs: seq<int>)
  {
    && NoDup(seen)
    && forall x | x in seen ::
         && x in layer && x < |nodes| && nodes[x].metadata.Some?
         && nodes[x].metadata.value.hashcode in hs
  }

  /** Opening the nodes of one more mapping, stored under a hashcode not seen before, repeats none. */
  lemma OpenedStep(nodes: seq<Node>, seen: seq<NodeId>, ids: seq<NodeId>, layer: seq<NodeId>, hs: seq<int>, h: int)
    requires OpenedFrom(nodes, seen, layer, hs) && h !in hs && NoDup(ids)
    requires forall x | x in ids :: x in layer && x < |nodes| && nodes[x].metadata.Some? && nodes[x].metadata.value.hashcode == h
    ensures OpenedFrom(nodes, seen + ids, layer, hs + [h])
  {
    NoDupAppend(seen, ids);
  }

  /** The nodes of `layer` stored under one of the hashcodes `hs` in a mapping with an empty side. */
  ghost function OpenedUpTo(nodes: seq<Node>, mappings: map<int, Mapping>, layer: seq<NodeId>, hs: seq<int>): set<NodeId>
  {
    set x | x in layer && x < |nodes| && nodes[x].metadata.Some? && Hash(nodes, x) in hs
      && Hash(nodes, x) in mappings && IsUnmatched(mappings[Hash(nodes, x)])
  }

  /** Visiting the unmatched mapping under `h` adds its group to the opened nodes. */
  lemma OpenedUpToStep(nodes: seq<Node>, mappings: map<int, Mapping>, layer: seq<NodeId>, hs: seq<int>, h: int,
                       prior: seq<NodeId>, ids: seq<NodeId>)
    requires h in mappings && IsUnmatched(mappings[h])
    requires (set x | x in prior) == OpenedUpTo(nodes, mappings, layer, hs)
    requires (set x | x in ids) == Group(nodes, layer, h)
    ensures (set x | x in prior + ids) == OpenedUpTo(nodes, mappings, layer, hs + [h])
  {
    var before, after := OpenedUpTo(nodes, mappings, layer, hs), OpenedUpTo(nodes, mappings, layer, hs + [h]);
    forall x | x in after && x !in before ensures x in ids {
      assert Hash(nodes, x) == h;
      assert x in Group(nodes, layer, h);
    }
    forall x | x in ids ensures x in after {
      assert x in Group(nodes, layer, h);
    }
    forall x | x in prior ensures x in after {
      assert x in before;
    }
  }

  /** The opened nodes stay distinct popped nodes once the group under `h` joins them. */
  lemma OpenedGroup(nodes: seq<Node>, mappings: map<int, Mapping>, layer: seq<NodeId>, hs: seq<int>, h: int,
                    prior: seq<NodeId>, ids: seq<NodeId>)
    requires h !in hs && h in mappings && IsUnmatched(mappings[h])
    requires OpenedFrom(nodes, prior, layer, hs)
    requires (set x | x in prior) == OpenedUpTo(nodes, mappings, layer, hs)
    requires NoDup(ids) && (set x | x in ids) == Group(nodes, layer, h)
    ensures OpenedFrom(nodes, prior + ids, layer, hs + [h])
    ensures (set x | x in prior + ids) == OpenedUpTo(nodes, mappings, layer, hs + [h])
  {
    assert forall x | x in ids :: x in Group(nodes, layer, h);
    OpenedStep(nodes, prior, ids, layer, hs, h);
    OpenedUpToStep(nodes, mappings, layer, hs, h, prior, ids);
  }

  /** Opening one side of the unmatched mapping stored under `h`: its nodes join the prior ones. */
  lemma OpenSide(nodes: seq<Node>, mappings: map<int, Mapping>, layer: seq<NodeId>, hs: seq<int>, h: int,
                 prior: seq<NodeId>, ids: seq<NodeId>, start: seq<(nat, NodeId)>, before: seq<(nat, NodeId)>,
                 after: seq<(nat, NodeId)>)
    requires Ordered(nodes) && Measured(nodes) && h !in hs && h in mappings && IsUnmatched(mappings[h])
    requires OpenedFrom(nodes, prior, layer, hs) && AllIn(nodes, prior)
    requires (set x | x in prior) == OpenedUpTo(nodes, mappings, layer, hs)
    requires NoDup(ids) && (set x | x in ids) == Group(nodes, layer, h) && AllIn(nodes, ids)
    requires before == start + OpenedEntries(nodes, prior) && after == before + OpenedEntries(nodes, ids)
    ensures OpenedFrom(nodes, prior + ids, layer, hs + [h]) && AllIn(nodes, prior + ids)
    ensures (set x | x in prior + ids) == OpenedUpTo(nodes, mappings, layer, hs + [h])
    ensures after == start + OpenedEntries(nodes, prior + ids)
    ensures Weight(nodes, prior + ids) == Weight(nodes, prior) + Weight(nodes, ids)
  {
    OpenedGroup(nodes, mappings, layer, hs, h, prior, ids);
    OpenedEntriesJoin(nodes, prior, ids, start, before, after);
    WeightAppend(nodes, prior, ids);
  }

  /** A mapping under `h` with both sides filled opens nothing. */
  lemma SkipSide(nodes: seq<Node>, mappings: map<int, Mapping>, layer: seq<NodeId>, hs: seq<int>, h: int, prior: seq<NodeId>)
    requires h !in hs && h in mappings && !IsUnmatched(mappings[h])
    requires OpenedFrom(nodes, prior, layer, hs)
    requires (set x | x in prior) == OpenedUpTo(nodes, mappings, layer, hs)
    ensures OpenedFrom(nodes, prior, layer, hs + [h])
    ensures (set x | x in prior) == OpenedUpTo(nodes, mappings, layer, hs + [h])
  {
  }

  /** Once every hashcode is visited, the opened nodes of each layer are those the other layer has no hashcode for. */
  lemma OpenedAll(nodes: seq<Node>, store: MappingStore, ls: seq<NodeId>, lt: seq<NodeId>)
    requires BuiltFrom(nodes, store, ls, lt)
    ensures OpenedUpTo(nodes, store.mappings, ls, store.hashes) == OneSided(nodes, ls, lt)
    ensures OpenedUpTo(nodes, store.mappings, lt, store.hashes) == OneSided(nodes, lt, ls)
  {
    forall x | x in ls
      ensures x in OpenedUpTo(nodes, store.mappings, ls, store.hashes) <==> x in OneSided(nodes, ls, lt)
    {
      var h := Hash(nodes, x);
      assert HoldsSource(store.mappings, nodes, x);
      assert x in Group(nodes, ls, h);
      StoredGroup(nodes, store, ls, lt, h);
      assert store.mappings[h].targetIds == [] <==> Group(nodes, lt, h) == {} by {
        if store.mappings[h].targetIds != [] {
          assert store.mappings[h].targetIds[0] in Group(nodes, lt, h);
        }
      }
    }
    forall y | y in lt
      ensures y in OpenedUpTo(nodes, store.mappings, lt, store.hashes) <==> y in OneSided(nodes, lt, ls)
    {
      var h := Hash(nodes, y);
      assert HoldsTarget(store.mappings, nodes, y);
      assert y in Group(nodes, lt, h);
      StoredGroup(nodes, store, ls, lt, h);
      assert store.mappings[h].sourceIds == [] <==> Group(nodes, ls, h) == {} by {
        if store.mappings[h].sourceIds != [] {
          assert store.mappings[h].sourceIds[0] in Group(nodes, ls, h);
        }
      }
    }
  }

  /**
   * The `unmatched_mappings` loop of the equal-height branch: every node of a mapping with
   * an empty side is opened, mapping by mapping in the order the hashcodes were first
   * stored. The opened nodes are exactly the popped nodes whose hashcode the other layer
   * does not carry, each once, so each queue weighs less than before the layer was popped.
   */
  method OpenUnmatched(nodes: seq<Node>, sources: seq<NodeId>, targets: seq<NodeId>, store: MappingStore,
                       sq: HeightQueue, tq: HeightQueue, ls: seq<NodeId>, lt: seq<NodeId>)
    returns (ghost openedS: seq<NodeId>, ghost openedT: seq<NodeId>)
    requires IsTree(nodes, sources) && IsTree(nodes, targets) && Measured(nodes)
    requires Queued(nodes, sources, sq.entries) && Queued(nodes, targets, tq.entries) && sq != tq
    requires BuiltFrom(nodes, store, ls, lt)
    requires forall x | x in ls :: x in sources
    requires forall y | y in lt :: y in targets
    modifies sq, tq
    ensures Queued(nodes, sources, sq.entries) && Queued(nodes, targets, tq.entries)
    ensures AllIn(nodes, Ids(sq.entries)) && AllIn(nodes, Ids(old(sq.entries)))
    ensures AllIn(nodes, Ids(tq.entries)) && AllIn(nodes, Ids(old(tq.entries)))
    ensures ls != [] ==> Weight(nodes, Ids(sq.entries)) <= Weight(nodes, Ids(old(sq.entries))) + Weight(nodes, ls) - 1
    ensures lt != [] ==> Weight(nodes, Ids(tq.entries)) <= Weight(nodes, Ids(old(tq.entries))) + Weight(nodes, lt) - 1
    ensures AllIn(nodes, openedS) && AllIn(nodes, openedT)
    ensures sq.entries == old(sq.entries) + OpenedEntries(nodes, openedS)
    ensures tq.entries == old(tq.entries) + OpenedEntries(nodes, openedT)
    ensures NoDup(openedS) && (set x | x in openedS) == OneSided(nodes, ls, lt)
    ensures NoDup(openedT) && (set y | y in openedT) == OneSided(nodes, lt, ls)
  {
    ghost var sStart, tStart := sq.entries, tq.entries;
    QueuedAllIn(nodes, sources, sStart);
    QueuedAllIn(nodes, targets, tStart);
    openedS, openedT := [], [];
    var hashes := store.hashes;
    for k := 0 to |hashes|
      invariant Queued(nodes, sources, sq.entries) && Queued(nodes, targets, tq.entries)
      invariant OpenedFrom(nodes, openedS, ls, hashes[..k]) && OpenedFrom(nodes, openedT, lt, hashes[..k])
      invariant AllIn(nodes, openedS) && AllIn(nodes, openedT)
      invariant AllIn(nodes, Ids(sq.entries)) && AllIn(nodes, Ids(tq.entries))
      invariant Weight(nodes, Ids(sq.entries)) + |openedS| == Weight(nodes, Ids(sStart)) + Weight(nodes, openedS)
      invariant Weight(nodes, Ids(tq.entries)) + |openedT| == Weight(nodes, Ids(tStart)) + Weight(nodes, openedT)
      invariant sq.entries == sStart + OpenedEntries(nodes, openedS)
      invariant tq.entries == tStart + OpenedEntries(nodes, openedT)
      invariant (set x | x in openedS) == OpenedUpTo(nodes, store.mappings, ls, hashes[..k])
      invariant (set y | y in openedT) == OpenedUpTo(nodes, store.mappings, lt, hashes[..k])
    {
      var h := hashes[k];
      var m := store.mappings[h];
      assert hashes[..k + 1] == hashes[..k] + [h];
      NoDupNotBefore(hashes, k);
      StoredGroup(nodes, store, ls, lt, h);
      if IsUnmatched(m) {
        ghost var sBefore := sq.entries;
        OpenIds(nodes, sources, sq, m.sourceIds);
        OpenSide(nodes, store.mappings, ls, hashes[..k], h, openedS, m.sourceIds, sStart, sBefore, sq.entries);
        openedS := openedS + m.sourceIds;
        ghost var tBefore := tq.entries;
        OpenIds(nodes, targets, tq, m.targetIds);
        OpenSide(nodes, store.mappings, lt, hashes[..k], h, openedT, m.targetIds, tStart, tBefore, tq.entries);
        openedT := openedT + m.targetIds;
      } else {
        SkipSide(nodes, store.mappings, ls, hashes[..k], h, openedS);
        SkipSide(nodes, store.mappings, lt, hashes[..k], h, openedT);
      }
    }
    assert hashes[..|hashes|] == hashes;
    OpenedAll(nodes, store, ls, lt);
    if ls != [] {
      WeightLossOfSublist(nodes, openedS, ls);
    }
    if lt != [] {
      WeightLossOfSublist(nodes, openedT, lt);
    }
  }

  /**
   * The popping and grouping of the equal-height branch: the tallest layer of each queue,
   * every popped node stored under its hashcode. The layers take their weight along.
   */
  method PopLayers(nodes: seq<Node>, sources: seq<NodeId>, targets: seq<NodeId>, sq: HeightQueue, tq: HeightQueue)
    returns (ls: seq<NodeId>, lt: seq<NodeId>, store: MappingStore)
    requires IsTree(nodes, sources) && IsTree(nodes, targets) && Measured(nodes) && sq != tq
    requires Queued(nodes, sources, sq.entries) && Queued(nodes, targets, tq.entries)
    requires sq.PeekMax() > 0 && tq.PeekMax() > 0
    modifies sq, tq
    ensures fresh(store) && store.Valid() && store.Grouped(nodes) && StoredFrom(store.mappings, ls, lt)
    ensures ls != [] && lt != [] && AllIn(nodes, ls) && AllIn(nodes, lt)
    ensures (forall x | x in ls :: x in sources) && (forall y | y in lt :: y in targets)
    ensures Queued(nodes, sources, sq.entries) && Queued(nodes, targets, tq.entries)
    ensures AllIn(nodes, Ids(sq.entries)) && AllIn(nodes, Ids(old(sq.entries)))
    ensures AllIn(nodes, Ids(tq.entries)) && AllIn(nodes, Ids(old(tq.entries)))
    ensures Weight(nodes, Ids(old(sq.entries))) == Weight(nodes, ls) + Weight(nodes, Ids(sq.entries))
    ensures Weight(nodes, Ids(old(tq.entries))) == Weight(nodes, lt) + Weight(nodes, Ids(tq.entries))
    ensures multiset(ls) == multiset(Layer(old(sq.entries), old(sq.PeekMax())))
    ensures multiset(lt) == multiset(Layer(old(tq.entries), old(tq.PeekMax())))
    ensures sq.entries == Others(old(sq.entries), old(sq.PeekMax()))
    ensures tq.entries == Others(old(tq.entries), old(tq.PeekMax()))
    ensures BuiltFrom(nodes, store, ls, lt)
  {
    ls := PopLayer(nodes, sources, sq);
    lt := PopLayer(nodes, targets, tq);
    store := BuildStore(nodes, ls, lt);
  }

  /**
   * The end of the equal-height branch: the nodes of the mappings with an empty side are
   * opened, and the duplicate mappings are the candidates. The queues together weigh less
   * than they did with the two popped layers.
   */
  method OpenAndCollect(nodes: seq<Node>, sources: seq<NodeId>, targets: seq<NodeId>, store: MappingStore,
                        sq: HeightQueue, tq: HeightQueue, ls: seq<NodeId>, lt: seq<NodeId>)
    returns (found: seq<Mapping>, ghost openedS: seq<NodeId>, ghost openedT: seq<NodeId>)
    requires IsTree(nodes, sources) && IsTree(nodes, targets) && Measured(nodes)
    requires Queued(nodes, sources, sq.entries) && Queued(nodes, targets, tq.entries) && sq != tq
    requires BuiltFrom(nodes, store, ls, lt)
    requires (forall x | x in ls :: x in sources) && (forall y | y in lt :: y in targets)
    requires ls != [] && lt != []
    modifies sq, tq
    ensures Queued(nodes, sources, sq.entries) && Queued(nodes, targets, tq.entries)
    ensures AllIn(nodes, Ids(sq.entries)) && AllIn(nodes, Ids(old(sq.entries)))
    ensures AllIn(nodes, Ids(tq.entries)) && AllIn(nodes, Ids(old(tq.entries)))
    ensures Weight(nodes, Ids(sq.entries)) + Weight(nodes, Ids(tq.entries))
      < Weight(nodes, Ids(old(sq.entries))) + Weight(nodes, ls) + Weight(nodes, Ids(old(tq.entries))) + Weight(nodes, lt)
    ensures found == store.CandidateMappings()
    ensures forall c | c in found :: Candidate(nodes, sources, targets, c)
    ensures AllIn(nodes, openedS) && AllIn(nodes, openedT)
    ensures sq.entries == old(sq.entries) + OpenedEntries(nodes, openedS)
    ensures tq.entries == old(tq.entries) + OpenedEntries(nodes, openedT)
    ensures NoDup(openedS) && (set x | x in openedS) == OneSided(nodes, ls, lt)
    ensures NoDup(openedT) && (set y | y in openedT) == OneSided(nodes, lt, ls)
  {
    openedS, openedT := OpenUnmatched(nodes, sources, targets, store, sq, tq, ls, lt);
    found := store.CandidateMappings();
    StoredCandidates(nodes, sources, targets, store, ls, lt);
  }

  /**
   * The `pop` of the equal-height branch on a queue that is not empty: the tallest layer,
   * a non-empty list of tree nodes, leaves the queue and takes its weight with it.
   */
  method PopLayer(nodes: seq<Node>, tree: seq<NodeId>, q: HeightQueue) returns (layer: seq<NodeId>)
    requires IsTree(nodes, tree) && Queued(nodes, tree, q.entries) && q.PeekMax() > 0
    modifies q
    ensures layer != [] && (forall x | x in layer :: x in tree) && AllIn(nodes, layer)
    ensures Queued(nodes, tree, q.entries)
    ensures AllIn(nodes, Ids(q.entries)) && AllIn(nodes, Ids(old(q.entries)))
    ensures Weight(nodes, Ids(old(q.entries))) == Weight(nodes, layer) + Weight(nodes, Ids(q.entries))
    ensures multiset(layer) == multiset(Layer(old(q.entries), old(q.PeekMax())))
    ensures q.entries == Others(old(q.entries), old(q.PeekMax()))
  {
    ghost var start := q.entries;
    QueuedAllIn(nodes, tree, start);
    PopFacts(nodes, tree, start);
    WeightOfLayerSplit(nodes, start, MaxHeight(start));
    var popped, _ := q.Pop(nodes);
    layer := popped;
    PoppedLayer(nodes, tree, start, layer);
    QueuedAllIn(nodes, tree, q.entries);
  }

  /** A candidate mapping: a duplicate whose sides list source nodes and target nodes once each. */
  predicate Candidate(nodes: seq<Node>, sources: seq<NodeId>, targets: seq<NodeId>, c: Mapping)
  {
    && IsDuplicate(c) && NoDup(c.sourceIds) && NoDup(c.targetIds)
    && (forall x | x in c.sourceIds :: x in sources && x < |nodes| && nodes[x].metadata.Some?)
    && (forall y | y in c.targetIds :: y in targets && y < |nodes| && nodes[y].metadata.Some?)
  }

  /** `max_size` as a sort key; 0 where it is undefined, which no candidate mapping is. */
  function SizeKey(nodes: seq<Node>, c: Mapping): (r: real)
    ensures IsDuplicate(c) && SourcesMeasured(nodes, c) ==> MaxSize(nodes, c).Some? && r == MaxSize(nodes, c).value as real
  {
    if SourcesMeasured(nodes, c) && c.sourceIds != [] then MaxSize(nodes, c).value as real else 0.0
  }

  /** The sort key of `match_anchors`: each candidate keyed by `max_size`. */
  function KeyBySize(nodes: seq<Node>, cs: seq<Mapping>): (r: seq<(real, Mapping)>)
    ensures |r| == |cs| && forall k | 0 <= k < |cs| :: r[k] == (SizeKey(nodes, cs[k]), cs[k])
  {
    seq(|cs|, k requires 0 <= k < |cs| => (SizeKey(nodes, cs[k]), cs[k]))
  }

  /**
   * The order in which `match_anchors` resolves its candidates: every candidate once,
   * `max_size` never growing along the order, and the candidates of one size in the order
   * they were collected.
   */
  lemma CandidateOrder(nodes: seq<Node>, cs: seq<Mapping>, size: real)
    requires forall c | c in cs :: IsDuplicate(c) && SourcesMeasured(nodes, c)
    ensures var keyed := SortDescending(KeyBySize(nodes, cs));
      && multiset(keyed) == multiset(KeyBySize(nodes, cs))
      && SortedDescending(keyed)
      && (forall i | 0 <= i < |keyed| ::
            keyed[i].1 in cs && MaxSize(nodes, keyed[i].1).Some? && keyed[i].0 == MaxSize(nodes, keyed[i].1).value as real)
      && WithKey(keyed, size) == WithKey(KeyBySize(nodes, cs), size)
  {
    var unsorted := KeyBySize(nodes, cs);
    var keyed := SortDescending(unsorted);
    SortDescendingIsSortedPermutation(unsorted);
    SortDescendingStable(unsorted, size);
    forall i | 0 <= i < |keyed|
      ensures keyed[i].1 in cs && MaxSize(nodes, keyed[i].1).Some? && keyed[i].0 == MaxSize(nodes, keyed[i].1).value as real
    {
      assert keyed[i] in multiset(unsorted);
      var j :| 0 <= j < |unsorted| && unsorted[j] == keyed[i];
      assert cs[j] in cs;
    }
  }

  /** The duplicate mappings of a store built from two layers of tree nodes are candidates. */
  lemma StoredCandidates(nodes: seq<Node>, sources: seq<NodeId>, targets: seq<NodeId>, store: MappingStore, ls: seq<NodeId>, lt: seq<NodeId>)
    requires store.Valid() && store.Grouped(nodes) && StoredFrom(store.mappings, ls, lt)
    requires forall x | x in ls :: x in sources
    requires forall y | y in lt :: y in targets
    ensures forall c | c in store.CandidateMappings() :: Candidate(nodes, sources, targets, c)
  {
    forall c | c in store.CandidateMappings() ensures Candidate(nodes, sources, targets, c) {
      assert c in store.Values() && IsDuplicate(c);
      StoredMember(store, ls, lt, c);
      var k :| 0 <= k < |store.Values()| && store.Values()[k] == c;
      var h := store.hashes[k];
      assert h in store.mappings && store.mappings[h] == c;
    }
  }

  /** The one-to-one mappings of a store built from two layers pair a node of each layer. */
  lemma StoredUniques(store: MappingStore, ls: seq<NodeId>, lt: seq<NodeId>)
    requires store.Valid() && StoredFrom(store.mappings, ls, lt)
    ensures forall u | u in store.UniqueMappings() :: IsUnique(u) && u.sourceIds[0] in ls && u.targetIds[0] in lt
  {
    forall u | u in store.UniqueMappings() ensures IsUnique(u) && u.sourceIds[0] in ls && u.targetIds[0] in lt {
      StoredMember(store, ls, lt, u);
    }
  }

  // ---------------------------------------------------------------------------------------
  // The equal-height branch, stated on the two popped layers

  /** The hashcode of a node with metadata: what `isomorphic_to` compares. */
  function Hash(nodes: seq<Node>, x: NodeId): int
    requires x < |nodes| && nodes[x].metadata.Some?
  {
    nodes[x].metadata.value.hashcode
  }

  /** The nodes of a layer that carry the hashcode `h`. */
  ghost function Group(nodes: seq<Node>, layer: seq<NodeId>, h: int): set<NodeId>
  {
    set x | x in layer && x < |nodes| && nodes[x].metadata.Some? && nodes[x].metadata.value.hashcode == h
  }

  /** `x` and `y` are the only nodes of the two layers carrying their hashcode: a unique mapping. */
  ghost predicate UniquePair(nodes: seq<Node>, ls: seq<NodeId>, lt: seq<NodeId>, x: NodeId, y: NodeId)
  {
    && x < |nodes| && nodes[x].metadata.Some?
    && Group(nodes, ls, Hash(nodes, x)) == {x} && Group(nodes, lt, Hash(nodes, x)) == {y}
  }

  /** Both layers carry `h`, and one of them more than once: a duplicate mapping. */
  ghost predicate DuplicateHash(nodes: seq<Node>, ls: seq<NodeId>, lt: seq<NodeId>, h: int)
  {
    && Group(nodes, ls, h) != {} && Group(nodes, lt, h) != {}
    && (|Group(nodes, ls, h)| > 1 || |Group(nodes, lt, h)| > 1)
  }

  /** A node of `layer`, one of the two layers, whose hashcode is a duplicate one. */
  ghost predicate DuplicateNode(nodes: seq<Node>, ls: seq<NodeId>, lt: seq<NodeId>, layer: seq<NodeId>, x: NodeId)
  {
    x in layer && x < |nodes| && nodes[x].metadata.Some? && DuplicateHash(nodes, ls, lt, Hash(nodes, x))
  }

  /** A mapping holding exactly the nodes of the two layers that carry one duplicate hashcode. */
  ghost predicate DuplicateGroup(nodes: seq<Node>, ls: seq<NodeId>, lt: seq<NodeId>, c: Mapping)
  {
    && c.sourceIds != [] && c.sourceIds[0] < |nodes| && nodes[c.sourceIds[0]].metadata.Some?
    && var h := Hash(nodes, c.sourceIds[0]);
       && DuplicateHash(nodes, ls, lt, h)
       && (set x | x in c.sourceIds) == Group(nodes, ls, h)
       && (set y | y in c.targetIds) == Group(nodes, lt, h)
  }

  /** The nodes of `layer` whose hashcode the `other` layer does not carry: an unmatched mapping. */
  ghost function OneSided(nodes: seq<Node>, layer: seq<NodeId>, other: seq<NodeId>): set<NodeId>
  {
    set x | x in layer && x < |nodes| && nodes[x].metadata.Some? && Group(nodes, other, Hash(nodes, x)) == {}
  }

  /** Every unique pair of the two layers is recorded, and so is every pair of their two subtrees, node by node. */
  ghost predicate AnchorsPaired(nodes: seq<Node>, m: Matching, ls: seq<NodeId>, lt: seq<NodeId>)
  {
    forall x, y | UniquePair(nodes, ls, lt, x, y) :: x in m.st && m.st[x] == y && SubtreeMatched(nodes, m, x, y)
  }

  /** The first pair of the mapping is recorded, with the whole of its two subtrees. */
  ghost predicate AnchoredFirst(nodes: seq<Node>, m: Matching, u: Mapping)
  {
    PairedFirst(m, u) && SubtreeMatched(nodes, m, u.sourceIds[0], u.targetIds[0])
  }

  /** Every node of a duplicate hashcode of the two layers is in one of the mappings `cs`. */
  ghost predicate DuplicatesCovered(nodes: seq<Node>, ls: seq<NodeId>, lt: seq<NodeId>, cs: seq<Mapping>)
  {
    && (forall x | DuplicateNode(nodes, ls, lt, ls, x) :: exists c | c in cs :: x in c.sourceIds)
    && (forall y | DuplicateNode(nodes, ls, lt, lt, y) :: exists c | c in cs :: y in c.targetIds)
  }

  /** The store of the equal-height branch: every popped node stored under its hashcode, and nothing else. */
  ghost predicate BuiltFrom(nodes: seq<Node>, store: MappingStore, ls: seq<NodeId>, lt: seq<NodeId>)
    reads store
  {
    && Measured(nodes) && AllIn(nodes, ls) && AllIn(nodes, lt)
    && store.Valid() && store.Grouped(nodes) && StoredFrom(store.mappings, ls, lt)
    && (forall x | x in ls :: HoldsSource(store.mappings, nodes, x))
    && (forall y | y in lt :: HoldsTarget(store.mappings, nodes, y))
  }

  /** Under each hashcode a built store holds exactly the nodes of each layer that carry it, each once. */
  lemma StoredGroup(nodes: seq<Node>, store: MappingStore, ls: seq<NodeId>, lt: seq<NodeId>, h: int)
    requires BuiltFrom(nodes, store, ls, lt)
    ensures h in store.mappings ==>
      && (set x | x in store.mappings[h].sourceIds) == Group(nodes, ls, h)
      && (set y | y in store.mappings[h].targetIds) == Group(nodes, lt, h)
      && |store.mappings[h].sourceIds| == |Group(nodes, ls, h)|
      && |store.mappings[h].targetIds| == |Group(nodes, lt, h)|
    ensures h !in store.mappings ==> Group(nodes, ls, h) == {} && Group(nodes, lt, h) == {}
  {
    forall x | x in Group(nodes, ls, h) ensures h in store.mappings && x in store.mappings[h].sourceIds {
      assert HoldsSource(store.mappings, nodes, x);
    }
    forall y | y in Group(nodes, lt, h) ensures h in store.mappings && y in store.mappings[h].targetIds {
      assert HoldsTarget(store.mappings, nodes, y);
    }
    if h in store.mappings {
      var u := store.mappings[h];
      assert (set x | x in u.sourceIds) == Group(nodes, ls, h);
      assert (set y | y in u.targetIds) == Group(nodes, lt, h);
      NoDupCard(u.sourceIds, Group(nodes, ls, h));
      NoDupCard(u.targetIds, Group(nodes, lt, h));
    }
  }

  /** A stored hashcode is one of the store's keys in insertion order, so its mapping is among the values. */
  lemma StoredValue(store: MappingStore, h: int)
    requires store.Valid() && h in store.mappings
    ensures store.mappings[h] in store.Values()
  {
    var k :| 0 <= k < |store.hashes| && store.hashes[k] == h;
    assert store.Values()[k] == store.mappings[h];
  }

  /** Two nodes alone with their hashcode in the two layers form a unique mapping of the store. */
  lemma UniquePairStored(nodes: seq<Node>, store: MappingStore, ls: seq<NodeId>, lt: seq<NodeId>, x: NodeId, y: NodeId)
    requires BuiltFrom(nodes, store, ls, lt) && UniquePair(nodes, ls, lt, x, y)
    ensures Mapping([x], [y]) in store.UniqueMappings()
  {
    var h := Hash(nodes, x);
    assert x in Group(nodes, ls, h);
    StoredGroup(nodes, store, ls, lt, h);
    var u := store.mappings[h];
    assert u.sourceIds[0] in (set a | a in u.sourceIds);
    assert u.targetIds[0] in (set b | b in u.targetIds);
    assert u == Mapping([x], [y]);
    StoredValue(store, h);
  }

  /** Anchored first pairs stay anchored while nothing recorded is dropped; one more mapping joins. */
  lemma AnchoredUpToStep(nodes: seq<Node>, m0: Matching, m: Matching, us: seq<Mapping>, k: nat)
    requires Kept(m0, m) && k < |us|
    requires forall j | 0 <= j < k :: AnchoredFirst(nodes, m0, us[j])
    requires PairedFirst(m, us[k]) && SubtreeMatched(nodes, m, us[k].sourceIds[0], us[k].targetIds[0])
    ensures forall j | 0 <= j <= k :: AnchoredFirst(nodes, m, us[j])
  {
    forall j | 0 <= j < k ensures AnchoredFirst(nodes, m, us[j]) {
      assert AnchoredFirst(nodes, m0, us[j]);
      SubtreeMatchedKept(nodes, m0, m, us[j].sourceIds[0], us[j].targetIds[0]);
    }
  }

  /** Recording the first pair of every unique mapping of a built store records every unique pair of the layers. */
  lemma UniquesAnchored(nodes: seq<Node>, store: MappingStore, ls: seq<NodeId>, lt: seq<NodeId>, m: Matching)
    requires BuiltFrom(nodes, store, ls, lt)
    requires forall u | u in store.UniqueMappings() :: AnchoredFirst(nodes, m, u)
    ensures AnchorsPaired(nodes, m, ls, lt)
  {
    forall x, y | UniquePair(nodes, ls, lt, x, y) ensures x in m.st && m.st[x] == y && SubtreeMatched(nodes, m, x, y) {
      UniquePairStored(nodes, store, ls, lt, x, y);
      assert AnchoredFirst(nodes, m, Mapping([x], [y]));
    }
  }

  /**
   * The duplicate mappings of a built store are the duplicate hashcodes of the two layers:
   * each holds exactly the nodes of one, and every node of one is in some mapping.
   */
  lemma DuplicatesStored(nodes: seq<Node>, store: MappingStore, ls: seq<NodeId>, lt: seq<NodeId>)
    requires BuiltFrom(nodes, store, ls, lt)
    ensures forall c | c in store.CandidateMappings() :: DuplicateGroup(nodes, ls, lt, c)
    ensures DuplicatesCovered(nodes, ls, lt, store.CandidateMappings())
  {
    var cs := store.CandidateMappings();
    forall c | c in cs ensures DuplicateGroup(nodes, ls, lt, c) {
      var k :| 0 <= k < |store.Values()| && store.Values()[k] == c;
      var h := store.hashes[k];
      assert h in store.mappings && store.mappings[h] == c;
      assert c.sourceIds[0] in c.sourceIds;
      StoredGroup(nodes, store, ls, lt, h);
    }
    forall x | DuplicateNode(nodes, ls, lt, ls, x) ensures exists c | c in cs :: x in c.sourceIds {
      var h := Hash(nodes, x);
      assert x in Group(nodes, ls, h);
      StoredGroup(nodes, store, ls, lt, h);
      StoredValue(store, h);
      assert store.mappings[h] in cs;
    }
    forall y | DuplicateNode(nodes, ls, lt, lt, y) ensures exists c | c in cs :: y in c.targetIds {
      var h := Hash(nodes, y);
      assert y in Group(nodes, lt, h);
      StoredGroup(nodes, store, ls, lt, h);
      StoredValue(store, h);
      assert store.mappings[h] in cs;
    }
  }

  /**
   * One round of the `match_anchors` loop as the queues see it: both queues before and
   * after, the layers popped, the nodes opened and the mappings found.
   */
  datatype Round = Round(sBefore: seq<(nat, NodeId)>, tBefore: seq<(nat, NodeId)>,
                         ls: seq<NodeId>, lt: seq<NodeId>, openedS: seq<NodeId>, openedT: seq<NodeId>,
                         found: seq<Mapping>, sAfter: seq<(nat, NodeId)>, tAfter: seq<(nat, NodeId)>)

  /** The two tallest nodes have the same height: the branch that groups the layers by hashcode. */
  ghost predicate EqualRound(r: Round)
  {
    MaxHeight(r.sBefore) == MaxHeight(r.tBefore)
  }

  /** Both queues held a node at least `minHeight` tall when the round began. */
  ghost predicate Tall(r: Round, minHeight: int)
  {
    MaxHeight(r.sBefore) >= minHeight && MaxHeight(r.tBefore) >= minHeight
  }

  /**
   * What one round does. The taller queue alone pops its tallest layer and opens every
   * popped node; the other queue is untouched and nothing is found. Two layers of equal
   * height are both popped; each queue opens exactly its popped nodes whose hashcode the
   * other layer lacks, each once; the mappings found are duplicate hashcodes of the two
   * layers and hold every node of such a hashcode.
   */
  ghost predicate RoundOf(nodes: seq<Node>, r: Round)
  {
    var hs, ht := MaxHeight(r.sBefore), MaxHeight(r.tBefore);
    && (hs > ht ==>
          && Opened(nodes, r.sBefore, r.sAfter, r.ls, r.openedS) && r.openedS == r.ls
          && r.tAfter == r.tBefore && r.lt == [] && r.openedT == [] && r.found == [])
    && (hs < ht ==>
          && Opened(nodes, r.tBefore, r.tAfter, r.lt, r.openedT) && r.openedT == r.lt
          && r.sAfter == r.sBefore && r.ls == [] && r.openedS == [] && r.found == [])
    && (hs == ht ==>
          && Opened(nodes, r.sBefore, r.sAfter, r.ls, r.openedS)
          && Opened(nodes, r.tBefore, r.tAfter, r.lt, r.openedT)
          && NoDup(r.openedS) && (set x | x in r.openedS) == OneSided(nodes, r.ls, r.lt)
          && NoDup(r.openedT) && (set y | y in r.openedT) == OneSided(nodes, r.lt, r.ls)
          && (forall c | c in r.found :: DuplicateGroup(nodes, r.ls, r.lt, c))
          && DuplicatesCovered(nodes, r.ls, r.lt, r.found))
  }

  /** The rounds follow one another from the queues `s0` and `t0`: each starts where the previous one ended. */
  ghost predicate Chained(rounds: seq<Round>, s0: seq<(nat, NodeId)>, t0: seq<(nat, NodeId)>)
  {
    && (rounds != [] ==> rounds[0].sBefore == s0 && rounds[0].tBefore == t0)
    && forall i | 0 < i < |rounds| :: rounds[i].sBefore == rounds[i - 1].sAfter && rounds[i].tBefore == rounds[i - 1].tAfter
  }

  /** The two queues once the rounds are over. */
  ghost function Ends(rounds: seq<Round>, s0: seq<(nat, NodeId)>, t0: seq<(nat, NodeId)>): (seq<(nat, NodeId)>, seq<(nat, NodeId)>)
  {
    if rounds == [] then (s0, t0) else (rounds[|rounds| - 1].sAfter, rounds[|rounds| - 1].tAfter)
  }

  /** After the rounds, one of the queues holds no node `minHeight` tall: the loop condition fails. */
  ghost predicate Stopped(rounds: seq<Round>, s0: seq<(nat, NodeId)>, t0: seq<(nat, NodeId)>, minHeight: int)
  {
    MaxHeight(Ends(rounds, s0, t0).0) < minHeight || MaxHeight(Ends(rounds, s0, t0).1) < minHeight
  }

  /** The mappings the rounds found, in the order `extend` collected them. */
  ghost function Found(rounds: seq<Round>): seq<Mapping>
  {
    if rounds == [] then [] else Found(rounds[..|rounds| - 1]) + rounds[|rounds| - 1].found
  }

  /** The queue entry `push` makes for a node. */
  function Entry(nodes: seq<Node>, id: NodeId): (nat, NodeId)
    requires id < |nodes| && nodes[id].metadata.Some?
  {
    (HeightOf(nodes, id), id)
  }

  /**
   * The branches of `match_anchors` for two tallest nodes of different heights: the taller
   * queue pops its tallest layer and opens every popped node, and nothing is found.
   */
  method OpenTaller(nodes: seq<Node>, sources: seq<NodeId>, targets: seq<NodeId>, sq: HeightQueue, tq: HeightQueue)
    returns (ghost round: Round)
    requires Ready(nodes, sources, targets) && sq != tq && sq.PeekMax() != tq.PeekMax()
    requires Queued(nodes, sources, sq.entries) && Queued(nodes, targets, tq.entries)
    modifies sq, tq
    ensures Queued(nodes, sources, sq.entries) && Queued(nodes, targets, tq.entries)
    ensures AllIn(nodes, Ids(sq.entries)) && AllIn(nodes, Ids(tq.entries))
    ensures AllIn(nodes, Ids(old(sq.entries))) && AllIn(nodes, Ids(old(tq.entries)))
    ensures Weight(nodes, Ids(sq.entries)) + Weight(nodes, Ids(tq.entries))
      < Weight(nodes, Ids(old(sq.entries))) + Weight(nodes, Ids(old(tq.entries)))
    ensures round.sBefore == old(sq.entries) && round.tBefore == old(tq.entries)
    ensures round.sAfter == sq.entries && round.tAfter == tq.entries && round.found == []
    ensures RoundOf(nodes, round) && !EqualRound(round)
  {
    QueuedAllIn(nodes, sources, sq.entries);
    QueuedAllIn(nodes, targets, tq.entries);
    ghost var s0, t0 := sq.entries, tq.entries;
    if sq.PeekMax() > tq.PeekMax() {
      ghost var ls := PopAndOpen(nodes, sources, sq);
      QueuedAllIn(nodes, targets, tq.entries);
      round := Round(s0, t0, ls, [], ls, [], [], sq.entries, tq.entries);
    } else {
      ghost var lt := PopAndOpen(nodes, targets, tq);
      QueuedAllIn(nodes, sources, sq.entries);
      round := Round(s0, t0, [], lt, [], lt, [], sq.entries, tq.entries);
    }
  }

  /** The two queues `match_anchors` starts from: each holds the root of its tree. */
  method RootQueues(nodes: seq<Node>, sources: seq<NodeId>, targets: seq<NodeId>) returns (sq: HeightQueue, tq: HeightQueue)
    requires Ready(nodes, sources, targets)
    ensures fresh(sq) && fresh(tq) && sq != tq
    ensures sq.entries == [Entry(nodes, sources[0])] && tq.entries == [Entry(nodes, targets[0])]
    ensures Queued(nodes, sources, sq.entries) && Queued(nodes, targets, tq.entries)
  {
    sq := new HeightQueue();
    sq.Push(nodes, sources[0]);
    tq := new HeightQueue();
    tq.Push(nodes, targets[0]);
  }

  /**
   * What the rounds so far have done: each is a round of the loop, taken while both queues
   * reached `minHeight`, chained from `s0` and `t0`; the unique pairs of the equal-height
   * rounds are paired, and the candidates are the mappings they found.
   */
  ghost predicate Ran(nodes: seq<Node>, m: Matching, minHeight: int, rounds: seq<Round>,
                      s0: seq<(nat, NodeId)>, t0: seq<(nat, NodeId)>, cs: seq<Mapping>)
  {
    && Chained(rounds, s0, t0)
    && (forall r | r in rounds :: RoundOf(nodes, r) && Tall(r, minHeight))
    && (forall r | r in rounds && EqualRound(r) :: AnchorsPaired(nodes, m, r.ls, r.lt))
    && cs == Found(rounds)
  }

  /** Recorded pairs survive while nothing recorded is dropped. */
  lemma PairedKept(nodes: seq<Node>, m0: Matching, m: Matching, rounds: seq<Round>)
    requires Kept(m0, m) && forall r | r in rounds && EqualRound(r) :: AnchorsPaired(nodes, m0, r.ls, r.lt)
    ensures forall r | r in rounds && EqualRound(r) :: AnchorsPaired(nodes, m, r.ls, r.lt)
  {
    forall r, x, y | r in rounds && EqualRound(r) && UniquePair(nodes, r.ls, r.lt, x, y)
      ensures x in m.st && m.st[x] == y && SubtreeMatched(nodes, m, x, y)
    {
      assert AnchorsPaired(nodes, m0, r.ls, r.lt);
      SubtreeMatchedKept(nodes, m0, m, x, y);
    }
  }

  /** What the rounds did stays true while the matching only grows. */
  lemma RanKept(nodes: seq<Node>, m0: Matching, m: Matching, minHeight: int, rounds: seq<Round>,
                s0: seq<(nat, NodeId)>, t0: seq<(nat, NodeId)>, cs: seq<Mapping>)
    requires Kept(m0, m) && Ran(nodes, m0, minHeight, rounds, s0, t0, cs)
    ensures Ran(nodes, m, minHeight, rounds, s0, t0, cs)
  {
    PairedKept(nodes, m0, m, rounds);
  }

  /** A round that starts where the others ended, with its unique pairs paired, joins them. */
  lemma RanStep(nodes: seq<Node>, m: Matching, minHeight: int, rounds: seq<Round>,
                s0: seq<(nat, NodeId)>, t0: seq<(nat, NodeId)>, cs: seq<Mapping>, r: Round)
    requires Ran(nodes, m, minHeight, rounds, s0, t0, cs)
    requires (r.sBefore, r.tBefore) == Ends(rounds, s0, t0)
    requires RoundOf(nodes, r) && Tall(r, minHeight)
    requires EqualRound(r) ==> AnchorsPaired(nodes, m, r.ls, r.lt)
    ensures Ran(nodes, m, minHeight, rounds + [r], s0, t0, cs + r.found)
    ensures Ends(rounds + [r], s0, t0) == (r.sAfter, r.tAfter)
  {
    ChainedStep(rounds, s0, t0, r);
    assert (rounds + [r])[..|rounds|] == rounds;
    assert forall x | x in rounds + [r] :: x in rounds || x == r;
  }

  /** A round that starts where the others ended continues the chain. */
  lemma ChainedStep(rounds: seq<Round>, s0: seq<(nat, NodeId)>, t0: seq<(nat, NodeId)>, r: Round)
    requires Chained(rounds, s0, t0) && (r.sBefore, r.tBefore) == Ends(rounds, s0, t0)
    ensures Chained(rounds + [r], s0, t0) && Ends(rounds + [r], s0, t0) == (r.sAfter, r.tAfter)
  {
    var rounds' := rounds + [r];
    forall i | 0 < i < |rounds'|
      ensures rounds'[i].sBefore == rounds'[i - 1].sAfter && rounds'[i].tBefore == rounds'[i - 1].tAfter
    {
      if i < |rounds| {
        assert rounds'[i] == rounds[i] && rounds'[i - 1] == rounds[i - 1];
      }
    }
  }

  /**
   * Every mapping the rounds found is a duplicate hashcode of the layers of one
   * equal-height round, and every node of such a hashcode is in one of them.
   */
  lemma {:induction false} FoundGroups(nodes: seq<Node>, rounds: seq<Round>)
    requires forall r | r in rounds :: RoundOf(nodes, r)
    ensures forall c | c in Found(rounds) :: exists r | r in rounds :: EqualRound(r) && DuplicateGroup(nodes, r.ls, r.lt, c)
    ensures forall r | r in rounds && EqualRound(r) :: DuplicatesCovered(nodes, r.ls, r.lt, Found(rounds))
  {
    if rounds != [] {
      var init, last := rounds[..|rounds| - 1], rounds[|rounds| - 1];
      assert forall r | r in init :: r in rounds;
      FoundGroups(nodes, init);
      var all := Found(rounds);
      assert all == Found(init) + last.found;
      forall c | c in all ensures exists r | r in rounds :: EqualRound(r) && DuplicateGroup(nodes, r.ls, r.lt, c) {
        if c in Found(init) {
          var r :| r in init && EqualRound(r) && DuplicateGroup(nodes, r.ls, r.lt, c);
          assert r in rounds;
        } else {
          assert c in last.found && last in rounds;
        }
      }
      forall r | r in rounds && EqualRound(r) ensures DuplicatesCovered(nodes, r.ls, r.lt, all) {
        var cs := if r in init then Found(init) else last.found;
        assert DuplicatesCovered(nodes, r.ls, r.lt, cs);
        assert forall c | c in cs :: c in all;
      }
    }
  }

  /** The sort returns exactly the elements it was given. */
  lemma SortedMembers<T>(xs: seq<(real, T)>)
    ensures forall z :: z in SortDescending(xs) <==> z in xs
  {
    SortDescendingIsSortedPermutation(xs);
    forall z ensures z in SortDescending(xs) <==> z in xs {
      assert z in SortDescending(xs) <==> z in multiset(SortDescending(xs));
      assert z in xs <==> z in multiset(xs);
    }
  }

  /**
   * The pairs of a mapping, sorted by their weights, are the pairs of its product: each joins
   * a source id with a target id of the mapping, and every such pair is there.
   */
  lemma ResolveOrder(c: Mapping, sources: seq<NodeId>, targets: seq<NodeId>, pairs: seq<MatchingPair>,
                     weighted: seq<(real, MatchingPair)>, ps: seq<MatchingPair>)
    requires (forall x | x in c.sourceIds :: x in sources) && (forall y | y in c.targetIds :: y in targets)
    requires pairs == Product(c.sourceIds, c.targetIds)
    requires |weighted| == |pairs| && forall j | 0 <= j < |pairs| :: weighted[j].1 == pairs[j]
    requires ps == Seconds(SortDescending(weighted))
    ensures forall p | p in ps :: p.source in sources && p.target in targets
    ensures forall x, y | x in c.sourceIds && y in c.targetIds :: MatchingPair(x, y) in ps
  {
    ProductMembers(c.sourceIds, c.targetIds);
    SortedMembers(weighted);
  }

  /** When every pair of the list has a matched node, so has every pair the list covers. */
  lemma MatchedCovers(m: Matching, ps: seq<MatchingPair>, c: Mapping)
    requires MatchedUpTo(m, ps, |ps|)
    requires forall x, y | x in c.sourceIds && y in c.targetIds :: MatchingPair(x, y) in ps
    ensures Resolved(m, c)
  {
    forall x, y | x in c.sourceIds && y in c.targetIds ensures IsMatched(m, MatchingPair(x, y)) {
      var i :| 0 <= i < |ps| && ps[i] == MatchingPair(x, y);
    }
  }

  /** Sorting keyed values by their keys keeps exactly the values. */
  lemma SortedSeconds<T>(keyed: seq<(real, T)>, xs: seq<T>)
    requires |keyed| == |xs| && forall k | 0 <= k < |xs| :: keyed[k].1 == xs[k]
    ensures forall z :: z in Seconds(SortDescending(keyed)) <==> z in xs
  {
    var order := SortDescending(keyed);
    SortedMembers(keyed);
    forall z ensures z in Seconds(order) <==> z in xs {
      if z in Seconds(order) {
        var i :| 0 <= i < |order| && order[i].1 == z;
        assert order[i] in order;
        var k :| 0 <= k < |keyed| && keyed[k] == order[i];
      }
      if z in xs {
        var k :| 0 <= k < |xs| && xs[k] == z;
        assert keyed[k] in keyed;
        var i :| 0 <= i < |order| && order[i] == keyed[k];
        assert Seconds(order)[i] == z;
      }
    }
  }

  /** When every mapping of the list is resolved, so is every mapping the list holds. */
  lemma ResolvedCovers(m: Matching, ms: seq<Mapping>, cs: seq<Mapping>)
    requires ResolvedUpTo(m, ms, |ms|) && forall c | c in cs :: c in ms
    ensures forall c | c in cs :: Resolved(m, c)
  {
    forall c | c in cs ensures Resolved(m, c) {
      var i :| 0 <= i < |ms| && ms[i] == c;
    }
  }

  /** Each of the first `i` mappings is resolved. */
  predicate ResolvedUpTo(m: Matching, cs: seq<Mapping>, i: nat)
  {
    i <= |cs| && forall j | 0 <= j < i :: Resolved(m, cs[j])
  }

  lemma ResolvedUpToStep(m0: Matching, m: Matching, cs: seq<Mapping>, i: nat)
    requires Kept(m0, m) && ResolvedUpTo(m0, cs, i) && i < |cs| && Resolved(m, cs[i])
    ensures ResolvedUpTo(m, cs, i + 1)
  {
    forall j | 0 <= j < i + 1 ensures Resolved(m, cs[j]) {
      if j < i {
        KeptResolved(m0, m, cs[j]);
      }
    }
  }

  /** Each of the first `i` pairs has a matched node. */
  predicate MatchedUpTo(m: Matching, ps: seq<MatchingPair>, i: nat)
  {
    i <= |ps| && forall j | 0 <= j < i :: IsMatched(m, ps[j])
  }

  /** Pairs with a matched node keep one while nothing recorded is dropped; one more pair joins. */
  lemma MatchedUpToStep(m0: Matching, m: Matching, ps: seq<MatchingPair>, i: nat)
    requires Kept(m0, m) && MatchedUpTo(m0, ps, i) && i < |ps| && IsMatched(m, ps[i])
    ensures MatchedUpTo(m, ps, i + 1)
  {
    forall j | 0 <= j < i + 1 ensures IsMatched(m, ps[j]) {
      if j < i {
        assert IsMatched(m0, ps[j]);
      }
    }
  }

  /** Both nodes of every pair are nodes of the forest. */
  predicate PairsInRange(nodes: seq<Node>, ps: seq<MatchingPair>)
  {
    forall k | 0 <= k < |ps| :: ps[k].source < |nodes| && ps[k].target < |nodes|
  }

  /**
   * One pair of the resolution loop of `match_anchors`: nothing when either node is matched
   * already, otherwise `update(_descendant_matches(...))` of the two subtrees.
   */
  function ResolveStep(nodes: seq<Node>, m: Matching, p: MatchingPair): (Matching, bool)
    requires Ordered(nodes) && p.source < |nodes| && p.target < |nodes|
  {
    if IsMatched(m, p) then (m, true) else SubtreeUpdate(nodes, m, p.source, p.target)
  }

  /** `ResolveStep` over the pairs in the order given, stopping at the first failed assertion. */
  function ResolveFold(nodes: seq<Node>, m: Matching, ps: seq<MatchingPair>): (Matching, bool)
    requires Ordered(nodes) && PairsInRange(nodes, ps)
  {
    if ps == [] then (m, true)
    else
      var r := ResolveFold(nodes, m, ps[..|ps| - 1]);
      if !r.1 then r else ResolveStep(nodes, r.0, ps[|ps| - 1])
  }

  lemma ResolveFoldPrefix(nodes: seq<Node>, m: Matching, ps: seq<MatchingPair>, i: nat)
    requires Ordered(nodes) && PairsInRange(nodes, ps) && i < |ps|
    ensures PairsInRange(nodes, ps[..i]) && PairsInRange(nodes, ps[..i + 1])
    ensures var r := ResolveFold(nodes, m, ps[..i]);
            ResolveFold(nodes, m, ps[..i + 1]) == if !r.1 then r else ResolveStep(nodes, r.0, ps[i])
  {
    assert ps[..i + 1][..i] == ps[..i];
  }

  /** Once a pair's update fails, the later pairs change nothing. */
  lemma {:induction false} ResolveFoldStops(nodes: seq<Node>, m: Matching, ps: seq<MatchingPair>, j: nat)
    requires Ordered(nodes) && PairsInRange(nodes, ps) && j <= |ps|
    requires PairsInRange(nodes, ps[..j]) && !ResolveFold(nodes, m, ps[..j]).1
    ensures ResolveFold(nodes, m, ps) == ResolveFold(nodes, m, ps[..j])
    decreases |ps| - j
  {
    if j < |ps| {
      ResolveFoldPrefix(nodes, m, ps, j);
      ResolveFoldStops(nodes, m, ps, j + 1);
    } else {
      assert ps[..j] == ps;
    }
  }

  /** Resolving two lists of pairs one after the other is resolving their concatenation. */
  lemma {:induction false} ResolveFoldAppend(nodes: seq<Node>, m: Matching, ps: seq<MatchingPair>, qs: seq<MatchingPair>)
    requires Ordered(nodes) && PairsInRange(nodes, ps) && PairsInRange(nodes, qs)
    ensures PairsInRange(nodes, ps + qs)
    ensures var r := ResolveFold(nodes, m, ps);
            ResolveFold(nodes, m, ps + qs) == if !r.1 then r else ResolveFold(nodes, r.0, qs)
  {
    if qs != [] {
      var init := qs[..|qs| - 1];
      assert (ps + qs)[..|ps + qs| - 1] == ps + init;
      ResolveFoldAppend(nodes, m, ps, init);
    } else {
      assert ps + qs == ps;
    }
  }

  /**
   * What the resolution loop promises: nothing recorded is dropped, the maps stay mutual
   * inverses, and on success every pair has a matched node.
   */
  lemma {:induction false} ResolveFoldCovers(nodes: seq<Node>, m: Matching, ps: seq<MatchingPair>)
    requires Ordered(nodes) && PairsInRange(nodes, ps) && Bijective(m)
    ensures Kept(m, ResolveFold(nodes, m, ps).0) && Bijective(ResolveFold(nodes, m, ps).0)
    ensures ResolveFold(nodes, m, ps).1 ==> MatchedUpTo(ResolveFold(nodes, m, ps).0, ps, |ps|)
  {
    if ps != [] {
      var init, p := ps[..|ps| - 1], ps[|ps| - 1];
      ResolveFoldCovers(nodes, m, init);
      var r := ResolveFold(nodes, m, init);
      if r.1 {
        if !IsMatched(r.0, p) {
          SubtreeUpdateMatches(nodes, r.0, p.source, p.target);
        }
        var r2 := ResolveStep(nodes, r.0, p);
        KeptTrans(m, r.0, r2.0);
        if r2.1 {
          assert MatchedUpTo(r.0, ps, |init|) by {
            forall j | 0 <= j < |init| ensures IsMatched(r.0, ps[j]) {
              assert ps[j] == init[j];
            }
          }
          MatchedUpToStep(r.0, r2.0, ps, |init|);
        }
      }
    }
  }

  /** Pairs with a matched node at the start are skipped: resolving only such pairs changes nothing. */
  lemma {:induction false} ResolveFoldSkips(nodes: seq<Node>, m: Matching, ps: seq<MatchingPair>)
    requires Ordered(nodes) && PairsInRange(nodes, ps) && MatchedUpTo(m, ps, |ps|)
    ensures ResolveFold(nodes, m, ps) == (m, true)
  {
    if ps != [] {
      ResolveFoldSkips(nodes, m, ps[..|ps| - 1]);
    }
  }

  /** Each list holds exactly the source-target pairs of the mapping at its position. */
  predicate PairsOfEach(pss: seq<seq<MatchingPair>>, cs: seq<Mapping>)
  {
    && |pss| <= |cs|
    && forall i | 0 <= i < |pss| ::
         && (forall p | p in pss[i] :: p in Product(cs[i].sourceIds, cs[i].targetIds))
         && (forall p | p in Product(cs[i].sourceIds, cs[i].targetIds) :: p in pss[i])
  }

  lemma PairsOfEachStep(pss: seq<seq<MatchingPair>>, cs: seq<Mapping>, ps: seq<MatchingPair>)
    requires PairsOfEach(pss, cs) && |pss| < |cs|
    requires forall p | p in ps :: p in Product(cs[|pss|].sourceIds, cs[|pss|].targetIds)
    requires forall p | p in Product(cs[|pss|].sourceIds, cs[|pss|].targetIds) :: p in ps
    ensures PairsOfEach(pss + [ps], cs)
  {
    var qss := pss + [ps];
    forall i | 0 <= i < |qss|
      ensures forall p | p in qss[i] :: p in Product(cs[i].sourceIds, cs[i].targetIds)
      ensures forall p | p in Product(cs[i].sourceIds, cs[i].targetIds) :: p in qss[i]
    {
      if i < |pss| {
        assert qss[i] == pss[i];
      }
    }
  }

  /** One more list of pairs, resolved after the others. */
  lemma ResolveFoldConcat(nodes: seq<Node>, m: Matching, pss: seq<seq<MatchingPair>>, ps: seq<MatchingPair>)
    requires Ordered(nodes) && PairsInRange(nodes, Concat(pss)) && PairsInRange(nodes, ps)
    ensures Concat(pss + [ps]) == Concat(pss) + ps && PairsInRange(nodes, Concat(pss + [ps]))
    ensures var r := ResolveFold(nodes, m, Concat(pss));
            ResolveFold(nodes, m, Concat(pss + [ps])) == if !r.1 then r else ResolveFold(nodes, r.0, ps)
  {
    assert (pss + [ps])[..|pss|] == pss;
    ResolveFoldAppend(nodes, m, Concat(pss), ps);
  }

  /** No source-target pair of the mapping is left with both nodes free. */
  predicate Resolved(m: Matching, c: Mapping)
  {
    forall x, y | x in c.sourceIds && y in c.targetIds :: IsMatched(m, MatchingPair(x, y))
  }

  /** A resolved mapping stays resolved while nothing recorded is dropped. */
  lemma KeptResolved(m0: Matching, m: Matching, c: Mapping)
    requires Kept(m0, m) && Resolved(m0, c)
    ensures Resolved(m, c)
  {
    forall x, y | x in c.sourceIds && y in c.targetIds ensures IsMatched(m, MatchingPair(x, y)) {
      assert IsMatched(m0, MatchingPair(x, y));
    }
  }

  /**
   * The state `match_containers` leaves when it returns: the source root has a partner,
   * and that partner is the target root unless the source root was matched already in `m0`.
   */
  predicate RootsPaired(m0: Matching, m: Matching, sroot: NodeId, troot: NodeId)
  {
    sroot in m.st && (sroot !in m0.st ==> m.st[sroot] == troot)
  }

  /** The target node is reached by climbing one or more parent links from the partner of a descendant. */
  ghost predicate ReachedFrom(nodes: seq<Node>, m: Matching, sourceTree: NodeId, t: NodeId)
    requires Ordered(nodes) && Closed(nodes) && sourceTree < |nodes|
  {
    exists d, n | d in Descendants(nodes, sourceTree) && d in m.st && m.st[d] < |nodes| && 1 <= n ::
      Up(nodes, m.st[d], n) == Some(t)
  }

  /** A candidate of `_find_candidate_container_matches` for `sourceTree`. */
  ghost predicate ContainerCandidate(nodes: seq<Node>, targets: seq<NodeId>, m: Matching, sourceTree: NodeId, p: MatchingPair)
    requires Ordered(nodes) && Closed(nodes) && sourceTree < |nodes|
  {
    && p.source == sourceTree && p.target in targets && p.target < |nodes|
    && p.target !in m.st && p.target !in m.ts
    && CanMatch(nodes[sourceTree], nodes[p.target])
    && ReachedFrom(nodes, m, sourceTree, p.target)
  }

  /** The candidates found so far: each listed once, each a node already climbed through. */
  ghost predicate Collected(nodes: seq<Node>, targets: seq<NodeId>, m: Matching, sourceTree: NodeId,
                            seen: set<NodeId>, cands: seq<MatchingPair>)
    requires Ordered(nodes) && Closed(nodes) && sourceTree < |nodes|
  {
    && NoDup(cands)
    && (forall x | x in seen :: x < |nodes|)
    && forall p | p in cands :: p.target in seen && ContainerCandidate(nodes, targets, m, sourceTree, p)
  }

  /** Every node climbed through has its parent climbed through too, except perhaps `x`, the node the climb stands on. */
  ghost predicate UpClosed(nodes: seq<Node>, seen: set<NodeId>, x: Option<NodeId>)
    requires Closed(nodes)
  {
    forall y | y in seen && y < |nodes| && Some(y) != x && nodes[y].parent.Some? :: nodes[y].parent.value in seen
  }

  /** Every node climbed through that `_find_candidate_container_matches` would yield is listed. */
  ghost predicate Complete(nodes: seq<Node>, m: Matching, sourceTree: NodeId, seen: set<NodeId>, cands: seq<MatchingPair>)
    requires sourceTree < |nodes|
  {
    forall y | y in seen && y < |nodes| && y !in m.st && y !in m.ts && CanMatch(nodes[sourceTree], nodes[y]) ::
      MatchingPair(sourceTree, y) in cands
  }

  /** Every node strictly above `t` has been climbed through. */
  ghost predicate ClimbedAbove(nodes: seq<Node>, seen: set<NodeId>, t: NodeId)
    requires Closed(nodes) && t < |nodes|
  {
    forall k | 1 <= k && Up(nodes, t, k).Some? :: Up(nodes, t, k).value in seen
  }

  /** The climb ends where the parent chain does or where it meets a closed set of climbed nodes. */
  lemma {:induction false} ClimbEnds(nodes: seq<Node>, seen: set<NodeId>, t: NodeId, n: nat, x: NodeId, k: nat)
    requires Closed(nodes) && t < |nodes| && Up(nodes, t, n) == Some(x)
    requires UpClosed(nodes, seen, None) && (x in seen || nodes[x].parent.None?)
    requires k > n
    ensures Up(nodes, t, k).Some? ==> Up(nodes, t, k).value in seen
    decreases k
  {
    if k > n + 1 {
      ClimbEnds(nodes, seen, t, n, x, k - 1);
    }
  }

  /** The first `n` nodes above `t` have been climbed through. */
  ghost predicate ClimbedTo(nodes: seq<Node>, seen: set<NodeId>, t: NodeId, n: nat)
    requires Closed(nodes) && t < |nodes|
  {
    forall k | 1 <= k <= n :: Up(nodes, t, k).Some? && Up(nodes, t, k).value in seen
  }

  /** One more step of the climb: the node reached joins the climbed nodes. */
  lemma ClimbedStep(nodes: seq<Node>, seen: set<NodeId>, seen': set<NodeId>, t: NodeId, n: nat, x: NodeId)
    requires Closed(nodes) && t < |nodes| && ClimbedTo(nodes, seen, t, n) && seen <= seen'
    requires Up(nodes, t, n + 1) == Some(x) && x in seen'
    ensures ClimbedTo(nodes, seen', t, n + 1)
  {
  }

  /** Stepping from `below` to its parent `x` moves the one possible gap in the closure up to `x`. */
  lemma ClosedStep(nodes: seq<Node>, seen: set<NodeId>, below: NodeId, x: NodeId)
    requires Closed(nodes) && below < |nodes| && nodes[below].parent == Some(x) && UpClosed(nodes, seen, Some(below))
    ensures UpClosed(nodes, seen + {x}, Some(x))
    ensures x in seen ==> UpClosed(nodes, seen, None)
  {
  }

  /** Climbing onto a node not seen before keeps the candidates collected and complete. */
  lemma CollectStep(nodes: seq<Node>, targets: seq<NodeId>, m: Matching, sourceTree: NodeId, d: NodeId, n: nat, x: NodeId,
                    seen: set<NodeId>, cands: seq<MatchingPair>, cands': seq<MatchingPair>)
    requires Ordered(nodes) && Closed(nodes) && sourceTree < |nodes| && x < |nodes| && x in targets && x !in seen
    requires d in Descendants(nodes, sourceTree) && d in m.st && m.st[d] < |nodes| && 1 <= n && Up(nodes, m.st[d], n) == Some(x)
    requires Collected(nodes, targets, m, sourceTree, seen, cands) && Complete(nodes, m, sourceTree, seen, cands)
    requires cands' == if x !in m.st && x !in m.ts && CanMatch(nodes[sourceTree], nodes[x])
                       then cands + [MatchingPair(sourceTree, x)] else cands
    ensures Collected(nodes, targets, m, sourceTree, seen + {x}, cands') && Complete(nodes, m, sourceTree, seen + {x}, cands')
  {
    if x !in m.st && x !in m.ts && CanMatch(nodes[sourceTree], nodes[x]) {
      var p := MatchingPair(sourceTree, x);
      assert ReachedFrom(nodes, m, sourceTree, x);
      assert p !in cands;
      NoDupAppend(cands, [p]);
    }
  }

  /** At the root there is no parent left out of the closure. */
  lemma ClosedAtRoot(nodes: seq<Node>, seen: set<NodeId>, x: NodeId)
    requires Closed(nodes) && x < |nodes| && nodes[x].parent.None? && UpClosed(nodes, seen, Some(x))
    ensures UpClosed(nodes, seen, None)
  {
  }

  /** When the climb stops, every node above `t` has been climbed through. */
  lemma ClimbDone(nodes: seq<Node>, seen: set<NodeId>, t: NodeId, n: nat, x: NodeId)
    requires Closed(nodes) && t < |nodes| && Up(nodes, t, n) == Some(x) && ClimbedTo(nodes, seen, t, n)
    requires UpClosed(nodes, seen, None) && (x in seen || nodes[x].parent.None?)
    ensures ClimbedAbove(nodes, seen, t)
  {
    forall k | 1 <= k && Up(nodes, t, k).Some? ensures Up(nodes, t, k).value in seen {
      if k > n {
        ClimbEnds(nodes, seen, t, n, x, k);
      }
    }
  }

  /** Every partner of the first `i` descendants in `ds` has been climbed above. */
  ghost predicate ClimbedFrom(nodes: seq<Node>, m: Matching, ds: seq<NodeId>, i: nat, seen: set<NodeId>)
    requires Closed(nodes) && i <= |ds|
  {
    forall j | 0 <= j < i && ds[j] in m.st && m.st[ds[j]] < |nodes| :: ClimbedAbove(nodes, seen, m.st[ds[j]])
  }

  /** Climbing from the partner of `ds[i]` extends the climbed-above facts by one descendant. */
  lemma ClimbedFromStep(nodes: seq<Node>, m: Matching, ds: seq<NodeId>, i: nat, seen: set<NodeId>, seen': set<NodeId>)
    requires Closed(nodes) && i < |ds| && ClimbedFrom(nodes, m, ds, i, seen) && seen <= seen'
    requires ds[i] in m.st && m.st[ds[i]] < |nodes| ==> ClimbedAbove(nodes, seen', m.st[ds[i]])
    ensures ClimbedFrom(nodes, m, ds, i + 1, seen')
  {
    forall j | 0 <= j < i + 1 && ds[j] in m.st && m.st[ds[j]] < |nodes| ensures ClimbedAbove(nodes, seen', m.st[ds[j]]) {
      if j < i {
        assert ClimbedAbove(nodes, seen, m.st[ds[j]]);
      }
    }
  }

  /**
   * Once the partners of all descendants are climbed above and the candidates are complete
   * for the climbed nodes, every container candidate of `sourceTree` is listed.
   */
  lemma CandidatesComplete(nodes: seq<Node>, targets: seq<NodeId>, m: Matching, sourceTree: NodeId,
                           seen: set<NodeId>, cands: seq<MatchingPair>)
    requires Ordered(nodes) && Closed(nodes) && sourceTree < |nodes|
    requires ClimbedFrom(nodes, m, Descendants(nodes, sourceTree), |Descendants(nodes, sourceTree)|, seen)
    requires Complete(nodes, m, sourceTree, seen, cands)
    ensures forall p | ContainerCandidate(nodes, targets, m, sourceTree, p) :: p in cands
  {
    var ds := Descendants(nodes, sourceTree);
    forall p | ContainerCandidate(nodes, targets, m, sourceTree, p) ensures p in cands {
      var d, n :| d in ds && d in m.st && m.st[d] < |nodes| && 1 <= n && Up(nodes, m.st[d], n) == Some(p.target);
      var j :| 0 <= j < |ds| && ds[j] == d;
      assert ClimbedAbove(nodes, seen, m.st[d]);
      assert p == MatchingPair(sourceTree, p.target);
    }
  }

  /**
   * The state of one climb from `t`, the partner of the descendant `d`, standing on `x`,
   * `n` steps above `t`: the candidates are collected and complete for the nodes climbed
   * through, which are closed under parents except at `x`, and include every node passed.
   */
  ghost predicate Climbing(nodes: seq<Node>, targets: seq<NodeId>, m: Matching, sourceTree: NodeId, d: NodeId, t: NodeId,
                           seen0: set<NodeId>, seen: set<NodeId>, cands: seq<MatchingPair>, x: NodeId, n: nat)
    requires WellFormed(nodes) && Closed(nodes) && sourceTree < |nodes| && t < |nodes|
  {
    && d in Descendants(nodes, sourceTree) && d in m.st && m.st[d] == t
    && x < |nodes| && x in targets && Up(nodes, t, n) == Some(x)
    && Collected(nodes, targets, m, sourceTree, seen, cands)
    && UpClosed(nodes, seen, Some(x)) && Complete(nodes, m, sourceTree, seen, cands)
    && seen0 <= seen && ClimbedTo(nodes, seen, t, n)
  }

  /** Stepping from `x` to its parent `y`: it lies in the tree, and if already climbed through the climb is over. */
  lemma ClimbOnto(nodes: seq<Node>, targets: seq<NodeId>, m: Matching, sourceTree: NodeId, d: NodeId, t: NodeId,
                  seen0: set<NodeId>, seen: set<NodeId>, cands: seq<MatchingPair>, x: NodeId, n: nat, y: NodeId)
    requires WellFormed(nodes) && Closed(nodes) && IsTree(nodes, targets) && nodes[targets[0]].parent.None?
    requires sourceTree < |nodes| && t < |nodes|
    requires Climbing(nodes, targets, m, sourceTree, d, t, seen0, seen, cands, x, n) && nodes[x].parent == Some(y)
    ensures y < |nodes| && y in targets && Up(nodes, t, n + 1) == Some(y) && UpClosed(nodes, seen + {y}, Some(y))
    ensures y in seen ==> UpClosed(nodes, seen, None) && ClimbedAbove(nodes, seen, t)
  {
    ParentStaysInTree(nodes, targets[0], x);
    ClosedStep(nodes, seen, x, y);
    if y in seen {
      ClimbedStep(nodes, seen, seen, t, n, y);
      ClimbDone(nodes, seen, t, n + 1, y);
    }
  }

  /** Climbing onto `y`, not climbed through before, and listing it if it qualifies keeps the climb state. */
  lemma ClimbAdvance(nodes: seq<Node>, targets: seq<NodeId>, m: Matching, sourceTree: NodeId, d: NodeId, t: NodeId,
                     seen0: set<NodeId>, seen: set<NodeId>, cands: seq<MatchingPair>, x: NodeId, n: nat, y: NodeId,
                     cands': seq<MatchingPair>)
    requires WellFormed(nodes) && Closed(nodes) && IsTree(nodes, targets) && nodes[targets[0]].parent.None?
    requires sourceTree < |nodes| && t < |nodes|
    requires Climbing(nodes, targets, m, sourceTree, d, t, seen0, seen, cands, x, n) && nodes[x].parent == Some(y)
    requires y !in seen
    requires cands' == if y !in m.st && y !in m.ts && CanMatch(nodes[sourceTree], nodes[y])
                       then cands + [MatchingPair(sourceTree, y)] else cands
    ensures Climbing(nodes, targets, m, sourceTree, d, t, seen0, seen + {y}, cands', y, n + 1)
  {
    ClimbOnto(nodes, targets, m, sourceTree, d, t, seen0, seen, cands, x, n, y);
    CollectStep(nodes, targets, m, sourceTree, d, n + 1, y, seen, cands, cands');
    ClimbedStep(nodes, seen, seen + {y}, t, n, y);
    assert d in Descendants(nodes, sourceTree) && d in m.st && m.st[d] == t;
    assert y < |nodes| && y in targets && Up(nodes, t, n + 1) == Some(y);
    assert Collected(nodes, targets, m, sourceTree, seen + {y}, cands');
    assert UpClosed(nodes, seen + {y}, Some(y));
    assert Complete(nodes, m, sourceTree, seen + {y}, cands');
    assert seen0 <= seen + {y} && ClimbedTo(nodes, seen + {y}, t, n + 1);
  }

  /**
   * The inner loop of `_find_candidate_container_matches`: climbs from `t`, the partner of the
   * descendant `d`, until the root or a node climbed through before, collecting every
   * unmatched node of the source node's kind. Since the climbed nodes are closed under
   * parents, stopping at one climbed before loses nothing: afterwards every node above `t`
   * is climbed through, and every one that qualifies is listed.
   */
  method ClimbFrom(nodes: seq<Node>, targets: seq<NodeId>, m: Matching, sourceTree: NodeId, d: NodeId, t: NodeId,
                   seen: set<NodeId>, cands: seq<MatchingPair>) returns (seen': set<NodeId>, cands': seq<MatchingPair>)
    requires WellFormed(nodes) && Closed(nodes) && IsTree(nodes, targets) && nodes[targets[0]].parent.None?
    requires sourceTree < |nodes| && d in Descendants(nodes, sourceTree) && d in m.st && m.st[d] == t
    requires t in targets && t < |nodes|
    requires Collected(nodes, targets, m, sourceTree, seen, cands)
    requires UpClosed(nodes, seen, None) && Complete(nodes, m, sourceTree, seen, cands)
    ensures Collected(nodes, targets, m, sourceTree, seen', cands')
    ensures UpClosed(nodes, seen', None) && Complete(nodes, m, sourceTree, seen', cands')
    ensures seen <= seen' && ClimbedAbove(nodes, seen', t)
  {
    seen', cands' := seen, cands;
    var x: NodeId := t;
    ghost var n: nat := 0;
    ghost var stopped := false;
    while nodes[x].parent.Some?
      invariant Climbing(nodes, targets, m, sourceTree, d, t, seen, seen', cands', x, n)
      decreases IdsBelow(|nodes|) - seen'
    {
      ghost var below := x;
      x := nodes[x].parent.value;
      ClimbOnto(nodes, targets, m, sourceTree, d, t, seen, seen', cands', below, n, x);
      if x in seen' {
        stopped := true;
        break;
      }
      ghost var before := cands';
      if x !in m.st && x !in m.ts && CanMatch(nodes[sourceTree], nodes[x]) {
        cands' := cands' + [MatchingPair(sourceTree, x)];
      }
      ClimbAdvance(nodes, targets, m, sourceTree, d, t, seen, seen', before, below, n, x, cands');
      seen' := seen' + {x};
      n := n + 1;
    }
    if !stopped {
      ClosedAtRoot(nodes, seen', x);
      ClimbDone(nodes, seen', t, n, x);
    }
  }

  // ---------------------------------------------------------------------------------------
  // GumTreeMatcher

  /**
   * `GumTreeMatcher`: the three settings, and after `prepare` the context, its matching set
   * and the dice cache keyed by the hashcodes of the compared nodes.
   */
  class GumTreeMatcher {
    const minHeight: int
    const maxSize: int
    const minDice: real
    var context: DiffContext?
    var matching: MatchingSet?
    var diceCache: map<(int, int), real>

    constructor(minHeight: int, maxSize: int, minDice: real)
      ensures this.minHeight == minHeight && this.maxSize == maxSize && this.minDice == minDice
      ensures context == null && matching == null && diceCache == map[]
    {
      this.minHeight, this.maxSize, this.minDice := minHeight, maxSize, minDice;
      context, matching, diceCache := null, null, map[];
    }

    /** The arena of the context. */
    function Nodes(): seq<Node>
      requires context != null
      reads this, context, context.forest
    {
      context.forest.nodes
    }

    /** The context is bound to the given arena and registries. */
    ghost predicate Bound(nodes: seq<Node>, sources: seq<NodeId>, targets: seq<NodeId>)
      reads this, context
      reads if context != null then {context.forest} else {}
    {
      context != null && Nodes() == nodes && context.sourceNodes == sources && context.targetNodes == targets
    }

    /**
     * The matcher is prepared: the context is ready, its matching set is the matcher's,
     * every recorded pair fits and every cached dice value lies between 0 and 1.
     */
    predicate Valid()
      reads this, context, matching
      reads if context != null then {context.forest} else {}
    {
      && context != null && matching != null && context.matching == matching
      && Ready(context.forest.nodes, context.sourceNodes, context.targetNodes)
      && matching.Valid()
      && Fits(context.forest.nodes, context.sourceNodes, context.targetNodes, matching.Value())
      && CacheInRange(diceCache)
    }

    /** `prepare`: binds the context and a fresh, empty matching set, and empties the cache. */
    method Prepare(c: DiffContext)
      requires Ready(c.forest.nodes, c.sourceNodes, c.targetNodes)
      modifies this, c
      ensures context == c && matching == c.matching && fresh(matching)
      ensures c.forest == old(c.forest) && c.sourceNodes == old(c.sourceNodes) && c.targetNodes == old(c.targetNodes)
      ensures matching.Value() == EmptyMatching && diceCache == map[]
      ensures Valid()
    {
      context := c;
      matching := new MatchingSet();
      c.matching := matching;
      diceCache := map[];
    }

    /**
     * `_dice_coefficient`: a cached value when the hashcodes of the compared nodes were seen
     * before; otherwise the coefficient on the current matching, cached unless the division
     * raised (None).
     */
    method Dice(p: MatchingPair, compareParents: bool) returns (d: Option<real>)
      requires Valid() && p.source in context.sourceNodes && p.target in context.targetNodes
      modifies this
      ensures Valid() && context == old(context) && matching == old(matching)
      ensures d.Some? ==> 0.0 <= d.value <= 1.0
      ensures !compareParents && Nodes()[p.source].children != [] ==> d.Some?
      ensures var nodes := Nodes();
        var a, b := DiceNode(nodes, p.source, compareParents), DiceNode(nodes, p.target, compareParents);
        var key := CacheKey(nodes, a, b);
        if key in old(diceCache) then d == Some(old(diceCache)[key]) && diceCache == old(diceCache)
        else
          && d == DiceValue(nodes, matching.Value(), a, b)
          && diceCache == if d.Some? then old(diceCache)[key := d.value] else old(diceCache)
    {
      var nodes := context.forest.nodes;
      var a := DiceNode(nodes, p.source, compareParents);
      var b := DiceNode(nodes, p.target, compareParents);
      var key := CacheKey(nodes, a, b);
      if key in diceCache {
        return Some(diceCache[key]);
      }
      d := DiceValue(nodes, matching.Value(), a, b);
      DiceInUnitInterval(nodes, matching.Value(), a, b);
      if !compareParents && nodes[p.source].children != [] {
        DiceDefinedWithChildren(nodes, matching.Value(), a, b);
      }
      if d.Some? {
        diceCache := diceCache[key := d.value];
      }
    }

    /**
     * `_find_candidate_container_matches`: for each descendant of the source node that has
     * a partner, the nodes met climbing from that partner; each candidate is listed once.
     */
    method FindCandidateContainerMatches(sourceTree: NodeId) returns (cands: seq<MatchingPair>)
      requires Valid() && sourceTree in context.sourceNodes
      ensures NoDup(cands)
      ensures forall p | p in cands :: ContainerCandidate(Nodes(), context.targetNodes, matching.Value(), sourceTree, p)
      ensures forall p | ContainerCandidate(Nodes(), context.targetNodes, matching.Value(), sourceTree, p) :: p in cands
    {
      var nodes := context.forest.nodes;
      var sources, targets := context.sourceNodes, context.targetNodes;
      var m := matching.Value();
      FitsTargets(nodes, sources, targets, m);
      InTree(nodes, sources, sourceTree);
      var ds := Descendants(nodes, sourceTree);
      var seen: set<NodeId> := {};
      cands := [];
      for i := 0 to |ds|
        invariant Collected(nodes, targets, m, sourceTree, seen, cands)
        invariant UpClosed(nodes, seen, None) && Complete(nodes, m, sourceTree, seen, cands)
        invariant ClimbedFrom(nodes, m, ds, i, seen)
      {
        var d := ds[i];
        assert d in PreOrder(nodes, sourceTree);
        var partner := context.Partner(d);
        ghost var seen0 := seen;
        if partner.Some? {
          assert d in m.st;
          assert PairFits(nodes, sources, targets, MatchingPair(d, m.st[d]));
          seen, cands := ClimbFrom(nodes, targets, m, sourceTree, d, partner.value, seen, cands);
        }
        ClimbedFromStep(nodes, m, ds, i, seen0, seen);
      }
      CandidatesComplete(nodes, targets, m, sourceTree, seen, cands);
    }

    /** `max(source.metadata.size, target.metadata.size) >= max_size`: recovery skips the pair. */
    predicate TooLarge(p: MatchingPair)
      requires Valid() && p.source < |Nodes()| && p.target < |Nodes()|
      reads this, context, matching, context.forest
    {
      SizeOf(Nodes(), p.source) >= maxSize || SizeOf(Nodes(), p.target) >= maxSize
    }

    /**
     * `_attempt_recovery_matching`: unless either subtree is too large, LCS matching among
     * the children under `isomorphic_to`, then under `isomorphic_to_without_values`, then
     * histogram matching. Every pair it records lies strictly below the given pair, and
     * nothing recorded is dropped. False stands for an assertion that fails on the way.
     */
    method Recovery(p: MatchingPair) returns (ok: bool)
      requires Valid() && p.source in context.sourceNodes && p.target in context.targetNodes
      modifies matching
      ensures Valid()
      ensures AddedBelow(Nodes(), old(matching.Value()), matching.Value(), p.source, p.target)
      ensures Kept(old(matching.Value()), matching.Value())
      ensures TooLarge(p) ==> ok && matching.Value() == old(matching.Value())
      ensures p.source < |Nodes()| && p.target < |Nodes()|
      ensures (matching.Value(), ok) == RecoveryOf(Nodes(), maxSize, old(matching.Value()), p.source, p.target)
      decreases |context.forest.nodes| - p.source, 1
    {
      var nodes := context.forest.nodes;
      if SizeOf(nodes, p.source) >= maxSize || SizeOf(nodes, p.target) >= maxSize {
        return true;
      }
      ghost var start := matching.Value();
      ok := LcsPasses(p.source, p.target);
      if !ok {
        return;
      }
      ghost var mid := matching.Value();
      ok := HistogramRecovery(p.source, p.target);
      AddedBelowTrans(nodes, start, mid, matching.Value(), p.source, p.target);
    }

    /**
     * The two LCS passes of `_attempt_recovery_matching`: under `isomorphic_to`, then,
     * unless an assertion failed, under `isomorphic_to_without_values`.
     */
    method LcsPasses(s: NodeId, t: NodeId) returns (ok: bool)
      requires Valid() && s in context.sourceNodes && t in context.targetNodes
      modifies matching
      ensures Valid()
      ensures AddedBelow(Nodes(), old(matching.Value()), matching.Value(), s, t)
      ensures Kept(old(matching.Value()), matching.Value())
      ensures s < |Nodes()| && t < |Nodes()|
      ensures var r1 := LcsMatching(Nodes(), old(matching.Value()), s, t, true);
              (matching.Value(), ok) == if !r1.1 then r1 else LcsMatching(Nodes(), r1.0, s, t, false)
    {
      var nodes := context.forest.nodes;
      InTree(nodes, context.sourceNodes, s);
      InTree(nodes, context.targetNodes, t);
      ghost var start := matching.Value();
      ok := LcsRecovery(s, t, true);
      if !ok {
        return;
      }
      ghost var mid := matching.Value();
      ok := LcsRecovery(s, t, false);
      AddedBelowTrans(nodes, start, mid, matching.Value(), s, t);
    }

    /**
     * `_attempt_longest_common_subsequence_matching`: pairs the unmatched children of `s`
     * and `t` along their longest common subsequence under `isomorphic_to` (or, without
     * `withValues`, `isomorphic_to_without_values`); a pair with a matched node anywhere in
     * either subtree is skipped, and every other pair has its subtrees matched node by node.
     */
    method LcsRecovery(s: NodeId, t: NodeId, withValues: bool) returns (ok: bool)
      requires Valid() && s in context.sourceNodes && t in context.targetNodes
      modifies matching
      ensures Valid()
      ensures AddedBelow(Nodes(), old(matching.Value()), matching.Value(), s, t)
      ensures Kept(old(matching.Value()), matching.Value())
      ensures (matching.Value(), ok) == LcsMatching(Nodes(), old(matching.Value()), s, t, withValues)
    {
      var nodes := context.forest.nodes;
      var sources, targets := context.sourceNodes, context.targetNodes;
      InTree(nodes, sources, s);
      InTree(nodes, targets, t);
      ghost var start := matching.Value();
      var sc := UnmatchedIn(matching.Value(), nodes[s].children);
      var tc := UnmatchedIn(matching.Value(), nodes[t].children);
      var pairs := ChildLcs(sc, tc, ChildEquality(nodes, withValues));
      assert pairs == LcsPairs(sc, tc, ChildEquality(nodes, withValues));
      LcsMatchingIs(nodes, start, s, t, withValues);
      ok := MatchChildPairs(s, t, pairs);
    }

    /** The loop of `_attempt_longest_common_subsequence_matching` over the child pairs of `s` and `t`. */
    method MatchChildPairs(s: NodeId, t: NodeId, pairs: seq<(NodeId, NodeId)>) returns (ok: bool)
      requires Valid() && s in context.sourceNodes && t in context.targetNodes
      requires forall k | 0 <= k < |pairs| :: pairs[k].0 in Nodes()[s].children && pairs[k].1 in Nodes()[t].children
      modifies matching
      ensures Valid()
      ensures AddedBelow(Nodes(), old(matching.Value()), matching.Value(), s, t)
      ensures Kept(old(matching.Value()), matching.Value())
      ensures PairsIn(Nodes(), pairs) && (matching.Value(), ok) == LcsFold(Nodes(), old(matching.Value()), pairs)
    {
      ghost var nodes := Nodes();
      ghost var start := matching.Value();
      forall k | 0 <= k < |pairs| ensures pairs[k].0 < |nodes| && pairs[k].1 < |nodes| {
        ChildBelow(nodes, s, pairs[k].0);
        ChildBelow(nodes, t, pairs[k].1);
      }
      for i := 0 to |pairs|
        invariant Valid() && Nodes() == nodes
        invariant AddedBelow(nodes, start, matching.Value(), s, t) && Kept(start, matching.Value())
        invariant PairsIn(nodes, pairs[..i]) && LcsFold(nodes, start, pairs[..i]) == (matching.Value(), true)
      {
        LcsFoldPrefix(nodes, start, pairs, i);
        ghost var m := matching.Value();
        ok := MatchChildren(s, t, pairs[i].0, pairs[i].1);
        AddedBelowTrans(nodes, start, m, matching.Value(), s, t);
        if !ok {
          LcsFoldStops(nodes, start, pairs, i + 1);
          return;
        }
      }
      assert pairs[..|pairs|] == pairs;
      ok := true;
    }

    /**
     * `matching_set.update(self._descendant_matches(match))`: records the pairs of the two
     * subtrees zipped node by node, in pre-order, stopping where an assertion of either
     * fails (false). On success the pair itself is recorded.
     */
    method MatchSubtrees(s: NodeId, t: NodeId) returns (ok: bool)
      requires Valid() && s in context.sourceNodes && t in context.targetNodes
      modifies matching
      ensures Valid() && Kept(old(matching.Value()), matching.Value())
      ensures var dm := DescendantMatches(Nodes(), s, t);
        var added := AddAll(old(matching.Value()), dm.0);
        matching.Value() == added.0 && (ok <==> added.1 && dm.1)
      ensures ok ==> Paired(matching.Value(), s, t) && SubtreeMatched(Nodes(), matching.Value(), s, t)
    {
      var nodes := context.forest.nodes;
      var sources, targets := context.sourceNodes, context.targetNodes;
      InTree(nodes, sources, s);
      InTree(nodes, targets, t);
      DescendantPairsFit(nodes, sources, targets, s, t);
      var dm := DescendantMatches(nodes, s, t);
      ghost var m0 := matching.Value();
      AddAllFits(nodes, sources, targets, m0, dm.0);
      AddAllFrom(m0, dm.0);
      AddAllKeepsBijection(m0, dm.0);
      ok := matching.Update(dm.0);
      SubtreeUpdateMatches(nodes, m0, s, t);
      ok := ok && dm.1;
    }

    /**
     * One step of `_attempt_longest_common_subsequence_matching`: unless a node of either
     * subtree already has a partner, matches the two subtrees with `update`.
     */
    method MatchChildren(s: NodeId, t: NodeId, a: NodeId, b: NodeId) returns (ok: bool)
      requires Valid() && s in context.sourceNodes && t in context.targetNodes
      requires a in Nodes()[s].children && b in Nodes()[t].children
      modifies matching
      ensures Valid()
      ensures AddedBelow(Nodes(), old(matching.Value()), matching.Value(), s, t)
      ensures Kept(old(matching.Value()), matching.Value())
      ensures var m := old(matching.Value());
        AnyMatched(m, PreOrder(Nodes(), a)) || AnyMatched(m, PreOrder(Nodes(), b)) ==> ok && matching.Value() == m
      ensures (matching.Value(), ok) == LcsStep(Nodes(), old(matching.Value()), a, b)
    {
      var nodes := context.forest.nodes;
      var sources, targets := context.sourceNodes, context.targetNodes;
      InTree(nodes, sources, s);
      InTree(nodes, targets, t);
      DescendantPairsBelow(nodes, s, t, a, b);
      var m := matching.Value();
      if AnyMatched(m, PreOrder(nodes, a)) || AnyMatched(m, PreOrder(nodes, b)) {
        return true;
      }
      AddAllBelow(nodes, m, DescendantMatches(nodes, a, b).0, s, t);
      InTree(nodes, sources, a);
      InTree(nodes, targets, b);
      ok := MatchSubtrees(a, b);
    }

    /**
     * `_attempt_histogram_matching`: for each label among the children of `s`, in the
     * order first seen, when exactly one child of `s` and exactly one child of `t` carry it
     * and neither is matched, pairs them and recovers below that pair.
     */
    method HistogramRecovery(s: NodeId, t: NodeId) returns (ok: bool)
      requires Valid() && s in context.sourceNodes && t in context.targetNodes
      modifies matching
      ensures Valid()
      ensures AddedBelow(Nodes(), old(matching.Value()), matching.Value(), s, t)
      ensures Kept(old(matching.Value()), matching.Value())
      ensures s < |Nodes()| && t < |Nodes()|
      ensures (matching.Value(), ok)
           == HistogramOf(Nodes(), maxSize, old(matching.Value()), s, t, |GroupKeys(Nodes()[s].children, KindIn(Nodes()))|)
      decreases |context.forest.nodes| - s, 0, 3
    {
      var nodes := context.forest.nodes;
      var sources, targets := context.sourceNodes, context.targetNodes;
      InTree(nodes, sources, s);
      InTree(nodes, targets, t);
      var skeys, sgroups := GroupBy(nodes[s].children, KindIn(nodes));
      var _, tgroups := GroupBy(nodes[t].children, KindIn(nodes));
      ok := HistogramLabels(s, t, skeys, sgroups, tgroups);
    }

    /** The loop of `_attempt_histogram_matching` over the labels of the children of `s`. */
    method HistogramLabels(s: NodeId, t: NodeId, skeys: seq<string>, sgroups: map<string, seq<NodeId>>,
                           tgroups: map<string, seq<NodeId>>) returns (ok: bool)
      requires Valid() && s in context.sourceNodes && t in context.targetNodes
      requires s < |Nodes()| && t < |Nodes()| && LabelGroups(Nodes(), s, t, skeys, sgroups, tgroups)
      modifies matching
      ensures Valid()
      ensures AddedBelow(Nodes(), old(matching.Value()), matching.Value(), s, t)
      ensures Kept(old(matching.Value()), matching.Value())
      ensures (matching.Value(), ok) == HistogramOf(Nodes(), maxSize, old(matching.Value()), s, t, |skeys|)
      decreases |context.forest.nodes| - s, 0, 2
    {
      ghost var nodes := Nodes();
      ghost var start := matching.Value();
      ok := true;
      var i := 0;
      while i < |skeys| && ok
        invariant i <= |skeys| && Valid() && Nodes() == nodes
        invariant AddedBelow(nodes, start, matching.Value(), s, t) && Kept(start, matching.Value())
        invariant ok ==> HistogramOf(nodes, maxSize, start, s, t, i) == (matching.Value(), true)
        invariant !ok ==> HistogramOf(nodes, maxSize, start, s, t, |skeys|) == (matching.Value(), false)
      {
        ok := HistogramLabel(s, t, skeys, sgroups, tgroups, i, start);
        i := i + 1;
      }
    }

    /**
     * Label `skeys[i]` of `_attempt_histogram_matching`, after the labels before it left
     * the matching at `HistogramOf(..., i)`: on success the matching is `HistogramOf(..., i + 1)`,
     * on failure it is what the whole histogram pass yields.
     */
    method HistogramLabel(s: NodeId, t: NodeId, skeys: seq<string>, sgroups: map<string, seq<NodeId>>,
                          tgroups: map<string, seq<NodeId>>, i: nat, ghost start: Matching) returns (ok: bool)
      requires Valid() && s in context.sourceNodes && t in context.targetNodes
      requires s < |Nodes()| && t < |Nodes()| && LabelGroups(Nodes(), s, t, skeys, sgroups, tgroups) && i < |skeys|
      requires AddedBelow(Nodes(), start, matching.Value(), s, t) && Kept(start, matching.Value())
      requires HistogramOf(Nodes(), maxSize, start, s, t, i) == (matching.Value(), true)
      modifies matching
      ensures Valid()
      ensures AddedBelow(Nodes(), start, matching.Value(), s, t) && Kept(start, matching.Value())
      ensures ok ==> HistogramOf(Nodes(), maxSize, start, s, t, i + 1) == (matching.Value(), true)
      ensures !ok ==> HistogramOf(Nodes(), maxSize, start, s, t, |skeys|) == (matching.Value(), false)
      decreases |context.forest.nodes| - s, 0, 1
    {
      ghost var nodes := Nodes();
      var k := skeys[i];
      assert k in skeys;
      var tg := if k in tgroups then tgroups[k] else [];
      if k !in tgroups {
        FilterEmpty(nodes[t].children, KindIn(nodes), k);
      }
      ghost var m := matching.Value();
      ok := HistogramGroups(s, t, sgroups[k], tg, k);
      AddedBelowTrans(nodes, start, m, matching.Value(), s, t);
      HistogramAfter(nodes, maxSize, start, s, t, i, m, (matching.Value(), ok));
    }

    /** One label `k` of `_attempt_histogram_matching`, given the children of `s` and `t` that carry it. */
    method HistogramGroups(s: NodeId, t: NodeId, sg: seq<NodeId>, tg: seq<NodeId>, ghost k: string)
      returns (ok: bool)
      requires Valid() && s in context.sourceNodes && t in context.targetNodes
      requires s < |Nodes()| && t < |Nodes()|
      requires sg == Filter(Nodes()[s].children, KindIn(Nodes()), k)
      requires tg == Filter(Nodes()[t].children, KindIn(Nodes()), k)
      modifies matching
      ensures Valid()
      ensures AddedBelow(Nodes(), old(matching.Value()), matching.Value(), s, t)
      ensures Kept(old(matching.Value()), matching.Value())
      ensures (matching.Value(), ok) == HistogramStep(Nodes(), maxSize, old(matching.Value()), s, t, k)
      decreases |context.forest.nodes| - s, 0, 0
    {
      ghost var nodes, m := Nodes(), matching.Value();
      HistogramStepIs(nodes, maxSize, m, s, t, k, sg, tg);
      ok := true;
      if |sg| == 1 && |tg| == 1 {
        var p := MatchingPair(sg[0], tg[0]);
        if !matching.Matched(p) {
          ok := HistogramPair(s, t, p);
        }
      }
    }

    /**
     * One label of `_attempt_histogram_matching`: the only children of `s` and `t` that
     * carry it, neither matched, are paired, and recovery runs below the new pair.
     */
    method HistogramPair(s: NodeId, t: NodeId, p: MatchingPair) returns (ok: bool)
      requires Valid() && s in context.sourceNodes && t in context.targetNodes
      requires s < |Nodes()| && t < |Nodes()|
      requires p.source in Nodes()[s].children && p.target in Nodes()[t].children
      requires p.source < |Nodes()| && p.target < |Nodes()| && CanMatch(Nodes()[p.source], Nodes()[p.target])
      requires !matching.Matched(p)
      modifies matching
      ensures Valid()
      ensures AddedBelow(Nodes(), old(matching.Value()), matching.Value(), s, t)
      ensures Kept(old(matching.Value()), matching.Value())
      ensures Paired(matching.Value(), p.source, p.target)
      ensures (matching.Value(), ok) == RecoveryOf(Nodes(), maxSize, With(old(matching.Value()), p), p.source, p.target)
      decreases |context.forest.nodes| - p.source, 2
    {
      var nodes := context.forest.nodes;
      var sources, targets := context.sourceNodes, context.targetNodes;
      InTree(nodes, sources, s);
      InTree(nodes, targets, t);
      ChildBelow(nodes, s, p.source);
      ChildBelow(nodes, t, p.target);
      ghost var m0 := matching.Value();
      WithKeeps(nodes, sources, targets, m0, p, s, t);
      var added := matching.Add(p);
      ghost var m1 := matching.Value();
      ok := Recovery(p);
      BelowWithinAll(nodes, m1, matching.Value(), p, s, t);
      AddedBelowTrans(nodes, m0, m1, matching.Value(), s, t);
    }

    // -------------------------------------------------------------------------------------
    // match_anchors

    /**
     * The `unique_mappings` loop of the equal-height branch: the two nodes of every
     * one-to-one mapping have their subtrees matched with `update`. On success each of
     * those pairs is recorded.
     */
    method MatchUnique(store: MappingStore, ls: seq<NodeId>, lt: seq<NodeId>) returns (ok: bool)
      requires Valid() && store.Valid() && StoredFrom(store.mappings, ls, lt)
      requires forall x | x in ls :: x in context.sourceNodes
      requires forall y | y in lt :: y in context.targetNodes
      modifies matching
      ensures Valid() && Kept(old(matching.Value()), matching.Value())
      ensures ok ==> forall u | u in store.UniqueMappings() :: PairedFirst(matching.Value(), u)
      ensures ok ==> forall u | u in store.UniqueMappings() :: AnchoredFirst(Nodes(), matching.Value(), u)
    {
      ghost var nodes := Nodes();
      ghost var start := matching.Value();
      var unique := store.UniqueMappings();
      StoredUniques(store, ls, lt);
      for k := 0 to |unique|
        invariant Valid() && Nodes() == nodes && Kept(start, matching.Value())
        invariant forall j | 0 <= j < k :: AnchoredFirst(nodes, matching.Value(), unique[j])
      {
        assert unique[k] in unique;
        ghost var m := matching.Value();
        ok := MatchSubtrees(unique[k].sourceIds[0], unique[k].targetIds[0]);
        KeptTrans(start, m, matching.Value());
        if !ok {
          return;
        }
        AnchoredUpToStep(nodes, m, matching.Value(), unique, k);
      }
      ok := true;
    }

    /**
     * The equal-height branch of `match_anchors`: pops the tallest layer of both queues,
     * groups the popped nodes by hashcode, matches the one-to-one mappings, opens the nodes
     * of the mappings with an empty side and returns the duplicate mappings as candidates.
     * On success, stated on the popped layers `ls` and `lt`: two nodes alone with their
     * hashcode in the two layers are recorded as a pair; the mappings found are exactly the
     * duplicate hashcodes; each queue keeps its shorter entries followed by the children of
     * its popped nodes whose hashcode the other layer lacks. Both queues together lose
     * weight. False stands for popping two empty queues, which raises, or for a failed
     * assertion while matching.
     */
    method MatchLayer(ghost nodes: seq<Node>, ghost sources: seq<NodeId>, ghost targets: seq<NodeId>,
                      sq: HeightQueue, tq: HeightQueue)
      returns (ok: bool, found: seq<Mapping>, ghost ls: seq<NodeId>, ghost lt: seq<NodeId>,
               ghost openedS: seq<NodeId>, ghost openedT: seq<NodeId>)
      requires Valid() && sq != tq && sq.PeekMax() == tq.PeekMax()
      requires Nodes() == nodes && context.sourceNodes == sources && context.targetNodes == targets
      requires Queued(nodes, sources, sq.entries) && Queued(nodes, targets, tq.entries)
      modifies matching, sq, tq
      ensures Valid() && Kept(old(matching.Value()), matching.Value())
      ensures Queued(nodes, sources, sq.entries) && Queued(nodes, targets, tq.entries)
      ensures AllIn(nodes, Ids(sq.entries)) && AllIn(nodes, Ids(tq.entries))
      ensures AllIn(nodes, Ids(old(sq.entries))) && AllIn(nodes, Ids(old(tq.entries)))
      ensures ok ==>
        Weight(nodes, Ids(sq.entries)) + Weight(nodes, Ids(tq.entries))
        < Weight(nodes, Ids(old(sq.entries))) + Weight(nodes, Ids(old(tq.entries)))
      ensures forall c | c in found :: Candidate(nodes, sources, targets, c)
      ensures ok ==> Opened(nodes, old(sq.entries), sq.entries, ls, openedS)
      ensures ok ==> Opened(nodes, old(tq.entries), tq.entries, lt, openedT)
      ensures ok ==> AnchorsPaired(nodes, matching.Value(), ls, lt)
      ensures ok ==> (forall c | c in found :: DuplicateGroup(nodes, ls, lt, c)) && DuplicatesCovered(nodes, ls, lt, found)
      ensures ok ==> NoDup(openedS) && (set x | x in openedS) == OneSided(nodes, ls, lt)
      ensures ok ==> NoDup(openedT) && (set y | y in openedT) == OneSided(nodes, lt, ls)
    {
      QueuedAllIn(nodes, sources, sq.entries);
      QueuedAllIn(nodes, targets, tq.entries);
      ls, lt, openedS, openedT := [], [], [], [];
      if sq.PeekMax() == 0 {
        ok, found := false, [];
        return;
      }
      var arena, sourceNodes, targetNodes := context.forest.nodes, context.sourceNodes, context.targetNodes;
      var popS, popT, store := PopLayers(arena, sourceNodes, targetNodes, sq, tq);
      ls, lt := popS, popT;
      ok, found, openedS, openedT := MatchPopped(nodes, sources, targets, store, popS, popT, sq, tq);
    }

    /**
     * The equal-height branch once both layers are popped and grouped: the one-to-one
     * mappings matched, then the one-sided mappings opened and the duplicate ones returned.
     */
    method MatchPopped(ghost nodes: seq<Node>, ghost sources: seq<NodeId>, ghost targets: seq<NodeId>,
                       store: MappingStore, ls: seq<NodeId>, lt: seq<NodeId>, sq: HeightQueue, tq: HeightQueue)
      returns (ok: bool, found: seq<Mapping>, ghost openedS: seq<NodeId>, ghost openedT: seq<NodeId>)
      requires Valid() && sq != tq
      requires Nodes() == nodes && context.sourceNodes == sources && context.targetNodes == targets
      requires Queued(nodes, sources, sq.entries) && Queued(nodes, targets, tq.entries)
      requires BuiltFrom(nodes, store, ls, lt)
      requires (forall x | x in ls :: x in sources) && (forall y | y in lt :: y in targets)
      requires ls != [] && lt != []
      modifies matching, sq, tq
      ensures Valid() && Kept(old(matching.Value()), matching.Value())
      ensures Queued(nodes, sources, sq.entries) && Queued(nodes, targets, tq.entries)
      ensures AllIn(nodes, Ids(sq.entries)) && AllIn(nodes, Ids(tq.entries))
      ensures ok ==>
        Weight(nodes, Ids(sq.entries)) + Weight(nodes, Ids(tq.entries))
        < Weight(nodes, Ids(old(sq.entries))) + Weight(nodes, ls) + Weight(nodes, Ids(old(tq.entries))) + Weight(nodes, lt)
      ensures forall c | c in found :: Candidate(nodes, sources, targets, c)
      ensures ok ==> AnchorsPaired(nodes, matching.Value(), ls, lt)
      ensures ok ==> (forall c | c in found :: DuplicateGroup(nodes, ls, lt, c)) && DuplicatesCovered(nodes, ls, lt, found)
      ensures ok ==> AllIn(nodes, openedS) && AllIn(nodes, openedT)
      ensures ok ==> sq.entries == old(sq.entries) + OpenedEntries(nodes, openedS)
      ensures ok ==> tq.entries == old(tq.entries) + OpenedEntries(nodes, openedT)
      ensures ok ==> NoDup(openedS) && (set x | x in openedS) == OneSided(nodes, ls, lt)
      ensures ok ==> NoDup(openedT) && (set y | y in openedT) == OneSided(nodes, lt, ls)
    {
      openedS, openedT := [], [];
      var arena, sourceNodes, targetNodes := context.forest.nodes, context.sourceNodes, context.targetNodes;
      QueuedAllIn(nodes, sources, sq.entries);
      QueuedAllIn(nodes, targets, tq.entries);
      ok := MatchUnique(store, ls, lt);
      if !ok {
        found := [];
        return;
      }
      UniquesAnchored(nodes, store, ls, lt, matching.Value());
      found, openedS, openedT := OpenAndCollect(arena, sourceNodes, targetNodes, store, sq, tq, ls, lt);
      DuplicatesStored(nodes, store, ls, lt);
    }

    /**
     * One round of the `match_anchors` loop: the taller layer popped and opened, or, for
     * two layers of equal height, those layers matched as `MatchLayer` states. On success
     * `round` records the round as `RoundOf` describes it, and the unique pairs of an
     * equal-height round are paired. The queues lose weight together.
     */
    method AnchorStep(ghost nodes: seq<Node>, ghost sources: seq<NodeId>, ghost targets: seq<NodeId>,
                      sq: HeightQueue, tq: HeightQueue)
      returns (ok: bool, found: seq<Mapping>, ghost round: Round)
      requires Valid() && sq != tq
      requires Nodes() == nodes && context.sourceNodes == sources && context.targetNodes == targets
      requires Queued(nodes, sources, sq.entries) && Queued(nodes, targets, tq.entries)
      modifies matching, sq, tq
      ensures Valid() && Kept(old(matching.Value()), matching.Value())
      ensures Queued(nodes, sources, sq.entries) && Queued(nodes, targets, tq.entries)
      ensures AllIn(nodes, Ids(sq.entries)) && AllIn(nodes, Ids(tq.entries))
      ensures AllIn(nodes, Ids(old(sq.entries))) && AllIn(nodes, Ids(old(tq.entries)))
      ensures ok ==>
        Weight(nodes, Ids(sq.entries)) + Weight(nodes, Ids(tq.entries))
        < Weight(nodes, Ids(old(sq.entries))) + Weight(nodes, Ids(old(tq.entries)))
      ensures forall c | c in found :: Candidate(nodes, sources, targets, c)
      ensures ok ==> round.sBefore == old(sq.entries) && round.tBefore == old(tq.entries)
      ensures ok ==> round.sAfter == sq.entries && round.tAfter == tq.entries && round.found == found
      ensures ok ==> RoundOf(nodes, round)
      ensures ok && EqualRound(round) ==> AnchorsPaired(nodes, matching.Value(), round.ls, round.lt)
    {
      QueuedAllIn(nodes, sources, sq.entries);
      QueuedAllIn(nodes, targets, tq.entries);
      ghost var s0, t0 := sq.entries, tq.entries;
      if sq.PeekMax() != tq.PeekMax() {
        round := OpenTaller(context.forest.nodes, context.sourceNodes, context.targetNodes, sq, tq);
        ok, found := true, [];
      } else {
        ghost var ls, lt, openedS, openedT;
        ok, found, ls, lt, openedS, openedT := MatchLayer(nodes, sources, targets, sq, tq);
        round := Round(s0, t0, ls, lt, openedS, openedT, found, sq.entries, tq.entries);
      }
    }

    /**
     * `match_anchors` from the roots of the context: the queues start with the two roots,
     * the rounds of `CollectAnchors` run while both tallest nodes reach `min_height`, and the
     * duplicate mappings they found are resolved. `rounds` are those rounds as `Ran`
     * describes them, chained from the two roots: in every equal-height round, two nodes
     * alone with their hashcode in both layers stay paired, and the candidates are the
     * mappings the rounds found (`FoundGroups` says what they hold). On success the last
     * round leaves a queue below `min_height`, the rounds hold already of `anchored`, the
     * matching they leave, and the final matching is `ResolveFold` from `anchored` over
     * `pss`, the sorted pairs of each candidate in the order of resolution; every
     * candidate is then resolved. False stands for an assertion or a division that fails.
     */
    method MatchAnchors() returns (ok: bool, ghost rounds: seq<Round>, ghost candidates: seq<Mapping>,
                                   ghost anchored: Matching, ghost pss: seq<seq<MatchingPair>>)
      requires Valid()
      modifies this, matching
      ensures Valid() && context == old(context) && matching == old(matching)
      ensures context.forest == old(context.forest)
      ensures context.sourceNodes == old(context.sourceNodes) && context.targetNodes == old(context.targetNodes)
      ensures Kept(old(matching.Value()), matching.Value())
      ensures var s0, t0 := old([Entry(Nodes(), context.sourceNodes[0])]), old([Entry(Nodes(), context.targetNodes[0])]);
        && Ran(old(Nodes()), matching.Value(), minHeight, rounds, s0, t0, candidates)
        && (ok ==> Stopped(rounds, s0, t0, minHeight))
        && (ok ==> Ran(old(Nodes()), anchored, minHeight, rounds, s0, t0, candidates))
      ensures ok ==> forall c | c in candidates :: Resolved(matching.Value(), c)
      ensures ok ==> var order := Seconds(SortDescending(KeyBySize(Nodes(), candidates)));
        && PairsOfEach(pss, order) && |pss| == |order| && PairsInRange(Nodes(), Concat(pss))
        && (matching.Value(), true) == ResolveFold(Nodes(), anchored, Concat(pss))
    {
      var nodes := context.forest.nodes;
      var sources, targets := context.sourceNodes, context.targetNodes;
      ghost var start := matching.Value();
      var sq, tq := RootQueues(nodes, sources, targets);
      var found;
      ok, found, rounds := CollectAnchors(nodes, sources, targets, sq, tq);
      candidates := found;
      anchored, pss := matching.Value(), [];
      if !ok {
        return;
      }
      ghost var m := matching.Value();
      var order;
      ok, order, pss := ResolveCandidates(found);
      KeptTrans(start, m, matching.Value());
      RanKept(nodes, m, matching.Value(), minHeight, rounds, [Entry(nodes, sources[0])], [Entry(nodes, targets[0])], candidates);
    }

    /**
     * The loop of `match_anchors`: while both queues hold a node at least `min_height`
     * tall, one round of `AnchorStep`, collecting the duplicate mappings it finds. The
     * queues lose weight with every round, so the loop ends, and on success it ends with a
     * queue whose tallest node is shorter than `min_height`. `rounds` are the rounds that
     * succeeded, in order, chained from the queues as given to the queues as left.
     */
    method CollectAnchors(ghost nodes: seq<Node>, ghost sources: seq<NodeId>, ghost targets: seq<NodeId>,
                          sq: HeightQueue, tq: HeightQueue)
      returns (ok: bool, candidates: seq<Mapping>, ghost rounds: seq<Round>)
      requires Valid() && sq != tq
      requires Nodes() == nodes && context.sourceNodes == sources && context.targetNodes == targets
      requires Queued(nodes, sources, sq.entries) && Queued(nodes, targets, tq.entries)
      modifies matching, sq, tq
      ensures Valid() && Kept(old(matching.Value()), matching.Value())
      ensures Bound(nodes, sources, targets)
      ensures forall c | c in candidates :: Candidate(nodes, sources, targets, c)
      ensures Ran(nodes, matching.Value(), minHeight, rounds, old(sq.entries), old(tq.entries), candidates)
      ensures ok ==> Ends(rounds, old(sq.entries), old(tq.entries)) == (sq.entries, tq.entries)
      ensures ok ==> Stopped(rounds, old(sq.entries), old(tq.entries), minHeight)
    {
      ghost var start := matching.Value();
      ghost var s0, t0 := sq.entries, tq.entries;
      candidates, rounds := [], [];
      QueuedAllIn(nodes, sources, sq.entries);
      QueuedAllIn(nodes, targets, tq.entries);
      ok := true;
      while sq.PeekMax() >= minHeight && tq.PeekMax() >= minHeight
        invariant Valid() && Bound(nodes, sources, targets)
        invariant Kept(start, matching.Value())
        invariant Queued(nodes, sources, sq.entries) && Queued(nodes, targets, tq.entries)
        invariant AllIn(nodes, Ids(sq.entries)) && AllIn(nodes, Ids(tq.entries))
        invariant forall c | c in candidates :: Candidate(nodes, sources, targets, c)
        invariant Ran(nodes, matching.Value(), minHeight, rounds, s0, t0, candidates)
        invariant Ends(rounds, s0, t0) == (sq.entries, tq.entries)
        decreases Weight(nodes, Ids(sq.entries)) + Weight(nodes, Ids(tq.entries))
      {
        WeightAtLeastLength(nodes, Ids(sq.entries));
        WeightAtLeastLength(nodes, Ids(tq.entries));
        ghost var m := matching.Value();
        var found;
        ghost var round;
        ok, found, round := AnchorStep(nodes, sources, targets, sq, tq);
        KeptTrans(start, m, matching.Value());
        RanKept(nodes, m, matching.Value(), minHeight, rounds, s0, t0, candidates);
        if !ok {
          return;
        }
        RanStep(nodes, matching.Value(), minHeight, rounds, s0, t0, candidates, round);
        rounds := rounds + [round];
        candidates := candidates + found;
      }
    }

    /**
     * The resolution loop of `match_anchors`: the candidate mappings, stably sorted by
     * `max_size` from the largest, each resolved in turn. `pss` are the sorted pairs of
     * the mappings reached, one list per mapping: the matching is `ResolveFold` over them
     * all, and the call succeeds exactly when that fold does and every mapping was reached.
     * On success every candidate is resolved.
     */
    method ResolveCandidates(candidates: seq<Mapping>) returns (ok: bool, order: seq<Mapping>, ghost pss: seq<seq<MatchingPair>>)
      requires Valid()
      requires forall c | c in candidates :: Candidate(Nodes(), context.sourceNodes, context.targetNodes, c)
      modifies this, matching
      ensures Valid() && context == old(context) && matching == old(matching)
      ensures Kept(old(matching.Value()), matching.Value())
      ensures ok ==> forall c | c in candidates :: Resolved(matching.Value(), c)
      ensures order == Seconds(SortDescending(KeyBySize(Nodes(), candidates)))
      ensures PairsOfEach(pss, order) && PairsInRange(Nodes(), Concat(pss))
      ensures matching.Value() == ResolveFold(Nodes(), old(matching.Value()), Concat(pss)).0
      ensures ok <==> ResolveFold(Nodes(), old(matching.Value()), Concat(pss)).1 && |pss| == |order|
    {
      var nodes := context.forest.nodes;
      ghost var start := matching.Value();
      var keyed := KeyBySize(nodes, candidates);
      order := Seconds(SortDescending(keyed));
      SortedSeconds(keyed, candidates);
      pss := [];
      ok := true;
      var i := 0;
      while i < |order| && ok
        invariant i <= |order|
        invariant Valid() && context == old(context) && matching == old(matching)
        invariant nodes == context.forest.nodes
        invariant Kept(start, matching.Value())
        invariant |pss| <= i && PairsOfEach(pss, order) && PairsInRange(nodes, Concat(pss))
        invariant matching.Value() == ResolveFold(nodes, start, Concat(pss)).0
        invariant ok ==> ResolvedUpTo(matching.Value(), order, i) && ResolveFold(nodes, start, Concat(pss)).1 && |pss| == i
        invariant !ok ==> !ResolveFold(nodes, start, Concat(pss)).1 || |pss| < i
      {
        assert order[i] in order;
        ghost var m := matching.Value();
        ghost var pairs := Product(order[i].sourceIds, order[i].targetIds);
        var weighted, ps;
        ok, weighted, ps := ResolveMapping(order[i]);
        KeptTrans(start, m, matching.Value());
        if |weighted| == |pairs| {
          ResolveFoldConcat(nodes, start, pss, ps);
          PairsOfEachStep(pss, order, ps);
          pss := pss + [ps];
        }
        if ok {
          ResolvedUpToStep(m, matching.Value(), order, i);
        }
        i := i + 1;
      }
      if ok {
        ResolvedCovers(matching.Value(), order, candidates);
      }
    }

    /**
     * One candidate mapping of `match_anchors`: every source-target pair of it, sorted by
     * the dice coefficient of their parents from the largest, has its subtrees matched
     * unless one of the two is matched already (`ResolveFold` over the sorted pairs). A
     * coefficient without a value fails before anything is matched. On success no pair of
     * the mapping is left with both nodes free.
     */
    method ResolveMapping(c: Mapping) returns (ok: bool, weighted: seq<(real, MatchingPair)>, ps: seq<MatchingPair>)
      requires Valid() && Candidate(Nodes(), context.sourceNodes, context.targetNodes, c)
      modifies this, matching
      ensures Valid() && context == old(context) && matching == old(matching) && Nodes() == old(Nodes())
      ensures Kept(old(matching.Value()), matching.Value())
      ensures ok ==> Resolved(matching.Value(), c)
      ensures var pairs := Product(c.sourceIds, c.targetIds);
        && |weighted| <= |pairs|
        && Weighed(old(diceCache), diceCache, pairs, ParentKeys(Nodes(), pairs),
                   ParentDice(Nodes(), old(matching.Value()), pairs), weighted)
        && (ok ==> |weighted| == |pairs| && ps == Seconds(SortDescending(weighted)))
        && (|weighted| < |pairs| ==> !ok && ps == [] && matching.Value() == old(matching.Value()))
        && (|weighted| == |pairs| ==>
              && ps == Seconds(SortDescending(weighted))
              && (forall p | p in ps :: p in pairs) && (forall p | p in pairs :: p in ps)
              && PairsInRange(Nodes(), ps)
              && (matching.Value(), ok) == ResolveFold(Nodes(), old(matching.Value()), ps))
    {
      var pairs := Product(c.sourceIds, c.targetIds);
      ProductMembers(c.sourceIds, c.targetIds);
      ok, weighted := WeighPairs(pairs);
      ps := [];
      if !ok {
        return;
      }
      ps := Seconds(SortDescending(weighted));
      ResolveOrder(c, context.sourceNodes, context.targetNodes, pairs, weighted, ps);
      SortedSeconds(weighted, pairs);
      ghost var nodes, cache := Nodes(), diceCache;
      ghost var weighed := Weighed(old(diceCache), diceCache, pairs, ParentKeys(nodes, pairs),
                                   ParentDice(nodes, old(matching.Value()), pairs), weighted);
      ok := AddResolved(c, ps);
      assert diceCache == cache && Nodes() == nodes && weighed;
    }

    /** The pairs of a mapping, best first, each added unless one side is matched already. */
    method AddResolved(c: Mapping, ps: seq<MatchingPair>) returns (ok: bool)
      requires Valid()
      requires forall p | p in ps :: p.source in context.sourceNodes && p.target in context.targetNodes
      requires forall x, y | x in c.sourceIds && y in c.targetIds :: MatchingPair(x, y) in ps
      modifies matching
      ensures context == old(context) && matching == old(matching) && diceCache == old(diceCache)
      ensures Nodes() == old(Nodes())
      ensures Valid() && Kept(old(matching.Value()), matching.Value())
      ensures ok ==> Resolved(matching.Value(), c)
      ensures PairsInRange(Nodes(), ps) && (matching.Value(), ok) == ResolveFold(Nodes(), old(matching.Value()), ps)
    {
      ok := MatchUnlessMatched(ps);
      if ok {
        MatchedCovers(matching.Value(), ps, c);
      }
    }

    /**
     * The sort key of the resolution loop: the dice coefficient of each pair's parents, in
     * order, read from the cache when its key is there. A coefficient without a value, a
     * division by zero in the source, ends the loop with `ok == false` at that pair.
     */
    method WeighPairs(pairs: seq<MatchingPair>) returns (ok: bool, weighted: seq<(real, MatchingPair)>)
      requires Valid()
      requires forall p | p in pairs :: p.source in context.sourceNodes && p.target in context.targetNodes
      modifies this
      ensures Valid() && context == old(context) && matching == old(matching)
      ensures |weighted| <= |pairs|
      ensures Weighed(old(diceCache), diceCache, pairs, ParentKeys(Nodes(), pairs),
                      ParentDice(Nodes(), matching.Value(), pairs), weighted)
      ensures ok ==> |weighted| == |pairs|
      ensures !ok ==> |weighted| < |pairs| && ParentDice(Nodes(), matching.Value(), pairs)[|weighted|].None?
    {
      var nodes := context.forest.nodes;
      var sources, targets := context.sourceNodes, context.targetNodes;
      ghost var keys := ParentKeys(nodes, pairs);
      ghost var dice := ParentDice(nodes, matching.Value(), pairs);
      weighted := [];
      for k := 0 to |pairs|
        invariant Valid() && context == old(context) && matching == old(matching)
        invariant nodes == context.forest.nodes && sources == context.sourceNodes && targets == context.targetNodes
        invariant |weighted| == k && Weighed(old(diceCache), diceCache, pairs, keys, dice, weighted)
      {
        assert pairs[k] in pairs;
        InTree(nodes, sources, pairs[k].source);
        InTree(nodes, targets, pairs[k].target);
        ghost var c := diceCache;
        var d := Dice(pairs[k], true);
        if d.None? {
          return false, weighted;
        }
        WeighedStep(old(diceCache), c, diceCache, pairs, keys, dice, weighted, d.value);
        weighted := weighted + [(d.value, pairs[k])];
      }
      ok := true;
    }

    /**
     * `for match in candidate_matches: if not matched(match): update(...)`: the pairs in the
     * order given, each skipped when a node of it is matched and otherwise given
     * `update(_descendant_matches(...))`, up to the first failed assertion. On success
     * every pair has a matched node.
     */
    method MatchUnlessMatched(ps: seq<MatchingPair>) returns (ok: bool)
      requires Valid()
      requires forall p | p in ps :: p.source in context.sourceNodes && p.target in context.targetNodes
      modifies matching
      ensures Valid() && Kept(old(matching.Value()), matching.Value())
      ensures ok ==> MatchedUpTo(matching.Value(), ps, |ps|)
      ensures PairsInRange(Nodes(), ps) && (matching.Value(), ok) == ResolveFold(Nodes(), old(matching.Value()), ps)
    {
      ghost var nodes := Nodes();
      ghost var start := matching.Value();
      forall k | 0 <= k < |ps| ensures ps[k].source < |nodes| && ps[k].target < |nodes| {
        assert ps[k] in ps;
        InTree(nodes, context.sourceNodes, ps[k].source);
        InTree(nodes, context.targetNodes, ps[k].target);
      }
      for i := 0 to |ps|
        invariant Valid() && Nodes() == nodes && Kept(start, matching.Value())
        invariant MatchedUpTo(matching.Value(), ps, i)
        invariant PairsInRange(nodes, ps[..i]) && ResolveFold(nodes, start, ps[..i]) == (matching.Value(), true)
      {
        assert ps[i] in ps;
        ResolveFoldPrefix(nodes, start, ps, i);
        ghost var m := matching.Value();
        if !matching.Matched(ps[i]) {
          ok := MatchSubtrees(ps[i].source, ps[i].target);
          KeptTrans(start, m, matching.Value());
          if !ok {
            ResolveFoldStops(nodes, start, ps, i + 1);
            return;
          }
        }
        MatchedUpToStep(m, matching.Value(), ps, i);
      }
      assert ps[..|ps|] == ps;
      ok := true;
    }

    // -------------------------------------------------------------------------------------
    // match_containers

    /**
     * `_attempt_recovery_matching(match)` followed by `add(match)` for a pair of free nodes:
     * the `add` cannot fail, since recovery only matches nodes strictly below the two.
     */
    method RecoverAndAdd(p: MatchingPair) returns (ok: bool)
      requires Valid() && p.source in context.sourceNodes && p.target in context.targetNodes
      requires PairFits(Nodes(), context.sourceNodes, context.targetNodes, p)
      requires p.source !in matching.Value().st && p.target !in matching.Value().ts
      modifies matching
      ensures Valid() && Kept(old(matching.Value()), matching.Value())
      ensures AddedFrom(old(matching.Value()), matching.Value(), p.source)
      ensures ok ==> Paired(matching.Value(), p.source, p.target)
      ensures ok ==> Kept(With(old(matching.Value()), p), matching.Value())
    {
      ghost var m0 := matching.Value();
      ok := Recovery(p);
      AddAfterRecovery(context.forest.nodes, context.sourceNodes, context.targetNodes, m0, matching.Value(), p);
      if !ok {
        return;
      }
      var added := matching.Add(p);
    }

    /**
     * The container step of `match_containers` for an unmatched source node with children:
     * among the candidates, the one with the largest dice coefficient (ties broken as
     * Python compares the tuples) is paired with it, after recovery below the two, when
     * that coefficient reaches `min_dice`; otherwise nothing changes. The candidates and
     * their weights, the dice coefficients on the matching at entry as the cache gives
     * them, are returned with the result.
     */
    method MatchContainer(x: NodeId) returns (ok: bool, cands: seq<MatchingPair>, weighted: seq<(real, MatchingPair)>)
      requires Valid() && x in context.sourceNodes && Nodes()[x].children != []
      requires x !in matching.Value().st && x !in matching.Value().ts
      modifies this, matching
      ensures Valid() && context == old(context) && matching == old(matching)
      ensures Kept(old(matching.Value()), matching.Value())
      ensures AddedFrom(old(matching.Value()), matching.Value(), x)
      ensures NoDup(cands)
      ensures forall p | p in cands :: ContainerCandidate(Nodes(), context.targetNodes, old(matching.Value()), x, p)
      ensures |weighted| == |cands|
      ensures Weighed(old(diceCache), diceCache, cands, CacheKeys(Nodes(), x, cands),
                      DiceValues(Nodes(), old(matching.Value()), x, cands), weighted)
      ensures Best(weighted).None? || Best(weighted).value.0 < minDice ==>
        ok && matching.Value() == old(matching.Value())
      ensures ok && Best(weighted).Some? && Best(weighted).value.0 >= minDice ==>
        Paired(matching.Value(), x, Best(weighted).value.1.target)
    {
      ghost var nodes, targets, m0 := Nodes(), context.targetNodes, matching.Value();
      cands := FindCandidateContainerMatches(x);
      weighted := WeighCandidates(x, cands);
      assert matching.Value() == m0 && Nodes() == nodes && context.targetNodes == targets;
      ghost var c := diceCache;
      ok := AddBest(x, cands, weighted);
      assert Nodes() == nodes && context.targetNodes == targets && diceCache == c;
    }

    /** The selection of `MatchContainer`: the best weighted candidate, when it reaches `min_dice`. */
    method AddBest(x: NodeId, cands: seq<MatchingPair>, ws: seq<(real, MatchingPair)>) returns (ok: bool)
      requires Valid() && x in context.sourceNodes
      requires x !in matching.Value().st && x !in matching.Value().ts
      requires forall p | p in cands :: ContainerCandidate(Nodes(), context.targetNodes, matching.Value(), x, p)
      requires |ws| == |cands| && forall j | 0 <= j < |ws| :: ws[j].1 == cands[j]
      modifies matching
      ensures Valid() && Kept(old(matching.Value()), matching.Value())
      ensures AddedFrom(old(matching.Value()), matching.Value(), x)
      ensures Best(ws).None? || Best(ws).value.0 < minDice ==> ok && matching.Value() == old(matching.Value())
      ensures ok && Best(ws).Some? && Best(ws).value.0 >= minDice ==> Paired(matching.Value(), x, Best(ws).value.1.target)
    {
      var best := Best(ws);
      if best.Some? && best.value.0 >= minDice {
        var p := best.value.1;
        var j :| 0 <= j < |ws| && ws[j] == best.value;
        assert p == cands[j] && p in cands;
        FitsTargets(context.forest.nodes, context.sourceNodes, context.targetNodes, matching.Value());
        ok := RecoverAndAdd(p);
      } else {
        ok := true;
      }
    }

    /**
     * One node of the `match_containers` walk. The root, while unmatched, is given recovery
     * with the target root and then added with it; the `add` assertion fails when the
     * target root has a partner already. Any other unmatched node with children is given
     * to `MatchContainer`. On success the source root, once visited, has a partner, which
     * is the target root when the source root was free before. The step as written fails
     * whenever `RootStepAsWritten` does, and otherwise keeps what that function records.
     */
    method ContainerStep(x: NodeId) returns (ok: bool)
      requires Valid() && x in context.sourceNodes
      modifies this, matching
      ensures Valid() && context == old(context) && matching == old(matching)
      ensures context.forest == old(context.forest) && context.forest.nodes == old(context.forest.nodes)
      ensures context.sourceNodes == old(context.sourceNodes) && context.targetNodes == old(context.targetNodes)
      ensures Kept(old(matching.Value()), matching.Value())
      ensures AddedFrom(old(matching.Value()), matching.Value(), x)
      ensures ok && x == context.sourceNodes[0] ==>
        RootsPaired(old(matching.Value()), matching.Value(), context.sourceNodes[0], context.targetNodes[0])
      ensures x == context.sourceNodes[0] && !RootStepAsWritten(old(matching.Value()), x, context.targetNodes[0]).1 ==> !ok
      ensures x == context.sourceNodes[0] && ok ==>
        Kept(RootStepAsWritten(old(matching.Value()), x, context.targetNodes[0]).0, matching.Value())
    {
      var nodes := context.forest.nodes;
      var sroot := context.sourceNodes[0];
      if nodes[x].parent.None? && context.Unmatched(x) {
        if x != sroot {
          WalkParentInWalk(nodes, sroot, x);
        }
        ok := MatchRoot();
      } else if nodes[x].children != [] && context.Unmatched(x) {
        var cands, weighted;
        ok, cands, weighted := MatchContainer(x);
      } else {
        ok := true;
        if x == sroot {
          FitsTargets(nodes, context.sourceNodes, context.targetNodes, matching.Value());
          RootStepAsWrittenCases(matching.Value(), sroot, context.targetNodes[0]);
        }
      }
    }

    /**
     * The root branch of `match_containers` for a free source root: recovery below the two
     * roots, then `add` of the pair of roots, whose assertion fails when the target root
     * has a partner already.
     */
    method MatchRoot() returns (ok: bool)
      requires Valid()
      requires context.sourceNodes[0] !in matching.Value().st && context.sourceNodes[0] !in matching.Value().ts
      modifies matching
      ensures Valid() && Kept(old(matching.Value()), matching.Value())
      ensures AddedFrom(old(matching.Value()), matching.Value(), context.sourceNodes[0])
      ensures ok ==> Paired(matching.Value(), context.sourceNodes[0], context.targetNodes[0])
      ensures !RootStepAsWritten(old(matching.Value()), context.sourceNodes[0], context.targetNodes[0]).1 ==> !ok
      ensures ok ==> Kept(RootStepAsWritten(old(matching.Value()), context.sourceNodes[0], context.targetNodes[0]).0, matching.Value())
    {
      var nodes := context.forest.nodes;
      var sroot, troot := context.sourceNodes[0], context.targetNodes[0];
      var p := MatchingPair(sroot, troot);
      ghost var m0 := matching.Value();
      if context.Unmatched(troot) {
        ok := RecoverAndAdd(p);
      } else {
        var recovered := Recovery(p);
        BelowFrom(nodes, m0, matching.Value(), sroot, troot);
        ok := false;
      }
      RootOutcome(m0, matching.Value(), sroot, troot, ok);
    }

    /**
     * The weights of the container step: the dice coefficient of each candidate, which is
     * defined since the source node has children. A candidate whose hashcodes were cached
     * before, or met earlier in the list, is given the cached value; the others are given
     * the coefficient on the current matching, and the cache keeps every weight.
     */
    method WeighCandidates(x: NodeId, cands: seq<MatchingPair>) returns (weighted: seq<(real, MatchingPair)>)
      requires Valid() && x in context.sourceNodes && Nodes()[x].children != []
      requires forall p | p in cands :: p.source == x && p.target in context.targetNodes
      modifies this
      ensures Valid() && context == old(context) && matching == old(matching)
      ensures |weighted| == |cands|
      ensures Weighed(old(diceCache), diceCache, cands, CacheKeys(Nodes(), x, cands),
                      DiceValues(Nodes(), matching.Value(), x, cands), weighted)
    {
      var nodes := context.forest.nodes;
      var sources, targets := context.sourceNodes, context.targetNodes;
      InTree(nodes, sources, x);
      ghost var keys := CacheKeys(nodes, x, cands);
      ghost var dice := DiceValues(nodes, matching.Value(), x, cands);
      weighted := [];
      for k := 0 to |cands|
        invariant Valid() && context == old(context) && matching == old(matching)
        invariant nodes == context.forest.nodes && sources == context.sourceNodes && targets == context.targetNodes
        invariant |weighted| == k && Weighed(old(diceCache), diceCache, cands, keys, dice, weighted)
      {
        ghost var c := diceCache;
        var d := Dice(cands[k], false);
        WeighedStep(old(diceCache), c, diceCache, cands, keys, dice, weighted, d.value);
        weighted := weighted + [(d.value, cands[k])];
      }
    }

    /**
     * `match_containers` from the roots of the context: every source node in post-order
     * goes through `ContainerStep`. On success the source root has a partner, which is the
     * target root unless the source root was matched before the phase began.
     */
    method MatchContainers() returns (ok: bool)
      requires Valid()
      modifies this, matching
      ensures Valid() && context == old(context) && matching == old(matching)
      ensures context.forest == old(context.forest)
      ensures context.sourceNodes == old(context.sourceNodes) && context.targetNodes == old(context.targetNodes)
      ensures Kept(old(matching.Value()), matching.Value())
      ensures ok ==> RootsPaired(old(matching.Value()), matching.Value(), context.sourceNodes[0], context.targetNodes[0])
    {
      var nodes := context.forest.nodes;
      var sources, targets := context.sourceNodes, context.targetNodes;
      var sroot, troot := sources[0], targets[0];
      ghost var start := matching.Value();
      var walk := PostOrder(nodes, sroot);
      WalkFromRoot(nodes, sources);
      ghost var covered := false;
      for i := 0 to |walk|
        invariant Valid() && context == old(context) && matching == old(matching)
        invariant context.forest == old(context.forest)
        invariant nodes == context.forest.nodes && sources == context.sourceNodes && targets == context.targetNodes
        invariant WalkState(start, matching.Value(), sroot, troot, covered)
        invariant i > 0 && walk[i - 1] == sroot ==> covered
      {
        assert walk[i] in walk;
        ghost var m := matching.Value();
        ghost var next := covered || walk[i] == sroot;
        assert walk[i] == sroot ==> next;
        ok := ContainerStep(walk[i]);
        if !ok {
          KeptTrans(start, m, matching.Value());
          return;
        }
        WalkStateStep(start, m, matching.Value(), sroot, troot, walk[i], covered);
        covered := next;
      }
      ok := true;
    }

    /**
     * `find_matching_nodes`: binds the context, runs the top-down phase and then the
     * bottom-up phase from the roots of the two trees. On success the matching set is a
     * bijection of same-kind nodes (besides the root pair) and the source root has a
     * partner: the target root, or a node it was paired with in the top-down phase.
     */
    method FindMatchingNodes(c: DiffContext) returns (ok: bool)
      requires Ready(c.forest.nodes, c.sourceNodes, c.targetNodes)
      modifies this, c
      ensures Valid() && context == c && matching == c.matching && fresh(matching)
      ensures c.forest == old(c.forest) && c.sourceNodes == old(c.sourceNodes) && c.targetNodes == old(c.targetNodes)
      ensures ok ==> c.sourceNodes[0] in matching.Value().st
    {
      Prepare(c);
      ghost var forest, sources, targets := c.forest, c.sourceNodes, c.targetNodes;
      ghost var rounds, candidates, anchored, pss;
      ok, rounds, candidates, anchored, pss := MatchAnchors();
      assert c.forest == forest && c.sourceNodes == sources && c.targetNodes == targets;
      if !ok {
        return;
      }
      ok := MatchContainers();
      assert c.forest == forest && c.sourceNodes == sources && c.targetNodes == targets;
    }
  }

  // ---------------------------------------------------------------------------------------
  // The root step of match_containers

  /**
   * The root step as written: whenever the source root is unmatched, the pair of the two
   * roots is added, although the target root may already have a partner. Recovery, which
   * runs before the `add`, only matches nodes strictly below the two roots, so it cannot
   * change whether the `add` assertion holds and is left out here.
   */
  function RootStepAsWritten(m: Matching, sroot: NodeId, troot: NodeId): (r: (Matching, bool))
  {
    if sroot in m.st || sroot in m.ts then (m, true)
    else AddAll(m, [MatchingPair(sroot, troot)])
  }

  /**
   * As written, the root step fails exactly when the source root is free and the target
   * root is not; it leaves a matched source root alone and otherwise adds the pair.
   */
  lemma RootStepAsWrittenCases(m: Matching, sroot: NodeId, troot: NodeId)
    ensures !RootStepAsWritten(m, sroot, troot).1 <==> sroot !in m.st && sroot !in m.ts && troot in m.ts
    ensures sroot in m.st || sroot in m.ts ==> RootStepAsWritten(m, sroot, troot).0 == m
    ensures sroot !in m.st && sroot !in m.ts && troot !in m.ts ==>
      RootStepAsWritten(m, sroot, troot).0 == With(m, MatchingPair(sroot, troot))
  {
    var p := MatchingPair(sroot, troot);
    if !IsMatched(m, p) {
      assert [p][1..] == [];
      assert AddAll(m, [p]) == AddAll(With(m, p), []);
    }
  }

  /** A root branch that fails whenever the target root is taken, and otherwise adds the pair, follows the step as written. */
  lemma RootOutcome(m0: Matching, m: Matching, sroot: NodeId, troot: NodeId, ok: bool)
    requires sroot !in m0.st && sroot !in m0.ts
    requires troot in m0.ts ==> !ok
    requires ok ==> Kept(With(m0, MatchingPair(sroot, troot)), m)
    ensures !RootStepAsWritten(m0, sroot, troot).1 ==> !ok
    ensures ok ==> Kept(RootStepAsWritten(m0, sroot, troot).0, m)
  {
    RootStepAsWrittenCases(m0, sroot, troot);
  }

  /** Source `A(B(x, y))` (nodes 0 to 3) and target `B(x, y)` (nodes 4 to 6), with their metadata. */
  function RootStepArena(): (r: seq<Node>)
    ensures |r| == 7
  {
    [ Node("A", "", [1], None, Some(Metadata(1, 3, 4))),
      Node("B", "", [2, 3], Some(0), Some(Metadata(2, 2, 3))),
      Node("x", "", [], Some(1), Some(Metadata(3, 1, 1))),
      Node("y", "", [], Some(1), Some(Metadata(4, 1, 1))),
      Node("B", "", [5, 6], None, Some(Metadata(2, 2, 3))),
      Node("x", "", [], Some(4), Some(Metadata(3, 1, 1))),
      Node("y", "", [], Some(4), Some(Metadata(4, 1, 1))) ]
  }

  /**
   * On the example the top-down phase pairs the two `B` subtrees, the only isomorphic
   * subtrees of height 2, and adds the matches of their descendants. In the bottom-up
   * phase the post-order walk reaches the unmatched source root `A`, and the root step as
   * written then adds `A` with the target root `B`, which is already matched: the `add`
   * assertion fails.
   */
  lemma RootStepFailsOnExample()
    ensures var nodes := RootStepArena();
      && Ordered(nodes)
      && DescendantMatches(nodes, 1, 4).1
      && AddAll(EmptyMatching, DescendantMatches(nodes, 1, 4).0).1
      && !RootStepAsWritten(AddAll(EmptyMatching, DescendantMatches(nodes, 1, 4).0).0, 0, 4).1
  {
    var ps := [MatchingPair(1, 4), MatchingPair(2, 5), MatchingPair(3, 6)];
    RootStepArenaMatches();
    var m1 := With(EmptyMatching, ps[0]);
    var m2 := With(m1, ps[1]);
    var m3 := With(m2, ps[2]);
    assert AddAll(m3, ps[3..]) == (m3, true);
    assert AddAll(m2, ps[2..]) == (m3, true);
    assert AddAll(m1, ps[1..]) == (m3, true);
    assert AddAll(EmptyMatching, ps) == (m3, true);
    assert 4 in m3.ts;
    RootStepAsWrittenCases(m3, 0, 4);
  }

  /** On the example arena, the subtrees under 1 and 4 match pair by pair. */
  lemma RootStepArenaMatches()
    ensures var nodes := RootStepArena();
      && Ordered(nodes)
      && DescendantMatches(nodes, 1, 4) == ([MatchingPair(1, 4), MatchingPair(2, 5), MatchingPair(3, 6)], true)
  {
    var nodes := RootStepArena();
    assert Ordered(nodes);
    assert nodes[1].children == [2, 3] && nodes[4].children == [5, 6];
    assert nodes[2].children == [] && nodes[5].children == [] && CanMatch(nodes[2], nodes[5]);
    assert nodes[3].children == [] && nodes[6].children == [] && CanMatch(nodes[3], nodes[6]);
    var leaf := ChildMatches(nodes, 2, 5, 0);
    assert leaf.0 == [] && leaf.1;
    leaf := ChildMatches(nodes, 3, 6, 0);
    assert leaf.0 == [] && leaf.1;
    var x := DescendantMatches(nodes, 2, 5);
    assert x.0 == [MatchingPair(2, 5)] && x.1;
    var y := DescendantMatches(nodes, 3, 6);
    assert y.0 == [MatchingPair(3, 6)] && y.1;
    var c1 := ChildMatches(nodes, 1, 4, 1);
    assert c1.0 == [MatchingPair(2, 5)] && c1.1;
    var c2 := ChildMatches(nodes, 1, 4, 2);
    assert c2.0 == [MatchingPair(2, 5), MatchingPair(3, 6)] && c2.1;
    var d := DescendantMatches(nodes, 1, 4);
    assert d.0 == [MatchingPair(1, 4), MatchingPair(2, 5), MatchingPair(3, 6)] && d.1;
  }

  /**
   * The root step as evidently intended: the roots are paired only while both are
   * unmatched, and a matched target root is left alone instead of failing.
   */
  function RootStep(m: Matching, sroot: NodeId, troot: NodeId): (r: (Matching, bool))
  {
    if sroot in m.st || sroot in m.ts || troot in m.ts then (m, true)
    else AddAll(m, [MatchingPair(sroot, troot)])
  }

  /**
   * The corrected root step never fails, keeps the matching a bijection, pairs the two
   * roots whenever both were free, and agrees with the step as written wherever that one
   * succeeds.
   */
  lemma RootStepNeverFails(m: Matching, sroot: NodeId, troot: NodeId)
    requires Bijective(m)
    ensures RootStep(m, sroot, troot).1
    ensures Bijective(RootStep(m, sroot, troot).0)
    ensures sroot !in m.st && sroot !in m.ts && troot !in m.ts ==>
      RootStep(m, sroot, troot).0 == With(m, MatchingPair(sroot, troot))
    ensures RootStepAsWritten(m, sroot, troot).1 ==> RootStep(m, sroot, troot) == RootStepAsWritten(m, sroot, troot)
  {
    var p := MatchingPair(sroot, troot);
    if sroot !in m.st && sroot !in m.ts && troot !in m.ts {
      assert [p][1..] == [];
      assert AddAll(m, [p]) == AddAll(With(m, p), []);
      AddKeepsBijection(m, p);
    }
  }
}
