/**
 * The diff context (astdiff/context.py): matching pairs, the matching set with its two
 * mutually inverse maps, and the registries of source and target nodes.
 *
 * Node ids are arena indices. The context owns one arena holding a copy of the source tree
 * followed by a copy of the target tree, so a source id and a target id never coincide.
 */
module Context {
  import opened Base
  import opened Nodes
  import opened Traversal

  /** `MatchingPair`: a source id and a target id. */
  datatype MatchingPair = MatchingPair(source: NodeId, target: NodeId)

  /** `MatchingPair.__lt__`: lexicographic on (source, target). */
  predicate PairLess(a: MatchingPair, b: MatchingPair)
  {
    a.source < b.source || (a.source == b.source && a.target < b.target)
  }

  /** The pair order is a strict total order. */
  lemma PairOrderIsStrictTotal(a: MatchingPair, b: MatchingPair, c: MatchingPair)
    ensures !PairLess(a, a)
    ensures PairLess(a, b) && PairLess(b, c) ==> PairLess(a, c)
    ensures a != b ==> PairLess(a, b) || PairLess(b, a)
    ensures PairLess(a, b) ==> !PairLess(b, a)
  {
  }

  // ---------------------------------------------------------------------------------------
  // The matching set as a value

  /**
   * The state of a `MatchingSet`: `source_target_map`, `target_source_map`, and the keys of
   * the first in the order they were inserted (the order in which `pairs` lists them).
   */
  datatype Matching = Matching(st: map<NodeId, NodeId>, ts: map<NodeId, NodeId>, sources: seq<NodeId>)

  const EmptyMatching := Matching(map[], map[], [])

  /** The two maps are mutual inverses, and `sources` lists the keys of the first one once each. */
  predicate Bijective(m: Matching)
  {
    && (forall s | s in m.st :: m.st[s] in m.ts && m.ts[m.st[s]] == s)
    && (forall t | t in m.ts :: m.ts[t] in m.st && m.st[m.ts[t]] == t)
    && NoDup(m.sources)
    && (forall s | s in m.st :: s in m.sources)
    && (forall k | 0 <= k < |m.sources| :: m.sources[k] in m.st)
  }

  /** `matched`: either side of the pair is already matched. */
  predicate IsMatched(m: Matching, p: MatchingPair)
  {
    p.source in m.st || p.target in m.ts
  }

  /** The state after `add` records the pair in both maps. */
  function With(m: Matching, p: MatchingPair): Matching
  {
    Matching(m.st[p.source := p.target], m.ts[p.target := p.source], m.sources + [p.source])
  }

  /**
   * `update`: adds the pairs in order and stops at the first one whose `add` assertion
   * fails; the pairs before it stay added. The flag says whether all were added.
   */
  function AddAll(m: Matching, ps: seq<MatchingPair>): (Matching, bool)
    decreases |ps|
  {
    if ps == [] then (m, true)
    else if IsMatched(m, ps[0]) then (m, false)
    else AddAll(With(m, ps[0]), ps[1..])
  }

  lemma EmptyIsBijective()
    ensures Bijective(EmptyMatching)
  {
  }

  /** `add` keeps the maps mutually inverse and grows each by exactly the new pair. */
  lemma AddKeepsBijection(m: Matching, p: MatchingPair)
    requires Bijective(m) && !IsMatched(m, p)
    ensures Bijective(With(m, p))
    ensures With(m, p).st.Keys == m.st.Keys + {p.source}
    ensures With(m, p).ts.Keys == m.ts.Keys + {p.target}
    ensures With(m, p).st[p.source] == p.target && With(m, p).ts[p.target] == p.source
  {
    var m' := With(m, p);
    forall s | s in m'.st ensures m'.st[s] in m'.ts && m'.ts[m'.st[s]] == s {
      if s != p.source {
        assert m.st[s] != p.target;
      }
    }
    forall t | t in m'.ts ensures m'.ts[t] in m'.st && m'.st[m'.ts[t]] == t {
      if t != p.target {
        assert m.ts[t] != p.source;
      }
    }
    assert p.source !in m.sources;
    NoDupAppend(m.sources, [p.source]);
  }

  /**
   * `update` keeps the maps mutually inverse whether or not it stops early, and when it
   * does not stop every pair ends up in both maps.
   */
  lemma {:induction false} AddAllKeepsBijection(m: Matching, ps: seq<MatchingPair>)
    requires Bijective(m)
    ensures Bijective(AddAll(m, ps).0)
    ensures m.st.Keys <= AddAll(m, ps).0.st.Keys
    ensures AddAll(m, ps).1 ==>
              forall k | 0 <= k < |ps| ::
                && ps[k].source in AddAll(m, ps).0.st && AddAll(m, ps).0.st[ps[k].source] == ps[k].target
                && ps[k].target in AddAll(m, ps).0.ts && AddAll(m, ps).0.ts[ps[k].target] == ps[k].source
    decreases |ps|
  {
    if ps != [] && !IsMatched(m, ps[0]) {
      AddKeepsBijection(m, ps[0]);
      AddAllKeepsBijection(With(m, ps[0]), ps[1..]);
      var r := AddAll(m, ps).0;
      if AddAll(m, ps).1 {
        forall k | 0 <= k < |ps|
          ensures ps[k].source in r.st && r.st[ps[k].source] == ps[k].target
          ensures ps[k].target in r.ts && r.ts[ps[k].target] == ps[k].source
        {
          if k > 0 {
            assert ps[k] == ps[1..][k - 1];
          } else {
            AddAllKeepsValues(With(m, ps[0]), ps[1..], ps[0]);
          }
        }
      }
    }
  }

  /** Pairs already recorded stay recorded: `update` never overwrites an entry. */
  lemma {:induction false} AddAllKeepsValues(m: Matching, ps: seq<MatchingPair>, p: MatchingPair)
    requires p.source in m.st && m.st[p.source] == p.target
    requires p.target in m.ts && m.ts[p.target] == p.source
    ensures p.source in AddAll(m, ps).0.st && AddAll(m, ps).0.st[p.source] == p.target
    ensures p.target in AddAll(m, ps).0.ts && AddAll(m, ps).0.ts[p.target] == p.source
    decreases |ps|
  {
    if ps != [] && !IsMatched(m, ps[0]) {
      AddAllKeepsValues(With(m, ps[0]), ps[1..], p);
    }
  }

  /**
   * Where the entries after `update` come from: an old entry keeps its value, and every
   * other entry is one of the added pairs.
   */
  lemma {:induction false} AddAllFrom(m: Matching, ps: seq<MatchingPair>)
    ensures forall s | s in m.st :: s in AddAll(m, ps).0.st && AddAll(m, ps).0.st[s] == m.st[s]
    ensures forall t | t in m.ts :: t in AddAll(m, ps).0.ts && AddAll(m, ps).0.ts[t] == m.ts[t]
    ensures forall s | s in AddAll(m, ps).0.st && s !in m.st :: MatchingPair(s, AddAll(m, ps).0.st[s]) in ps
    ensures forall t | t in AddAll(m, ps).0.ts && t !in m.ts :: MatchingPair(AddAll(m, ps).0.ts[t], t) in ps
    decreases |ps|
  {
    if ps != [] && !IsMatched(m, ps[0]) {
      AddAllFrom(With(m, ps[0]), ps[1..]);
      assert forall p | p in ps[1..] :: p in ps;
    }
  }

  /** A set listed by a sequence without repeats has as many elements as the sequence has entries. */
  lemma {:induction false} DistinctCount(keys: set<NodeId>, s: seq<NodeId>)
    requires NoDup(s) && forall x :: x in keys <==> x in s
    ensures |keys| == |s|
  {
    if s != [] {
      var init := s[..|s| - 1];
      var x := s[|s| - 1];
      assert NoDup(init);
      assert s == init + [x];
      DistinctCount(keys - {x}, init);
    }
  }

  /** The targets of the recorded pairs, in insertion order. */
  function Targets(m: Matching): (r: seq<NodeId>)
    requires Bijective(m)
    ensures |r| == |m.sources|
    ensures forall k | 0 <= k < |r| :: r[k] == m.st[m.sources[k]]
  {
    seq(|m.sources|, k requires 0 <= k < |m.sources| => m.st[m.sources[k]])
  }

  lemma TargetsDistinct(m: Matching)
    requires Bijective(m)
    ensures NoDup(Targets(m))
    ensures forall t :: t in m.ts <==> t in Targets(m)
  {
    var targets := Targets(m);
    forall i, j | 0 <= i < j < |targets| ensures targets[i] != targets[j] {
      assert m.ts[targets[i]] == m.sources[i];
      assert m.ts[targets[j]] == m.sources[j];
    }
    forall t | t in m.ts ensures t in targets {
      var s := m.ts[t];
      var k :| 0 <= k < |m.sources| && m.sources[k] == s;
      assert targets[k] == t;
    }
  }

  /** The invariant `__len__` asserts: mutually inverse maps have the same number of keys. */
  lemma BijectiveSameSize(m: Matching)
    requires Bijective(m)
    ensures |m.st| == |m.ts| == |m.sources|
  {
    TargetsDistinct(m);
    DistinctCount(m.st.Keys, m.sources);
    DistinctCount(m.ts.Keys, Targets(m));
  }

  // ---------------------------------------------------------------------------------------
  // MatchingSet

  /** `MatchingSet`: two dicts updated in place, always mutual inverses. */
  class MatchingSet {
    var st: map<NodeId, NodeId>
    var ts: map<NodeId, NodeId>
    var sources: seq<NodeId>

    function Value(): Matching
      reads this
    {
      Matching(st, ts, sources)
    }

    predicate Valid()
      reads this
    {
      Bijective(Value())
    }

    constructor()
      ensures Value() == EmptyMatching && Valid()
    {
      st, ts, sources := map[], map[], [];
    }

    /** `matched`. */
    predicate Matched(p: MatchingPair)
      reads this
    {
      IsMatched(Value(), p)
    }

    /** `add`: the assertion fails (`ok == false`, nothing changes) when either side is matched. */
    method Add(p: MatchingPair) returns (ok: bool)
      requires Valid()
      modifies this
      ensures ok <==> !old(Matched(p))
      ensures Value() == if ok then With(old(Value()), p) else old(Value())
      ensures Valid()
    {
      if Matched(p) {
        return false;
      }
      AddKeepsBijection(Value(), p);
      st := st[p.source := p.target];
      ts := ts[p.target := p.source];
      sources := sources + [p.source];
      ok := true;
    }

    /** `update`: `add` for each pair in order, stopping at the first failed assertion. */
    method Update(ps: seq<MatchingPair>) returns (ok: bool)
      requires Valid()
      modifies this
      ensures (Value(), ok) == AddAll(old(Value()), ps)
      ensures Valid()
    {
      for i := 0 to |ps|
        invariant Valid()
        invariant AddAll(old(Value()), ps) == AddAll(Value(), ps[i..])
      {
        assert ps[i..][1..] == ps[i + 1..];
        ok := Add(ps[i]);
        if !ok {
          return;
        }
      }
      ok := true;
    }

    /**
     * `__len__`: the number of source keys, after asserting both maps are the same size;
     * None stands for a failed assertion, which `BijectiveSameSize` rules out.
     */
    function Len(): (r: Option<nat>)
      reads this
      ensures Valid() ==> r == Some(|st|) && |st| == |ts|
    {
      BijectiveSizes(Value());
      if |st| == |ts| then Some(|st|) else None
    }

    /** `pairs`: every recorded pair, once each, in insertion order. */
    function Pairs(): (r: seq<MatchingPair>)
      reads this
      requires Valid()
      ensures |r| == |st|
      ensures forall k | 0 <= k < |r| :: r[k].source in st && st[r[k].source] == r[k].target
      ensures forall s | s in st :: MatchingPair(s, st[s]) in r
    {
      PairsOfListsAll(Value());
      PairsOf(Value())
    }
  }

  /** The recorded pairs in the insertion order of their source keys. */
  function PairsOf(m: Matching): seq<MatchingPair>
    requires Bijective(m)
  {
    seq(|m.sources|, k requires 0 <= k < |m.sources| => MatchingPair(m.sources[k], m.st[m.sources[k]]))
  }

  lemma PairsOfListsAll(m: Matching)
    requires Bijective(m)
    ensures |PairsOf(m)| == |m.st|
    ensures forall k | 0 <= k < |PairsOf(m)| :: PairsOf(m)[k].source in m.st && m.st[PairsOf(m)[k].source] == PairsOf(m)[k].target
    ensures forall s | s in m.st :: MatchingPair(s, m.st[s]) in PairsOf(m)
  {
    BijectiveSameSize(m);
    var r := PairsOf(m);
    forall s | s in m.st ensures MatchingPair(s, m.st[s]) in r {
      var k :| 0 <= k < |m.sources| && m.sources[k] == s;
      assert r[k] == MatchingPair(s, m.st[s]);
    }
  }

  lemma BijectiveSizes(m: Matching)
    ensures Bijective(m) ==> |m.st| == |m.ts|
  {
    if Bijective(m) {
      BijectiveSameSize(m);
    }
  }

  // ---------------------------------------------------------------------------------------
  // Copying the trees into the context's arena

  /** A node of the target arena once placed after `d` source slots. */
  function ShiftNode(n: Node, d: nat): (r: Node)
    ensures r.kind == n.kind && r.value == n.value && r.metadata == n.metadata
    ensures |r.children| == |n.children|
    ensures forall k | 0 <= k < |n.children| :: r.children[k] == n.children[k] + d
  {
    n.(children := seq(|n.children|, k requires 0 <= k < |n.children| => n.children[k] + d),
       parent := if n.parent.Some? then Some(n.parent.value + d) else None)
  }

  /** The context's arena: a copy of the source arena followed by a copy of the target arena. */
  function Place(source: seq<Node>, target: seq<Node>): (r: seq<Node>)
    ensures |r| == |source| + |target|
    ensures r[..|source|] == source
    ensures forall i | 0 <= i < |target| :: r[|source| + i] == ShiftNode(target[i], |source|)
  {
    source + seq(|target|, i requires 0 <= i < |target| => ShiftNode(target[i], |source|))
  }

  lemma PlaceOrdered(source: seq<Node>, target: seq<Node>)
    requires Ordered(source) && Ordered(target)
    ensures Ordered(Place(source, target))
  {
    var r := Place(source, target);
    forall i, k | 0 <= i < |r| && 0 <= k < |r[i].children| ensures i < r[i].children[k] < |r| {
      if i < |source| {
        assert r[i] == source[i];
      } else {
        assert r[i] == ShiftNode(target[i - |source|], |source|);
      }
    }
  }

  /** The copy of the source tree is equal to the original, and so is its pre-order walk. */
  lemma {:induction false} PlaceKeepsSource(source: seq<Node>, target: seq<Node>, id: NodeId)
    requires Ordered(source) && Ordered(target) && id < |source|
    ensures Ordered(Place(source, target))
    ensures ToTree(Place(source, target), id) == ToTree(source, id)
    ensures PreOrder(Place(source, target), id) == PreOrder(source, id)
    decreases |source| - id
  {
    PlaceOrdered(source, target);
    var r := Place(source, target);
    assert r[id] == source[id];
    var cs := source[id].children;
    forall k | 0 <= k < |cs|
      ensures ToTree(r, cs[k]) == ToTree(source, cs[k]) && PreOrder(r, cs[k]) == PreOrder(source, cs[k])
    {
      PlaceKeepsSource(source, target, cs[k]);
    }
    assert seq(|cs|, k requires 0 <= k < |cs| => PreOrder(r, cs[k]))
        == seq(|cs|, k requires 0 <= k < |cs| => PreOrder(source, cs[k]));
  }

  /** The copy of the target tree, placed after the source slots, is equal to the original. */
  lemma {:induction false} PlaceKeepsTarget(source: seq<Node>, target: seq<Node>, id: NodeId)
    requires Ordered(source) && Ordered(target) && id < |target|
    ensures Ordered(Place(source, target))
    ensures ToTree(Place(source, target), |source| + id) == ToTree(target, id)
    decreases |target| - id
  {
    PlaceOrdered(source, target);
    var r := Place(source, target);
    var cs := target[id].children;
    assert r[|source| + id] == ShiftNode(target[id], |source|);
    forall k | 0 <= k < |cs| ensures ToTree(r, |source| + cs[k]) == ToTree(target, cs[k]) {
      PlaceKeepsTarget(source, target, cs[k]);
    }
  }

  // ---------------------------------------------------------------------------------------
  // Registries

  /**
   * `add_source` over a walk: each id is asserted to be new and then registered; the first
   * id already present stops the walk with a failed assertion.
   */
  function RegisterAll(registry: seq<NodeId>, walk: seq<NodeId>): (seq<NodeId>, bool)
    decreases |walk|
  {
    if walk == [] then (registry, true)
    else if walk[0] in registry then (registry, false)
    else RegisterAll(registry + [walk[0]], walk[1..])
  }

  /** `remove_source` over a walk: each id is asserted to be present and then removed. */
  function DeregisterAll(registry: seq<NodeId>, walk: seq<NodeId>): (seq<NodeId>, bool)
    decreases |walk|
  {
    if walk == [] then (registry, true)
    else if walk[0] !in registry then (registry, false)
    else DeregisterAll(Without(registry, walk[0]), walk[1..])
  }

  /**
   * Registering succeeds exactly when the walk repeats nothing and meets no registered id;
   * it then appends the walk. The registry never holds an id twice.
   */
  lemma {:induction false} RegisterAllSpec(registry: seq<NodeId>, walk: seq<NodeId>)
    requires NoDup(registry)
    ensures NoDup(RegisterAll(registry, walk).0)
    ensures RegisterAll(registry, walk).1 <==> NoDup(walk) && forall x | x in walk :: x !in registry
    ensures RegisterAll(registry, walk).1 ==> RegisterAll(registry, walk).0 == registry + walk
    decreases |walk|
  {
    if walk != [] {
      var x := walk[0];
      if x !in registry {
        NoDupAppend(registry, [x]);
        RegisterAllSpec(registry + [x], walk[1..]);
        assert walk == [x] + walk[1..];
        if NoDup(walk) && forall y | y in walk :: y !in registry {
          assert NoDup(walk[1..]);
          assert forall y | y in walk[1..] :: y !in registry + [x];
        }
        if NoDup(walk[1..]) && forall y | y in walk[1..] :: y !in registry + [x] {
          assert NoDup(walk) by {
            forall i, j | 0 <= i < j < |walk| ensures walk[i] != walk[j] {
              if i == 0 { assert walk[j] in walk[1..]; } else { assert walk[1..][i - 1] != walk[1..][j - 1]; }
            }
          }
        }
      }
    }
  }

  /**
   * Removing succeeds exactly when the walk repeats nothing and every id is registered; it
   * then leaves the other ids, in their order.
   */
  lemma {:induction false} DeregisterAllSpec(registry: seq<NodeId>, walk: seq<NodeId>)
    requires NoDup(registry)
    ensures NoDup(DeregisterAll(registry, walk).0)
    ensures DeregisterAll(registry, walk).1 <==> NoDup(walk) && forall x | x in walk :: x in registry
    ensures DeregisterAll(registry, walk).1 ==>
              forall x :: x in DeregisterAll(registry, walk).0 <==> x in registry && x !in walk
    decreases |walk|
  {
    if walk != [] {
      var x := walk[0];
      if x in registry {
        var rest := Without(registry, x);
        DeregisterAllSpec(rest, walk[1..]);
        assert walk == [x] + walk[1..];
        if NoDup(walk) && forall y | y in walk :: y in registry {
          assert NoDup(walk[1..]);
          forall y | y in walk[1..] ensures y in rest {
            assert y != x;
          }
        }
        if NoDup(walk[1..]) && forall y | y in walk[1..] :: y in rest {
          assert NoDup(walk) by {
            forall i, j | 0 <= i < j < |walk| ensures walk[i] != walk[j] {
              if i == 0 { assert walk[j] in rest; } else { assert walk[1..][i - 1] != walk[1..][j - 1]; }
            }
          }
        }
      }
    }
  }

  /** `partner` on a matching: the source-to-target map first, then the target-to-source map. */
  function PartnerIn(m: Matching, x: NodeId): (r: Option<NodeId>)
    ensures r.None? <==> x !in m.st && x !in m.ts
    ensures x in m.st ==> r == Some(m.st[x])
    ensures x !in m.st && x in m.ts ==> r == Some(m.ts[x])
  {
    if x in m.st then Some(m.st[x])
    else if x in m.ts then Some(m.ts[x])
    else None
  }

  /** Nothing recorded is ever dropped or given another partner. */
  predicate Kept(m0: Matching, m: Matching)
  {
    && (forall s | s in m0.st :: s in m.st && m.st[s] == m0.st[s])
    && (forall t | t in m0.ts :: t in m.ts && m.ts[t] == m0.ts[t])
  }

  lemma KeptTrans(m0: Matching, m1: Matching, m2: Matching)
    requires Kept(m0, m1) && Kept(m1, m2)
    ensures Kept(m0, m2)
  {
  }

  // ---------------------------------------------------------------------------------------
  // DiffContext

  /**
   * `DiffContext`: the arena with both copied trees, the source and target registries
   * (dicts keyed by id, kept as their key sequences) and the matching set.
   */
  class DiffContext {
    var forest: Forest
    var sourceNodes: seq<NodeId>
    var targetNodes: seq<NodeId>
    var matching: MatchingSet

    /**
     * Deep-copies both trees into a fresh arena and registers their nodes in pre-order,
     * with an empty matching set.
     */
    constructor(source: seq<Node>, sourceRoot: NodeId, target: seq<Node>, targetRoot: NodeId)
      requires Ordered(source) && sourceRoot < |source| && Ordered(target) && targetRoot < |target|
      ensures fresh(forest) && fresh(matching)
      ensures forest.nodes == Place(source, target) && Ordered(forest.nodes)
      ensures sourceNodes == PreOrder(forest.nodes, sourceRoot)
      ensures targetNodes == PreOrder(forest.nodes, |source| + targetRoot)
      ensures ToTree(forest.nodes, sourceRoot) == ToTree(source, sourceRoot)
      ensures ToTree(forest.nodes, |source| + targetRoot) == ToTree(target, targetRoot)
      ensures SourceRoot() == Some(sourceRoot) && TargetRoot() == Some(|source| + targetRoot)
      ensures matching.Value() == EmptyMatching && matching.Valid()
    {
      var nodes := Place(source, target);
      PlaceOrdered(source, target);
      PlaceKeepsSource(source, target, sourceRoot);
      PlaceKeepsTarget(source, target, targetRoot);
      forest := new Forest(nodes);
      sourceNodes := PreOrder(nodes, sourceRoot);
      targetNodes := PreOrder(nodes, |source| + targetRoot);
      matching := new MatchingSet();
    }

    /** `partner`: the source-to-target map is consulted first, then the target-to-source map. */
    function Partner(x: NodeId): (r: Option<NodeId>)
      reads this, matching
      ensures r.None? <==> x !in matching.st && x !in matching.ts
      ensures x in matching.st ==> r == Some(matching.st[x])
      ensures x !in matching.st && x in matching.ts ==> r == Some(matching.ts[x])
    {
      PartnerIn(matching.Value(), x)
    }

    /** `unmatched`. */
    predicate Unmatched(x: NodeId)
      reads this, matching
    {
      Partner(x).None?
    }

    /** `source_root`: the first registered source node; None where `first` would raise. */
    function SourceRoot(): (r: Option<NodeId>)
      reads this
      ensures r.Some? <==> sourceNodes != []
      ensures r.Some? ==> r.value == sourceNodes[0]
    {
      if sourceNodes == [] then None else Some(sourceNodes[0])
    }

    /** `target_root`. */
    function TargetRoot(): (r: Option<NodeId>)
      reads this
      ensures r.Some? <==> targetNodes != []
      ensures r.Some? ==> r.value == targetNodes[0]
    {
      if targetNodes == [] then None else Some(targetNodes[0])
    }

    /**
     * `add_source`: registers the node and, recursively, its children, asserting each id is
     * new. The recursion visits the subtree in pre-order.
     */
    method AddSource(id: NodeId) returns (ok: bool)
      requires Closed(forest.nodes) && id < |forest.nodes|
      modifies this`sourceNodes
      ensures (sourceNodes, ok) == RegisterAll(old(sourceNodes), PreOrderUpTo(forest.nodes, id, |forest.nodes|))
    {
      var walk := PreOrderUpTo(forest.nodes, id, |forest.nodes|);
      for i := 0 to |walk|
        invariant RegisterAll(old(sourceNodes), walk) == RegisterAll(sourceNodes, walk[i..])
      {
        assert walk[i..][1..] == walk[i + 1..];
        if walk[i] in sourceNodes {
          return false;
        }
        sourceNodes := sourceNodes + [walk[i]];
      }
      ok := true;
    }

    /** `remove_source`: deregisters the node and its subtree, asserting each id is present. */
    method RemoveSource(id: NodeId) returns (ok: bool)
      requires Closed(forest.nodes) && id < |forest.nodes|
      modifies this`sourceNodes
      ensures (sourceNodes, ok) == DeregisterAll(old(sourceNodes), PreOrderUpTo(forest.nodes, id, |forest.nodes|))
    {
      var walk := PreOrderUpTo(forest.nodes, id, |forest.nodes|);
      for i := 0 to |walk|
        invariant DeregisterAll(old(sourceNodes), walk) == DeregisterAll(sourceNodes, walk[i..])
      {
        assert walk[i..][1..] == walk[i + 1..];
        if walk[i] !in sourceNodes {
          return false;
        }
        sourceNodes := Without(sourceNodes, walk[i]);
      }
      ok := true;
    }
  }

  /**
   * `partner` is an involution on matched nodes: with mutually inverse maps whose source
   * and target ids never coincide, the partner of a partner is the node itself.
   */
  lemma PartnerOfPartner(m: Matching, x: NodeId)
    requires Bijective(m) && m.st.Keys !! m.ts.Keys
    ensures x in m.st ==> m.st[x] !in m.st && m.st[x] in m.ts && m.ts[m.st[x]] == x
    ensures x !in m.st && x in m.ts ==> m.ts[x] in m.st && m.st[m.ts[x]] == x
  {
  }

  /** The same fact stated on a context: `partner(partner(x)) is x`, and `unmatched` means absent from both maps. */
  lemma ContextPartnerOfPartner(c: DiffContext, x: NodeId)
    requires c.matching.Valid() && c.matching.st.Keys !! c.matching.ts.Keys
    ensures c.Unmatched(x) <==> x !in c.matching.st && x !in c.matching.ts
    ensures c.Partner(x).Some? ==> c.Partner(c.Partner(x).value) == Some(x)
  {
    PartnerOfPartner(c.matching.Value(), x);
  }
}
