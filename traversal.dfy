/**
 * Tree walks (astdiff/ast/traversal.py, and the older copy astdiff/traversal.py).
 *
 * The recursive generators become functions producing the whole walk as a sequence of
 * node ids; `bfs`, a loop over a deque, becomes a method proved against `BfsFrom`.
 */
module Traversal {
  import opened Base
  import opened Nodes

  /** `pre_order_walk`: the node, then the walk of each child, left to right. */
  function PreOrder(nodes: seq<Node>, id: NodeId): (r: seq<NodeId>)
    requires Ordered(nodes) && id < |nodes|
    ensures r != [] && r[0] == id
    decreases |nodes| - id
  {
    var cs := nodes[id].children;
    [id] + Concat(seq(|cs|, k requires 0 <= k < |cs| => PreOrder(nodes, cs[k])))
  }

  /** `post_order_walk`: the walk of each child, left to right, then the node. */
  function PostOrder(nodes: seq<Node>, id: NodeId): (r: seq<NodeId>)
    requires Ordered(nodes) && id < |nodes|
    ensures r != [] && r[|r| - 1] == id
    decreases |nodes| - id
  {
    var cs := nodes[id].children;
    Concat(seq(|cs|, k requires 0 <= k < |cs| => PostOrder(nodes, cs[k]))) + [id]
  }

  predicate AllIn(nodes: seq<Node>, ids: seq<NodeId>)
  {
    forall k | 0 <= k < |ids| :: ids[k] < |nodes|
  }

  /** The pre-order walks of several nodes, one after the other. */
  function PreOrders(nodes: seq<Node>, ids: seq<NodeId>): seq<NodeId>
    requires Ordered(nodes) && AllIn(nodes, ids)
  {
    Concat(seq(|ids|, k requires 0 <= k < |ids| => PreOrder(nodes, ids[k])))
  }

  /** `descendants`: the pre-order walk without its first element. */
  function Descendants(nodes: seq<Node>, id: NodeId): (r: seq<NodeId>)
    requires Ordered(nodes) && id < |nodes|
    ensures [id] + r == PreOrder(nodes, id)
  {
    PreOrder(nodes, id)[1..]
  }

  lemma PreOrdersAppend(nodes: seq<Node>, a: seq<NodeId>, b: seq<NodeId>)
    requires Ordered(nodes) && AllIn(nodes, a) && AllIn(nodes, b)
    ensures AllIn(nodes, a + b)
    ensures PreOrders(nodes, a + b) == PreOrders(nodes, a) + PreOrders(nodes, b)
  {
    var f := k requires 0 <= k < |a + b| && (a + b)[k] < |nodes| => PreOrder(nodes, (a + b)[k]);
    assert seq(|a + b|, k requires 0 <= k < |a + b| => PreOrder(nodes, (a + b)[k]))
        == seq(|a|, k requires 0 <= k < |a| => PreOrder(nodes, a[k]))
         + seq(|b|, k requires 0 <= k < |b| => PreOrder(nodes, b[k]));
    ConcatAppend(seq(|a|, k requires 0 <= k < |a| => PreOrder(nodes, a[k])),
                 seq(|b|, k requires 0 <= k < |b| => PreOrder(nodes, b[k])));
  }

  lemma PreOrdersOne(nodes: seq<Node>, id: NodeId)
    requires Ordered(nodes) && id < |nodes|
    ensures PreOrders(nodes, [id]) == PreOrder(nodes, id)
  {
    assert seq(1, k requires 0 <= k < 1 => PreOrder(nodes, [id][k])) == [PreOrder(nodes, id)];
    ConcatSingle(PreOrder(nodes, id));
  }

  /** A walk stays inside the arena and never goes above its start: children have larger ids. */
  lemma {:induction false} PreOrderRange(nodes: seq<Node>, id: NodeId)
    requires Ordered(nodes) && id < |nodes|
    ensures forall x | x in PreOrder(nodes, id) :: id <= x < |nodes|
    decreases |nodes| - id
  {
    var cs := nodes[id].children;
    var parts := seq(|cs|, k requires 0 <= k < |cs| => PreOrder(nodes, cs[k]));
    assert PreOrder(nodes, id) == [id] + Concat(parts);
    forall x: NodeId | x in PreOrder(nodes, id) ensures id <= x < |nodes| {
      if x != id {
        InConcat(parts, x);
        var k :| 0 <= k < |cs| && x in parts[k];
        PreOrderRange(nodes, cs[k]);
      }
    }
  }

  /** The walk from a child is contained in the walk from its parent. */
  lemma ChildWalkIncluded(nodes: seq<Node>, id: NodeId, k: nat)
    requires Ordered(nodes) && id < |nodes| && k < |nodes[id].children|
    ensures forall x | x in PreOrder(nodes, nodes[id].children[k]) :: x in PreOrder(nodes, id)
  {
    var cs := nodes[id].children;
    var parts := seq(|cs|, k requires 0 <= k < |cs| => PreOrder(nodes, cs[k]));
    forall x | x in parts[k] ensures x in Concat(parts) {
      InConcat(parts, x);
    }
  }

  /** Post-order visits the same nodes as pre-order, as many of them. */
  lemma {:induction false} PostOrderSameNodes(nodes: seq<Node>, id: NodeId)
    requires Ordered(nodes) && id < |nodes|
    ensures |PostOrder(nodes, id)| == |PreOrder(nodes, id)|
    ensures forall x :: x in PostOrder(nodes, id) <==> x in PreOrder(nodes, id)
    decreases |nodes| - id
  {
    var cs := nodes[id].children;
    var pre := seq(|cs|, k requires 0 <= k < |cs| => PreOrder(nodes, cs[k]));
    var post := seq(|cs|, k requires 0 <= k < |cs| => PostOrder(nodes, cs[k]));
    forall k | 0 <= k < |cs|
      ensures |post[k]| == |pre[k]| && forall x :: x in post[k] <==> x in pre[k]
    {
      PostOrderSameNodes(nodes, cs[k]);
    }
    ConcatSameLengths(post, pre);
    forall x ensures x in Concat(post) <==> x in Concat(pre) {
      InConcat(post, x);
      InConcat(pre, x);
    }
  }

  /** The walks read nothing but the children lists. */
  lemma {:induction false} WalksIgnoreLinks(nodes: seq<Node>, nodes': seq<Node>, id: NodeId)
    requires Ordered(nodes) && SameShape(nodes, nodes') && id < |nodes|
    ensures Ordered(nodes')
    ensures PreOrder(nodes, id) == PreOrder(nodes', id) && PostOrder(nodes, id) == PostOrder(nodes', id)
    decreases |nodes| - id
  {
    var cs := nodes[id].children;
    forall k | 0 <= k < |cs|
      ensures PreOrder(nodes, cs[k]) == PreOrder(nodes', cs[k])
      ensures PostOrder(nodes, cs[k]) == PostOrder(nodes', cs[k])
    {
      WalksIgnoreLinks(nodes, nodes', cs[k]);
    }
    assert seq(|cs|, k requires 0 <= k < |cs| => PreOrder(nodes, cs[k]))
        == seq(|cs|, k requires 0 <= k < |cs| => PreOrder(nodes', cs[k]));
    assert seq(|cs|, k requires 0 <= k < |cs| => PostOrder(nodes, cs[k]))
        == seq(|cs|, k requires 0 <= k < |cs| => PostOrder(nodes', cs[k]));
  }

  /** Post-order lists every child of a node before the node itself. */
  lemma {:induction false} PostOrderChildBefore(nodes: seq<Node>, id: NodeId, i: nat, k: nat)
    requires Ordered(nodes) && id < |nodes|
    requires i < |PostOrder(nodes, id)|
    requires PostOrder(nodes, id)[i] < |nodes| && k < |nodes[PostOrder(nodes, id)[i]].children|
    ensures nodes[PostOrder(nodes, id)[i]].children[k] in PostOrder(nodes, id)[..i]
    decreases |nodes| - id
  {
    var cs := nodes[id].children;
    var post := seq(|cs|, k requires 0 <= k < |cs| => PostOrder(nodes, cs[k]));
    var walk := PostOrder(nodes, id);
    assert walk == Concat(post) + [id];
    if i == |walk| - 1 {
      var c := cs[k];
      assert c in post[k];
      InConcat(post, c);
      assert walk[..i] == Concat(post);
    } else {
      var j, o := ConcatPosition(post, i);
      PostOrderChildBefore(nodes, cs[j], o, k);
      assert walk[..i] == Concat(post)[..i];
    }
  }

  /** A node in the walk from `c`, other than `c`, has its parent in that walk too. */
  lemma {:induction false} WalkParentInWalk(nodes: seq<Node>, c: NodeId, x: NodeId)
    requires WellFormed(nodes) && c < |nodes| && x in PreOrder(nodes, c) && x != c
    ensures x < |nodes| && nodes[x].parent.Some? && nodes[x].parent.value in PreOrder(nodes, c)
    decreases |nodes| - c
  {
    var cs := nodes[c].children;
    var parts := seq(|cs|, k requires 0 <= k < |cs| => PreOrder(nodes, cs[k]));
    InConcat(parts, x);
    var k :| 0 <= k < |cs| && x in parts[k];
    if x == cs[k] {
      assert nodes[x].parent == Some(c);
    } else {
      WalkParentInWalk(nodes, cs[k], x);
      ChildWalkIncluded(nodes, c, k);
    }
  }

  /** In a well-formed arena a parent has a smaller id than its child. */
  lemma ParentBelow(nodes: seq<Node>, x: NodeId)
    requires WellFormed(nodes) && x < |nodes| && nodes[x].parent.Some?
    ensures nodes[x].parent.value < x
  {
    var p := nodes[x].parent.value;
    var k :| 0 <= k < |nodes[p].children| && nodes[p].children[k] == x;
  }

  /** The subtrees of two different children of a node share no node. */
  lemma {:induction false} SiblingWalksDisjoint(nodes: seq<Node>, p: NodeId, i: nat, j: nat, x: NodeId)
    requires WellFormed(nodes) && p < |nodes| && i < j < |nodes[p].children|
    ensures !(x in PreOrder(nodes, nodes[p].children[i]) && x in PreOrder(nodes, nodes[p].children[j]))
    decreases x
  {
    var a, b := nodes[p].children[i], nodes[p].children[j];
    if x in PreOrder(nodes, a) && x in PreOrder(nodes, b) {
      PreOrderRange(nodes, a);
      PreOrderRange(nodes, b);
      if x == a {
        WalkParentInWalk(nodes, b, x);
        assert false;
      } else if x == b {
        WalkParentInWalk(nodes, a, x);
        assert false;
      } else {
        WalkParentInWalk(nodes, a, x);
        WalkParentInWalk(nodes, b, x);
        ParentBelow(nodes, x);
        SiblingWalksDisjoint(nodes, p, i, j, nodes[x].parent.value);
        assert false;
      }
    }
  }

  /** Both walks visit every node of the subtree exactly once. */
  lemma {:induction false} WalksVisitOnce(nodes: seq<Node>, id: NodeId)
    requires WellFormed(nodes) && id < |nodes|
    ensures NoDup(PreOrder(nodes, id)) && NoDup(PostOrder(nodes, id))
    decreases |nodes| - id
  {
    var cs := nodes[id].children;
    var pre := seq(|cs|, k requires 0 <= k < |cs| => PreOrder(nodes, cs[k]));
    var post := seq(|cs|, k requires 0 <= k < |cs| => PostOrder(nodes, cs[k]));
    forall k | 0 <= k < |cs| ensures NoDup(pre[k]) && NoDup(post[k]) {
      WalksVisitOnce(nodes, cs[k]);
    }
    forall i, j, x | 0 <= i < j < |cs| && x in pre[i] ensures x !in pre[j] {
      SiblingWalksDisjoint(nodes, id, i, j, x);
    }
    forall i, j, x | 0 <= i < j < |cs| && x in post[i] ensures x !in post[j] {
      PostOrderSameNodes(nodes, cs[i]);
      PostOrderSameNodes(nodes, cs[j]);
      SiblingWalksDisjoint(nodes, id, i, j, x);
    }
    NoDupConcat(pre);
    NoDupConcat(post);
    forall x | x in Concat(pre) ensures x != id {
      InConcat(pre, x);
      var k :| 0 <= k < |cs| && x in pre[k];
      PreOrderRange(nodes, cs[k]);
    }
    forall x | x in Concat(post) ensures x != id {
      InConcat(post, x);
      var k :| 0 <= k < |cs| && x in post[k];
      PostOrderSameNodes(nodes, cs[k]);
      PreOrderRange(nodes, cs[k]);
    }
    NoDupAppend([id], Concat(pre));
    NoDupAppend(Concat(post), [id]);
  }

  /** `descendants` yields exactly the strict subtree: every walked node but the start. */
  lemma DescendantsAreStrictSubtree(nodes: seq<Node>, id: NodeId)
    requires WellFormed(nodes) && id < |nodes|
    ensures forall x :: x in Descendants(nodes, id) <==> x in PreOrder(nodes, id) && x != id
  {
    WalksVisitOnce(nodes, id);
    var walk := PreOrder(nodes, id);
    forall x | x in Descendants(nodes, id) ensures x != id {
      var k :| 0 <= k < |walk| - 1 && walk[1..][k] == x;
      assert walk[k + 1] == x && walk[0] == id;
    }
  }

  /**
   * The pre-order walk on an arena whose links need not follow the index order (the source
   * tree once edit operations have moved nodes), cut off `fuel` levels down.
   */
  function PreOrderUpTo(nodes: seq<Node>, id: NodeId, fuel: nat): (r: seq<NodeId>)
    requires Closed(nodes) && id < |nodes|
    ensures r != [] && r[0] == id
    decreases fuel
  {
    var cs := nodes[id].children;
    if fuel == 0 then [id]
    else [id] + Concat(seq(|cs|, k requires 0 <= k < |cs| => PreOrderUpTo(nodes, cs[k], fuel - 1)))
  }

  /** The post-order walk under the same cut-off. */
  function PostOrderUpTo(nodes: seq<Node>, id: NodeId, fuel: nat): (r: seq<NodeId>)
    requires Closed(nodes) && id < |nodes|
    ensures r != [] && r[|r| - 1] == id
    ensures forall x | x in r :: x < |nodes|
    decreases fuel
  {
    var cs := nodes[id].children;
    if fuel == 0 then [id]
    else
      var parts := seq(|cs|, k requires 0 <= k < |cs| => PostOrderUpTo(nodes, cs[k], fuel - 1));
      assert forall x: NodeId | x in Concat(parts) :: x < |nodes| by {
        forall x: NodeId | x in Concat(parts) ensures x < |nodes| {
          InConcat(parts, x);
          var k :| 0 <= k < |cs| && x in parts[k];
          assert parts[k] == PostOrderUpTo(nodes, cs[k], fuel - 1);
        }
      }
      Concat(parts) + [id]
  }

  /** A node of the walk below a child is in the walk below its parent, one level further down. */
  lemma WalkBelowChild(nodes: seq<Node>, p: NodeId, c: NodeId, fuel: nat, x: NodeId)
    requires Closed(nodes) && p < |nodes| && c in nodes[p].children && x in PostOrderUpTo(nodes, c, fuel)
    ensures x in PostOrderUpTo(nodes, p, fuel + 1)
  {
    var cs := nodes[p].children;
    var k :| 0 <= k < |cs| && cs[k] == c;
    var parts := seq(|cs|, k requires 0 <= k < |cs| => PostOrderUpTo(nodes, cs[k], fuel));
    assert x in parts[k];
    InConcat(parts, x);
  }

  /** A node lies no deeper than its id: parents have smaller ids. */
  lemma {:induction false} DepthBelow(nodes: seq<Node>, x: NodeId)
    requires WellFormed(nodes) && x < |nodes|
    ensures Depth(nodes, x) <= x
    decreases x
  {
    if nodes[x].parent.Some? {
      ParentBelow(nodes, x);
      DepthBelow(nodes, nodes[x].parent.value);
    }
  }

  /** The pre-order walk of a leaf is the leaf alone. */
  lemma LeafWalk(nodes: seq<Node>, id: NodeId, fuel: nat)
    requires Closed(nodes) && id < |nodes| && nodes[id].children == []
    ensures PreOrderUpTo(nodes, id, fuel) == [id]
  {
    if fuel > 0 {
      assert Concat<NodeId>([]) == [];
    }
  }

  /** On an index-ordered arena the cut-off never bites once the fuel reaches the remaining ids. */
  lemma {:induction false} WalksUpToAgree(nodes: seq<Node>, id: NodeId, fuel: nat)
    requires Ordered(nodes) && Closed(nodes) && id < |nodes| && fuel >= |nodes| - id
    ensures PreOrderUpTo(nodes, id, fuel) == PreOrder(nodes, id)
    ensures PostOrderUpTo(nodes, id, fuel) == PostOrder(nodes, id)
    decreases fuel
  {
    var cs := nodes[id].children;
    forall k | 0 <= k < |cs|
      ensures PreOrderUpTo(nodes, cs[k], fuel - 1) == PreOrder(nodes, cs[k])
      ensures PostOrderUpTo(nodes, cs[k], fuel - 1) == PostOrder(nodes, cs[k])
    {
      WalksUpToAgree(nodes, cs[k], fuel - 1);
    }
    assert seq(|cs|, k requires 0 <= k < |cs| => PreOrderUpTo(nodes, cs[k], fuel - 1))
        == seq(|cs|, k requires 0 <= k < |cs| => PreOrder(nodes, cs[k]));
    assert seq(|cs|, k requires 0 <= k < |cs| => PostOrderUpTo(nodes, cs[k], fuel - 1))
        == seq(|cs|, k requires 0 <= k < |cs| => PostOrder(nodes, cs[k]));
  }

  /** Depth below the root of the tree a node belongs to, following parent links. */
  function Depth(nodes: seq<Node>, x: NodeId): nat
    requires WellFormed(nodes) && x < |nodes|
    decreases x
  {
    if nodes[x].parent.None? then 0
    else
      ParentBelow(nodes, x);
      1 + Depth(nodes, nodes[x].parent.value)
  }

  /**
   * The order in which `bfs` yields nodes when its deque holds `queue`: pop the front,
   * append its children, yield it.
   */
  function BfsFrom(nodes: seq<Node>, queue: seq<NodeId>): seq<NodeId>
    requires Ordered(nodes) && AllIn(nodes, queue)
    decreases |PreOrders(nodes, queue)|
  {
    if queue == [] then []
    else
      var next := queue[1..] + nodes[queue[0]].children;
      BfsStep(nodes, queue);
      [queue[0]] + BfsFrom(nodes, next)
  }

  /** One step of `bfs` replaces the front node's walk by its children's walks. */
  lemma BfsStep(nodes: seq<Node>, queue: seq<NodeId>)
    requires Ordered(nodes) && AllIn(nodes, queue) && queue != []
    ensures AllIn(nodes, queue[1..] + nodes[queue[0]].children)
    ensures multiset(PreOrders(nodes, queue))
         == multiset{queue[0]} + multiset(PreOrders(nodes, queue[1..] + nodes[queue[0]].children))
    ensures |PreOrders(nodes, queue)| == 1 + |PreOrders(nodes, queue[1..] + nodes[queue[0]].children)|
  {
    var q0, rest, cs := queue[0], queue[1..], nodes[queue[0]].children;
    assert AllIn(nodes, cs);
    assert queue == [q0] + rest;
    PreOrdersAppend(nodes, [q0], rest);
    PreOrdersOne(nodes, q0);
    PreOrdersAppend(nodes, rest, cs);
    assert PreOrder(nodes, q0) == [q0] + PreOrders(nodes, cs);
  }

  lemma BfsUnfold(nodes: seq<Node>, queue: seq<NodeId>)
    requires Ordered(nodes) && AllIn(nodes, queue) && queue != []
    ensures AllIn(nodes, queue[1..] + nodes[queue[0]].children)
    ensures BfsFrom(nodes, queue) == [queue[0]] + BfsFrom(nodes, queue[1..] + nodes[queue[0]].children)
    ensures |PreOrders(nodes, queue[1..] + nodes[queue[0]].children)| < |PreOrders(nodes, queue)|
  {
    BfsStep(nodes, queue);
  }

  /** `bfs` yields every node of the tree exactly as often as the pre-order walk does. */
  lemma {:induction false} BfsPermutation(nodes: seq<Node>, queue: seq<NodeId>)
    requires Ordered(nodes) && AllIn(nodes, queue)
    ensures multiset(BfsFrom(nodes, queue)) == multiset(PreOrders(nodes, queue))
    decreases |PreOrders(nodes, queue)|
  {
    if queue != [] {
      BfsStep(nodes, queue);
      BfsPermutation(nodes, queue[1..] + nodes[queue[0]].children);
    }
  }

  predicate DepthSorted(nodes: seq<Node>, s: seq<NodeId>)
    requires WellFormed(nodes) && AllIn(nodes, s)
  {
    forall i, j | 0 <= i < j < |s| :: Depth(nodes, s[i]) <= Depth(nodes, s[j])
  }

  /** The children of the front node are one level deeper, so the next deque stays sorted. */
  lemma BfsNextQueue(nodes: seq<Node>, queue: seq<NodeId>)
    requires WellFormed(nodes) && AllIn(nodes, queue) && queue != [] && DepthSorted(nodes, queue)
    requires forall j | 0 <= j < |queue| :: Depth(nodes, queue[j]) <= Depth(nodes, queue[0]) + 1
    ensures var next := queue[1..] + nodes[queue[0]].children;
      && AllIn(nodes, next)
      && DepthSorted(nodes, next)
      && (forall j | 0 <= j < |next| :: Depth(nodes, next[j]) <= Depth(nodes, queue[0]) + 1)
      && (next != [] ==> Depth(nodes, queue[0]) <= Depth(nodes, next[0]))
  {
    var q0, cs := queue[0], nodes[queue[0]].children;
    var next := queue[1..] + cs;
    var n := |queue| - 1;
    var d := Depth(nodes, q0);
    assert AllIn(nodes, cs);
    forall k | 0 <= k < |cs| ensures Depth(nodes, cs[k]) == d + 1 {
      assert nodes[cs[k]].parent == Some(q0);
    }
    forall j | 0 <= j < |next| ensures d <= Depth(nodes, next[j]) <= d + 1 {
      if j < n { assert next[j] == queue[j + 1]; }
      else { assert next[j] == cs[j - n]; }
    }
    forall i, j | 0 <= i < j < |next| ensures Depth(nodes, next[i]) <= Depth(nodes, next[j]) {
      if j < n {
        assert next[i] == queue[i + 1] && next[j] == queue[j + 1];
      } else {
        assert next[j] == cs[j - n];
      }
    }
  }

  /** Every node of `s` lies at depth `d` or deeper. */
  predicate AtLeastDepth(nodes: seq<Node>, s: seq<NodeId>, d: nat)
    requires WellFormed(nodes) && AllIn(nodes, s)
  {
    forall j | 0 <= j < |s| :: d <= Depth(nodes, s[j])
  }

  lemma DepthSortedCons(nodes: seq<Node>, x: NodeId, rest: seq<NodeId>)
    requires WellFormed(nodes) && x < |nodes| && AllIn(nodes, rest) && DepthSorted(nodes, rest)
    requires AtLeastDepth(nodes, rest, Depth(nodes, x))
    ensures AllIn(nodes, [x] + rest) && DepthSorted(nodes, [x] + rest)
    ensures AtLeastDepth(nodes, [x] + rest, Depth(nodes, x))
  {
    ConsAt(x, rest);
  }

  lemma AtLeastDepthWeaken(nodes: seq<Node>, s: seq<NodeId>, d: nat, d': nat)
    requires WellFormed(nodes) && AllIn(nodes, s) && AtLeastDepth(nodes, s, d) && d' <= d
    ensures AtLeastDepth(nodes, s, d')
  {
  }

  /** From a deque sorted by depth and spanning at most two depths, `bfs` yields depths in order. */
  lemma {:induction false} BfsDepthOrdered(nodes: seq<Node>, queue: seq<NodeId>)
    requires WellFormed(nodes) && AllIn(nodes, queue) && DepthSorted(nodes, queue)
    requires forall j | 0 <= j < |queue| :: Depth(nodes, queue[j]) <= Depth(nodes, queue[0]) + 1
    ensures AllIn(nodes, BfsFrom(nodes, queue)) && DepthSorted(nodes, BfsFrom(nodes, queue))
    ensures queue != [] ==> AtLeastDepth(nodes, BfsFrom(nodes, queue), Depth(nodes, queue[0]))
    decreases |PreOrders(nodes, queue)|
  {
    if queue != [] {
      var next := queue[1..] + nodes[queue[0]].children;
      BfsUnfold(nodes, queue);
      BfsNextQueue(nodes, queue);
      BfsDepthOrdered(nodes, next);
      var rest := BfsFrom(nodes, next);
      var d := Depth(nodes, queue[0]);
      if next != [] {
        AtLeastDepthWeaken(nodes, rest, Depth(nodes, next[0]), d);
      }
      DepthSortedCons(nodes, queue[0], rest);
    }
  }

  /**
   * `bfs`: a deque seeded with the root; each round pops the front node, appends its
   * children and yields it.
   */
  method Bfs(nodes: seq<Node>, root: NodeId) returns (order: seq<NodeId>)
    requires Ordered(nodes) && root < |nodes|
    ensures order == BfsFrom(nodes, [root])
    ensures order != [] && order[0] == root
    ensures multiset(order) == multiset(PreOrder(nodes, root))
  {
    var queue := [root];
    order := [];
    while queue != []
      invariant AllIn(nodes, queue)
      invariant order + BfsFrom(nodes, queue) == BfsFrom(nodes, [root])
      decreases |PreOrders(nodes, queue)|
    {
      var node := queue[0];
      BfsUnfold(nodes, queue);
      queue := queue[1..] + nodes[node].children;
      order := order + [node];
    }
    BfsFromRoot(nodes, root);
  }

  lemma BfsFromRoot(nodes: seq<Node>, root: NodeId)
    requires Ordered(nodes) && root < |nodes|
    ensures BfsFrom(nodes, [root]) != [] && BfsFrom(nodes, [root])[0] == root
    ensures multiset(BfsFrom(nodes, [root])) == multiset(PreOrder(nodes, root))
  {
    BfsUnfold(nodes, [root]);
    BfsPermutation(nodes, [root]);
    PreOrdersOne(nodes, root);
  }

  /**
   * On a well-formed tree `bfs` yields the root first, every node of the tree exactly once,
   * and depths in non-decreasing order, so a parent always comes before its children.
   */
  lemma BfsVisitsTreeByLevels(nodes: seq<Node>, root: NodeId)
    requires WellFormed(nodes) && root < |nodes|
    ensures var order := BfsFrom(nodes, [root]);
      && order[0] == root
      && NoDup(order)
      && (forall x :: x in order <==> x in PreOrder(nodes, root))
      && AllIn(nodes, order)
      && DepthSorted(nodes, order)
  {
    var order := BfsFrom(nodes, [root]);
    BfsPermutation(nodes, [root]);
    PreOrdersOne(nodes, root);
    WalksVisitOnce(nodes, root);
    NoDupMultiset(PreOrder(nodes, root));
    NoDupMultiset(order);
    assert forall x :: x in order <==> x in multiset(order);
    BfsDepthOrdered(nodes, [root]);
  }
}
