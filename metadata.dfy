/**
 * Derived node data (astdiff/ast/metadata.py): parent links, and the size, height and
 * positional polynomial hash attached to every node in one post-order pass.
 *
 * Python's builtin `hash` of a `(label, value, marker)` tuple is randomised per process and
 * is not part of this model; every function that needs it takes it as the parameter `h`.
 */
module Metadata {
  import opened Base
  import opened Nodes
  import opened Traversal

  /** The builtin `hash` applied to a `(label, value, marker)` triple. */
  type TupleHash = ((string, string, string)) -> int

  const HashStart := "HASH_START"
  const HashEnd := "HASH_END"
  const HashBase := 33

  /** Number of nodes in a tree. */
  function Size(t: Tree): (r: int)
    ensures r >= 1
  {
    var sizes := seq(|t.children|, k requires 0 <= k < |t.children| => Size(t.children[k]));
    SumOfPositives(sizes);
    1 + Sum(sizes)
  }

  /** The sizes of a tree's children, left to right. */
  function ChildSizes(t: Tree): seq<int>
  {
    seq(|t.children|, k requires 0 <= k < |t.children| => Size(t.children[k]))
  }

  /** Number of levels in a tree: 1 for a leaf. */
  function Height(t: Tree): (r: int)
    ensures r >= 1
  {
    if t.children == [] then 1
    else 1 + MaxOf(seq(|t.children|, k requires 0 <= k < |t.children| => Height(t.children[k])))
  }

  lemma {:induction false} SumOfPositives(xs: seq<int>)
    requires forall i | 0 <= i < |xs| :: xs[i] >= 1
    ensures Sum(xs) >= |xs|
  {
    if xs != [] {
      SumOfPositives(xs[..|xs| - 1]);
    }
  }

  /** `_factor`. */
  function Factor(num: nat): int
  {
    Pow(HashBase, num)
  }

  /** `_hash_node`: the start marker, the accumulated children and the weighted end marker. */
  function HashNode(h: TupleHash, kind: string, value: string, currentHash: int, exponent: nat): int
  {
    h((kind, value, HashStart)) + currentHash + h((kind, value, HashEnd)) * Factor(exponent)
  }

  /**
   * The `(current_hash, current_size)` accumulator of `_calculate_hash` after the given
   * `(child hashcode, child size)` pairs: each child is weighted by 33 to the power of
   * twice the size of the children before it, plus one.
   */
  function HashFold(pairs: seq<(int, nat)>): (int, nat)
  {
    if pairs == [] then (0, 0)
    else
      var acc := HashFold(pairs[..|pairs| - 1]);
      var last := pairs[|pairs| - 1];
      (acc.0 + last.0 * Factor(2 * acc.1 + 1), acc.1 + last.1)
  }

  /** The hashcode of a node with the given kind, value and children's `(hashcode, size)` pairs. */
  function HashOfPairs(h: TupleHash, kind: string, value: string, pairs: seq<(int, nat)>): int
  {
    var acc := HashFold(pairs);
    HashNode(h, kind, value, acc.0, 2 * acc.1 + 1)
  }

  /** The hashcode a tree gets: a function of its kind, value and its children's hashes and sizes. */
  function TreeHash(h: TupleHash, t: Tree): int
  {
    HashOfPairs(h, t.kind, t.value,
      seq(|t.children|, k requires 0 <= k < |t.children| => (TreeHash(h, t.children[k]), Size(t.children[k]) as nat)))
  }

  /** The `(hashcode, size)` pairs of a tree's children, left to right. */
  function TreePairs(h: TupleHash, t: Tree): (r: seq<(int, nat)>)
    ensures TreeHash(h, t) == HashOfPairs(h, t.kind, t.value, r)
  {
    seq(|t.children|, k requires 0 <= k < |t.children| => (TreeHash(h, t.children[k]), Size(t.children[k]) as nat))
  }

  /** The metadata `attach_metadata` computes for a tree. */
  function MetadataOf(h: TupleHash, t: Tree): Metadata
  {
    Metadata(TreeHash(h, t), Height(t), Size(t))
  }

  /** The node carries the metadata of the subtree it roots. */
  predicate HasMetadata(h: TupleHash, nodes: seq<Node>, id: NodeId)
    requires Ordered(nodes) && id < |nodes|
  {
    nodes[id].metadata == Some(MetadataOf(h, ToTree(nodes, id)))
  }

  /** Every child of the node is in the arena and already carries metadata. */
  predicate ChildrenHaveMetadata(nodes: seq<Node>, id: NodeId)
    requires id < |nodes|
  {
    forall k | 0 <= k < |nodes[id].children| ::
      nodes[id].children[k] < |nodes| && nodes[nodes[id].children[k]].metadata.Some?
  }

  /** `_calculate_size`. */
  function CalculateSize(nodes: seq<Node>, id: NodeId): int
    requires id < |nodes| && ChildrenHaveMetadata(nodes, id)
  {
    var cs := nodes[id].children;
    if IsLeaf(nodes[id]) then 1
    else 1 + Sum(seq(|cs|, k requires 0 <= k < |cs| => nodes[cs[k]].metadata.value.size as int))
  }

  /** `_calculate_height`. */
  function CalculateHeight(nodes: seq<Node>, id: NodeId): int
    requires id < |nodes| && ChildrenHaveMetadata(nodes, id)
  {
    var cs := nodes[id].children;
    if IsLeaf(nodes[id]) then 1
    else 1 + MaxOf(seq(|cs|, k requires 0 <= k < |cs| => nodes[cs[k]].metadata.value.height as int))
  }

  /** The `(hashcode, size)` pairs of a node's children, read from their metadata. */
  function ChildPairs(nodes: seq<Node>, id: NodeId): seq<(int, nat)>
    requires id < |nodes| && ChildrenHaveMetadata(nodes, id)
  {
    var cs := nodes[id].children;
    seq(|cs|, k requires 0 <= k < |cs| =>
      (nodes[cs[k]].metadata.value.hashcode, nodes[cs[k]].metadata.value.size as nat))
  }

  /**
   * `_calculate_hash`: a leaf is hashed with exponent 1; otherwise the children are
   * accumulated left to right. Both branches agree with the fold over the children's pairs.
   */
  method CalculateHash(nodes: seq<Node>, id: NodeId, h: TupleHash) returns (hashcode: int)
    requires id < |nodes| && ChildrenHaveMetadata(nodes, id)
    ensures hashcode == HashOfPairs(h, nodes[id].kind, nodes[id].value, ChildPairs(nodes, id))
  {
    var node := nodes[id];
    if IsLeaf(node) {
      return HashNode(h, node.kind, node.value, 0, 1);
    }
    var pairs := ChildPairs(nodes, id);
    var currentHash := 0;
    var currentSize: nat := 0;
    for k := 0 to |node.children|
      invariant (currentHash, currentSize) == HashFold(pairs[..k])
    {
      assert pairs[..k + 1][..k] == pairs[..k];
      var child := nodes[node.children[k]].metadata.value;
      currentHash := currentHash + child.hashcode * Factor(2 * currentSize + 1);
      currentSize := currentSize + child.size;
    }
    assert pairs[..|node.children|] == pairs;
    hashcode := HashNode(h, node.kind, node.value, currentHash, 2 * currentSize + 1);
  }

  /** The children of `id` carry the metadata of their subtrees in `orig`, whose shape `nodes` shares. */
  predicate ChildrenMatch(h: TupleHash, orig: seq<Node>, nodes: seq<Node>, id: NodeId)
    requires Ordered(orig) && id < |orig|
  {
    && |nodes| == |orig|
    && nodes[id].children == orig[id].children
    && forall k | 0 <= k < |orig[id].children| ::
         nodes[orig[id].children[k]].metadata == Some(MetadataOf(h, ToTree(orig, orig[id].children[k])))
  }

  lemma ChildrenMatchHaveMetadata(h: TupleHash, orig: seq<Node>, nodes: seq<Node>, id: NodeId)
    requires Ordered(orig) && id < |orig| && ChildrenMatch(h, orig, nodes, id)
    ensures ChildrenHaveMetadata(nodes, id)
    ensures forall k | 0 <= k < |nodes[id].children| ::
              ToTree(orig, id).children[k] == ToTree(orig, nodes[id].children[k])
  {
  }

  /** With the children's metadata in place, `_calculate_size` gives the size of the subtree. */
  lemma CalculateSizeMatchesTree(h: TupleHash, orig: seq<Node>, nodes: seq<Node>, id: NodeId)
    requires Ordered(orig) && id < |orig| && ChildrenMatch(h, orig, nodes, id)
    ensures ChildrenHaveMetadata(nodes, id)
    ensures CalculateSize(nodes, id) == Size(ToTree(orig, id))
  {
    ChildrenMatchHaveMetadata(h, orig, nodes, id);
    var t := ToTree(orig, id);
    var cs := nodes[id].children;
    assert seq(|cs|, k requires 0 <= k < |cs| => nodes[cs[k]].metadata.value.size as int) == ChildSizes(t);
    assert cs == [] ==> ChildSizes(t) == [];
  }

  /** With the children's metadata in place, `_calculate_height` gives the height of the subtree. */
  lemma CalculateHeightMatchesTree(h: TupleHash, orig: seq<Node>, nodes: seq<Node>, id: NodeId)
    requires Ordered(orig) && id < |orig| && ChildrenMatch(h, orig, nodes, id)
    ensures ChildrenHaveMetadata(nodes, id)
    ensures CalculateHeight(nodes, id) == Height(ToTree(orig, id))
  {
    ChildrenMatchHaveMetadata(h, orig, nodes, id);
    var t := ToTree(orig, id);
    var cs := nodes[id].children;
    assert seq(|cs|, k requires 0 <= k < |cs| => nodes[cs[k]].metadata.value.height as int)
        == seq(|t.children|, k requires 0 <= k < |t.children| => Height(t.children[k]));
  }

  /** With the children's metadata in place, the children's pairs are those of the subtree. */
  lemma ChildPairsMatchTree(h: TupleHash, orig: seq<Node>, nodes: seq<Node>, id: NodeId)
    requires Ordered(orig) && id < |orig| && ChildrenMatch(h, orig, nodes, id)
    ensures ChildrenHaveMetadata(nodes, id)
    ensures ChildPairs(nodes, id) == TreePairs(h, ToTree(orig, id))
  {
    ChildrenMatchHaveMetadata(h, orig, nodes, id);
  }

  /** `nodes` differs from `orig` at most in the metadata of the nodes listed in `visited`. */
  predicate OnlyMetadataOf(orig: seq<Node>, nodes: seq<Node>, visited: seq<NodeId>)
  {
    && |nodes| == |orig|
    && (forall j | 0 <= j < |orig| :: nodes[j] == orig[j].(metadata := nodes[j].metadata))
    && (forall j | 0 <= j < |orig| && j !in visited :: nodes[j] == orig[j])
  }

  /** The first `i` nodes of `walk` carry the metadata of their subtrees in `orig`. */
  predicate AttachedUpTo(h: TupleHash, orig: seq<Node>, nodes: seq<Node>, walk: seq<NodeId>, i: nat)
    requires Ordered(orig) && i <= |walk|
  {
    forall j | 0 <= j < i ::
      walk[j] < |orig| && walk[j] < |nodes| && nodes[walk[j]].metadata == Some(MetadataOf(h, ToTree(orig, walk[j])))
  }

  /** Attaching the right metadata to the next node of the walk keeps both loop facts. */
  lemma AttachStep(h: TupleHash, orig: seq<Node>, nodes: seq<Node>, walk: seq<NodeId>, i: nat, m: Metadata)
    requires Ordered(orig) && i < |walk| && walk[i] < |orig|
    requires m == MetadataOf(h, ToTree(orig, walk[i]))
    requires OnlyMetadataOf(orig, nodes, walk[..i]) && AttachedUpTo(h, orig, nodes, walk, i)
    ensures var nodes' := nodes[walk[i] := nodes[walk[i]].(metadata := Some(m))];
      OnlyMetadataOf(orig, nodes', walk[..i + 1]) && AttachedUpTo(h, orig, nodes', walk, i + 1)
  {
    var nodes' := nodes[walk[i] := nodes[walk[i]].(metadata := Some(m))];
    OnlyMetadataStep(orig, nodes, walk, i, m);
    forall j | 0 <= j < i + 1
      ensures walk[j] < |orig| && walk[j] < |nodes'|
      ensures nodes'[walk[j]].metadata == Some(MetadataOf(h, ToTree(orig, walk[j])))
    {
      if walk[j] != walk[i] {
        assert nodes'[walk[j]] == nodes[walk[j]];
      }
    }
  }

  lemma OnlyMetadataStep(orig: seq<Node>, nodes: seq<Node>, walk: seq<NodeId>, i: nat, m: Metadata)
    requires i < |walk| && walk[i] < |orig| && OnlyMetadataOf(orig, nodes, walk[..i])
    ensures OnlyMetadataOf(orig, nodes[walk[i] := nodes[walk[i]].(metadata := Some(m))], walk[..i + 1])
  {
    assert walk[..i + 1] == walk[..i] + [walk[i]];
  }

  /**
   * `attach_metadata`: walks the subtree in post-order and gives each node the metadata
   * computed from its children's. Only metadata changes, and only inside the subtree.
   */
  method AttachMetadata(forest: Forest, root: NodeId, h: TupleHash)
    requires Ordered(forest.nodes) && root < |forest.nodes|
    modifies forest
    ensures |forest.nodes| == |old(forest.nodes)|
    ensures forall i | 0 <= i < |forest.nodes| ::
              forest.nodes[i] == old(forest.nodes[i]).(metadata := forest.nodes[i].metadata)
    ensures forall i | 0 <= i < |forest.nodes| && i !in PreOrder(old(forest.nodes), root) ::
              forest.nodes[i] == old(forest.nodes[i])
    ensures Ordered(forest.nodes)
    ensures forall x | x in PreOrder(forest.nodes, root) ::
              x < |forest.nodes| && HasMetadata(h, forest.nodes, x)
  {
    ghost var orig := forest.nodes;
    var walk := PostOrder(forest.nodes, root);
    assert walk[..0] == [];
    for i := 0 to |walk|
      invariant OnlyMetadataOf(orig, forest.nodes, walk[..i])
      invariant AttachedUpTo(h, orig, forest.nodes, walk, i)
    {
      var node := walk[i];
      ChildrenReady(h, orig, forest.nodes, root, i);
      CalculateSizeMatchesTree(h, orig, forest.nodes, node);
      CalculateHeightMatchesTree(h, orig, forest.nodes, node);
      ChildPairsMatchTree(h, orig, forest.nodes, node);
      HashExponent(h, ToTree(orig, node));
      var size := CalculateSize(forest.nodes, node);
      var height := CalculateHeight(forest.nodes, node);
      var hashcode := CalculateHash(forest.nodes, node, h);
      AttachStep(h, orig, forest.nodes, walk, i, Metadata(hashcode, height, size));
      forest.SetMetadata(node, Metadata(hashcode, height, size));
    }
    AttachDone(h, orig, forest.nodes, root);
  }

  lemma AttachDone(h: TupleHash, orig: seq<Node>, nodes: seq<Node>, root: NodeId)
    requires Ordered(orig) && root < |orig|
    requires OnlyMetadataOf(orig, nodes, PostOrder(orig, root)[..|PostOrder(orig, root)|])
    requires AttachedUpTo(h, orig, nodes, PostOrder(orig, root), |PostOrder(orig, root)|)
    ensures |nodes| == |orig|
    ensures forall i | 0 <= i < |nodes| :: nodes[i] == orig[i].(metadata := nodes[i].metadata)
    ensures forall i | 0 <= i < |nodes| && i !in PreOrder(orig, root) :: nodes[i] == orig[i]
    ensures Ordered(nodes)
    ensures forall x | x in PreOrder(nodes, root) :: x < |nodes| && HasMetadata(h, nodes, x)
  {
    var walk := PostOrder(orig, root);
    assert walk[..|walk|] == walk;
    PostOrderSameNodes(orig, root);
    MetadataMatchesOwnShape(h, orig, nodes, root);
  }

  /** In post-order, the children of the node at position `i` got their metadata at earlier positions. */
  lemma ChildrenReady(h: TupleHash, orig: seq<Node>, nodes: seq<Node>, root: NodeId, i: nat)
    requires Ordered(orig) && root < |orig| && i < |PostOrder(orig, root)| && |nodes| == |orig|
    requires forall j | 0 <= j < |orig| :: nodes[j].children == orig[j].children
    requires forall j | 0 <= j < i ::
               PostOrder(orig, root)[j] < |orig|
               && nodes[PostOrder(orig, root)[j]].metadata == Some(MetadataOf(h, ToTree(orig, PostOrder(orig, root)[j])))
    ensures PostOrder(orig, root)[i] < |orig|
    ensures ChildrenMatch(h, orig, nodes, PostOrder(orig, root)[i])
  {
    var walk := PostOrder(orig, root);
    var node := walk[i];
    PostOrderSameNodes(orig, root);
    PreOrderRange(orig, root);
    assert node in walk;
    forall k | 0 <= k < |orig[node].children|
      ensures nodes[orig[node].children[k]].metadata
           == Some(MetadataOf(h, ToTree(orig, orig[node].children[k])))
    {
      PostOrderChildBefore(orig, root, i, k);
      var j :| 0 <= j < i && walk[..i][j] == orig[node].children[k];
      assert walk[j] == walk[..i][j];
    }
  }

  /** Metadata computed against the original arena is right for the updated one, which has the same shape. */
  lemma MetadataMatchesOwnShape(h: TupleHash, orig: seq<Node>, nodes: seq<Node>, root: NodeId)
    requires Ordered(orig) && root < |orig| && SameShape(orig, nodes)
    requires forall x | x in PostOrder(orig, root) ::
               x < |nodes| && nodes[x].metadata == Some(MetadataOf(h, ToTree(orig, x)))
    ensures Ordered(nodes)
    ensures forall x | x in PreOrder(nodes, root) :: x < |nodes| && HasMetadata(h, nodes, x)
  {
    WalksIgnoreLinks(orig, nodes, root);
    PostOrderSameNodes(orig, root);
    PreOrderRange(orig, root);
    forall x | x in PreOrder(nodes, root) ensures x < |nodes| && HasMetadata(h, nodes, x) {
      EqualIgnoresLinks(orig, nodes, x);
    }
  }

  /** A subtree has as many nodes as its pre-order walk yields: size counts the nodes. */
  lemma {:induction false} SizeCountsNodes(nodes: seq<Node>, id: NodeId)
    requires Ordered(nodes) && id < |nodes|
    ensures |PreOrder(nodes, id)| == Size(ToTree(nodes, id))
    decreases |nodes| - id
  {
    var cs := nodes[id].children;
    var t := ToTree(nodes, id);
    var parts := seq(|cs|, k requires 0 <= k < |cs| => PreOrder(nodes, cs[k]));
    forall k | 0 <= k < |cs| ensures |parts[k]| == Size(t.children[k]) {
      SizeCountsNodes(nodes, cs[k]);
    }
    ConcatLength(parts);
    assert seq(|parts|, i requires 0 <= i < |parts| => |parts[i]|) == ChildSizes(t);
  }

  /** Every child is strictly shorter than its parent. */
  lemma ChildShorter(t: Tree, k: nat)
    requires k < |t.children|
    ensures Height(t.children[k]) < Height(t)
  {
    var heights := seq(|t.children|, k requires 0 <= k < |t.children| => Height(t.children[k]));
    assert heights[k] == Height(t.children[k]);
  }

  /** The accumulated size is the sum of the children's sizes. */
  lemma {:induction false} HashFoldSize(pairs: seq<(int, nat)>)
    ensures HashFold(pairs).1 == Sum(seq(|pairs|, k requires 0 <= k < |pairs| => pairs[k].1 as int))
  {
    if pairs != [] {
      var n := |pairs|;
      HashFoldSize(pairs[..n - 1]);
      assert seq(n, k requires 0 <= k < n => pairs[k].1 as int)[..n - 1]
          == seq(n - 1, k requires 0 <= k < n - 1 => pairs[..n - 1][k].1 as int);
    }
  }

  /**
   * The end marker of a tree's hash is weighted by 33 to the power 2 * size - 1: the
   * exponent after all children is twice their total size plus one.
   */
  lemma HashExponent(h: TupleHash, t: Tree)
    ensures TreeHash(h, t) == HashOfPairs(h, t.kind, t.value, TreePairs(h, t))
    ensures 2 * HashFold(TreePairs(h, t)).1 + 1 == 2 * Size(t) - 1
  {
    var pairs := TreePairs(h, t);
    HashFoldSize(pairs);
    assert seq(|pairs|, k requires 0 <= k < |pairs| => pairs[k].1 as int) == ChildSizes(t);
  }

  /** A leaf hashes as `hash(start) + hash(end) * 33`: the general formula with no children. */
  lemma LeafHash(h: TupleHash, t: Tree)
    requires t.children == []
    ensures TreeHash(h, t) == h((t.kind, t.value, HashStart)) + h((t.kind, t.value, HashEnd)) * 33
    ensures Size(t) == 1 && Height(t) == 1
  {
    assert TreePairs(h, t) == [];
    assert ChildSizes(t) == [];
  }

  /** Subtrees equal under `==` carry equal metadata, so `isomorphic_to` holds between them. */
  lemma EqualTreesAreIsomorphic(h: TupleHash, nodes: seq<Node>, a: NodeId, nodes': seq<Node>, b: NodeId)
    requires Ordered(nodes) && a < |nodes| && Ordered(nodes') && b < |nodes'|
    requires HasMetadata(h, nodes, a) && HasMetadata(h, nodes', b)
    requires Equal(nodes, a, nodes', b)
    ensures IsomorphicTo(nodes[a], nodes'[b])
    ensures nodes[a].metadata == nodes'[b].metadata
  {
  }

  /** Attached metadata gives the facts the matcher relies on: sizes count nodes, children are shorter. */
  lemma MetadataFacts(h: TupleHash, nodes: seq<Node>, id: NodeId)
    requires Ordered(nodes) && id < |nodes| && HasMetadata(h, nodes, id)
    ensures nodes[id].metadata.value.size == |PreOrder(nodes, id)|
    ensures nodes[id].metadata.value.height >= 1
    ensures forall k | 0 <= k < |nodes[id].children| ::
              Height(ToTree(nodes, nodes[id].children[k])) < nodes[id].metadata.value.height
  {
    SizeCountsNodes(nodes, id);
    var t := ToTree(nodes, id);
    forall k | 0 <= k < |nodes[id].children|
      ensures Height(ToTree(nodes, nodes[id].children[k])) < nodes[id].metadata.value.height
    {
      ChildShorter(t, k);
    }
  }

  /** `z` is listed as a child of some node of `ids`. */
  predicate ChildOfAny(nodes: seq<Node>, ids: seq<NodeId>, z: NodeId)
  {
    exists x, k | x in ids && x < |nodes| && 0 <= k < |nodes[x].children| :: nodes[x].children[k] == z
  }

  /** `nodes` differs from `orig` at most in parent links. */
  predicate OnlyParents(orig: seq<Node>, nodes: seq<Node>)
  {
    && |nodes| == |orig|
    && forall j | 0 <= j < |orig| :: nodes[j] == orig[j].(parent := nodes[j].parent)
  }

  /** Every child of the first `i` nodes of `walk`, and the first `k` children of the next one, points back at it. */
  predicate LinkedUpTo(orig: seq<Node>, nodes: seq<Node>, walk: seq<NodeId>, i: nat, k: nat)
    requires Ordered(orig) && |nodes| == |orig| && i < |walk| && AllIn(orig, walk)
    requires k <= |orig[walk[i]].children|
  {
    && (forall j, l | 0 <= j < i && 0 <= l < |orig[walk[j]].children| ::
          nodes[orig[walk[j]].children[l]].parent == Some(walk[j]))
    && (forall l | 0 <= l < k :: nodes[orig[walk[i]].children[l]].parent == Some(walk[i]))
  }

  /** Nodes not listed as a child by the first `i` nodes of `walk`, nor in `extra`, keep their parent. */
  predicate ParentsKept(orig: seq<Node>, nodes: seq<Node>, walk: seq<NodeId>, i: nat, extra: seq<NodeId>)
    requires |nodes| == |orig| && i <= |walk|
  {
    forall z | 0 <= z < |orig| && !ChildOfAny(orig, walk[..i], z) && z !in extra ::
      nodes[z].parent == orig[z].parent
  }

  /** Pointing the next child at its parent keeps the loop facts of `add_parents`. */
  lemma LinkStep(orig: seq<Node>, nodes: seq<Node>, walk: seq<NodeId>, i: nat, k: nat)
    requires Ordered(orig) && Unshared(orig) && i < |walk| && AllIn(orig, walk)
    requires k < |orig[walk[i]].children|
    requires OnlyParents(orig, nodes) && LinkedUpTo(orig, nodes, walk, i, k)
    requires ParentsKept(orig, nodes, walk, i, orig[walk[i]].children[..k])
    ensures var c := orig[walk[i]].children[k];
      var nodes' := nodes[c := nodes[c].(parent := Some(walk[i]))];
      && OnlyParents(orig, nodes') && LinkedUpTo(orig, nodes', walk, i, k + 1)
      && ParentsKept(orig, nodes', walk, i, orig[walk[i]].children[..k + 1])
  {
    var node := walk[i];
    var cs := orig[node].children;
    var c := cs[k];
    var nodes' := nodes[c := nodes[c].(parent := Some(node))];
    forall j, l | 0 <= j < i && 0 <= l < |orig[walk[j]].children|
      ensures nodes'[orig[walk[j]].children[l]].parent == Some(walk[j])
    {
      if orig[walk[j]].children[l] == c {
        assert walk[j] == node;
      }
    }
    forall l | 0 <= l < k + 1 ensures nodes'[cs[l]].parent == Some(node) {
    }
    assert cs[..k + 1] == cs[..k] + [c];
  }

  /** Once every child of the next node points back at it, the outer loop facts hold one step further. */
  lemma LinkNodeDone(orig: seq<Node>, nodes: seq<Node>, walk: seq<NodeId>, i: nat)
    requires Ordered(orig) && i < |walk| && AllIn(orig, walk) && OnlyParents(orig, nodes)
    requires LinkedUpTo(orig, nodes, walk, i, |orig[walk[i]].children|)
    requires ParentsKept(orig, nodes, walk, i, orig[walk[i]].children)
    ensures i + 1 < |walk| ==> LinkedUpTo(orig, nodes, walk, i + 1, 0)
    ensures forall j, l | 0 <= j < i + 1 && 0 <= l < |orig[walk[j]].children| ::
              nodes[orig[walk[j]].children[l]].parent == Some(walk[j])
    ensures ParentsKept(orig, nodes, walk, i + 1, [])
  {
    var node := walk[i];
    forall z | 0 <= z < |orig| && !ChildOfAny(orig, walk[..i + 1], z)
      ensures !ChildOfAny(orig, walk[..i], z) && z !in orig[node].children
    {
      assert walk[..i + 1] == walk[..i] + [node];
    }
  }

  /**
   * `add_parents`: walks the subtree in post-order and points every child back at the node
   * listing it. Only parent links change, and only those of nodes listed as a child inside
   * the subtree; the subtree root keeps its parent.
   */
  method AddParents(forest: Forest, root: NodeId)
    requires Ordered(forest.nodes) && Unshared(forest.nodes) && root < |forest.nodes|
    modifies forest
    ensures |forest.nodes| == |old(forest.nodes)|
    ensures forall i | 0 <= i < |forest.nodes| ::
              forest.nodes[i] == old(forest.nodes[i]).(parent := forest.nodes[i].parent)
    ensures Ordered(forest.nodes)
    ensures forall x | x in PreOrder(old(forest.nodes), root) ::
              x < |forest.nodes| &&
              forall k | 0 <= k < |forest.nodes[x].children| ::
                forest.nodes[forest.nodes[x].children[k]].parent == Some(x)
    ensures forall i | 0 <= i < |forest.nodes| && !ChildOfAny(old(forest.nodes), PreOrder(old(forest.nodes), root), i) ::
              forest.nodes[i].parent == old(forest.nodes[i].parent)
    ensures forest.nodes[root].parent == old(forest.nodes[root].parent)
  {
    ghost var orig := forest.nodes;
    var walk := PostOrder(forest.nodes, root);
    WalkInArena(orig, root);
    assert walk[..0] == [];
    for i := 0 to |walk|
      invariant OnlyParents(orig, forest.nodes)
      invariant forall j, l | 0 <= j < i && 0 <= l < |orig[walk[j]].children| ::
                  forest.nodes[orig[walk[j]].children[l]].parent == Some(walk[j])
      invariant ParentsKept(orig, forest.nodes, walk, i, [])
    {
      LinkChildren(forest, orig, walk, i, walk[i]);
    }
    AddParentsDone(orig, forest.nodes, root);
  }

  /** One round of `add_parents`: every child of the `i`-th node of the walk is pointed at it. */
  method LinkChildren(forest: Forest, ghost orig: seq<Node>, ghost walk: seq<NodeId>, i: nat, node: NodeId)
    requires Ordered(orig) && Unshared(orig) && i < |walk| && AllIn(orig, walk) && node == walk[i]
    requires OnlyParents(orig, forest.nodes)
    requires forall j, l | 0 <= j < i && 0 <= l < |orig[walk[j]].children| ::
               forest.nodes[orig[walk[j]].children[l]].parent == Some(walk[j])
    requires ParentsKept(orig, forest.nodes, walk, i, [])
    modifies forest
    ensures OnlyParents(orig, forest.nodes)
    ensures forall j, l | 0 <= j < i + 1 && 0 <= l < |orig[walk[j]].children| ::
              forest.nodes[orig[walk[j]].children[l]].parent == Some(walk[j])
    ensures ParentsKept(orig, forest.nodes, walk, i + 1, [])
  {
    var children := forest.nodes[node].children;
    assert children[..0] == [];
    for k := 0 to |children|
      invariant OnlyParents(orig, forest.nodes)
      invariant LinkedUpTo(orig, forest.nodes, walk, i, k)
      invariant ParentsKept(orig, forest.nodes, walk, i, children[..k])
    {
      LinkStep(orig, forest.nodes, walk, i, k);
      forest.SetParent(children[k], Some(node));
    }
    assert children[..|children|] == children;
    LinkNodeDone(orig, forest.nodes, walk, i);
  }

  /** The post-order walk stays inside the arena. */
  lemma WalkInArena(nodes: seq<Node>, root: NodeId)
    requires Ordered(nodes) && root < |nodes|
    ensures AllIn(nodes, PostOrder(nodes, root))
  {
    PostOrderSameNodes(nodes, root);
    PreOrderRange(nodes, root);
    var walk := PostOrder(nodes, root);
    forall j | 0 <= j < |walk| ensures walk[j] < |nodes| {
      assert walk[j] in walk;
    }
  }

  lemma AddParentsDone(orig: seq<Node>, nodes: seq<Node>, root: NodeId)
    requires Ordered(orig) && root < |orig| && OnlyParents(orig, nodes) && AllIn(orig, PostOrder(orig, root))
    requires forall j, l | 0 <= j < |PostOrder(orig, root)| && 0 <= l < |orig[PostOrder(orig, root)[j]].children| ::
               nodes[orig[PostOrder(orig, root)[j]].children[l]].parent == Some(PostOrder(orig, root)[j])
    requires ParentsKept(orig, nodes, PostOrder(orig, root), |PostOrder(orig, root)|, [])
    ensures Ordered(nodes)
    ensures forall x | x in PreOrder(orig, root) ::
              x < |nodes| &&
              forall k | 0 <= k < |nodes[x].children| :: nodes[nodes[x].children[k]].parent == Some(x)
    ensures forall i | 0 <= i < |nodes| && !ChildOfAny(orig, PreOrder(orig, root), i) ::
              nodes[i].parent == orig[i].parent
    ensures nodes[root].parent == orig[root].parent
  {
    var walk := PostOrder(orig, root);
    PostOrderSameNodes(orig, root);
    PreOrderRange(orig, root);
    assert walk[..|walk|] == walk;
    forall x | x in PreOrder(orig, root)
      ensures x < |nodes| && forall k | 0 <= k < |nodes[x].children| :: nodes[nodes[x].children[k]].parent == Some(x)
    {
      var j :| 0 <= j < |walk| && walk[j] == x;
    }
    forall i | 0 <= i < |orig| && !ChildOfAny(orig, PreOrder(orig, root), i)
      ensures !ChildOfAny(orig, walk, i)
    {
    }
    assert !ChildOfAny(orig, PreOrder(orig, root), root);
  }
}
