/**
 * Syntax-tree nodes (astdiff/ast/node.py).
 *
 * Python nodes are objects linked by `children` tuples and `parent` back-references and
 * identified by `id()`. Here every node lives in one arena, a `seq<Node>`, and a node's
 * identity is its index: `children` is a sequence of indices and `parent` an optional index.
 * The value `Tree` is what Python's structural `==` looks at: kind, value and children.
 */
module Nodes {
  import opened Base

  type NodeId = nat

  /** The part of a node that `==` compares (kind, value, children, recursively). */
  datatype Tree = Tree(kind: string, value: string, children: seq<Tree>)

  /** NodeMetadata: derived data attached after the tree is built. */
  datatype Metadata = Metadata(hashcode: int, height: nat, size: nat)

  /** One arena slot: a node with its links. The cosmetic source position is not modelled. */
  datatype Node = Node(
    kind: string,
    value: string,
    children: seq<NodeId>,
    parent: Option<NodeId>,
    metadata: Option<Metadata>)

  /** Every child index is in the arena and larger than its parent's index, so the links are acyclic. */
  predicate Ordered(nodes: seq<Node>)
  {
    forall i, k | 0 <= i < |nodes| && 0 <= k < |nodes[i].children| ::
      i < nodes[i].children[k] < |nodes|
  }

  /** Parent links agree with children lists and no children list repeats a node: a forest of trees. */
  predicate Linked(nodes: seq<Node>)
  {
    && (forall i, k | 0 <= i < |nodes| && 0 <= k < |nodes[i].children| ::
          nodes[i].children[k] < |nodes| && nodes[nodes[i].children[k]].parent == Some(i))
    && (forall i | 0 <= i < |nodes| && nodes[i].parent.Some? ::
          nodes[i].parent.value < |nodes| && i in nodes[nodes[i].parent.value].children)
    && (forall i | 0 <= i < |nodes| :: NoDup(nodes[i].children))
  }

  /** Every child and parent link points into the arena (the links may form any graph). */
  predicate Closed(nodes: seq<Node>)
  {
    && (forall i, k | 0 <= i < |nodes| && 0 <= k < |nodes[i].children| :: nodes[i].children[k] < |nodes|)
    && (forall i | 0 <= i < |nodes| && nodes[i].parent.Some? :: nodes[i].parent.value < |nodes|)
  }

  predicate WellFormed(nodes: seq<Node>)
  {
    Ordered(nodes) && Linked(nodes)
  }

  /** No node is listed twice as a child, whether by one parent or by two. */
  predicate Unshared(nodes: seq<Node>)
  {
    forall i, k, j, l | 0 <= i < |nodes| && 0 <= k < |nodes[i].children|
                      && 0 <= j < |nodes| && 0 <= l < |nodes[j].children|
                      && nodes[i].children[k] == nodes[j].children[l] :: i == j && k == l
  }

  /** Parent links that agree with the children lists leave no room for sharing. */
  lemma LinkedIsUnshared(nodes: seq<Node>)
    requires Linked(nodes)
    ensures Unshared(nodes)
  {
    forall i, k, j, l | 0 <= i < |nodes| && 0 <= k < |nodes[i].children|
                      && 0 <= j < |nodes| && 0 <= l < |nodes[j].children|
                      && nodes[i].children[k] == nodes[j].children[l]
      ensures i == j && k == l
    {
      var c := nodes[i].children[k];
      assert nodes[c].parent == Some(i) && nodes[c].parent == Some(j);
      assert NoDup(nodes[i].children);
    }
  }

  /** The structural value of the subtree rooted at `id`. */
  function ToTree(nodes: seq<Node>, id: NodeId): (t: Tree)
    requires Ordered(nodes) && id < |nodes|
    ensures t.kind == nodes[id].kind && t.value == nodes[id].value
    ensures |t.children| == |nodes[id].children|
    decreases |nodes| - id
  {
    var cs := nodes[id].children;
    Tree(nodes[id].kind, nodes[id].value,
         seq(|cs|, k requires 0 <= k < |cs| => ToTree(nodes, cs[k])))
  }

  /**
   * The structural value of the subtree at `id` on an arena whose links need not follow
   * the index order (a source tree once edit operations have moved nodes), cut off `fuel`
   * levels down: a node at the cut-off shows no children.
   */
  function ToTreeUpTo(nodes: seq<Node>, id: NodeId, fuel: nat): (t: Tree)
    requires Closed(nodes) && id < |nodes|
    ensures t.kind == nodes[id].kind && t.value == nodes[id].value
    ensures fuel > 0 ==> |t.children| == |nodes[id].children|
    decreases fuel
  {
    var cs := nodes[id].children;
    if fuel == 0 then Tree(nodes[id].kind, nodes[id].value, [])
    else Tree(nodes[id].kind, nodes[id].value, seq(|cs|, k requires 0 <= k < |cs| => ToTreeUpTo(nodes, cs[k], fuel - 1)))
  }

  /** On an arena in index order, enough fuel reaches every leaf: the cut-off value is the value. */
  lemma {:induction false} ToTreeUpToAgrees(nodes: seq<Node>, id: NodeId, fuel: nat)
    requires Ordered(nodes) && Closed(nodes) && id < |nodes| && fuel >= |nodes| - id
    ensures ToTreeUpTo(nodes, id, fuel) == ToTree(nodes, id)
    decreases |nodes| - id
  {
    var cs := nodes[id].children;
    forall k | 0 <= k < |cs| ensures ToTreeUpTo(nodes, cs[k], fuel - 1) == ToTree(nodes, cs[k]) {
      ToTreeUpToAgrees(nodes, cs[k], fuel - 1);
    }
  }

  /** Structural `==` between two nodes (of possibly different arenas). */
  predicate Equal(nodes: seq<Node>, a: NodeId, nodes': seq<Node>, b: NodeId)
    requires Ordered(nodes) && a < |nodes| && Ordered(nodes') && b < |nodes'|
  {
    ToTree(nodes, a) == ToTree(nodes', b)
  }

  /** Two arenas that differ at most in parent links and metadata. */
  predicate SameShape(nodes: seq<Node>, nodes': seq<Node>)
  {
    && |nodes| == |nodes'|
    && forall i | 0 <= i < |nodes| ::
         && nodes[i].kind == nodes'[i].kind
         && nodes[i].value == nodes'[i].value
         && nodes[i].children == nodes'[i].children
  }

  /** Structural equality does not look at parents or metadata. */
  lemma {:induction false} EqualIgnoresLinks(nodes: seq<Node>, nodes': seq<Node>, id: NodeId)
    requires Ordered(nodes) && SameShape(nodes, nodes') && id < |nodes|
    ensures Ordered(nodes') && Equal(nodes, id, nodes', id)
    decreases |nodes| - id
  {
    var cs := nodes[id].children;
    forall k | 0 <= k < |cs|
      ensures ToTree(nodes, cs[k]) == ToTree(nodes', cs[k])
    {
      EqualIgnoresLinks(nodes, nodes', cs[k]);
    }
  }

  predicate IsLeaf(n: Node)
  {
    n.children == []
  }

  predicate IsRoot(n: Node)
  {
    n.parent.None?
  }

  /** `siblings`: the parent's children, or nothing for a root. */
  function Siblings(nodes: seq<Node>, id: NodeId): seq<NodeId>
    requires id < |nodes|
    requires nodes[id].parent.Some? ==> nodes[id].parent.value < |nodes|
  {
    match nodes[id].parent
    case None => []
    case Some(p) => nodes[p].children
  }

  /** `position_in_siblings`: where the node itself sits among its siblings. */
  function PositionInSiblings(nodes: seq<Node>, id: NodeId): (r: Option<nat>)
    requires id < |nodes|
    requires nodes[id].parent.Some? ==> nodes[id].parent.value < |nodes|
    ensures IsRoot(nodes[id]) ==> r == None
    ensures r.Some? ==> r.value < |Siblings(nodes, id)| && Siblings(nodes, id)[r.value] == id
    ensures r.Some? ==> id !in Siblings(nodes, id)[..r.value]
    ensures r.None? <==> id !in Siblings(nodes, id)
  {
    IndexOf(Siblings(nodes, id), id)
  }

  /** In a linked arena a non-root node always finds itself among its siblings, exactly once. */
  lemma PositionOfLinkedNode(nodes: seq<Node>, id: NodeId)
    requires Linked(nodes) && id < |nodes| && !IsRoot(nodes[id])
    ensures PositionInSiblings(nodes, id).Some?
    ensures forall k | 0 <= k < |Siblings(nodes, id)| && Siblings(nodes, id)[k] == id ::
              PositionInSiblings(nodes, id) == Some(k)
  {
    var s := Siblings(nodes, id);
    assert NoDup(s);
  }

  /** The fields by which nodes are ordered: kind, value, child count and, once attached, the hashcode. */
  datatype Fields = Fields(kind: string, value: string, count: nat, hashcode: seq<int>)

  function CompareFields(n: Node): (f: Fields)
    ensures f.kind == n.kind && f.value == n.value && f.count == |n.children|
    ensures |f.hashcode| == (if n.metadata.Some? then 1 else 0)
    ensures n.metadata.Some? ==> f.hashcode[0] == n.metadata.value.hashcode
  {
    Fields(n.kind, n.value, |n.children|,
           if n.metadata.Some? then [n.metadata.value.hashcode] else [])
  }

  /** Python's `<` on sequences of numbers: lexicographic, a proper prefix being smaller. */
  predicate LexLess(a: seq<int>, b: seq<int>)
  {
    if a == [] then b != []
    else if b == [] then false
    else if a[0] != b[0] then a[0] < b[0]
    else LexLess(a[1..], b[1..])
  }

  /** The code points of a string, which Python's string `<` compares. */
  function Codes(s: string): (r: seq<int>)
    ensures |r| == |s|
  {
    seq(|s|, i requires 0 <= i < |s| => s[i] as int)
  }

  /** Python's `<` on the `compare_fields` tuples. */
  predicate FieldsLess(a: Fields, b: Fields)
  {
    if a.kind != b.kind then LexLess(Codes(a.kind), Codes(b.kind))
    else if a.value != b.value then LexLess(Codes(a.value), Codes(b.value))
    else if a.count != b.count then a.count < b.count
    else LexLess(a.hashcode, b.hashcode)
  }

  /** `Node.__lt__`. */
  predicate Less(a: Node, b: Node)
  {
    FieldsLess(CompareFields(a), CompareFields(b))
  }

  lemma {:induction false} LexLessIrreflexive(a: seq<int>)
    ensures !LexLess(a, a)
  {
    if a != [] { LexLessIrreflexive(a[1..]); }
  }

  lemma {:induction false} LexLessTransitive(a: seq<int>, b: seq<int>, c: seq<int>)
    requires LexLess(a, b) && LexLess(b, c)
    ensures LexLess(a, c)
  {
    if a != [] && a[0] == b[0] && b[0] == c[0] {
      LexLessTransitive(a[1..], b[1..], c[1..]);
    }
  }

  lemma {:induction false} LexLessTotal(a: seq<int>, b: seq<int>)
    requires a != b
    ensures LexLess(a, b) || LexLess(b, a)
  {
    if a != [] && b != [] && a[0] == b[0] {
      assert a == [a[0]] + a[1..] && b == [b[0]] + b[1..];
      LexLessTotal(a[1..], b[1..]);
    }
  }

  lemma CodesInjective(a: string, b: string)
    requires a != b
    ensures Codes(a) != Codes(b)
  {
    if |a| == |b| {
      var i :| 0 <= i < |a| && a[i] != b[i];
      assert Codes(a)[i] != Codes(b)[i];
    }
  }

  /** The ordering of `compare_fields` is a strict total order: stable and deterministic. */
  lemma FieldsOrderIsStrictTotal(a: Fields, b: Fields, c: Fields)
    ensures !FieldsLess(a, a)
    ensures FieldsLess(a, b) && FieldsLess(b, c) ==> FieldsLess(a, c)
    ensures a != b ==> FieldsLess(a, b) || FieldsLess(b, a)
  {
    LexLessIrreflexive(a.hashcode);
    if FieldsLess(a, b) && FieldsLess(b, c) {
      if a.kind != b.kind && b.kind != c.kind && a.kind != c.kind {
        LexLessTransitive(Codes(a.kind), Codes(b.kind), Codes(c.kind));
      } else if a.kind == b.kind && b.kind == c.kind {
        if a.value != b.value && b.value != c.value && a.value != c.value {
          LexLessTransitive(Codes(a.value), Codes(b.value), Codes(c.value));
        } else if a.value == b.value && b.value == c.value && a.count == b.count && b.count == c.count {
          LexLessTransitive(a.hashcode, b.hashcode, c.hashcode);
        } else if a.value == c.value && a.value != b.value {
          LexLessIrreflexive(Codes(a.value));
          LexLessTransitive(Codes(a.value), Codes(b.value), Codes(a.value));
        }
      } else if a.kind == c.kind && a.kind != b.kind {
        LexLessIrreflexive(Codes(a.kind));
        LexLessTransitive(Codes(a.kind), Codes(b.kind), Codes(a.kind));
      }
    }
    if a != b {
      if a.kind != b.kind {
        CodesInjective(a.kind, b.kind);
        LexLessTotal(Codes(a.kind), Codes(b.kind));
      } else if a.value != b.value {
        CodesInjective(a.value, b.value);
        LexLessTotal(Codes(a.value), Codes(b.value));
      } else if a.count == b.count {
        LexLessTotal(a.hashcode, b.hashcode);
      }
    }
  }

  /** `standalone`: a copy with the same kind and value and no links or metadata. */
  function Standalone(n: Node): (r: Node)
    ensures r.kind == n.kind && r.value == n.value
    ensures IsLeaf(r) && IsRoot(r) && r.metadata.None?
  {
    Node(n.kind, n.value, [], None, None)
  }

  /** The minimum criterion for matching two nodes. */
  predicate CanMatch(a: Node, b: Node)
  {
    a.kind == b.kind
  }

  /** Isomorphism by precomputed hashcodes; false while either node lacks metadata. */
  predicate IsomorphicTo(a: Node, b: Node)
  {
    a.metadata.Some? && b.metadata.Some? && a.metadata.value.hashcode == b.metadata.value.hashcode
  }

  /** Isomorphism that ignores values: same labels and shapes, children compared pairwise. */
  predicate IsomorphicToWithoutValues(nodes: seq<Node>, a: NodeId, b: NodeId)
    requires Ordered(nodes) && a < |nodes| && b < |nodes|
    decreases |nodes| - a
  {
    var ca, cb := nodes[a].children, nodes[b].children;
    && CanMatch(nodes[a], nodes[b])
    && |ca| == |cb|
    && forall k | 0 <= k < |ca| :: IsomorphicToWithoutValues(nodes, ca[k], cb[k])
  }

  /** A tree with every value blanked out: what `isomorphic_to_without_values` compares. */
  function WithoutValues(t: Tree): (r: Tree)
    ensures r.kind == t.kind && r.value == "" && |r.children| == |t.children|
  {
    Tree(t.kind, "", seq(|t.children|, k requires 0 <= k < |t.children| => WithoutValues(t.children[k])))
  }

  /** `isomorphic_to_without_values` holds exactly when the value-blind trees are equal. */
  lemma {:induction false} IsomorphicWithoutValuesIff(nodes: seq<Node>, a: NodeId, b: NodeId)
    requires Ordered(nodes) && a < |nodes| && b < |nodes|
    ensures IsomorphicToWithoutValues(nodes, a, b)
        <==> WithoutValues(ToTree(nodes, a)) == WithoutValues(ToTree(nodes, b))
    decreases |nodes| - a
  {
    var ca, cb := nodes[a].children, nodes[b].children;
    var ta, tb := ToTree(nodes, a), ToTree(nodes, b);
    if |ca| == |cb| {
      forall k | 0 <= k < |ca|
        ensures IsomorphicToWithoutValues(nodes, ca[k], cb[k])
            <==> WithoutValues(ToTree(nodes, ca[k])) == WithoutValues(ToTree(nodes, cb[k]))
      {
        IsomorphicWithoutValuesIff(nodes, ca[k], cb[k]);
      }
      if WithoutValues(ta) == WithoutValues(tb) {
        forall k | 0 <= k < |ca|
          ensures WithoutValues(ToTree(nodes, ca[k])) == WithoutValues(ToTree(nodes, cb[k]))
        {
          assert WithoutValues(ta).children[k] == WithoutValues(tb).children[k];
        }
      }
    }
  }

  /** Reflexive, and a necessary condition: kind-compatible with as many children. */
  lemma {:induction false} IsomorphicWithoutValuesReflexive(nodes: seq<Node>, a: NodeId)
    requires Ordered(nodes) && a < |nodes|
    ensures IsomorphicToWithoutValues(nodes, a, a)
    decreases |nodes| - a
  {
    var ca := nodes[a].children;
    forall k | 0 <= k < |ca| ensures IsomorphicToWithoutValues(nodes, ca[k], ca[k]) {
      IsomorphicWithoutValuesReflexive(nodes, ca[k]);
    }
  }

  /** Structurally equal subtrees are also isomorphic when values are ignored. */
  lemma EqualImpliesIsomorphicWithoutValues(nodes: seq<Node>, a: NodeId, b: NodeId)
    requires Ordered(nodes) && a < |nodes| && b < |nodes|
    requires Equal(nodes, a, nodes, b)
    ensures IsomorphicToWithoutValues(nodes, a, b)
    ensures CanMatch(nodes[a], nodes[b]) && |nodes[a].children| == |nodes[b].children|
  {
    IsomorphicWithoutValuesIff(nodes, a, b);
  }

  /**
   * The heap of all nodes. Python mutates node objects in place; here the methods of this
   * class reassign one slot of `nodes` and leave every other slot as it was.
   */
  class Forest {
    var nodes: seq<Node>

    constructor (nodes: seq<Node>)
      ensures this.nodes == nodes
    {
      this.nodes := nodes;
    }

    /** `siblings` setter: replaces the parent's children; does nothing on a root. */
    method SetSiblings(id: NodeId, value: seq<NodeId>)
      requires id < |nodes|
      requires nodes[id].parent.Some? ==> nodes[id].parent.value < |nodes|
      modifies this
      ensures old(nodes[id].parent).None? ==> nodes == old(nodes)
      ensures old(nodes[id].parent).Some? ==>
                var p := old(nodes[id].parent.value);
                nodes == old(nodes)[p := old(nodes[p]).(children := value)]
    {
      if nodes[id].parent.Some? {
        var p := nodes[id].parent.value;
        nodes := nodes[p := nodes[p].(children := value)];
      }
    }

    /** `node.children = value`. */
    method SetChildren(id: NodeId, value: seq<NodeId>)
      requires id < |nodes|
      modifies this
      ensures nodes == old(nodes)[id := old(nodes[id]).(children := value)]
    {
      nodes := nodes[id := nodes[id].(children := value)];
    }

    /** `node.parent = parent`. */
    method SetParent(id: NodeId, parent: Option<NodeId>)
      requires id < |nodes|
      modifies this
      ensures nodes == old(nodes)[id := old(nodes[id]).(parent := parent)]
    {
      nodes := nodes[id := nodes[id].(parent := parent)];
    }

    /** `node.value = value`. */
    method SetValue(id: NodeId, value: string)
      requires id < |nodes|
      modifies this
      ensures nodes == old(nodes)[id := old(nodes[id]).(value := value)]
    {
      nodes := nodes[id := nodes[id].(value := value)];
    }

    /** `node.metadata = metadata`. */
    method SetMetadata(id: NodeId, metadata: Metadata)
      requires id < |nodes|
      modifies this
      ensures nodes == old(nodes)[id := old(nodes[id]).(metadata := Some(metadata))]
    {
      nodes := nodes[id := nodes[id].(metadata := Some(metadata))];
    }

    /** `Node(kind, value)`: a fresh node without links or metadata. */
    method NewNode(kind: string, value: string) returns (id: NodeId)
      modifies this
      ensures id == |old(nodes)|
      ensures nodes == old(nodes) + [Node(kind, value, [], None, None)]
    {
      id := |nodes|;
      nodes := nodes + [Node(kind, value, [], None, None)];
    }
  }
}
