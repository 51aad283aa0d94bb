/**
 * The edit operations (astdiff/editscript/ops.py). An operation is a frozen value that
 * refers to the nodes it acts on; `apply` rewrites the links and values of those nodes in
 * place. Here an operation holds arena ids, each `apply` is a method on the `Forest` proved
 * against a function of the arena, and `standalone` is a pure projection.
 */
module Ops {
  import opened Base
  import opened Nodes

  datatype Operation =
    | Insert(node: NodeId, parent: Option<NodeId>, position: int)
    | Move(node: NodeId, parent: Option<NodeId>, position: int)
    | Delete(node: NodeId)
    | Update(node: NodeId, value: string, oldValue: Option<string>)

  /** Every node the operation refers to is in the arena. */
  predicate OpInRange(nodes: seq<Node>, op: Operation)
  {
    && op.node < |nodes|
    && ((op.Insert? || op.Move?) && op.parent.Some? ==> op.parent.value < |nodes|)
  }

  /**
   * `r` differs from `nodes` at most in the children lists of `cs` and the parent links of
   * `ps`: kinds, values and metadata are all kept.
   */
  predicate Relinked(nodes: seq<Node>, r: seq<Node>, cs: set<NodeId>, ps: set<NodeId>)
  {
    && |r| == |nodes|
    && forall j | 0 <= j < |nodes| ::
         && r[j].kind == nodes[j].kind && r[j].value == nodes[j].value && r[j].metadata == nodes[j].metadata
         && (j !in cs ==> r[j].children == nodes[j].children)
         && (j !in ps ==> r[j].parent == nodes[j].parent)
  }

  lemma RelinkedTrans(a: seq<Node>, b: seq<Node>, c: seq<Node>, cs: set<NodeId>, ps: set<NodeId>, cs': set<NodeId>, ps': set<NodeId>)
    requires Relinked(a, b, cs, ps) && Relinked(b, c, cs', ps')
    ensures Relinked(a, c, cs + cs', ps + ps')
  {
  }

  // ---------------------------------------------------------------------------------------
  // apply, as functions of the arena

  /**
   * Where Python's `list.insert(position, x)` puts `x` in a list of length `n`: a negative
   * position counts from the end, and positions outside the list are clamped to it.
   */
  function InsertIndex(n: nat, position: int): (i: nat)
    ensures i <= n
    ensures 0 <= position <= n ==> i == position
    ensures position > n ==> i == n
    ensures position < 0 && position + n >= 0 ==> i == position + n
    ensures position + n < 0 ==> i == 0
  {
    if position < 0 then (if position + n < 0 then 0 else position + n)
    else if position > n then n
    else position
  }

  /** Removing an element that occurs once cuts it out at its index and keeps the rest in order. */
  lemma {:induction false} WithoutAt<T>(s: seq<T>, k: nat)
    requires NoDup(s) && k < |s|
    ensures Without(s, s[k]) == s[..k] + s[k + 1..]
  {
    if k == 0 {
      assert s[0] !in s[1..];
      assert Without(s[1..], s[0]) == s[1..];
    } else {
      assert NoDup(s[1..]);
      assert s[1..][k - 1] == s[k];
      WithoutAt(s[1..], k - 1);
      assert s[1..][..k - 1] == s[1..k] && s[1..][k..] == s[k + 1..];
      assert s[..k] == [s[0]] + s[1..k];
    }
  }

  /**
   * `Delete.apply`: the `siblings` setter hands the parent every child other than the node,
   * in order; a root has no siblings, so nothing changes. The node keeps its `parent` link.
   */
  function DeleteNode(nodes: seq<Node>, id: NodeId): (r: seq<Node>)
    requires Closed(nodes) && id < |nodes|
    ensures Closed(r) && |r| == |nodes|
    ensures IsRoot(nodes[id]) ==> r == nodes
    ensures r[id].parent == nodes[id].parent
    ensures id !in Siblings(r, id)
    ensures !IsRoot(nodes[id]) ==>
      var p := nodes[id].parent.value;
      && Relinked(nodes, r, {p}, {})
      && (forall y :: y in r[p].children <==> y in nodes[p].children && y != id)
    ensures !IsRoot(nodes[id]) && NoDup(Siblings(nodes, id)) ==> NoDup(r[nodes[id].parent.value].children)
  {
    match nodes[id].parent
    case None => nodes
    case Some(p) =>
      var cs := nodes[p].children;
      var r := nodes[p := nodes[p].(children := Without(cs, id))];
      assert forall i, k | 0 <= i < |r| && 0 <= k < |r[i].children| :: r[i].children[k] in nodes[i].children;
      r
  }

  /**
   * When the siblings hold the node once, at index `k`, the parent's new children are the
   * old ones with that single slot cut out, and they still hold no node twice.
   */
  lemma DeleteNodeCut(nodes: seq<Node>, id: NodeId, k: nat)
    requires Closed(nodes) && id < |nodes| && !IsRoot(nodes[id])
    requires NoDup(Siblings(nodes, id)) && k < |Siblings(nodes, id)| && Siblings(nodes, id)[k] == id
    ensures var p := nodes[id].parent.value;
      && NoDup(DeleteNode(nodes, id)[p].children)
      && DeleteNode(nodes, id)[p].children == nodes[p].children[..k] + nodes[p].children[k + 1..]
  {
    WithoutAt(nodes[nodes[id].parent.value].children, k);
  }

  /**
   * `Insert.apply`: without a parent nothing changes. Otherwise the node enters the
   * parent's children at the index `list.insert` picks, the other children keep their
   * order, and the node's `parent` link points at the parent.
   */
  function InsertNode(nodes: seq<Node>, id: NodeId, parent: Option<NodeId>, position: int): (r: seq<Node>)
    requires Closed(nodes) && id < |nodes| && (parent.Some? ==> parent.value < |nodes|)
    ensures Closed(r) && |r| == |nodes|
    ensures parent.None? ==> r == nodes
    ensures parent.Some? ==>
      var p := parent.value;
      var cs := nodes[p].children;
      var i := InsertIndex(|cs|, position);
      && Relinked(nodes, r, {p}, {id})
      && r[p].children == InsertAt(cs, i, id)
      && r[id].parent == Some(p)
  {
    match parent
    case None => nodes
    case Some(p) =>
      var cs := nodes[p].children;
      var ncs := InsertAt(cs, InsertIndex(|cs|, position), id);
      assert forall k | 0 <= k < |ncs| :: ncs[k] < |nodes|;
      Attach(nodes, p, ncs, id)
  }

  /** Gives `p` the children `ncs` and points `id` back at `p`; nothing else changes. */
  function Attach(nodes: seq<Node>, p: NodeId, ncs: seq<NodeId>, id: NodeId): (r: seq<Node>)
    requires Closed(nodes) && p < |nodes| && id < |nodes|
    requires forall k | 0 <= k < |ncs| :: ncs[k] < |nodes|
    ensures Closed(r) && Relinked(nodes, r, {p}, {id})
    ensures r[p].children == ncs && r[id].parent == Some(p)
  {
    var n1 := nodes[p := nodes[p].(children := ncs)];
    n1[id := n1[id].(parent := Some(p))]
  }

  /**
   * `Move.apply`: a delete followed by an insert. With a parent the node ends up among
   * that parent's children, and it has left the children of its former parent.
   */
  function MoveNode(nodes: seq<Node>, id: NodeId, parent: Option<NodeId>, position: int): (r: seq<Node>)
    requires Closed(nodes) && id < |nodes| && (parent.Some? ==> parent.value < |nodes|)
    ensures Closed(r) && |r| == |nodes|
    ensures parent.None? ==> r == DeleteNode(nodes, id)
    ensures parent.Some? ==>
      && id in r[parent.value].children
      && r[id].parent == parent
      && (nodes[id].parent.Some? && nodes[id].parent != parent ==> id !in r[nodes[id].parent.value].children)
    ensures Relinked(nodes, r, (if nodes[id].parent.Some? then {nodes[id].parent.value} else {}) + (if parent.Some? then {parent.value} else {}), {id})
  {
    match parent
    case None => DeleteNode(nodes, id)
    case Some(p) =>
      ReinsertFacts(nodes, id, p, position);
      InsertNode(DeleteNode(nodes, id), id, parent, position)
  }

  /** Deleting a child drops it from its parent's children and changes nothing else. */
  lemma DeleteChild(nodes: seq<Node>, id: NodeId, p: NodeId)
    requires Closed(nodes) && id < |nodes| && nodes[id].parent == Some(p)
    ensures DeleteNode(nodes, id) == nodes[p := nodes[p].(children := Without(nodes[p].children, id))]
  {
  }

  /** With a parent, a move is the insert applied to the arena after the delete. */
  lemma MoveIsDeleteInsert(nodes: seq<Node>, id: NodeId, p: NodeId, position: int)
    requires Closed(nodes) && id < |nodes| && p < |nodes|
    ensures MoveNode(nodes, id, Some(p), position) == InsertNode(DeleteNode(nodes, id), id, Some(p), position)
  {
  }

  /** The facts `MoveNode` promises when the node gets a parent. */
  lemma ReinsertFacts(nodes: seq<Node>, id: NodeId, p: NodeId, position: int)
    requires Closed(nodes) && id < |nodes| && p < |nodes|
    ensures var r := InsertNode(DeleteNode(nodes, id), id, Some(p), position);
      && id in r[p].children
      && r[id].parent == Some(p)
      && (nodes[id].parent.Some? && nodes[id].parent != Some(p) ==> id !in r[nodes[id].parent.value].children)
      && Relinked(nodes, r, (if nodes[id].parent.Some? then {nodes[id].parent.value} else {}) + {p}, {id})
  {
    var d := DeleteNode(nodes, id);
    var r := InsertNode(d, id, Some(p), position);
    var cs := if nodes[id].parent.Some? then {nodes[id].parent.value} else {};
    assert Relinked(nodes, d, cs, {});
    RelinkedTrans(nodes, d, r, cs, {}, {p}, {id});
    var sibs := d[p].children;
    assert r[p].children[InsertIndex(|sibs|, position)] == id;
  }

  /** `Update.apply`: the node's value becomes the new one and nothing else changes. */
  function UpdateValue(nodes: seq<Node>, id: NodeId, value: string): (r: seq<Node>)
    requires id < |nodes|
    ensures |r| == |nodes|
    ensures r[id].value == value
    ensures r[id] == nodes[id].(value := value)
    ensures forall j | 0 <= j < |nodes| && j != id :: r[j] == nodes[j]
  {
    nodes[id := nodes[id].(value := value)]
  }

  /** The arena after `op.apply()`. */
  function Applied(nodes: seq<Node>, op: Operation): (r: seq<Node>)
    requires Closed(nodes) && OpInRange(nodes, op)
    ensures Closed(r) && |r| == |nodes|
  {
    match op
    case Insert(id, parent, position) => InsertNode(nodes, id, parent, position)
    case Move(id, parent, position) => MoveNode(nodes, id, parent, position)
    case Delete(id) => DeleteNode(nodes, id)
    case Update(id, value, _) =>
      var r := UpdateValue(nodes, id, value);
      assert forall i | 0 <= i < |r| :: r[i].children == nodes[i].children && r[i].parent == nodes[i].parent;
      r
  }

  /** `Delete.apply`, through the `siblings` setter. */
  method ApplyDelete(forest: Forest, id: NodeId)
    requires Closed(forest.nodes) && id < |forest.nodes|
    modifies forest
    ensures forest.nodes == DeleteNode(old(forest.nodes), id)
  {
    forest.SetSiblings(id, Without(Siblings(forest.nodes, id), id));
  }

  /** `Insert.apply`: the parent's children are rebuilt with the node, then the node's parent is set. */
  method ApplyInsert(forest: Forest, id: NodeId, parent: Option<NodeId>, position: int)
    requires Closed(forest.nodes) && id < |forest.nodes| && (parent.Some? ==> parent.value < |forest.nodes|)
    modifies forest
    ensures forest.nodes == InsertNode(old(forest.nodes), id, parent, position)
  {
    if parent.Some? {
      var p := parent.value;
      var cs := forest.nodes[p].children;
      forest.SetChildren(p, InsertAt(cs, InsertIndex(|cs|, position), id));
      forest.SetParent(id, parent);
    }
  }

  /** `apply`: the operation rewrites the arena in place; a move deletes, then inserts. */
  method Apply(forest: Forest, op: Operation)
    requires Closed(forest.nodes) && OpInRange(forest.nodes, op)
    modifies forest
    ensures forest.nodes == Applied(old(forest.nodes), op)
  {
    match op
    case Insert(id, parent, position) =>
      ApplyInsert(forest, id, parent, position);
    case Move(id, parent, position) =>
      ApplyDelete(forest, id);
      ApplyInsert(forest, id, parent, position);
    case Delete(id) =>
      ApplyDelete(forest, id);
    case Update(id, value, _) =>
      forest.SetValue(id, value);
  }

  // ---------------------------------------------------------------------------------------
  // Properties of apply

  /**
   * Deleting a node just inserted, where it was not a child before, gives back the arena
   * except for the node's new `parent` link.
   */
  lemma InsertThenDelete(nodes: seq<Node>, id: NodeId, p: NodeId, position: int)
    requires Closed(nodes) && id < |nodes| && p < |nodes| && id !in nodes[p].children
    ensures DeleteNode(InsertNode(nodes, id, Some(p), position), id) == nodes[id := nodes[id].(parent := Some(p))]
  {
    var cs := nodes[p].children;
    var i := InsertIndex(|cs|, position);
    var r := InsertNode(nodes, id, Some(p), position);
    WithoutInserted(cs, i, id);
    var d := DeleteNode(r, id);
    var t := nodes[id := nodes[id].(parent := Some(p))];
    assert r[id].parent == Some(p);
    assert d[p].children == cs;
    forall j | 0 <= j < |nodes| ensures d[j] == t[j] {
      if j == p {
        assert d[j].children == t[j].children;
      } else if j != id {
        assert d[j] == r[j] == nodes[j];
      }
    }
    assert d == t;
  }

  /** Removing an element just inserted gives back the sequence. */
  lemma {:induction false} WithoutInserted<T>(s: seq<T>, i: nat, x: T)
    requires i <= |s| && x !in s
    ensures Without(InsertAt(s, i, x), x) == s
  {
    var r := InsertAt(s, i, x);
    if i == 0 || s == [] {
      assert r == [x] + s && r[0] == x && r[1..] == s;
      assert Without(r, x) == Without(s, x);
    } else {
      var tail := InsertAt(s[1..], i - 1, x);
      assert r == [s[0]] + tail;
      assert s[0] in s;
      assert r[0] == s[0] != x && r[1..] == tail;
      WithoutInserted(s[1..], i - 1, x);
      calc {
        Without(r, x);
        [s[0]] + Without(tail, x);
        [s[0]] + s[1..];
        s;
      }
    }
  }

  /** Updating back to the old value restores the arena. */
  lemma UpdateRestores(nodes: seq<Node>, id: NodeId, value: string)
    requires id < |nodes|
    ensures UpdateValue(UpdateValue(nodes, id, value), id, nodes[id].value) == nodes
  {
    var r := UpdateValue(UpdateValue(nodes, id, value), id, nodes[id].value);
    assert forall j | 0 <= j < |nodes| :: r[j] == nodes[j];
  }

  /**
   * A move under a parent keeps the arena linked: the node leaves its old parent's children,
   * joins the new parent's children once, and points back at it. A root is not anyone's
   * child, so inserting it is the same as moving it.
   */
  lemma MoveKeepsLinked(nodes: seq<Node>, id: NodeId, p: NodeId, position: int)
    requires Linked(nodes) && Closed(nodes) && id < |nodes| && p < |nodes|
    ensures Linked(MoveNode(nodes, id, Some(p), position))
    ensures IsRoot(nodes[id]) ==> MoveNode(nodes, id, Some(p), position) == InsertNode(nodes, id, Some(p), position)
  {
    DeletedIsOrphan(nodes, id);
    MovedChildrenPointBack(nodes, id, p, position);
    MovedParentsList(nodes, id, p, position);
    MovedChildrenDistinct(nodes, id, p, position);
  }

  /** After a delete in a linked arena the node is nobody's child, and no child list gained anything. */
  lemma DeletedIsOrphan(nodes: seq<Node>, id: NodeId)
    requires Linked(nodes) && Closed(nodes) && id < |nodes|
    ensures forall j | 0 <= j < |nodes| :: id !in DeleteNode(nodes, id)[j].children
    ensures forall j, c | 0 <= j < |nodes| && c in DeleteNode(nodes, id)[j].children :: c in nodes[j].children
    ensures forall j | 0 <= j < |nodes| :: NoDup(DeleteNode(nodes, id)[j].children)
  {
    var d := DeleteNode(nodes, id);
    forall j | 0 <= j < |d| ensures id !in d[j].children {
      if id in nodes[j].children {
        var k :| 0 <= k < |nodes[j].children| && nodes[j].children[k] == id;
        assert nodes[id].parent == Some(j);
      }
    }
    forall j | 0 <= j < |d| ensures NoDup(d[j].children) {
      if nodes[id].parent.Some? && j == nodes[id].parent.value {
        assert NoDup(Siblings(nodes, id));
      }
    }
  }

  /** The children of the new parent after the insert: the old ones with the node at the insert index. */
  lemma MovedChildren(nodes: seq<Node>, id: NodeId, p: NodeId, position: int) returns (i: nat)
    requires Linked(nodes) && Closed(nodes) && id < |nodes| && p < |nodes|
    ensures var cs := DeleteNode(nodes, id)[p].children;
      && i <= |cs|
      && MoveNode(nodes, id, Some(p), position)[p].children == InsertAt(cs, i, id)
  {
    var cs := DeleteNode(nodes, id)[p].children;
    i := InsertIndex(|cs|, position);
  }

  lemma MovedChildrenPointBack(nodes: seq<Node>, id: NodeId, p: NodeId, position: int)
    requires Linked(nodes) && Closed(nodes) && id < |nodes| && p < |nodes|
    ensures var r := MoveNode(nodes, id, Some(p), position);
      forall j, k | 0 <= j < |r| && 0 <= k < |r[j].children| :: r[j].children[k] < |r| && r[r[j].children[k]].parent == Some(j)
  {
    var r := MoveNode(nodes, id, Some(p), position);
    forall j, k | 0 <= j < |r| && 0 <= k < |r[j].children|
      ensures r[j].children[k] < |r| && r[r[j].children[k]].parent == Some(j)
    {
      MovedChildPointsBack(nodes, id, p, position, j, k);
    }
  }

  lemma MovedChildPointsBack(nodes: seq<Node>, id: NodeId, p: NodeId, position: int, j: NodeId, k: nat)
    requires Linked(nodes) && Closed(nodes) && id < |nodes| && p < |nodes| && j < |nodes|
    requires k < |MoveNode(nodes, id, Some(p), position)[j].children|
    ensures var r := MoveNode(nodes, id, Some(p), position);
      r[j].children[k] < |r| && r[r[j].children[k]].parent == Some(j)
  {
    var d := DeleteNode(nodes, id);
    var r := MoveNode(nodes, id, Some(p), position);
    var cs := d[p].children;
    var i := MovedChildren(nodes, id, p, position);
    var c := r[j].children[k];
    if c != id {
      assert c in d[j].children by {
        if j == p {
          InsertAtFrom(cs, i, id, k);
        }
      }
      ChildOfDeleted(nodes, id, j, c);
      assert r[c].parent == nodes[c].parent;
    }
  }

  lemma ChildOfDeleted(nodes: seq<Node>, id: NodeId, j: NodeId, c: NodeId)
    requires Linked(nodes) && Closed(nodes) && id < |nodes| && j < |nodes|
    requires c in DeleteNode(nodes, id)[j].children
    ensures c < |nodes| && nodes[c].parent == Some(j)
  {
    assert c in nodes[j].children;
    var k :| 0 <= k < |nodes[j].children| && nodes[j].children[k] == c;
  }

  lemma MovedParentsList(nodes: seq<Node>, id: NodeId, p: NodeId, position: int)
    requires Linked(nodes) && Closed(nodes) && id < |nodes| && p < |nodes|
    ensures var r := MoveNode(nodes, id, Some(p), position);
      forall j | 0 <= j < |r| && r[j].parent.Some? :: r[j].parent.value < |r| && j in r[r[j].parent.value].children
  {
    var r := MoveNode(nodes, id, Some(p), position);
    forall j | 0 <= j < |r| && r[j].parent.Some?
      ensures r[j].parent.value < |r| && j in r[r[j].parent.value].children
    {
      MovedParentListed(nodes, id, p, position, j);
    }
  }

  lemma MovedParentListed(nodes: seq<Node>, id: NodeId, p: NodeId, position: int, j: NodeId)
    requires Linked(nodes) && Closed(nodes) && id < |nodes| && p < |nodes| && j < |nodes|
    requires MoveNode(nodes, id, Some(p), position)[j].parent.Some?
    ensures var r := MoveNode(nodes, id, Some(p), position);
      r[j].parent.value < |r| && j in r[r[j].parent.value].children
  {
    var d := DeleteNode(nodes, id);
    var cs := d[p].children;
    var i := MovedChildren(nodes, id, p, position);
    if j != id {
      MovedKeepsOthers(nodes, id, p, position, j);
      var q := nodes[j].parent.value;
      ListedAfterDelete(nodes, id, j);
      if q == p {
        var kk :| 0 <= kk < |cs| && cs[kk] == j;
        InsertAtHas(cs, i, id, kk);
      }
    }
  }

  /** A move changes only the new parent's children and the moved node's parent link, relative to the delete. */
  lemma MovedKeepsOthers(nodes: seq<Node>, id: NodeId, p: NodeId, position: int, j: NodeId)
    requires Closed(nodes) && id < |nodes| && p < |nodes| && j < |nodes| && j != id
    ensures var r := MoveNode(nodes, id, Some(p), position);
      && r[j].parent == nodes[j].parent
      && (nodes[j].parent.Some? && nodes[j].parent.value != p ==>
            r[nodes[j].parent.value].children == DeleteNode(nodes, id)[nodes[j].parent.value].children)
  {
  }

  /** A node other than the deleted one stays listed under its parent. */
  lemma ListedAfterDelete(nodes: seq<Node>, id: NodeId, j: NodeId)
    requires Linked(nodes) && Closed(nodes) && id < |nodes| && j < |nodes| && j != id && nodes[j].parent.Some?
    ensures j in DeleteNode(nodes, id)[nodes[j].parent.value].children
  {
    assert j in nodes[nodes[j].parent.value].children;
  }

  lemma MovedChildrenDistinct(nodes: seq<Node>, id: NodeId, p: NodeId, position: int)
    requires Linked(nodes) && Closed(nodes) && id < |nodes| && p < |nodes|
    ensures var r := MoveNode(nodes, id, Some(p), position);
      forall j | 0 <= j < |r| :: NoDup(r[j].children)
  {
    var d := DeleteNode(nodes, id);
    var r := MoveNode(nodes, id, Some(p), position);
    DeletedIsOrphan(nodes, id);
    MovedParentChildrenDistinct(nodes, id, p, position);
    assert forall j | 0 <= j < |r| && j != p :: r[j].children == d[j].children;
  }

  lemma MovedParentChildrenDistinct(nodes: seq<Node>, id: NodeId, p: NodeId, position: int)
    requires Linked(nodes) && Closed(nodes) && id < |nodes| && p < |nodes|
    ensures NoDup(MoveNode(nodes, id, Some(p), position)[p].children)
  {
    var d := DeleteNode(nodes, id);
    var cs := d[p].children;
    DeletedIsOrphan(nodes, id);
    var i := MovedChildren(nodes, id, p, position);
    assert NoDup(cs) && id !in cs;
    InsertAtNoDup(cs, i, id);
  }

  /**
   * Moving a child back under its own parent only reorders that parent's children: every
   * other node, and every field of the parent but its children, is kept.
   */
  lemma MoveAmongSiblings(nodes: seq<Node>, id: NodeId, p: NodeId, position: int)
    requires Linked(nodes) && Closed(nodes) && p < |nodes| && id in nodes[p].children
    ensures id < |nodes|
    ensures var r := MoveNode(nodes, id, Some(p), position);
      && (forall j | 0 <= j < |nodes| && j != p :: r[j] == nodes[j])
      && r[p] == nodes[p].(children := r[p].children)
      && multiset(r[p].children) == multiset(nodes[p].children)
  {
    var k :| 0 <= k < |nodes[p].children| && nodes[p].children[k] == id;
    assert nodes[id].parent == Some(p);
    MoveKeepsOthers(nodes, id, p, position);
    MoveReorders(nodes, id, p, position, k);
  }

  lemma MoveKeepsOthers(nodes: seq<Node>, id: NodeId, p: NodeId, position: int)
    requires Closed(nodes) && p < |nodes| && id < |nodes| && nodes[id].parent == Some(p)
    ensures var r := MoveNode(nodes, id, Some(p), position);
      && (forall j | 0 <= j < |nodes| && j != p :: r[j] == nodes[j])
      && r[p] == nodes[p].(children := r[p].children)
  {
  }

  lemma MoveReorders(nodes: seq<Node>, id: NodeId, p: NodeId, position: int, k: nat)
    requires Linked(nodes) && Closed(nodes) && p < |nodes| && id < |nodes| && nodes[id].parent == Some(p)
    requires k < |nodes[p].children| && nodes[p].children[k] == id
    ensures multiset(MoveNode(nodes, id, Some(p), position)[p].children) == multiset(nodes[p].children)
  {
    assert NoDup(Siblings(nodes, id));
    DeleteNodeCut(nodes, id, k);
    var i := MovedChildren(nodes, id, p, position);
    InsertAtSplit(DeleteNode(nodes, id)[p].children, i, id);
    Reinserted(nodes[p].children, k, i);
  }

  /** Cutting out one element and putting it back anywhere gives a permutation. */
  lemma Reinserted<T>(s: seq<T>, k: nat, i: nat)
    requires k < |s| && i <= |s| - 1
    ensures var cut := s[..k] + s[k + 1..];
      multiset(cut[..i] + [s[k]] + cut[i..]) == multiset(s)
  {
    var cut := s[..k] + s[k + 1..];
    assert s == s[..k] + [s[k]] + s[k + 1..];
    assert cut == cut[..i] + cut[i..];
    calc {
      multiset(cut[..i] + [s[k]] + cut[i..]);
      multiset(cut[..i]) + multiset{s[k]} + multiset(cut[i..]);
      multiset(cut) + multiset{s[k]};
      multiset(s);
    }
  }

  // ---------------------------------------------------------------------------------------
  // standalone

  /** An operation whose nodes are detached copies, as `standalone` returns it. */
  datatype StandaloneOperation =
    | StandaloneInsert(node: Node, parent: Node, position: int)
    | StandaloneMove(node: Node, parent: Node, position: int)
    | StandaloneDelete(node: Node)
    | StandaloneUpdate(node: Node, value: string, oldValue: Option<string>)

  /** `replace` keeps the class of the operation. */
  predicate SameKind(op: Operation, s: StandaloneOperation)
  {
    match op
    case Insert(_, _, _) => s.StandaloneInsert?
    case Move(_, _, _) => s.StandaloneMove?
    case Delete(_) => s.StandaloneDelete?
    case Update(_, _, _) => s.StandaloneUpdate?
  }

  /** A copy without links or metadata, as `Node.standalone` makes it. */
  predicate Detached(n: Node)
  {
    IsLeaf(n) && IsRoot(n) && n.metadata.None?
  }

  /**
   * `standalone`: every node reference becomes its standalone copy. An insert or move
   * without a parent fails, since `None` has no `standalone`. An update's node carries the
   * old value, or the new one when the old value is missing or empty.
   */
  function StandaloneOf(nodes: seq<Node>, op: Operation): (r: Option<StandaloneOperation>)
    requires OpInRange(nodes, op)
    ensures r.None? <==> (op.Insert? || op.Move?) && op.parent.None?
    ensures r.Some? ==>
      && SameKind(op, r.value)
      && Detached(r.value.node)
      && r.value.node.kind == nodes[op.node].kind
    ensures r.Some? && !op.Update? ==> r.value.node == Standalone(nodes[op.node])
    ensures r.Some? && op.Update? ==>
      && r.value.value == op.value && r.value.oldValue == op.oldValue
      && r.value.node.value == (if op.oldValue.None? || op.oldValue.value == "" then op.value else op.oldValue.value)
    ensures r.Some? && (op.Insert? || op.Move?) ==>
      r.value.parent == Standalone(nodes[op.parent.value]) && r.value.position == op.position
  {
    match op
    case Insert(id, parent, position) =>
      if parent.None? then None
      else Some(StandaloneInsert(Standalone(nodes[id]), Standalone(nodes[parent.value]), position))
    case Move(id, parent, position) =>
      if parent.None? then None
      else Some(StandaloneMove(Standalone(nodes[id]), Standalone(nodes[parent.value]), position))
    case Delete(id) => Some(StandaloneDelete(Standalone(nodes[id])))
    case Update(id, value, oldValue) =>
      var shown := if oldValue.None? || oldValue.value == "" then value else oldValue.value;
      Some(StandaloneUpdate(Standalone(nodes[id]).(value := shown), value, oldValue))
  }
}
