/**
 * The edit script generator that takes moved nodes into account
 * (astdiff/generator/with_move.py, after Chawathe et al. 1996).
 *
 * The generator walks the target tree breadth-first. It inserts a source node for every
 * unmatched target node, updates and moves matched ones, and realigns their children with
 * the longest common subsequence. Finally it deletes the source nodes left unmatched, in
 * post-order. Every operation is applied to the context's arena as it is emitted.
 */
module WithMove {
  import opened Base
  import opened Nodes
  import opened Traversal
  import opened Context
  import opened Alignment
  import opened Util
  import opened Ops
  import opened EditScripts

  // ---------------------------------------------------------------------------------------
  // The state the generator keeps

  /** No link of a node outside the target tree leads into it. */
  predicate Separated(nodes: seq<Node>, targets: seq<NodeId>)
  {
    forall i | 0 <= i < |nodes| && i !in targets ::
      && (nodes[i].parent.Some? ==> nodes[i].parent.value !in targets)
      && (forall k | 0 <= k < |nodes[i].children| :: nodes[i].children[k] !in targets)
  }

  /**
   * What the generator relies on: mutually inverse maps whose source side lies outside the
   * target tree, registries and operations inside the arena, and a source side whose links
   * never lead into the target tree.
   */
  predicate Consistent(nodes: seq<Node>, m: Matching, sources: seq<NodeId>, targets: seq<NodeId>, ops: seq<Operation>)
  {
    && Bijective(m)
    && Closed(nodes)
    && (forall x | x in sources :: x < |nodes|)
    && (forall x | x in targets :: x < |nodes|)
    && (forall s | s in m.st :: s < |nodes| && m.st[s] < |nodes| && s !in targets)
    && (forall t | t in m.ts :: t < |nodes| && m.ts[t] < |nodes|)
    && Separated(nodes, targets)
    && ScriptInRange(nodes, ops)
  }

  /** The target slots are as they were, and the arena only grew. */
  predicate TargetsKept(nodes0: seq<Node>, nodes: seq<Node>, targets: seq<NodeId>)
  {
    && |nodes0| <= |nodes|
    && (forall j | 0 <= j < |nodes0| && j in targets :: nodes[j] == nodes0[j])
  }

  /** Kinds are kept, and so are values outside `changed`. */
  predicate LabelsKept(nodes0: seq<Node>, nodes: seq<Node>, changed: set<NodeId>)
  {
    && |nodes0| <= |nodes|
    && (forall j | 0 <= j < |nodes0| :: nodes[j].kind == nodes0[j].kind)
    && (forall j | 0 <= j < |nodes0| && j !in changed :: nodes[j].value == nodes0[j].value)
  }

  /** The partner of a target node is a source node of the arena. */
  lemma TargetPartner(nodes: seq<Node>, m: Matching, sources: seq<NodeId>, targets: seq<NodeId>, ops: seq<Operation>, t: NodeId)
    requires Consistent(nodes, m, sources, targets, ops) && t in targets
    ensures PartnerIn(m, t).Some? ==> PartnerIn(m, t).value < |nodes| && PartnerIn(m, t).value !in targets
    ensures PartnerIn(m, t).Some? ==> PartnerIn(m, t).value in m.st && m.st[PartnerIn(m, t).value] == t
  {
  }

  /** A delete of a source node leaves the target slots alone and keeps the sides apart. */
  lemma DeleteSeparated(nodes: seq<Node>, targets: seq<NodeId>, x: NodeId)
    requires Closed(nodes) && Separated(nodes, targets) && x < |nodes| && x !in targets
    ensures Separated(DeleteNode(nodes, x), targets)
    ensures TargetsKept(nodes, DeleteNode(nodes, x), targets)
    ensures LabelsKept(nodes, DeleteNode(nodes, x), {})
  {
    var r := DeleteNode(nodes, x);
    if !IsRoot(nodes[x]) {
      var p := nodes[x].parent.value;
      assert p !in targets;
      forall i | 0 <= i < |r| && i !in targets
        ensures forall k | 0 <= k < |r[i].children| :: r[i].children[k] !in targets
      {
        forall k | 0 <= k < |r[i].children| ensures r[i].children[k] !in targets {
          assert r[i].children[k] in nodes[i].children;
        }
      }
    }
  }

  /** An insert of a source node under a source parent leaves the target slots alone and keeps the sides apart. */
  lemma InsertSeparated(nodes: seq<Node>, targets: seq<NodeId>, x: NodeId, parent: Option<NodeId>, position: int)
    requires Closed(nodes) && Separated(nodes, targets) && x < |nodes| && x !in targets
    requires parent.Some? ==> parent.value < |nodes| && parent.value !in targets
    ensures Separated(InsertNode(nodes, x, parent, position), targets)
    ensures TargetsKept(nodes, InsertNode(nodes, x, parent, position), targets)
    ensures LabelsKept(nodes, InsertNode(nodes, x, parent, position), {})
  {
    var r := InsertNode(nodes, x, parent, position);
    if parent.Some? {
      var p := parent.value;
      var cs := nodes[p].children;
      var i := InsertIndex(|cs|, position);
      forall k | 0 <= k < |r[p].children| ensures r[p].children[k] !in targets {
        if k < i {
          assert r[p].children[k] == r[p].children[..i][k] == cs[k];
        } else if k > i {
          assert r[p].children[k] == r[p].children[i + 1..][k - i - 1] == cs[k - 1];
        }
      }
    }
  }

  /** A fresh node appended to the arena lies outside the target tree and links nowhere. */
  lemma AppendSeparated(nodes: seq<Node>, targets: seq<NodeId>, n: Node)
    requires Closed(nodes) && Separated(nodes, targets) && (forall x | x in targets :: x < |nodes|)
    requires IsLeaf(n) && IsRoot(n)
    ensures Closed(nodes + [n]) && Separated(nodes + [n], targets)
    ensures TargetsKept(nodes, nodes + [n], targets) && LabelsKept(nodes, nodes + [n], {})
    ensures |nodes| !in targets
  {
    var r := nodes + [n];
    assert forall i | 0 <= i < |nodes| :: r[i] == nodes[i];
  }

  // ---------------------------------------------------------------------------------------
  // _find_position

  /** Every partner of a matched node is a node of the arena. */
  predicate PartnersIn(m: Matching, n: nat)
  {
    && (forall s | s in m.st :: m.st[s] < n)
    && (forall t | t in m.ts :: m.ts[t] < n)
  }

  /**
   * `_find_position`: the position right after the partner of the rightmost in-order
   * sibling left of the target; 0 when there is no such sibling or it has no partner.
   * None stands for the TypeError of adding 1 to a missing `position_in_siblings`.
   */
  function Position(nodes: seq<Node>, m: Matching, inOrder: set<NodeId>, t: NodeId): (r: Option<int>)
    requires Closed(nodes) && t < |nodes| && PartnersIn(m, |nodes|)
    ensures r.Some? ==> r.value >= 0
    ensures (forall y | y in Before(Siblings(nodes, t), t) :: y !in inOrder) ==> r == Some(0)
  {
    match LastMarked(Before(Siblings(nodes, t), t), inOrder)
    case None => Some(0)
    case Some(y) =>
      match PartnerIn(m, y)
      case None => Some(0)
      case Some(x) =>
        match PositionInSiblings(nodes, x)
        case None => None
        case Some(k) => Some(k + 1)
  }

  /**
   * A positive position lands the inserted node right after the partner of the rightmost
   * in-order sibling left of the target, under that partner's parent.
   */
  lemma PositionFollowsPartner(nodes: seq<Node>, m: Matching, inOrder: set<NodeId>, t: NodeId, id: NodeId)
    requires Closed(nodes) && t < |nodes| && PartnersIn(m, |nodes|)
    requires Position(nodes, m, inOrder, t).Some? && Position(nodes, m, inOrder, t).value > 0
    ensures var y := LastMarked(Before(Siblings(nodes, t), t), inOrder);
      && y.Some? && y.value in inOrder && y.value in Siblings(nodes, t) && y.value != t
      && PartnerIn(m, y.value).Some?
      && var x := PartnerIn(m, y.value).value;
      && nodes[x].parent.Some?
      && var cs := nodes[nodes[x].parent.value].children;
      && var k := Position(nodes, m, inOrder, t).value;
      && 0 < k <= |cs| && cs[k - 1] == x
      && InsertAt(cs, k, id)[k - 1] == x && InsertAt(cs, k, id)[k] == id
  {
    var sibs := Siblings(nodes, t);
    var b := Before(sibs, t);
    var y := LastMarked(b, inOrder);
    var j :| 0 <= j < |b| && b[j] == y.value;
    assert y.value == sibs[j];
  }

  // ---------------------------------------------------------------------------------------
  // _align_children

  /** The LCS comparison: the partner of the source child is the target child. */
  function PartnerEq(m: Matching): (NodeId, NodeId) -> bool
  {
    (a: NodeId, b: NodeId) => PartnerIn(m, a) == Some(b)
  }

  /** The pairs `longest_common_subsequence` returns for the two matched child lists. */
  function LcsPairs(m: Matching, msc: seq<NodeId>, mtc: seq<NodeId>): (r: seq<(NodeId, NodeId)>)
    ensures forall p | p in r :: p.0 in msc && p.1 in mtc && PartnerIn(m, p.0) == Some(p.1)
  {
    LcsIndicesHold(msc, mtc, PartnerEq(m), 0, 0);
    var ps := LcsIndices(msc, mtc, PartnerEq(m), 0, 0);
    var r := Pick(msc, mtc, ps);
    assert forall p | p in r :: p.0 in msc && p.1 in mtc && PartnerIn(m, p.0) == Some(p.1) by {
      forall p | p in r ensures p.0 in msc && p.1 in mtc && PartnerIn(m, p.0) == Some(p.1) {
        var k :| 0 <= k < |r| && r[k] == p;
        assert PartnerEq(m)(msc[ps[k].0], mtc[ps[k].1]);
      }
    }
    r
  }

  /** Off the LCS: the source children, in order, whose partner is `y` and whose pair is not on it. */
  function MisalignedWith(m: Matching, msc: seq<NodeId>, y: NodeId, lcs: seq<(NodeId, NodeId)>): (r: seq<NodeId>)
    ensures forall x :: x in r <==> x in msc && PartnerIn(m, x) == Some(y) && (x, y) !in lcs
    ensures NoDup(msc) ==> NoDup(r)
    decreases |msc|
  {
    if msc == [] then []
    else
      var init := msc[..|msc| - 1];
      var x := msc[|msc| - 1];
      assert forall z | z in msc :: z in init || z == x;
      var rest := MisalignedWith(m, init, y, lcs);
      assert NoDup(msc) ==> NoDup(init) && x !in init;
      if PartnerIn(m, x) == Some(y) && (x, y) !in lcs then
        assert NoDup(msc) ==> NoDup(rest + [x]) by {
          if NoDup(msc) { NoDupAppend(rest, [x]); }
        }
        rest + [x]
      else rest
  }

  /**
   * The source children `_align_children` moves, in the order of its loop over the
   * target children and, inside, the source children.
   */
  function Misaligned(m: Matching, msc: seq<NodeId>, mtc: seq<NodeId>, lcs: seq<(NodeId, NodeId)>): (r: seq<NodeId>)
    ensures forall x :: x in r <==> x in msc && (exists y | y in mtc :: PartnerIn(m, x) == Some(y)) && (x, PartnerIn(m, x).value) !in lcs
    decreases |mtc|
  {
    if mtc == [] then []
    else
      var init := mtc[..|mtc| - 1];
      var y := mtc[|mtc| - 1];
      assert forall z | z in mtc :: z in init || z == y;
      assert forall z | z in init :: z in mtc;
      Misaligned(m, msc, init, lcs) + MisalignedWith(m, msc, y, lcs)
  }

  /** Moving a node off the LCS happens once per node: no source child is moved twice. */
  lemma {:induction false} MisalignedOnce(m: Matching, msc: seq<NodeId>, mtc: seq<NodeId>, lcs: seq<(NodeId, NodeId)>)
    requires NoDup(msc) && NoDup(mtc)
    ensures NoDup(Misaligned(m, msc, mtc, lcs))
    decreases |mtc|
  {
    if mtc != [] {
      var init := mtc[..|mtc| - 1];
      var y := mtc[|mtc| - 1];
      MisalignedOnce(m, msc, init, lcs);
      var a := Misaligned(m, msc, init, lcs);
      var b := MisalignedWith(m, msc, y, lcs);
      forall x | x in a ensures x !in b {
        var y' :| y' in init && PartnerIn(m, x) == Some(y');
        assert y' != y;
      }
      NoDupAppend(a, b);
    }
  }

  /** The nodes the operations act on, in order. */
  function OpNodes(ops: seq<Operation>): (r: seq<NodeId>)
    ensures |r| == |ops| && forall k | 0 <= k < |ops| :: r[k] == ops[k].node
  {
    seq(|ops|, k requires 0 <= k < |ops| => ops[k].node)
  }

  /** Every operation is a move under `s`. */
  predicate MovesUnder(ops: seq<Operation>, s: NodeId)
  {
    forall k | 0 <= k < |ops| :: ops[k].Move? && ops[k].parent == Some(s)
  }

  /** The ids of the given source nodes and of their partners. */
  function PairIds(m: Matching, xs: seq<NodeId>): set<NodeId>
  {
    Elems(xs) + (set x | x in xs && PartnerIn(m, x).Some? :: PartnerIn(m, x).value)
  }

  /** The ids of the pairs on the LCS. */
  function LcsIds(lcs: seq<(NodeId, NodeId)>): set<NodeId>
  {
    (set p | p in lcs :: p.0) + (set p | p in lcs :: p.1)
  }

  lemma AlignedIdsMatched(m: Matching, msc: seq<NodeId>, mtc: seq<NodeId>, lcs: seq<(NodeId, NodeId)>)
    requires forall p | p in lcs :: p.0 in msc && p.1 in mtc
    ensures LcsIds(lcs) + PairIds(m, Misaligned(m, msc, mtc, lcs)) <= Elems(msc) + Elems(mtc)
  {
    var mis := Misaligned(m, msc, mtc, lcs);
    forall z | z in LcsIds(lcs) + PairIds(m, mis) ensures z in msc || z in mtc {
      if z in LcsIds(lcs) {
        var p :| p in lcs && (z == p.0 || z == p.1);
      } else if z !in Elems(mis) {
        var x :| x in mis && PartnerIn(m, x).Some? && z == PartnerIn(m, x).value;
        var y :| y in mtc && PartnerIn(m, x) == Some(y);
      }
    }
  }

  lemma MatchedAligned(m: Matching, sc: seq<NodeId>, tc: seq<NodeId>, lcs: seq<(NodeId, NodeId)>)
    requires Bijective(m)
    ensures var msc := MatchedSources(m, sc, tc);
      var mtc := MatchedTargets(m, sc, tc);
      Elems(msc) + Elems(mtc) <= LcsIds(lcs) + PairIds(m, Misaligned(m, msc, mtc, lcs))
  {
    var msc := MatchedSources(m, sc, tc);
    var mtc := MatchedTargets(m, sc, tc);
    var mis := Misaligned(m, msc, mtc, lcs);
    forall z | z in msc ensures z in LcsIds(lcs) || z in mis {
      var y := m.st[z];
      assert y in mtc;
      if (z, y) !in lcs {
        assert z in mis;
      }
    }
    forall z | z in mtc ensures z in LcsIds(lcs) + PairIds(m, mis) {
      var x := m.ts[z];
      assert x in msc && PartnerIn(m, x) == Some(z);
      if (x, z) in lcs {
        assert z in LcsIds(lcs);
      } else {
        assert x in mis;
        assert z in PairIds(m, mis);
      }
    }
  }

  /**
   * Every matched child pair is on the LCS or moved, so together they mark exactly the
   * matched children as in order.
   */
  lemma AlignedIds(m: Matching, sc: seq<NodeId>, tc: seq<NodeId>)
    requires Bijective(m)
    ensures var msc := MatchedSources(m, sc, tc);
      var mtc := MatchedTargets(m, sc, tc);
      var lcs := LcsPairs(m, msc, mtc);
      LcsIds(lcs) + PairIds(m, Misaligned(m, msc, mtc, lcs)) == Elems(msc) + Elems(mtc)
  {
    var msc := MatchedSources(m, sc, tc);
    var mtc := MatchedTargets(m, sc, tc);
    var lcs := LcsPairs(m, msc, mtc);
    AlignedIdsMatched(m, msc, mtc, lcs);
    MatchedAligned(m, sc, tc, lcs);
  }

  /** The in-order set after `_align_children`, from its three steps to its closed form. */
  lemma AlignedInOrder(m: Matching, sc: seq<NodeId>, tc: seq<NodeId>, lcs: seq<(NodeId, NodeId)>, mis: seq<NodeId>,
                       before: set<NodeId>, after: set<NodeId>)
    requires Bijective(m)
    requires lcs == LcsPairs(m, MatchedSources(m, sc, tc), MatchedTargets(m, sc, tc))
    requires mis == Misaligned(m, MatchedSources(m, sc, tc), MatchedTargets(m, sc, tc), lcs)
    requires after == before - Elems(sc) - Elems(tc) + LcsIds(lcs) + PairIds(m, mis)
    ensures after == before - Elems(sc) - Elems(tc)
      + Elems(MatchedSources(m, sc, tc)) + Elems(MatchedTargets(m, sc, tc))
  {
    AlignedIds(m, sc, tc);
  }

  lemma PairIdsAppend(m: Matching, a: seq<NodeId>, b: seq<NodeId>)
    ensures PairIds(m, a + b) == PairIds(m, a) + PairIds(m, b)
  {
    assert forall x :: x in a + b <==> x in a || x in b;
  }

  lemma OpNodesAppend(a: seq<Operation>, b: seq<Operation>)
    ensures OpNodes(a + b) == OpNodes(a) + OpNodes(b)
  {
  }

  // ---------------------------------------------------------------------------------------
  // What the breadth-first phase keeps

  /** The target tree is closed under child and parent links, and its links agree. */
  predicate TargetTree(nodes: seq<Node>, targets: seq<NodeId>)
  {
    forall t | t in targets ::
      && t < |nodes|
      && (nodes[t].parent.Some? ==> nodes[t].parent.value in targets)
      && forall c | c in nodes[t].children :: c in targets && c < |nodes| && nodes[c].parent == Some(t)
  }

  /**
   * What the breadth-first phase keeps besides `Consistent`: a linked arena, an intact
   * target tree, and every matched source node registered once.
   */
  predicate Ready(nodes: seq<Node>, m: Matching, sources: seq<NodeId>, targets: seq<NodeId>)
  {
    && Linked(nodes)
    && TargetTree(nodes, targets)
    && NoDup(sources)
    && (forall s | s in m.st :: s in sources)
  }

  /** `x` hangs under its parent: the link is set and the parent lists it among its children. */
  predicate Listed(nodes: seq<Node>, x: NodeId)
  {
    && x < |nodes| && nodes[x].parent.Some? && nodes[x].parent.value < |nodes|
    && x in nodes[nodes[x].parent.value].children
  }

  /**
   * Every in-order target node that has a parent, except those in `ex`, has a partner that
   * hangs under a parent: so `position_in_siblings` of that partner is defined.
   */
  predicate Hung(nodes: seq<Node>, m: Matching, targets: seq<NodeId>, inOrder: set<NodeId>, ex: set<NodeId>)
  {
    forall z {:trigger z in inOrder} | z in inOrder && z in targets && z !in ex && z < |nodes| && nodes[z].parent.Some? ::
      PartnerIn(m, z).Some? && Listed(nodes, PartnerIn(m, z).value)
  }

  /** Only the children of `s` changed, and only in order. */
  predicate Reordered(nodes0: seq<Node>, nodes: seq<Node>, s: NodeId)
  {
    && |nodes| == |nodes0| && s < |nodes0|
    && (forall j | 0 <= j < |nodes0| && j != s :: nodes[j] == nodes0[j])
    && nodes[s] == nodes0[s].(children := nodes[s].children)
    && multiset(nodes[s].children) == multiset(nodes0[s].children)
  }

  lemma ReorderedTrans(a: seq<Node>, b: seq<Node>, c: seq<Node>, s: NodeId)
    requires Reordered(a, b, s) && Reordered(b, c, s)
    ensures Reordered(a, c, s)
  {
  }

  /** Reordering the children of a source node keeps everything the generator relies on. */
  lemma ReorderedKeeps(nodes0: seq<Node>, nodes: seq<Node>, s: NodeId, m: Matching, sources: seq<NodeId>,
                       targets: seq<NodeId>, ops: seq<Operation>, inOrder: set<NodeId>, ex: set<NodeId>)
    requires Reordered(nodes0, nodes, s) && s !in targets
    requires Consistent(nodes0, m, sources, targets, ops) && Ready(nodes0, m, sources, targets)
    requires Hung(nodes0, m, targets, inOrder, ex)
    ensures Consistent(nodes, m, sources, targets, ops) && Ready(nodes, m, sources, targets)
    ensures Hung(nodes, m, targets, inOrder, ex)
    ensures TargetsKept(nodes0, nodes, targets) && LabelsKept(nodes0, nodes, {})
  {
    ReorderedLinks(nodes0, nodes, s);
    ReorderedLinked(nodes0, nodes, s);
    assert Separated(nodes, targets);
    assert TargetTree(nodes, targets);
    assert Hung(nodes, m, targets, inOrder, ex) by {
      forall z | z in inOrder && z in targets && z !in ex && z < |nodes| && nodes[z].parent.Some?
        ensures PartnerIn(m, z).Some? && Listed(nodes, PartnerIn(m, z).value)
      {
        assert nodes[z].parent == nodes0[z].parent;
        var x := PartnerIn(m, z).value;
        assert nodes[x].parent == nodes0[x].parent;
      }
    }
  }

  /** Reordering keeps every parent link and the members of every children list. */
  lemma ReorderedLinks(nodes0: seq<Node>, nodes: seq<Node>, s: NodeId)
    requires Reordered(nodes0, nodes, s)
    ensures forall j | 0 <= j < |nodes| :: nodes[j].parent == nodes0[j].parent && nodes[j].kind == nodes0[j].kind && nodes[j].value == nodes0[j].value
    ensures forall j, c | 0 <= j < |nodes| :: c in nodes[j].children <==> c in nodes0[j].children
    ensures Closed(nodes0) ==> Closed(nodes)
  {
    forall c ensures c in nodes[s].children <==> c in nodes0[s].children {
      assert c in nodes[s].children <==> c in multiset(nodes[s].children);
      assert c in nodes0[s].children <==> c in multiset(nodes0[s].children);
    }
    if Closed(nodes0) {
      forall i, k | 0 <= i < |nodes| && 0 <= k < |nodes[i].children| ensures nodes[i].children[k] < |nodes| {
        assert nodes[i].children[k] in nodes0[i].children;
      }
    }
  }

  lemma ReorderedLinked(nodes0: seq<Node>, nodes: seq<Node>, s: NodeId)
    requires Reordered(nodes0, nodes, s) && Linked(nodes0)
    ensures Linked(nodes)
  {
    ReorderedLinks(nodes0, nodes, s);
    forall i, k | 0 <= i < |nodes| && 0 <= k < |nodes[i].children|
      ensures nodes[i].children[k] < |nodes| && nodes[nodes[i].children[k]].parent == Some(i)
    {
      var c := nodes[i].children[k];
      assert c in nodes0[i].children;
      var k' :| 0 <= k' < |nodes0[i].children| && nodes0[i].children[k'] == c;
    }
    NoDupMultiset(nodes[s].children);
    NoDupMultiset(nodes0[s].children);
  }

  /** After a delete of `x`, every in-order target but `x`'s partner still has a hanging partner. */
  lemma DeleteKeepsHung(nodes: seq<Node>, m: Matching, targets: seq<NodeId>, inOrder: set<NodeId>, x: NodeId, y: NodeId)
    requires Closed(nodes) && x < |nodes| && Bijective(m) && x in m.st && m.st[x] == y
    requires forall s | s in m.st :: s !in targets
    requires Hung(nodes, m, targets, inOrder, {})
    ensures Hung(DeleteNode(nodes, x), m, targets, inOrder, {y})
  {
    var d := DeleteNode(nodes, x);
    forall z | z in inOrder && z in targets && z != y && z < |d| && d[z].parent.Some?
      ensures PartnerIn(m, z).Some? && Listed(d, PartnerIn(m, z).value)
    {
      assert d[z].parent == nodes[z].parent;
      var pz := PartnerIn(m, z).value;
      assert pz != x;
      assert d[pz].parent == nodes[pz].parent;
    }
  }

  /**
   * `_find_position` never meets the TypeError while every in-order sibling left of the
   * target has a hanging partner.
   */
  lemma PositionDefined(nodes: seq<Node>, m: Matching, targets: seq<NodeId>, inOrder: set<NodeId>, t: NodeId)
    requires Closed(nodes) && PartnersIn(m, |nodes|) && TargetTree(nodes, targets) && t in targets
    requires Hung(nodes, m, targets, inOrder, {t})
    ensures Position(nodes, m, inOrder, t).Some?
  {
    var b := Before(Siblings(nodes, t), t);
    var y := LastMarked(b, inOrder);
    if y.Some? {
      var z := y.value;
      var tp := nodes[t].parent.value;
      assert z in nodes[tp].children;
      assert z != t;
      if PartnerIn(m, z).Some? {
        var x := PartnerIn(m, z).value;
        assert x in Siblings(nodes, x);
      }
    }
  }

  /** The target tree lives in the target slots only. */
  lemma TargetTreeKept(nodes0: seq<Node>, nodes: seq<Node>, targets: seq<NodeId>)
    requires TargetTree(nodes0, targets) && TargetsKept(nodes0, nodes, targets)
    ensures TargetTree(nodes, targets)
  {
  }

  /** Between the delete and the insert of a realignment, `_find_position` is defined for the partner. */
  lemma PositionAfterDelete(nodes: seq<Node>, m: Matching, targets: seq<NodeId>, inOrder: set<NodeId>, x: NodeId, y: NodeId, d: seq<Node>)
    requires Closed(nodes) && PartnersIn(m, |nodes|) && TargetTree(nodes, targets) && Separated(nodes, targets)
    requires Hung(nodes, m, targets, inOrder, {})
    requires x < |nodes| && Bijective(m) && x in m.st && m.st[x] == y && y in targets
    requires forall s | s in m.st :: s !in targets
    requires d == DeleteNode(nodes, x)
    ensures Closed(d) && y < |d| && PartnersIn(m, |d|) && Position(d, m, inOrder, y).Some?
  {
    DeleteSeparated(nodes, targets, x);
    TargetTreeKept(nodes, DeleteNode(nodes, x), targets);
    DeleteKeepsHung(nodes, m, targets, inOrder, x, y);
    PositionDefined(DeleteNode(nodes, x), m, targets, inOrder, y);
  }

  /** A realignment keeps everything the generator relies on, and the moved node hangs under `s`. */
  lemma MoveBackKeeps(nodes: seq<Node>, m: Matching, sources: seq<NodeId>, targets: seq<NodeId>, ops: seq<Operation>,
                      inOrder: set<NodeId>, s: NodeId, x: NodeId, position: int)
    requires Consistent(nodes, m, sources, targets, ops) && Ready(nodes, m, sources, targets)
    requires Hung(nodes, m, targets, inOrder, {})
    requires s < |nodes| && s !in targets && x in nodes[s].children
    ensures x < |nodes|
    ensures var r := MoveNode(nodes, x, Some(s), position);
      && Reordered(nodes, r, s)
      && Consistent(r, m, sources, targets, ops)
      && Ready(r, m, sources, targets)
      && Hung(r, m, targets, inOrder, {})
      && Listed(r, x)
  {
    MoveAmongSiblings(nodes, x, s, position);
    var r := MoveNode(nodes, x, Some(s), position);
    ReorderedKeeps(nodes, r, s, m, sources, targets, ops, inOrder, {});
    assert Listed(r, x) by {
      assert x in multiset(nodes[s].children);
      assert r[x].parent == nodes[x].parent;
    }
  }

  /** A target whose partner hangs under a parent may join the in-order set. */
  lemma HungAdd(nodes: seq<Node>, m: Matching, targets: seq<NodeId>, inOrder: set<NodeId>, z: NodeId)
    requires Hung(nodes, m, targets, inOrder, {})
    requires z in targets ==> PartnerIn(m, z).Some? && Listed(nodes, PartnerIn(m, z).value)
    ensures Hung(nodes, m, targets, inOrder + {z}, {})
  {
  }

  /** A matched pair whose source is listed under its parent joins the in-order set. */
  lemma HungAddPair(nodes: seq<Node>, m: Matching, sources: seq<NodeId>, targets: seq<NodeId>, ops: seq<Operation>,
                    inOrder: set<NodeId>, x: NodeId, y: NodeId)
    requires Consistent(nodes, m, sources, targets, ops) && Hung(nodes, m, targets, inOrder, {})
    requires x in m.st && m.st[x] == y && y in targets && Listed(nodes, x)
    ensures Hung(nodes, m, targets, inOrder + {x, y}, {})
  {
    assert x !in targets;
    assert y !in m.st && y in m.ts && m.ts[y] == x;
    assert PartnerIn(m, y) == Some(x);
  }

  /** The second half of a realignment keeps the generator's state, with the moved pair now in order. */
  lemma ReinsertKeeps(nodes: seq<Node>, m: Matching, sources: seq<NodeId>, targets: seq<NodeId>, ops: seq<Operation>,
                      inOrder: set<NodeId>, s: NodeId, x: NodeId, y: NodeId, position: int)
    requires Consistent(nodes, m, sources, targets, ops) && Ready(nodes, m, sources, targets)
    requires Hung(nodes, m, targets, inOrder, {})
    requires s < |nodes| && s !in targets && x in nodes[s].children
    requires y in targets && x in m.st && m.st[x] == y
    ensures x < |nodes|
    ensures var r := MoveNode(nodes, x, Some(s), position);
      && Reordered(nodes, r, s)
      && Consistent(r, m, sources, targets, ops + [Move(x, Some(s), position)])
      && Ready(r, m, sources, targets)
      && Hung(r, m, targets, inOrder + {x, y}, {})
  {
    MoveBackKeeps(nodes, m, sources, targets, ops, inOrder, s, x, position);
    var r := MoveNode(nodes, x, Some(s), position);
    ScriptAppend(r, ops, Move(x, Some(s), position));
    HungAddPair(r, m, sources, targets, ops, inOrder, x, y);
  }

  /** Reordering keeps every child of `s`. */
  lemma ReorderedHas(nodes0: seq<Node>, nodes: seq<Node>, s: NodeId, x: NodeId)
    requires Reordered(nodes0, nodes, s) && x in nodes0[s].children
    ensures x in nodes[s].children
  {
    assert x in multiset(nodes0[s].children);
  }

  /** One more source child seen by the inner loop of `_align_children`. */
  lemma MisalignedWithStep(m: Matching, msc: seq<NodeId>, y: NodeId, lcs: seq<(NodeId, NodeId)>, j: nat)
    requires j < |msc|
    ensures MisalignedWith(m, msc[..j + 1], y, lcs) ==
      MisalignedWith(m, msc[..j], y, lcs) + (if PartnerIn(m, msc[j]) == Some(y) && (msc[j], y) !in lcs then [msc[j]] else [])
  {
    assert msc[..j + 1][..j] == msc[..j];
  }

  /** The moved children so far, once one more source child has been looked at. */
  lemma MisalignedWithNext(m: Matching, msc: seq<NodeId>, y: NodeId, lcs: seq<(NodeId, NodeId)>, j: nat,
                           mis0: seq<NodeId>, mis: seq<NodeId>)
    requires j < |msc| && mis == mis0 + MisalignedWith(m, msc[..j], y, lcs)
    ensures PartnerIn(m, msc[j]) == Some(y) && (msc[j], y) !in lcs ==> mis + [msc[j]] == mis0 + MisalignedWith(m, msc[..j + 1], y, lcs)
    ensures !(PartnerIn(m, msc[j]) == Some(y) && (msc[j], y) !in lcs) ==> mis == mis0 + MisalignedWith(m, msc[..j + 1], y, lcs)
  {
    MisalignedWithStep(m, msc, y, lcs, j);
    AppendAssoc(mis0, MisalignedWith(m, msc[..j], y, lcs), [msc[j]]);
  }

  /** The children moved for earlier target children are partnered with none of the later ones. */
  lemma MisalignedElsewhere(m: Matching, msc: seq<NodeId>, mtc: seq<NodeId>, lcs: seq<(NodeId, NodeId)>, i: nat)
    requires NoDup(mtc) && i < |mtc|
    ensures forall z | z in Misaligned(m, msc, mtc[..i], lcs) :: PartnerIn(m, z) != Some(mtc[i])
  {
    forall z | z in Misaligned(m, msc, mtc[..i], lcs) ensures PartnerIn(m, z) != Some(mtc[i]) {
      var y' :| y' in mtc[..i] && PartnerIn(m, z) == Some(y');
      var k :| 0 <= k < i && mtc[k] == y';
    }
  }

  /** One more target child seen by the outer loop of `_align_children`. */
  lemma MisalignedStep(m: Matching, msc: seq<NodeId>, mtc: seq<NodeId>, lcs: seq<(NodeId, NodeId)>, i: nat)
    requires i < |mtc|
    ensures Misaligned(m, msc, mtc[..i + 1], lcs) == Misaligned(m, msc, mtc[..i], lcs) + MisalignedWith(m, msc, mtc[i], lcs)
  {
    assert mtc[..i + 1][..i] == mtc[..i];
  }

  /** A moved source child and its partner are the ids the move marks as in order. */
  lemma PairIdsOne(m: Matching, x: NodeId, y: NodeId)
    requires PartnerIn(m, x) == Some(y)
    ensures PairIds(m, [x]) == {x, y}
  {
  }

  lemma MovesUnderAppend(a: seq<Operation>, b: seq<Operation>, s: NodeId)
    requires MovesUnder(a, s) && MovesUnder(b, s)
    ensures MovesUnder(a + b, s)
  {
    assert forall k | 0 <= k < |a + b| :: (a + b)[k] == if k < |a| then a[k] else b[k - |a|];
  }

  /** The moved source children are matched children of `s`. */
  predicate ChildPairs(nodes0: seq<Node>, m: Matching, s: NodeId, mis: seq<NodeId>)
  {
    s < |nodes0| && forall x | x in mis :: x in nodes0[s].children && x in m.st
  }

  /**
   * The bookkeeping of the realignments under `s` so far: the script grew by the moves of
   * the children in `mis`, in order, and those children and their partners joined the
   * in-order set.
   */
  predicate Tally(nodes0: seq<Node>, m: Matching, s: NodeId, ops0: seq<Operation>, ops: seq<Operation>,
                  inOrder0: set<NodeId>, inOrder: set<NodeId>, moved: seq<Operation>, mis: seq<NodeId>)
  {
    && ops == ops0 + moved && MovesUnder(moved, s) && OpNodes(moved) == mis && ChildPairs(nodes0, m, s, mis)
    && inOrder == inOrder0 + PairIds(m, mis)
  }

  /** The bookkeeping of one realignment: the operations, the moved nodes and the in-order set each grow by it. */
  lemma AlignRecord(nodes0: seq<Node>, m: Matching, ops0: seq<Operation>, ops1: seq<Operation>, ops2: seq<Operation>,
                    moved: seq<Operation>, mis: seq<NodeId>, i0: set<NodeId>, i1: set<NodeId>, i2: set<NodeId>,
                    s: NodeId, x: NodeId, y: NodeId, position: int)
    requires Tally(nodes0, m, s, ops0, ops1, i0, i1, moved, mis)
    requires ops2 == ops1 + [Move(x, Some(s), position)] && i2 == i1 + {x, y}
    requires x in nodes0[s].children && x in m.st && PartnerIn(m, x) == Some(y)
    ensures Tally(nodes0, m, s, ops0, ops2, i0, i2, moved + [Move(x, Some(s), position)], mis + [x])
  {
    MovedRecorded(moved, mis, s, x, position);
    AppendAssoc(ops0, moved, [Move(x, Some(s), position)]);
    PairIdsAppend(m, mis, [x]);
    PairIdsOne(m, x, y);
  }

  /**
   * The state after some realignments under `s`, seen from the arena before them: the
   * generator's invariants hold, and the moved children and their partners are in order.
   */
  lemma AlignFacts(nodes0: seq<Node>, nodes: seq<Node>, m: Matching, sources: seq<NodeId>, targets: seq<NodeId>,
                   ops0: seq<Operation>, moved: seq<Operation>, mis: seq<NodeId>, inOrder0: set<NodeId>, s: NodeId)
    requires Consistent(nodes0, m, sources, targets, ops0) && Ready(nodes0, m, sources, targets)
    requires Hung(nodes0, m, targets, inOrder0, {})
    requires Reordered(nodes0, nodes, s) && s !in targets
    requires MovesUnder(moved, s) && OpNodes(moved) == mis && ChildPairs(nodes0, m, s, mis)
    ensures Consistent(nodes, m, sources, targets, ops0 + moved) && Ready(nodes, m, sources, targets)
    ensures Hung(nodes, m, targets, inOrder0 + PairIds(m, mis), {})
  {
    ReorderedKeeps(nodes0, nodes, s, m, sources, targets, ops0, inOrder0, {});
    assert ScriptInRange(nodes, ops0 + moved) by {
      forall k | 0 <= k < |ops0 + moved| ensures OpInRange(nodes, (ops0 + moved)[k]) {
        if k >= |ops0| {
          var op := moved[k - |ops0|];
          assert op.node in mis;
        }
      }
    }
    forall z | z in inOrder0 + PairIds(m, mis) && z in targets && z < |nodes| && nodes[z].parent.Some?
      ensures PartnerIn(m, z).Some? && Listed(nodes, PartnerIn(m, z).value)
    {
      if z !in inOrder0 {
        assert z !in mis;
        var x :| x in mis && PartnerIn(m, x).Some? && z == PartnerIn(m, x).value;
        assert z == m.st[x] && z !in m.st;
        assert PartnerIn(m, z) == Some(x);
        ReorderedHas(nodes0, nodes, s, x);
        var k :| 0 <= k < |nodes0[s].children| && nodes0[s].children[k] == x;
        assert nodes0[x].parent == Some(s);
        assert nodes[x].parent == nodes0[x].parent;
      }
    }
  }

  /** Recording one more move under `s` extends the moved nodes by the moved child. */
  lemma MovedRecorded(moved: seq<Operation>, mis: seq<NodeId>, s: NodeId, x: NodeId, position: int)
    requires MovesUnder(moved, s) && OpNodes(moved) == mis
    ensures MovesUnder(moved + [Move(x, Some(s), position)], s)
    ensures OpNodes(moved + [Move(x, Some(s), position)]) == mis + [x]
  {
    MovesUnderAppend(moved, [Move(x, Some(s), position)], s);
    OpNodesAppend(moved, [Move(x, Some(s), position)]);
  }

  /** The pairs of the LCS are matched children of `s` and of a target node, so they may join the in-order set. */
  lemma HungLcs(nodes: seq<Node>, m: Matching, sources: seq<NodeId>, targets: seq<NodeId>, ops: seq<Operation>,
                inOrder: set<NodeId>, s: NodeId, lcs: seq<(NodeId, NodeId)>)
    requires Consistent(nodes, m, sources, targets, ops) && Ready(nodes, m, sources, targets)
    requires Hung(nodes, m, targets, inOrder, {})
    requires s < |nodes|
    requires forall p | p in lcs :: p.0 in nodes[s].children && p.0 in m.st && m.st[p.0] == p.1
    ensures Hung(nodes, m, targets, inOrder + LcsIds(lcs), {})
  {
    forall z | z in inOrder + LcsIds(lcs) && z in targets && z < |nodes| && nodes[z].parent.Some?
      ensures PartnerIn(m, z).Some? && Listed(nodes, PartnerIn(m, z).value)
    {
      if z !in inOrder {
        var p :| p in lcs && (z == p.0 || z == p.1);
        assert p.0 !in targets;
        assert z == p.1 && z !in m.st;
        assert PartnerIn(m, z) == Some(p.0);
        var k :| 0 <= k < |nodes[s].children| && nodes[s].children[k] == p.0;
        assert nodes[p.0].parent == Some(s);
      }
    }
  }

  lemma ScriptAppend(nodes: seq<Node>, ops: seq<Operation>, op: Operation)
    requires ScriptInRange(nodes, ops) && OpInRange(nodes, op)
    ensures ScriptInRange(nodes, ops + [op])
  {
    assert forall k | 0 <= k < |ops| :: (ops + [op])[k] == ops[k];
  }

  // ---------------------------------------------------------------------------------------
  // The order `_align_children` leaves behind

  /** Every in-order child of the target has its partner among `sc`, and the pair is on the LCS. */
  predicate OnLcs(m: Matching, sc: seq<NodeId>, tc: seq<NodeId>, inOrder: set<NodeId>, lcs: seq<(NodeId, NodeId)>)
  {
    forall y | y in tc && y in inOrder :: y in m.ts && m.ts[y] in sc && (m.ts[y], y) in lcs
  }

  /**
   * Once exactly the pairs of the LCS are in order among the children, the source children
   * on it already come in the order of their partners.
   */
  lemma LcsAligned(m: Matching, sc: seq<NodeId>, tc: seq<NodeId>, inOrder: set<NodeId>)
    requires Bijective(m) && NoDup(sc) && NoDup(tc) && forall y | y in tc :: y !in m.st
    requires forall y | y in tc ::
      y in inOrder <==> y in LcsIds(LcsPairs(m, MatchedSources(m, sc, tc), MatchedTargets(m, sc, tc)))
    ensures Aligned(m, sc, tc, inOrder)
    ensures OnLcs(m, sc, tc, inOrder, LcsPairs(m, MatchedSources(m, sc, tc), MatchedTargets(m, sc, tc)))
  {
    var msc, mtc := MatchedSources(m, sc, tc), MatchedTargets(m, sc, tc);
    var si, ti := LcsIndexed(m, msc, mtc);
    LcsPointwise(m, msc, mtc, si, ti);
    LcsMarks(m, msc, mtc, si, ti, tc, inOrder);
    AlignedLcs(m, sc, tc, si, ti, inOrder);
    LcsOnLcs(m, sc, tc, inOrder);
  }

  lemma LcsOnLcs(m: Matching, sc: seq<NodeId>, tc: seq<NodeId>, inOrder: set<NodeId>)
    requires Bijective(m) && forall y | y in tc :: y !in m.st
    requires forall y | y in tc ::
      y in inOrder <==> y in LcsIds(LcsPairs(m, MatchedSources(m, sc, tc), MatchedTargets(m, sc, tc)))
    ensures OnLcs(m, sc, tc, inOrder, LcsPairs(m, MatchedSources(m, sc, tc), MatchedTargets(m, sc, tc)))
  {
    var lcs := LcsPairs(m, MatchedSources(m, sc, tc), MatchedTargets(m, sc, tc));
    forall y | y in tc && y in inOrder ensures y in m.ts && m.ts[y] in sc && (m.ts[y], y) in lcs {
      var p :| p in lcs && (y == p.0 || y == p.1);
      assert y == p.1 && m.st[p.0] == y;
    }
  }

  lemma LcsPointwise(m: Matching, msc: seq<NodeId>, mtc: seq<NodeId>, si: seq<nat>, ti: seq<nat>)
    requires forall x | x in msc :: x in m.st
    requires |si| == |ti| == |LcsPairs(m, msc, mtc)| && Increasing(msc, si) && Increasing(mtc, ti)
    requires forall k | 0 <= k < |si| :: LcsPairs(m, msc, mtc)[k] == (At(msc, si)[k], At(mtc, ti)[k])
    ensures forall k | 0 <= k < |si| :: m.st[At(msc, si)[k]] == At(mtc, ti)[k]
  {
    var lcs := LcsPairs(m, msc, mtc);
    forall k | 0 <= k < |si| ensures m.st[At(msc, si)[k]] == At(mtc, ti)[k] {
      assert lcs[k] in lcs;
    }
  }

  lemma LcsMarks(m: Matching, msc: seq<NodeId>, mtc: seq<NodeId>, si: seq<nat>, ti: seq<nat>, tc: seq<NodeId>, inOrder: set<NodeId>)
    requires forall x | x in msc :: x in m.st
    requires forall y | y in tc :: y !in m.st
    requires |si| == |ti| == |LcsPairs(m, msc, mtc)| && Increasing(msc, si) && Increasing(mtc, ti)
    requires forall k | 0 <= k < |si| :: LcsPairs(m, msc, mtc)[k] == (At(msc, si)[k], At(mtc, ti)[k])
    requires forall y | y in tc :: y in inOrder <==> y in LcsIds(LcsPairs(m, msc, mtc))
    ensures forall y | y in tc :: y in inOrder <==> y in At(mtc, ti)
  {
    var lcs := LcsPairs(m, msc, mtc);
    forall y | y in tc ensures y in inOrder <==> y in At(mtc, ti) {
      if y in inOrder {
        var p :| p in lcs && (y == p.0 || y == p.1);
        var k :| 0 <= k < |lcs| && lcs[k] == p;
        assert At(mtc, ti)[k] == p.1;
      }
      if y in At(mtc, ti) {
        var k :| 0 <= k < |ti| && At(mtc, ti)[k] == y;
        assert lcs[k].1 == y && lcs[k] in lcs;
      }
    }
  }

  /** The LCS pairs as two increasing index sequences into the matched child lists. */
  lemma LcsIndexed(m: Matching, msc: seq<NodeId>, mtc: seq<NodeId>) returns (si: seq<nat>, ti: seq<nat>)
    ensures |si| == |ti| == |LcsPairs(m, msc, mtc)|
    ensures Increasing(msc, si) && Increasing(mtc, ti)
    ensures forall k | 0 <= k < |si| :: LcsPairs(m, msc, mtc)[k] == (At(msc, si)[k], At(mtc, ti)[k])
  {
    LcsIndicesHold(msc, mtc, PartnerEq(m), 0, 0);
    var ps := LcsIndices(msc, mtc, PartnerEq(m), 0, 0);
    si := seq(|ps|, k requires 0 <= k < |ps| => ps[k].0);
    ti := seq(|ps|, k requires 0 <= k < |ps| => ps[k].1);
  }

  /**
   * With every in-order child of the target partnered under `p`, `_find_position` for the
   * target child `y` gives the index `AlignedPosition` names among the children of `p`.
   */
  lemma PositionAligned(nodes: seq<Node>, m: Matching, inOrder: set<NodeId>, p: NodeId, t: NodeId, y: NodeId)
    requires Closed(nodes) && PartnersIn(m, |nodes|) && p < |nodes| && t < |nodes| && y < |nodes|
    requires nodes[y].parent == Some(t)
    requires forall z | z in nodes[t].children :: z !in m.st
    requires forall c | c in nodes[p].children :: c < |nodes| && nodes[c].parent == Some(p)
    requires Partnered(m, nodes[p].children, nodes[t].children, inOrder)
    ensures Position(nodes, m, inOrder, y) == Some(AlignedPosition(m, nodes[p].children, nodes[t].children, inOrder, y))
  {
    var tc := nodes[t].children;
    var b := Before(tc, y);
    var last := LastMarked(b, inOrder);
    if last.Some? {
      var z := last.value;
      var i :| 0 <= i < |b| && b[i] == z;
      assert z == tc[i];
      var x := m.ts[z];
      assert PartnerIn(m, z) == Some(x);
      assert Siblings(nodes, x) == nodes[p].children;
    }
  }

  /**
   * The realignment that `_align_children` makes for a source child `x` of `s` off the LCS:
   * with the partner `y` out of order and every in-order child of `t` partnered under `s`,
   * the children of `s` stay in the order of their partners with the pair in order.
   */
  lemma RealignAligned(nodes: seq<Node>, m: Matching, inOrder: set<NodeId>, s: NodeId, t: NodeId, x: NodeId, y: NodeId, position: int)
    requires Linked(nodes) && Bijective(m) && PartnersIn(m, |nodes|) && s < |nodes| && t < |nodes|
    requires x in nodes[s].children && x in m.st && m.st[x] == y && y in nodes[t].children && y !in inOrder
    requires forall z | z in nodes[t].children :: z !in m.st
    requires Aligned(m, nodes[s].children, nodes[t].children, inOrder)
    requires Partnered(m, nodes[s].children, nodes[t].children, inOrder)
    requires Position(DeleteNode(nodes, x), m, inOrder, y) == Some(position)
    ensures Aligned(m, MoveNode(nodes, x, Some(s), position)[s].children, nodes[t].children, inOrder + {x, y})
  {
    var cs, tc := nodes[s].children, nodes[t].children;
    DeletedAligned(nodes, m, inOrder, s, t, x, y);
    var d := DeleteNode(nodes, x);
    PositionAligned(d, m, inOrder, s, t, y);
    MoveIsDeleteInsert(nodes, x, s, position);
    AlignedInsertAt(m, Without(cs, x), tc, inOrder, x, y);
    assert position == AlignedPosition(m, Without(cs, x), tc, inOrder, y) <= |d[s].children|;
    assert InsertNode(d, x, Some(s), position)[s].children == InsertAt(Without(cs, x), position, x);
  }

  /** The first half of a realignment: without `x`, the children of `s` keep their order. */
  lemma DeletedAligned(nodes: seq<Node>, m: Matching, inOrder: set<NodeId>, s: NodeId, t: NodeId, x: NodeId, y: NodeId)
    requires Linked(nodes) && Bijective(m) && s < |nodes| && t < |nodes| && s != t
    requires x in nodes[s].children && x in m.st && m.st[x] == y && y in nodes[t].children && y !in inOrder
    requires forall z | z in nodes[t].children :: z !in m.st
    requires Aligned(m, nodes[s].children, nodes[t].children, inOrder)
    requires Partnered(m, nodes[s].children, nodes[t].children, inOrder)
    ensures x < |nodes| && y < |nodes|
    ensures var d, cs' := DeleteNode(nodes, x), Without<NodeId>(nodes[s].children, x);
      && d[s].children == cs' && d[t].children == nodes[t].children && d[y].parent == Some(t)
      && NoDup(cs') && x !in cs'
      && Aligned(m, cs', nodes[t].children, inOrder)
      && Partnered(m, cs', nodes[t].children, inOrder)
      && forall c | c in cs' :: c < |d| && d[c].parent == Some(s)
  {
    var cs, tc := nodes[s].children, nodes[t].children;
    var k0 :| 0 <= k0 < |cs| && cs[k0] == x;
    var k1 :| 0 <= k1 < |tc| && tc[k1] == y;
    assert forall c | c in cs :: c < |nodes| && nodes[c].parent == Some(s) by {
      forall c | c in cs ensures c < |nodes| && nodes[c].parent == Some(s) {
        var k :| 0 <= k < |cs| && cs[k] == c;
      }
    }
    DeletedLinks(nodes, s, t, x, y);
    AlignedWithout(m, cs, tc, inOrder, x);
    var cs' := Without(cs, x);
    forall z | z in tc && z in inOrder ensures z in m.ts && m.ts[z] in cs' {
      assert z != y;
    }
  }

  /** Deleting the child `x` of `s` leaves the other children of `s` under it, and `t` as it was. */
  lemma DeletedLinks(nodes: seq<Node>, s: NodeId, t: NodeId, x: NodeId, y: NodeId)
    requires Closed(nodes) && s < |nodes| && t < |nodes| && s != t && x < |nodes| && y < |nodes|
    requires nodes[x].parent == Some(s) && nodes[y].parent == Some(t) && NoDup(nodes[s].children)
    requires forall c | c in nodes[s].children :: c < |nodes| && nodes[c].parent == Some(s)
    ensures var d, cs' := DeleteNode(nodes, x), Without<NodeId>(nodes[s].children, x);
      && d[s].children == cs' && d[t].children == nodes[t].children && d[y].parent == Some(t)
      && NoDup(cs') && x !in cs'
      && forall c | c in cs' :: c < |d| && d[c].parent == Some(s)
  {
    DeleteChild(nodes, x, s);
  }

  /** A realignment inside `_align_children` keeps the children of `s` in the order of their partners. */
  lemma RealignInOrder(nodes0: seq<Node>, nodes: seq<Node>, m: Matching, sources: seq<NodeId>, targets: seq<NodeId>,
                       ops: seq<Operation>, inOrder0: set<NodeId>, inOrder: set<NodeId>, s: NodeId, t: NodeId,
                       x: NodeId, y: NodeId, lcs: seq<(NodeId, NodeId)>, mis: seq<NodeId>, position: int)
    requires Consistent(nodes, m, sources, targets, ops) && Ready(nodes, m, sources, targets)
    requires Reordered(nodes0, nodes, s) && ChildPairs(nodes0, m, s, mis) && s !in targets && t in targets
    requires OnLcs(m, nodes0[s].children, nodes0[t].children, inOrder0, lcs)
    requires inOrder == inOrder0 + PairIds(m, mis)
    requires x in m.st && m.st[x] == y && x in nodes0[s].children && y in nodes0[t].children
    requires x !in mis && (x, y) !in lcs
    requires Aligned(m, nodes[s].children, nodes0[t].children, inOrder)
    requires x < |nodes| && Position(DeleteNode(nodes, x), m, inOrder, y) == Some(position)
    ensures Aligned(m, MoveNode(nodes, x, Some(s), position)[s].children, nodes0[t].children, inOrder + {x, y})
  {
    assert forall z | z in nodes0[t].children :: z !in m.st;
    MoveReady(nodes0, nodes, m, s, nodes0[t].children, inOrder0, inOrder, lcs, mis, x, y);
    ReorderedHas(nodes0, nodes, s, x);
    assert nodes[t] == nodes0[t];
    RealignAligned(nodes, m, inOrder, s, t, x, y, position);
  }

  /**
   * Before a realignment inside `_align_children`: the partner of the child to move is out
   * of order, and every in-order child of the target is partnered under `s`.
   */
  lemma MoveReady(nodes0: seq<Node>, nodes: seq<Node>, m: Matching, s: NodeId, tc: seq<NodeId>,
                  inOrder0: set<NodeId>, inOrder: set<NodeId>, lcs: seq<(NodeId, NodeId)>, mis: seq<NodeId>,
                  x: NodeId, y: NodeId)
    requires Bijective(m) && Reordered(nodes0, nodes, s) && ChildPairs(nodes0, m, s, mis)
    requires forall z | z in tc :: z !in m.st
    requires OnLcs(m, nodes0[s].children, tc, inOrder0, lcs)
    requires inOrder == inOrder0 + PairIds(m, mis)
    requires x in m.st && m.st[x] == y && y in tc && x !in mis && (x, y) !in lcs
    ensures y !in inOrder
    ensures Partnered(m, nodes[s].children, tc, inOrder)
  {
    assert m.ts[y] == x;
    forall z | z in mis ensures PartnerIn(m, z) != Some(y) {
      assert z != x;
    }
    forall y' | y' in tc && y' in inOrder ensures y' in m.ts && m.ts[y'] in nodes[s].children {
      if y' in inOrder0 {
        ReorderedHas(nodes0, nodes, s, m.ts[y']);
      } else {
        var z :| z in mis && PartnerIn(m, z).Some? && y' == PartnerIn(m, z).value;
        ReorderedHas(nodes0, nodes, s, z);
      }
    }
  }

  // ---------------------------------------------------------------------------------------
  // One round of the breadth-first loop

  /** `target.parent and context.partner(target.parent)`: where the target's counterpart belongs. */
  function SourceParent(nodes: seq<Node>, m: Matching, t: NodeId): Option<NodeId>
    requires t < |nodes|
  {
    match nodes[t].parent
    case None => None
    case Some(p) => PartnerIn(m, p)
  }

  /**
   * `context.partner(source.parent) is not target.parent`: the source node does not hang
   * under the partner of the target's parent (the partner of a missing parent is None).
   */
  predicate Misplaced(nodes: seq<Node>, m: Matching, s: NodeId, t: NodeId)
    requires s < |nodes| && t < |nodes|
  {
    (match nodes[s].parent case None => None case Some(q) => PartnerIn(m, q)) != nodes[t].parent
  }

  /** `Node(target.label, target.value)`: a new node without links or metadata. */
  function Fresh(n: Node): (r: Node)
    ensures IsLeaf(r) && IsRoot(r)
  {
    Node(n.kind, n.value, [], None, None)
  }

  /** The source node standing for the target once its round is over: its partner, or the new node. */
  function Counterpart(nodes: seq<Node>, m: Matching, t: NodeId): NodeId
  {
    match PartnerIn(m, t)
    case None => |nodes|
    case Some(s) => s
  }

  /**
   * The operations one round of `generate_edit_script` emits for the target `t`, given the
   * position `_find_position` computes: an insert of a new node for an unmatched target;
   * nothing for a matched root; for a matched non-root an update when the values differ,
   * then a move when the partner hangs elsewhere.
   */
  function Emitted(nodes: seq<Node>, m: Matching, t: NodeId, position: int): (r: seq<Operation>)
    requires Closed(nodes) && t < |nodes| && PartnersIn(m, |nodes|)
    ensures (exists k | 0 <= k < |r| :: r[k].Insert?) <==> PartnerIn(m, t).None?
    ensures nodes[t].parent.None? ==> forall k | 0 <= k < |r| :: r[k].Insert?
    ensures (exists k | 0 <= k < |r| :: r[k].Update?) <==>
      && PartnerIn(m, t).Some? && nodes[t].parent.Some?
      && nodes[PartnerIn(m, t).value].value != nodes[t].value
    ensures (exists k | 0 <= k < |r| :: r[k].Move?) <==>
      PartnerIn(m, t).Some? && nodes[t].parent.Some? && Misplaced(nodes, m, PartnerIn(m, t).value, t)
    ensures forall k | 0 <= k < |r| ::
      && r[k].node == Counterpart(nodes, m, t)
      && !r[k].Delete?
      && (r[k].Update? ==> PartnerIn(m, t).Some? && r[k].value == nodes[t].value
                           && r[k].oldValue == Some(nodes[PartnerIn(m, t).value].value))
      && (r[k].Insert? || r[k].Move? ==> r[k].parent == SourceParent(nodes, m, t) && r[k].position == position)
  {
    match PartnerIn(m, t)
    case None =>
      var r := [Insert(|nodes|, SourceParent(nodes, m, t), position)];
      assert r[0].Insert?;
      r
    case Some(s) =>
      if nodes[t].parent.None? then []
      else
        var update := if nodes[s].value != nodes[t].value then [Update(s, nodes[t].value, Some(nodes[s].value))] else [];
        var move := if Misplaced(nodes, m, s, t) then [Move(s, SourceParent(nodes, m, t), position)] else [];
        var r := update + move;
        assert forall k | 0 <= k < |r| :: r[k] == if k < |update| then update[k] else move[k - |update|];
        assert update != [] ==> r[0].Update?;
        assert move != [] ==> r[|update|].Move?;
        r
  }

  /** An update changes no link. */
  lemma UpdateKeepsLinks(nodes: seq<Node>, id: NodeId, v: string)
    requires id < |nodes|
    ensures forall i | 0 <= i < |nodes| ::
      var r := UpdateValue(nodes, id, v);
      r[i].children == nodes[i].children && r[i].parent == nodes[i].parent && r[i].kind == nodes[i].kind
    ensures Closed(nodes) ==> Closed(UpdateValue(nodes, id, v))
    ensures Linked(nodes) ==> Linked(UpdateValue(nodes, id, v))
  {
  }

  /**
   * The arena once the round of `t` has applied its operations: the new node appended and
   * inserted, or the partner updated and moved as `Emitted` says.
   */
  function Placed(nodes: seq<Node>, m: Matching, t: NodeId, position: int): (r: seq<Node>)
    requires Closed(nodes) && t < |nodes| && PartnersIn(m, |nodes|)
    ensures Closed(r) && |r| == |nodes| + (if PartnerIn(m, t).None? then 1 else 0)
    ensures Counterpart(nodes, m, t) < |r|
    ensures PartnerIn(m, t).None? ==> r[|nodes|].kind == nodes[t].kind && r[|nodes|].children == []
    ensures PartnerIn(m, t).None? || nodes[t].parent.Some? ==> r[Counterpart(nodes, m, t)].value == nodes[t].value
    ensures forall j | 0 <= j < |nodes| :: r[j].kind == nodes[j].kind
    ensures forall j | 0 <= j < |nodes| && j != Counterpart(nodes, m, t) ::
      r[j].value == nodes[j].value && r[j].parent == nodes[j].parent
  {
    var sp := SourceParent(nodes, m, t);
    match PartnerIn(m, t)
    case None =>
      var g := nodes + [Fresh(nodes[t])];
      assert forall i | 0 <= i < |nodes| :: g[i] == nodes[i];
      InsertNode(g, |nodes|, sp, position)
    case Some(s) =>
      if nodes[t].parent.None? then nodes
      else
        UpdateKeepsLinks(nodes, s, nodes[t].value);
        var u := if nodes[s].value != nodes[t].value then UpdateValue(nodes, s, nodes[t].value) else nodes;
        if Misplaced(nodes, m, s, t) then MoveNode(u, s, sp, position) else u
  }

  /** `_find_position` reads links only: an update leaves the position of every target alone. */
  lemma PositionIgnoresValues(nodes: seq<Node>, m: Matching, inOrder: set<NodeId>, t: NodeId, id: NodeId, v: string)
    requires Closed(nodes) && t < |nodes| && PartnersIn(m, |nodes|) && id < |nodes|
    ensures Closed(UpdateValue(nodes, id, v))
    ensures Position(UpdateValue(nodes, id, v), m, inOrder, t) == Position(nodes, m, inOrder, t)
  {
    var u := UpdateValue(nodes, id, v);
    UpdateKeepsLinks(nodes, id, v);
    SiblingsIgnoreValues(nodes, id, v, t);
    var y := LastMarked(Before(Siblings(nodes, t), t), inOrder);
    if y.Some? && PartnerIn(m, y.value).Some? {
      SiblingsIgnoreValues(nodes, id, v, PartnerIn(m, y.value).value);
    }
  }

  /** An update leaves the siblings of every node, and its place among them, alone. */
  lemma SiblingsIgnoreValues(nodes: seq<Node>, id: NodeId, v: string, x: NodeId)
    requires Closed(nodes) && id < |nodes| && x < |nodes|
    ensures Closed(UpdateValue(nodes, id, v))
    ensures Siblings(UpdateValue(nodes, id, v), x) == Siblings(nodes, x)
    ensures PositionInSiblings(UpdateValue(nodes, id, v), x) == PositionInSiblings(nodes, x)
  {
    UpdateKeepsLinks(nodes, id, v);
    var u := UpdateValue(nodes, id, v);
    assert u[x].parent == nodes[x].parent;
    if nodes[x].parent.Some? {
      assert u[nodes[x].parent.value].children == nodes[nodes[x].parent.value].children;
    }
  }

  /** Below a parent, the counterpart hangs under the partner of the target's parent once the round is over. */
  lemma PlacedHangs(nodes: seq<Node>, m: Matching, sources: seq<NodeId>, targets: seq<NodeId>, ops: seq<Operation>,
                    t: NodeId, position: int)
    requires Consistent(nodes, m, sources, targets, ops) && Ready(nodes, m, sources, targets)
    requires t in targets && nodes[t].parent.Some? && SourceParent(nodes, m, t).Some?
    ensures PartnersIn(m, |nodes|)
    ensures Placed(nodes, m, t, position)[Counterpart(nodes, m, t)].parent == SourceParent(nodes, m, t)
  {
    if PartnerIn(m, t).Some? {
      var s := PartnerIn(m, t).value;
      var tp := nodes[t].parent.value;
      assert tp in targets && tp !in m.st;
      if !Misplaced(nodes, m, s, t) {
        var q := nodes[s].parent.value;
        assert PartnerIn(m, q) == Some(tp);
        assert q in m.st;
        assert PartnerIn(m, tp) == Some(q);
      }
    }
  }

  /** A script stays inside an arena that grows. */
  lemma ScriptGrown(nodes: seq<Node>, r: seq<Node>, ops: seq<Operation>)
    requires ScriptInRange(nodes, ops) && |nodes| <= |r|
    ensures ScriptInRange(r, ops)
  {
    forall k | 0 <= k < |ops| ensures OpInRange(r, ops[k]) {
      assert OpInRange(nodes, ops[k]);
    }
  }

  /** A node without links appended to a linked arena keeps it linked. */
  lemma AppendLinked(nodes: seq<Node>, n: Node)
    requires Linked(nodes) && IsLeaf(n) && IsRoot(n)
    ensures Linked(nodes + [n])
  {
    var g := nodes + [n];
    assert forall i | 0 <= i < |nodes| :: g[i] == nodes[i];
  }

  /**
   * The arena after the insert of a round: the new node, appended and inserted under the
   * partner of the target's parent, keeps the arena linked and the sides apart.
   */
  lemma InsertArena(nodes: seq<Node>, m: Matching, sources: seq<NodeId>, targets: seq<NodeId>, ops: seq<Operation>,
                    t: NodeId, position: int)
    requires Consistent(nodes, m, sources, targets, ops) && Ready(nodes, m, sources, targets)
    requires t in targets && PartnerIn(m, t).None?
    ensures PartnersIn(m, |nodes|)
    ensures var n := |nodes|;
      var sp := SourceParent(nodes, m, t);
      var r := Placed(nodes, m, t, position);
      && (sp.Some? ==> sp.value < n && sp.value !in targets)
      && r == InsertNode(nodes + [Fresh(nodes[t])], n, sp, position)
      && Separated(r, targets) && Linked(r) && TargetTree(r, targets) && TargetsKept(nodes, r, targets)
  {
    var n := |nodes|;
    var sp := SourceParent(nodes, m, t);
    var leaf := Fresh(nodes[t]);
    var g := nodes + [leaf];
    AppendSeparated(nodes, targets, leaf);
    AppendLinked(nodes, leaf);
    if sp.Some? {
      var tp := nodes[t].parent.value;
      assert tp in targets && tp !in m.st;
      assert sp.value in m.st;
    }
    InsertSeparated(g, targets, n, sp, position);
    var r := InsertNode(g, n, sp, position);
    if sp.Some? {
      MoveKeepsLinked(g, n, sp.value, position);
    }
    TargetTreeKept(nodes, r, targets);
  }

  /** A new source node matched with an unmatched target keeps the state consistent. */
  lemma AddPairConsistent(nodes: seq<Node>, r: seq<Node>, m: Matching, sources: seq<NodeId>, targets: seq<NodeId>,
                          ops: seq<Operation>, op: Operation, t: NodeId)
    requires Consistent(nodes, m, sources, targets, ops)
    requires |r| == |nodes| + 1 && Closed(r) && Separated(r, targets)
    requires t in targets && PartnerIn(m, t).None? && OpInRange(r, op)
    ensures !IsMatched(m, MatchingPair(|nodes|, t))
    ensures Consistent(r, With(m, MatchingPair(|nodes|, t)), sources + [|nodes|], targets, ops + [op])
  {
    var n := |nodes|;
    assert n !in targets && n !in m.st;
    AddKeepsBijection(m, MatchingPair(n, t));
    ScriptGrown(nodes, r, ops);
    ScriptAppend(r, ops, op);
  }

  /** A new source node, registered and matched, keeps the registry and the links ready. */
  lemma AddPairReady(nodes: seq<Node>, r: seq<Node>, m: Matching, sources: seq<NodeId>, targets: seq<NodeId>, t: NodeId)
    requires Ready(nodes, m, sources, targets) && (forall x | x in sources :: x < |nodes|)
    requires Linked(r) && TargetTree(r, targets)
    ensures |nodes| !in sources
    ensures Ready(r, With(m, MatchingPair(|nodes|, t)), sources + [|nodes|], targets)
  {
    NoDupAppend(sources, [|nodes|]);
  }

  /** What the insert of a round needs to be possible at all. */
  lemma InsertRoundReady(nodes: seq<Node>, m: Matching, sources: seq<NodeId>, targets: seq<NodeId>, ops: seq<Operation>,
                         t: NodeId)
    requires Consistent(nodes, m, sources, targets, ops) && Ready(nodes, m, sources, targets)
    requires t in targets && PartnerIn(m, t).None?
    ensures PartnersIn(m, |nodes|) && |nodes| !in sources && !IsMatched(m, MatchingPair(|nodes|, t))
    ensures var sp := SourceParent(nodes, m, t); sp.Some? ==> sp.value < |nodes|
  {
    if nodes[t].parent.Some? {
      var tp := nodes[t].parent.value;
      assert tp in targets;
    }
    assert |nodes| !in m.st;
  }

  /** The round of an unmatched target, as the generator performs it: one insert of a new leaf. */
  lemma InsertShape(nodes: seq<Node>, m: Matching, t: NodeId, position: int)
    requires Closed(nodes) && PartnersIn(m, |nodes|) && t < |nodes| && PartnerIn(m, t).None?
    requires var sp := SourceParent(nodes, m, t); sp.Some? ==> sp.value < |nodes|
    ensures var sp := SourceParent(nodes, m, t);
      && Placed(nodes, m, t, position) == InsertNode(nodes + [Fresh(nodes[t])], |nodes|, sp, position)
      && Emitted(nodes, m, t, position) == [Insert(|nodes|, sp, position)]
  {
  }

  /** The insert of a round keeps everything the generator relies on. */
  lemma InsertRoundKeeps(nodes: seq<Node>, m: Matching, sources: seq<NodeId>, targets: seq<NodeId>, ops: seq<Operation>,
                         t: NodeId, position: int)
    requires Consistent(nodes, m, sources, targets, ops) && Ready(nodes, m, sources, targets)
    requires t in targets && PartnerIn(m, t).None?
    ensures PartnersIn(m, |nodes|) && |nodes| !in sources && !IsMatched(m, MatchingPair(|nodes|, t))
    ensures var sp := SourceParent(nodes, m, t); sp.Some? ==> sp.value < |nodes|
    ensures var n := |nodes|;
      var sp := SourceParent(nodes, m, t);
      var r := InsertNode(nodes + [Fresh(nodes[t])], n, sp, position);
      var m1 := With(m, MatchingPair(n, t));
      && Placed(nodes, m, t, position) == r
      && Emitted(nodes, m, t, position) == [Insert(n, sp, position)]
      && Consistent(r, m1, sources + [n], targets, ops + [Insert(n, sp, position)])
      && Ready(r, m1, sources + [n], targets) && TargetsKept(nodes, r, targets)
  {
    var n := |nodes|;
    var sp := SourceParent(nodes, m, t);
    InsertArena(nodes, m, sources, targets, ops, t, position);
    var r := InsertNode(nodes + [Fresh(nodes[t])], n, sp, position);
    AddPairConsistent(nodes, r, m, sources, targets, ops, Insert(n, sp, position), t);
    AddPairReady(nodes, r, m, sources, targets, t);
  }

  /** The update of a round keeps everything the generator relies on. */
  lemma UpdateRoundKeeps(nodes: seq<Node>, m: Matching, sources: seq<NodeId>, targets: seq<NodeId>, ops: seq<Operation>,
                         inOrder: set<NodeId>, s: NodeId, v: string)
    requires Consistent(nodes, m, sources, targets, ops) && Ready(nodes, m, sources, targets)
    requires Hung(nodes, m, targets, inOrder, {})
    requires s < |nodes| && s !in targets
    ensures var r := UpdateValue(nodes, s, v);
      && Consistent(r, m, sources, targets, ops + [Update(s, v, Some(nodes[s].value))])
      && Ready(r, m, sources, targets) && Hung(r, m, targets, inOrder, {})
      && TargetsKept(nodes, r, targets)
  {
    var r := UpdateValue(nodes, s, v);
    UpdateKeepsLinks(nodes, s, v);
    ScriptGrown(nodes, r, ops);
    ScriptAppend(r, ops, Update(s, v, Some(nodes[s].value)));
    assert Separated(r, targets);
    assert TargetTree(r, targets);
  }

  /** The move of a round keeps everything the generator relies on. */
  lemma MoveRoundKeeps(nodes: seq<Node>, m: Matching, sources: seq<NodeId>, targets: seq<NodeId>, ops: seq<Operation>,
                       s: NodeId, p: NodeId, position: int)
    requires Consistent(nodes, m, sources, targets, ops) && Ready(nodes, m, sources, targets)
    requires s < |nodes| && s !in targets && p < |nodes| && p !in targets
    ensures var r := MoveNode(nodes, s, Some(p), position);
      && Consistent(r, m, sources, targets, ops + [Move(s, Some(p), position)])
      && Ready(r, m, sources, targets) && TargetsKept(nodes, r, targets)
  {
    var d := DeleteNode(nodes, s);
    var r := MoveNode(nodes, s, Some(p), position);
    MoveIsDeleteInsert(nodes, s, p, position);
    DeleteSeparated(nodes, targets, s);
    InsertSeparated(d, targets, s, Some(p), position);
    MoveKeepsLinked(nodes, s, p, position);
    TargetTreeKept(nodes, r, targets);
    ScriptGrown(nodes, r, ops);
    ScriptAppend(r, ops, Move(s, Some(p), position));
  }

  /**
   * The update of a round changes neither where the partner hangs nor the position of the
   * target.
   */
  lemma UpdateKeepsPlace(nodes: seq<Node>, m: Matching, inOrder: set<NodeId>, s: NodeId, t: NodeId)
    requires Closed(nodes) && PartnersIn(m, |nodes|) && s < |nodes| && t < |nodes|
    ensures var v := nodes[t].value;
      var u := if nodes[s].value != v then UpdateValue(nodes, s, v) else nodes;
      && Closed(u) && |u| == |nodes|
      && Misplaced(u, m, s, t) == Misplaced(nodes, m, s, t)
      && Position(u, m, inOrder, t) == Position(nodes, m, inOrder, t)
  {
    UpdateKeepsLinks(nodes, s, nodes[t].value);
    PositionIgnoresValues(nodes, m, inOrder, t, s, nodes[t].value);
  }

  /**
   * The round of a matched target below the root, as the generator performs it: the update
   * when the values differ, then the move when the partner hangs elsewhere.
   */
  lemma RelocateShape(nodes: seq<Node>, m: Matching, t: NodeId, position: int)
    requires Closed(nodes) && PartnersIn(m, |nodes|) && t < |nodes|
    requires PartnerIn(m, t).Some? && PartnerIn(m, t).value < |nodes| && nodes[t].parent.Some?
    requires SourceParent(nodes, m, t).Some? && SourceParent(nodes, m, t).value < |nodes|
    ensures var s := PartnerIn(m, t).value;
      var v := nodes[t].value;
      var sp := SourceParent(nodes, m, t);
      var u := if nodes[s].value != v then UpdateValue(nodes, s, v) else nodes;
      var up := if nodes[s].value != v then [Update(s, v, Some(nodes[s].value))] else [];
      var mv := if Misplaced(nodes, m, s, t) then [Move(s, sp, position)] else [];
      && Closed(u)
      && Placed(nodes, m, t, position) == (if Misplaced(nodes, m, s, t) then MoveNode(u, s, sp, position) else u)
      && Emitted(nodes, m, t, position) == up + mv
  {
    UpdateKeepsLinks(nodes, PartnerIn(m, t).value, nodes[t].value);
  }

  /** What the update and the move of a round need to be possible at all. */
  lemma RelocateReady(nodes: seq<Node>, m: Matching, sources: seq<NodeId>, targets: seq<NodeId>, ops: seq<Operation>,
                      t: NodeId)
    requires Consistent(nodes, m, sources, targets, ops) && Ready(nodes, m, sources, targets)
    requires t in targets && PartnerIn(m, t).Some? && nodes[t].parent.Some? && SourceParent(nodes, m, t).Some?
    ensures PartnersIn(m, |nodes|) && PartnerIn(m, t).value < |nodes| && SourceParent(nodes, m, t).value < |nodes|
  {
    TargetPartner(nodes, m, sources, targets, ops, t);
    var tp := nodes[t].parent.value;
    assert tp in targets && tp !in m.st;
  }

  /** The update and the move of a round keep everything the generator relies on. */
  lemma RelocateKeeps(nodes: seq<Node>, m: Matching, sources: seq<NodeId>, targets: seq<NodeId>,
                      ops: seq<Operation>, inOrder: set<NodeId>, s: NodeId, t: NodeId, position: int, moved: bool)
    requires Consistent(nodes, m, sources, targets, ops) && Ready(nodes, m, sources, targets)
    requires Hung(nodes, m, targets, inOrder, {})
    requires t in targets && PartnerIn(m, t) == Some(s) && nodes[t].parent.Some? && SourceParent(nodes, m, t).Some?
    ensures s < |nodes| && SourceParent(nodes, m, t).value < |nodes|
    ensures var v := nodes[t].value;
      var sp := SourceParent(nodes, m, t);
      var u := if nodes[s].value != v then UpdateValue(nodes, s, v) else nodes;
      var up := if nodes[s].value != v then [Update(s, v, Some(nodes[s].value))] else [];
      var r := if moved then MoveNode(u, s, sp, position) else u;
      && Closed(u) && |u| == |nodes|
      && Consistent(r, m, sources, targets, ops + up + (if moved then [Move(s, sp, position)] else []))
      && Ready(r, m, sources, targets) && TargetsKept(nodes, r, targets)
  {
    TargetPartner(nodes, m, sources, targets, ops, t);
    var v := nodes[t].value;
    var sp := SourceParent(nodes, m, t);
    var tp := nodes[t].parent.value;
    assert tp in targets && tp !in m.st;
    assert sp.value in m.st;
    UpdateKeepsLinks(nodes, s, v);
    var u := if nodes[s].value != v then UpdateValue(nodes, s, v) else nodes;
    var up := if nodes[s].value != v then [Update(s, v, Some(nodes[s].value))] else [];
    if nodes[s].value != v {
      UpdateRoundKeeps(nodes, m, sources, targets, ops, inOrder, s, v);
    }
    if moved {
      MoveRoundKeeps(u, m, sources, targets, ops + up, s, sp.value, position);
    }
  }

  /**
   * After the first half of a round, which leaves the arena `r`, the matching `m1`, the
   * registered sources `sources1` and the operations `ops1`, the generator's invariants hold
   * again, the target and its counterpart `c` can join the in-order set, and the counterpart
   * stands apart from the targets.
   */
  lemma RoundSettles(nodes: seq<Node>, m: Matching, sources: seq<NodeId>, targets: seq<NodeId>, ops: seq<Operation>,
                     inOrder: set<NodeId>, t: NodeId, position: int,
                     r: seq<Node>, c: NodeId, m1: Matching, sources1: seq<NodeId>, ops1: seq<Operation>)
    requires Consistent(nodes, m, sources, targets, ops) && Ready(nodes, m, sources, targets)
    requires Hung(nodes, m, targets, inOrder, {})
    requires t in targets && (nodes[t].parent.Some? ==> SourceParent(nodes, m, t).Some?)
    requires PartnersIn(m, |nodes|) && r == Placed(nodes, m, t, position) && c == Counterpart(nodes, m, t)
    requires m1 == (if PartnerIn(m, t).None? then With(m, MatchingPair(|nodes|, t)) else m)
    requires sources1 == (if PartnerIn(m, t).None? then sources + [|nodes|] else sources)
    requires ops1 == ops + Emitted(nodes, m, t, position)
    ensures Consistent(r, m1, sources1, targets, ops1) && Ready(r, m1, sources1, targets) && TargetsKept(nodes, r, targets)
    ensures c < |r| && c !in targets && Hung(r, m1, targets, inOrder + {c, t}, {})
  {
    RoundKeeps(nodes, m, sources, targets, ops, inOrder, t, position);
    if nodes[t].parent.Some? {
      PlacedHangs(nodes, m, sources, targets, ops, t, position);
    }
    RoundHung(nodes, m, targets, inOrder, t, m1, r, c);
  }

  /**
   * After the first half of a round, which leaves the arena `r` and emitted `emitted`: the
   * round deleted nothing, no target changed, and the mirrored part of the target tree grew
   * by the round's target.
   */
  lemma RoundCloses(tree: seq<Node>, order: seq<NodeId>, i: nat, nodes: seq<Node>, m: Matching, sources: seq<NodeId>,
                    targets: seq<NodeId>, ops: seq<Operation>, position: int, r: seq<Node>, m1: Matching,
                    emitted: seq<Operation>)
    requires Consistent(nodes, m, sources, targets, ops) && Ready(nodes, m, sources, targets)
    requires NoDup(order) && ParentFirst(tree, order) && i < |order|
    requires forall k | 0 <= k < |order| :: order[k] in targets
    requires TargetsKept(tree, nodes, targets) && Mirrored(tree, nodes, m, order[..i])
    requires nodes[order[i]].parent.Some? ==> SourceParent(nodes, m, order[i]).Some?
    requires PartnersIn(m, |nodes|) && r == Placed(nodes, m, order[i], position)
    requires m1 == (if PartnerIn(m, order[i]).None? then With(m, MatchingPair(|nodes|, order[i])) else m)
    requires emitted == Emitted(nodes, m, order[i], position)
    requires TargetsKept(nodes, r, targets)
    ensures NoDeletes(emitted)
    ensures TargetsKept(tree, r, targets)
    ensures Mirrored(tree, r, m1, order[..i + 1])
  {
    if nodes[order[i]].parent.Some? {
      PlacedHangs(nodes, m, sources, targets, ops, order[i], position);
    }
    RoundExtends(tree, nodes, m, targets, order, i, position, r);
  }

  /** Realigning the children of `c`, which is not a target, keeps the target slots and the mirror. */
  lemma RealignKeeps(tree: seq<Node>, r: seq<Node>, after: seq<Node>, m: Matching, targets: seq<NodeId>,
                     visited: seq<NodeId>, c: NodeId)
    requires Reordered(r, after, c) && c !in targets
    requires TargetsKept(tree, r, targets) && Mirrored(tree, r, m, visited)
    ensures TargetsKept(tree, after, targets) && Mirrored(tree, after, m, visited)
  {
  }

  /** A round of the breadth-first loop extends the mirrored part of the target tree by its target. */
  lemma RoundExtends(tree: seq<Node>, nodes: seq<Node>, m: Matching, targets: seq<NodeId>, order: seq<NodeId>, i: nat,
                     position: int, after: seq<Node>)
    requires Bijective(m) && Closed(nodes) && PartnersIn(m, |nodes|) && TargetTree(nodes, targets)
    requires (forall s | s in m.st :: s !in targets) && (forall z | z in targets :: z < |nodes|)
    requires NoDup(order) && ParentFirst(tree, order) && i < |order|
    requires forall k | 0 <= k < |order| :: order[k] in targets
    requires TargetsKept(tree, nodes, targets) && Mirrored(tree, nodes, m, order[..i])
    requires nodes[order[i]].parent.Some? ==>
      Placed(nodes, m, order[i], position)[Counterpart(nodes, m, order[i])].parent == SourceParent(nodes, m, order[i])
    requires Reordered(Placed(nodes, m, order[i], position), after, Counterpart(nodes, m, order[i]))
    ensures Mirrored(tree, after, if PartnerIn(m, order[i]).None? then With(m, MatchingPair(|nodes|, order[i])) else m,
                     order[..i + 1])
  {
    var t := order[i];
    RoundReady(tree, nodes, m, targets, order, i);
    var m1 := if PartnerIn(m, t).None? then With(m, MatchingPair(|nodes|, t)) else m;
    assert forall v | v in order[..i] :: v in targets by {
      forall v | v in order[..i] ensures v in targets {
        var k :| 0 <= k < i && order[k] == v;
      }
    }
    RoundMirrored(tree, nodes, m, targets, order[..i], t, m1, Placed(nodes, m, t, position), Counterpart(nodes, m, t), after);
    assert order[..i + 1] == order[..i] + [t];
  }

  /** A round only adds to the matching: the pair of an inserted node, when there is one. */
  lemma RoundKeepsPairs(m: Matching, n: nat, t: NodeId)
    requires forall s | s in m.st :: s < n
    ensures Kept(m, if PartnerIn(m, t).None? then With(m, MatchingPair(n, t)) else m)
  {
  }

  /** What the first half of a round needs from the state it starts in. */
  predicate Placeable(nodes: seq<Node>, m: Matching, sources: seq<NodeId>, inOrder: set<NodeId>, t: NodeId)
  {
    && Closed(nodes) && PartnersIn(m, |nodes|) && Bijective(m) && t < |nodes| && NoDup(sources)
    && (nodes[t].parent.Some? ==> SourceParent(nodes, m, t).Some? && SourceParent(nodes, m, t).value < |nodes|)
    && (PartnerIn(m, t).None? ==>
          && Position(nodes, m, inOrder, t).Some? && |nodes| !in sources && !IsMatched(m, MatchingPair(|nodes|, t)))
    && (PartnerIn(m, t).Some? ==>
          && PartnerIn(m, t).value < |nodes|
          && (nodes[t].parent.Some? && Misplaced(nodes, m, PartnerIn(m, t).value, t) ==>
                Position(nodes, m, inOrder, t).Some?))
  }

  lemma RoundPlaceable(nodes: seq<Node>, m: Matching, sources: seq<NodeId>, targets: seq<NodeId>, ops: seq<Operation>,
                       inOrder: set<NodeId>, t: NodeId)
    requires Consistent(nodes, m, sources, targets, ops) && Ready(nodes, m, sources, targets)
    requires Hung(nodes, m, targets, inOrder, {})
    requires t in targets && (nodes[t].parent.Some? ==> SourceParent(nodes, m, t).Some?)
    ensures Placeable(nodes, m, sources, inOrder, t)
  {
    TargetPartner(nodes, m, sources, targets, ops, t);
    PositionDefined(nodes, m, targets, inOrder, t);
    if nodes[t].parent.Some? {
      var tp := nodes[t].parent.value;
      assert tp in targets && tp !in m.st;
    }
    assert |nodes| !in m.st;
  }

  /** Every round keeps everything the generator relies on. */
  lemma RoundKeeps(nodes: seq<Node>, m: Matching, sources: seq<NodeId>, targets: seq<NodeId>, ops: seq<Operation>,
                   inOrder: set<NodeId>, t: NodeId, position: int)
    requires Consistent(nodes, m, sources, targets, ops) && Ready(nodes, m, sources, targets)
    requires Hung(nodes, m, targets, inOrder, {})
    requires t in targets && (nodes[t].parent.Some? ==> SourceParent(nodes, m, t).Some?)
    ensures PartnersIn(m, |nodes|)
    ensures var m1 := if PartnerIn(m, t).None? then With(m, MatchingPair(|nodes|, t)) else m;
      var sources1 := if PartnerIn(m, t).None? then sources + [|nodes|] else sources;
      var r := Placed(nodes, m, t, position);
      && Consistent(r, m1, sources1, targets, ops + Emitted(nodes, m, t, position))
      && Ready(r, m1, sources1, targets) && TargetsKept(nodes, r, targets)
  {
    TargetPartner(nodes, m, sources, targets, ops, t);
    if PartnerIn(m, t).None? {
      InsertRoundKeeps(nodes, m, sources, targets, ops, t, position);
    } else if nodes[t].parent.Some? {
      var s := PartnerIn(m, t).value;
      RelocateReady(nodes, m, sources, targets, ops, t);
      RelocateKeeps(nodes, m, sources, targets, ops, inOrder, s, t, position, Misplaced(nodes, m, s, t));
      RelocateShape(nodes, m, t, position);
      AppendAssoc(ops, if nodes[s].value != nodes[t].value then [Update(s, nodes[t].value, Some(nodes[s].value))] else [],
                  if Misplaced(nodes, m, s, t) then [Move(s, SourceParent(nodes, m, t), position)] else []);
    }
  }

  /** A node that has a parent in a linked arena is listed among its parent's children. */
  lemma LinkedListed(nodes: seq<Node>, x: NodeId)
    requires Linked(nodes) && x < |nodes| && nodes[x].parent.Some?
    ensures Listed(nodes, x)
  {
  }

  /**
   * The partner of another target is neither the counterpart of `t` nor changed by the
   * round of `t`.
   */
  lemma OtherPartner(nodes: seq<Node>, m: Matching, m1: Matching, t: NodeId, z: NodeId)
    requires Bijective(m) && PartnersIn(m, |nodes|) && z != t && z !in m.st && t !in m.st && z < |nodes|
    requires m1 == if PartnerIn(m, t).None? then With(m, MatchingPair(|nodes|, t)) else m
    ensures PartnerIn(m1, z) == PartnerIn(m, z)
    ensures PartnerIn(m, z).Some? ==> PartnerIn(m, z).value < |nodes| && PartnerIn(m, z).value != Counterpart(nodes, m, t)
  {
    if PartnerIn(m, z).Some? && PartnerIn(m, t).Some? {
      assert m.st[m.ts[z]] == z && m.st[m.ts[t]] == t;
    }
  }

  /** After the round of `t`, its counterpart is its partner. */
  lemma OwnPartner(nodes: seq<Node>, m: Matching, m1: Matching, t: NodeId)
    requires PartnersIn(m, |nodes|) && t !in m.st && t < |nodes|
    requires m1 == if PartnerIn(m, t).None? then With(m, MatchingPair(|nodes|, t)) else m
    ensures PartnerIn(m1, t) == Some(Counterpart(nodes, m, t))
  {
    if PartnerIn(m, t).None? {
      assert t !in m1.st && m1.ts[t] == |nodes|;
    }
  }

  /**
   * After the round of `t`, and once `t` and its counterpart join the in-order set, every
   * in-order target with a parent still has a partner that hangs under a parent.
   */
  lemma RoundHung(nodes: seq<Node>, m: Matching, targets: seq<NodeId>, inOrder: set<NodeId>, t: NodeId, m1: Matching,
                  r: seq<Node>, c: NodeId)
    requires Bijective(m) && PartnersIn(m, |nodes|)
    requires (forall s | s in m.st :: s !in targets) && (forall z | z in targets :: z < |nodes|)
    requires Hung(nodes, m, targets, inOrder, {})
    requires t in targets && c == Counterpart(nodes, m, t)
    requires m1 == if PartnerIn(m, t).None? then With(m, MatchingPair(|nodes|, t)) else m
    requires Linked(r) && |nodes| <= |r| && c < |r|
    requires forall j | 0 <= j < |nodes| && j != c :: r[j].parent == nodes[j].parent
    requires nodes[t].parent.Some? ==> r[c].parent.Some?
    ensures Hung(r, m1, targets, inOrder + {c, t}, {})
  {
    OwnPartner(nodes, m, m1, t);
    assert c != t;
    forall z | z in inOrder + {c, t} && z in targets && z < |r| && r[z].parent.Some?
      ensures PartnerIn(m1, z).Some? && Listed(r, PartnerIn(m1, z).value)
    {
      if z == t {
        LinkedListed(r, c);
      } else {
        assert z in inOrder && z !in m.st && z < |nodes|;
        OtherPartner(nodes, m, m1, t, z);
        var x := PartnerIn(m, z).value;
        assert Listed(nodes, x);
        LinkedListed(r, x);
      }
    }
  }

  /**
   * The counterparts of the visited targets mirror the target tree: each visited target
   * has a partner, which, below the root, hangs under the partner of the target's parent
   * and carries the target's value.
   */
  predicate Mirrored(tree: seq<Node>, nodes: seq<Node>, m: Matching, visited: seq<NodeId>)
  {
    forall v | v in visited ::
      && v < |tree| && PartnerIn(m, v).Some? && PartnerIn(m, v).value < |nodes|
      && (tree[v].parent.Some? ==>
            && nodes[PartnerIn(m, v).value].parent == PartnerIn(m, tree[v].parent.value)
            && nodes[PartnerIn(m, v).value].value == tree[v].value)
  }

  /**
   * One round of the loop, its realignment included, extends the mirrored part of the
   * target tree by `t`, as long as no visited target hangs under `t`.
   */
  lemma RoundMirrored(tree: seq<Node>, nodes: seq<Node>, m: Matching, targets: seq<NodeId>, visited: seq<NodeId>,
                      t: NodeId, m1: Matching, r: seq<Node>, c: NodeId, after: seq<Node>)
    requires Bijective(m) && PartnersIn(m, |nodes|) && TargetTree(nodes, targets)
    requires (forall s | s in m.st :: s !in targets) && (forall z | z in targets :: z < |nodes|)
    requires TargetsKept(tree, nodes, targets) && Mirrored(tree, nodes, m, visited)
    requires forall v | v in visited :: v in targets && tree[v].parent != Some(t)
    requires t in targets && t !in visited && t < |tree| && tree[t].parent != Some(t)
    requires c == Counterpart(nodes, m, t)
    requires m1 == if PartnerIn(m, t).None? then With(m, MatchingPair(|nodes|, t)) else m
    requires |nodes| <= |r| && Reordered(r, after, c)
    requires forall j | 0 <= j < |nodes| && j != c :: r[j].parent == nodes[j].parent && r[j].value == nodes[j].value
    requires nodes[t].parent.Some? ==> r[c].parent == SourceParent(nodes, m, t) && r[c].value == nodes[t].value
    ensures Mirrored(tree, after, m1, visited + [t])
  {
    OwnPartner(nodes, m, m1, t);
    assert nodes[t] == tree[t];
    forall v | v in visited + [t]
      ensures v < |tree| && PartnerIn(m1, v).Some? && PartnerIn(m1, v).value < |after|
      ensures tree[v].parent.Some? ==>
        && after[PartnerIn(m1, v).value].parent == PartnerIn(m1, tree[v].parent.value)
        && after[PartnerIn(m1, v).value].value == tree[v].value
    {
      if v == t {
        if tree[t].parent.Some? {
          var tp := tree[t].parent.value;
          assert tp in targets && tp != t && tp !in m.st;
          OtherPartner(nodes, m, m1, t, tp);
        }
      } else {
        assert v in visited && v !in m.st && nodes[v] == tree[v];
        OtherPartner(nodes, m, m1, t, v);
        if tree[v].parent.Some? {
          var p := tree[v].parent.value;
          assert p in targets && p != t && p !in m.st;
          OtherPartner(nodes, m, m1, t, p);
        }
      }
    }
  }

  /** Every target in the order comes after its parent. */
  predicate ParentFirst(tree: seq<Node>, order: seq<NodeId>)
  {
    forall k | 0 <= k < |order| ::
      order[k] < |tree| && (tree[order[k]].parent.Some? ==> tree[order[k]].parent.value in order[..k])
  }

  /**
   * What the round of `order[i]` needs from the rounds before it: the target is new, no
   * visited target hangs under it, and below the root its parent already has a partner.
   */
  lemma RoundReady(tree: seq<Node>, nodes: seq<Node>, m: Matching, targets: seq<NodeId>, order: seq<NodeId>, i: nat)
    requires NoDup(order) && ParentFirst(tree, order) && i < |order|
    requires Mirrored(tree, nodes, m, order[..i])
    requires TargetsKept(tree, nodes, targets) && order[i] in targets
    ensures var t := order[i];
      && t !in order[..i] && t < |tree| && t < |nodes| && nodes[t] == tree[t]
      && (forall v | v in order[..i] :: tree[v].parent != Some(t))
      && tree[t].parent != Some(t)
      && (tree[t].parent.Some? ==> SourceParent(nodes, m, t).Some?)
  {
    var t := order[i];
    forall v | v in order[..i] ensures tree[v].parent != Some(t) {
      var k :| 0 <= k < i && order[k] == v;
      assert order[..i][..k] == order[..k];
    }
  }

  /** In a walk sorted by depth that holds the parent of `order[k]`, the parent comes first. */
  lemma ParentEarlier(nodes: seq<Node>, order: seq<NodeId>, k: nat)
    requires WellFormed(nodes) && AllIn(nodes, order) && NoDup(order) && DepthSorted(nodes, order)
    requires k < |order| && nodes[order[k]].parent.Some? && nodes[order[k]].parent.value in order
    ensures nodes[order[k]].parent.value in order[..k]
  {
    var x := order[k];
    var p := nodes[x].parent.value;
    var j :| 0 <= j < |order| && order[j] == p;
    ParentBelow(nodes, x);
    assert Depth(nodes, x) == 1 + Depth(nodes, p);
    assert j < k;
    assert order[..k][j] == p;
  }

  /** `bfs` from the root of the target tree visits every target once, each after its parent. */
  lemma BfsOrder(nodes: seq<Node>, targets: seq<NodeId>)
    requires WellFormed(nodes) && targets != [] && targets[0] < |nodes| && targets == PreOrder(nodes, targets[0])
    requires nodes[targets[0]].parent.None?
    ensures var order := BfsFrom(nodes, [targets[0]]);
      && NoDup(order) && (forall x :: x in order <==> x in targets) && ParentFirst(nodes, order)
  {
    var root := targets[0];
    var order := BfsFrom(nodes, [root]);
    BfsVisitsTreeByLevels(nodes, root);
    forall k | 0 <= k < |order|
      ensures order[k] < |nodes| && (nodes[order[k]].parent.Some? ==> nodes[order[k]].parent.value in order[..k])
    {
      var x := order[k];
      assert AllIn(nodes, order);
      if nodes[x].parent.Some? {
        WalkParentInWalk(nodes, root, x);
        ParentEarlier(nodes, order, k);
      }
    }
  }

  /** No operation is a delete. */
  predicate NoDeletes(ops: seq<Operation>)
  {
    forall k | 0 <= k < |ops| :: !ops[k].Delete?
  }

  /** A round appends no delete: its own operations are inserts, updates and moves. */
  lemma RoundNoDeletes(e: seq<Operation>, moved: seq<Operation>, c: NodeId)
    requires NoDeletes(e) && MovesUnder(moved, c)
    ensures NoDeletes(e + moved)
  {
    forall k | 0 <= k < |e + moved| ensures !(e + moved)[k].Delete? {
      if k >= |e| {
        assert (e + moved)[k] == moved[k - |e|];
      }
    }
  }

  /** Realignment emits moves only. */
  lemma MovesNoDeletes(moved: seq<Operation>, c: NodeId)
    requires MovesUnder(moved, c)
    ensures NoDeletes(moved)
  {
  }

  /** Two scripts without deletes make one. */
  lemma NoDeletesJoin(a: seq<Operation>, b: seq<Operation>)
    requires NoDeletes(a) && NoDeletes(b)
    ensures NoDeletes(a + b)
  {
    forall k | 0 <= k < |a + b| ensures !(a + b)[k].Delete? {
      if k >= |a| {
        assert (a + b)[k] == b[k - |a|];
      }
    }
  }

  // ---------------------------------------------------------------------------------------
  // Children in the order of their partners

  /**
   * The visited target `v` is in order, and the children of its partner are arranged
   * against the children of `v`: the matched ones stand in the order of their in-order
   * partners, and a child of `v` is in order exactly when its partner is a child of `v`'s
   * partner.
   */
  predicate ArrangedAt(tree: seq<Node>, nodes: seq<Node>, m: Matching, inOrder: set<NodeId>, v: NodeId)
  {
    && v < |tree| && v in inOrder && PartnerIn(m, v).Some? && PartnerIn(m, v).value < |nodes|
    && ChildrenArranged(m, nodes[PartnerIn(m, v).value].children, tree[v].children, inOrder)
  }

  /** Every visited target is arranged. */
  predicate Arranged(tree: seq<Node>, nodes: seq<Node>, m: Matching, inOrder: set<NodeId>, visited: seq<NodeId>)
  {
    forall v | v in visited :: ArrangedAt(tree, nodes, m, inOrder, v)
  }

  /** What a round of the breadth-first loop knows of the arena and the matching it starts on. */
  predicate RoundBase(tree: seq<Node>, nodes: seq<Node>, m: Matching, targets: seq<NodeId>)
  {
    && Bijective(m) && Linked(nodes) && Closed(nodes) && PartnersIn(m, |nodes|) && TargetTree(nodes, targets)
    && (forall s | s in m.st :: s !in targets) && Separated(nodes, targets)
    && TargetsKept(tree, nodes, targets) && (forall z | z in targets :: z < |tree|)
  }

  /** The partner of a target is `ts` of it; distinct targets have distinct partners. */
  lemma TargetPartners(m: Matching, targets: seq<NodeId>, v: NodeId, w: NodeId)
    requires Bijective(m) && (forall s | s in m.st :: s !in targets) && v in targets && w in targets
    requires PartnerIn(m, v).Some? && PartnerIn(m, w).Some?
    ensures v in m.ts && PartnerIn(m, v) == Some(m.ts[v]) && m.ts[v] in m.st && m.st[m.ts[v]] == v
    ensures v != w ==> PartnerIn(m, v) != PartnerIn(m, w)
  {
  }

  /**
   * A position `_find_position` computes for a child `t` of an arranged target `tp` is the
   * aligned one; `t` is in order exactly when its partner already hangs under `tp`'s partner.
   */
  lemma PositionAtArranged(tree: seq<Node>, nodes: seq<Node>, m: Matching, targets: seq<NodeId>, inOrder: set<NodeId>,
                           t: NodeId, tp: NodeId, position: int)
    requires RoundBase(tree, nodes, m, targets) && t in targets && tp in targets
    requires nodes[t].parent == Some(tp) && ArrangedAt(tree, nodes, m, inOrder, tp)
    requires Position(nodes, m, inOrder, t) == Some(position)
    ensures var p := PartnerIn(m, tp).value;
      && tree[tp] == nodes[tp] && t in tree[tp].children && NoDup(tree[tp].children)
      && (forall z | z in tree[tp].children :: z !in m.st && z < |nodes| && z in targets)
      && PartnerIn(m, p) == Some(tp)
      && position == AlignedPosition(m, nodes[p].children, tree[tp].children, inOrder, t)
  {
    var p := PartnerIn(m, tp).value;
    var cs, tc := nodes[p].children, tree[tp].children;
    assert tree[tp] == nodes[tp];
    assert forall z | z in tc :: z !in m.st && z < |nodes| && z in targets;
    assert forall c | c in cs :: c < |nodes| && nodes[c].parent == Some(p) by {
      forall c | c in cs ensures c < |nodes| && nodes[c].parent == Some(p) {
        var k :| 0 <= k < |cs| && cs[k] == c;
      }
    }
    assert Partnered(m, cs, tc, inOrder);
    PositionAligned(nodes, m, inOrder, p, tp, t);
  }

  /**
   * One visited target `v` after a round that put `x`, the counterpart of `t`, among the
   * children of `p`, the partner of `t`'s parent `tp`, at the aligned position, and took it
   * out of the children of its former parent `q`: `v` stays arranged once the pair is in
   * order.
   */
  lemma PlacedAt(tree: seq<Node>, nodes: seq<Node>, r: seq<Node>, m: Matching, m1: Matching, targets: seq<NodeId>,
                 inOrder: set<NodeId>, v: NodeId, tp: NodeId, x: NodeId, t: NodeId, position: nat, q: Option<NodeId>)
    requires RoundBase(tree, nodes, m, targets) && Bijective(m1)
    requires v in targets && tp in targets && t in targets && nodes[t].parent == Some(tp)
    requires ArrangedAt(tree, nodes, m, inOrder, v) && ArrangedAt(tree, nodes, m, inOrder, tp)
    requires t !in inOrder && x !in targets && x in m1.st && m1.st[x] == t && (x in m.st || x >= |nodes|)
    requires forall j | j in m.st :: j in m1.st && m1.st[j] == m.st[j]
    requires forall j | j in m1.st && j != x :: j in m.st
    requires forall z | z != t :: (z in m.ts <==> z in m1.ts) && (z in m.ts ==> m1.ts[z] == m.ts[z])
    requires var p := PartnerIn(m, tp).value;
      && x !in nodes[p].children
      && position == AlignedPosition(m, nodes[p].children, tree[tp].children, inOrder, t)
      && |nodes| <= |r| && r[p].children == InsertAt(nodes[p].children, position, x)
      && (q.Some? ==> q.value < |nodes| && q.value != p && r[q.value].children == Without(nodes[q.value].children, x))
      && forall j | 0 <= j < |nodes| && j != p && Some(j) != q :: r[j].children == nodes[j].children
    ensures ArrangedAt(tree, r, m1, inOrder + {x, t}, v)
  {
    var pv := PartnerIn(m, v).value;
    var cs, tc := nodes[pv].children, tree[v].children;
    assert tree[v] == nodes[v];
    TargetPartners(m, targets, v, tp);
    assert PartnerIn(m1, v) == PartnerIn(m, v);
    assert forall c | c in cs :: c < |nodes| by {
      forall c | c in cs ensures c < |nodes| {
        var k :| 0 <= k < |cs| && cs[k] == c;
      }
    }
    if v == tp {
      assert t in tc;
      ArrangedInsert(m, m1, cs, tc, inOrder, x, t);
    } else {
      assert t !in tc;
      ArrangedSame(m, m1, cs, tc, inOrder, inOrder + {x, t});
      if Some(pv) == q {
        ArrangedWithout(m1, cs, tc, inOrder + {x, t}, x);
      }
    }
  }

  /**
   * One visited target `v` after a round that changed no children list: `v` stays arranged
   * once the pair is in order, as long as `t`, when a child of `v`, was in order already.
   */
  lemma UnplacedAt(tree: seq<Node>, nodes: seq<Node>, r: seq<Node>, m: Matching, m1: Matching, targets: seq<NodeId>,
                   inOrder: set<NodeId>, v: NodeId, x: NodeId, t: NodeId)
    requires RoundBase(tree, nodes, m, targets)
    requires v in targets && t in targets && v != t && ArrangedAt(tree, nodes, m, inOrder, v) && x !in targets
    requires forall j | 0 <= j < |nodes| :: (j in m.st <==> j in m1.st) && (j in m.st ==> m1.st[j] == m.st[j])
    requires forall z | z != t :: (z in m.ts <==> z in m1.ts) && (z in m.ts ==> m1.ts[z] == m.ts[z])
    requires nodes[t].parent == Some(v) ==> t in inOrder && (t in m.ts <==> t in m1.ts) && (t in m.ts ==> m1.ts[t] == m.ts[t])
    requires |nodes| <= |r| && forall j | 0 <= j < |nodes| :: r[j].children == nodes[j].children
    ensures ArrangedAt(tree, r, m1, inOrder + {x, t}, v)
  {
    var pv := PartnerIn(m, v).value;
    var cs, tc := nodes[pv].children, tree[v].children;
    assert tree[v] == nodes[v];
    assert PartnerIn(m1, v) == PartnerIn(m, v);
    ArrangedSame(m, m1, cs, tc, inOrder, inOrder + {x, t});
  }

  /** The children lists after the insert of a round below the root. */
  lemma InsertPlacedShape(nodes: seq<Node>, m: Matching, t: NodeId, p: NodeId, position: nat)
    requires Closed(nodes) && PartnersIn(m, |nodes|) && t < |nodes| && PartnerIn(m, t).None?
    requires SourceParent(nodes, m, t) == Some(p) && p < |nodes| && position <= |nodes[p].children|
    ensures var r := Placed(nodes, m, t, position);
      && |nodes| < |r| && |nodes| !in nodes[p].children
      && r[p].children == InsertAt(nodes[p].children, position, |nodes|)
      && forall j | 0 <= j < |nodes| && j != p :: r[j].children == nodes[j].children
  {
    var n := |nodes|;
    InsertShape(nodes, m, t, position);
    var g := nodes + [Fresh(nodes[t])];
    assert forall j | 0 <= j < n :: g[j] == nodes[j];
  }

  /**
   * Moving `s` under a parent `p` it does not hang under yet, at an index within `p`'s
   * children: it enters them there and leaves the children of its former parent.
   */
  lemma MoveShape(u: seq<Node>, s: NodeId, p: NodeId, position: nat)
    requires Linked(u) && Closed(u) && s < |u| && p < |u| && u[s].parent != Some(p)
    requires position <= |u[p].children|
    ensures var r := MoveNode(u, s, Some(p), position);
      && var q := u[s].parent;
      && s !in u[p].children
      && r[p].children == InsertAt(u[p].children, position, s)
      && (q.Some? ==> q.value < |u| && q.value != p && r[q.value].children == Without(u[q.value].children, s))
      && forall j | 0 <= j < |u| && j != p && Some(j) != q :: r[j].children == u[j].children
  {
    var d := DeleteNode(u, s);
    MoveIsDeleteInsert(u, s, p, position);
    if u[s].parent.Some? {
      DeleteChild(u, s, u[s].parent.value);
    }
  }

  /** The children lists after the move of a round below the root. */
  lemma MovePlacedShape(nodes: seq<Node>, m: Matching, t: NodeId, s: NodeId, p: NodeId, position: nat)
    requires Linked(nodes) && Closed(nodes) && PartnersIn(m, |nodes|) && t < |nodes| && nodes[t].parent.Some?
    requires PartnerIn(m, t) == Some(s) && s < |nodes| && Misplaced(nodes, m, s, t)
    requires SourceParent(nodes, m, t) == Some(p) && p < |nodes| && PartnerIn(m, p) == nodes[t].parent
    requires position <= |nodes[p].children|
    ensures var r := Placed(nodes, m, t, position);
      && var q := nodes[s].parent;
      && |nodes| <= |r| && s !in nodes[p].children
      && r[p].children == InsertAt(nodes[p].children, position, s)
      && (q.Some? ==> q.value < |nodes| && q.value != p && r[q.value].children == Without(nodes[q.value].children, s))
      && forall j | 0 <= j < |nodes| && j != p && Some(j) != q :: r[j].children == nodes[j].children
  {
    RelocateShape(nodes, m, t, position);
    UpdateKeepsLinks(nodes, s, nodes[t].value);
    var u := if nodes[s].value != nodes[t].value then UpdateValue(nodes, s, nodes[t].value) else nodes;
    assert forall j | 0 <= j < |nodes| :: u[j].children == nodes[j].children && u[j].parent == nodes[j].parent;
    assert nodes[s].parent != Some(p);
    MoveShape(u, s, p, position);
  }

  /** Every visited target stays arranged when the counterpart `x` of `t` enters the children of `tp`'s partner. */
  lemma ArrangedAfterShift(tree: seq<Node>, nodes: seq<Node>, r: seq<Node>, m: Matching, m1: Matching, targets: seq<NodeId>,
                           inOrder: set<NodeId>, visited: seq<NodeId>, tp: NodeId, x: NodeId, t: NodeId, position: nat,
                           q: Option<NodeId>)
    requires RoundBase(tree, nodes, m, targets) && Bijective(m1)
    requires (forall v | v in visited :: v in targets) && Arranged(tree, nodes, m, inOrder, visited)
    requires tp in visited && t in targets && nodes[t].parent == Some(tp)
    requires t !in inOrder && x !in targets && x in m1.st && m1.st[x] == t && (x in m.st || x >= |nodes|)
    requires forall j | j in m.st :: j in m1.st && m1.st[j] == m.st[j]
    requires forall j | j in m1.st && j != x :: j in m.st
    requires forall z | z != t :: (z in m.ts <==> z in m1.ts) && (z in m.ts ==> m1.ts[z] == m.ts[z])
    requires var p := PartnerIn(m, tp).value;
      && x !in nodes[p].children
      && position == AlignedPosition(m, nodes[p].children, tree[tp].children, inOrder, t)
      && |nodes| <= |r| && r[p].children == InsertAt(nodes[p].children, position, x)
      && (q.Some? ==> q.value < |nodes| && q.value != p && r[q.value].children == Without(nodes[q.value].children, x))
      && forall j | 0 <= j < |nodes| && j != p && Some(j) != q :: r[j].children == nodes[j].children
    ensures Arranged(tree, r, m1, inOrder + {x, t}, visited)
  {
    forall v | v in visited ensures ArrangedAt(tree, r, m1, inOrder + {x, t}, v) {
      PlacedAt(tree, nodes, r, m, m1, targets, inOrder, v, tp, x, t, position, q);
    }
  }

  /** Every visited target stays arranged after a round that changed no children list. */
  lemma ArrangedAfterStay(tree: seq<Node>, nodes: seq<Node>, r: seq<Node>, m: Matching, m1: Matching, targets: seq<NodeId>,
                          inOrder: set<NodeId>, visited: seq<NodeId>, x: NodeId, t: NodeId)
    requires RoundBase(tree, nodes, m, targets)
    requires (forall v | v in visited :: v in targets) && Arranged(tree, nodes, m, inOrder, visited)
    requires t in targets && t !in visited && x !in targets
    requires forall j | 0 <= j < |nodes| :: (j in m.st <==> j in m1.st) && (j in m.st ==> m1.st[j] == m.st[j])
    requires forall z | z != t :: (z in m.ts <==> z in m1.ts) && (z in m.ts ==> m1.ts[z] == m.ts[z])
    requires nodes[t].parent.Some? ==> t in inOrder && (t in m.ts <==> t in m1.ts) && (t in m.ts ==> m1.ts[t] == m.ts[t])
    requires |nodes| <= |r| && forall j | 0 <= j < |nodes| :: r[j].children == nodes[j].children
    ensures Arranged(tree, r, m1, inOrder + {x, t}, visited)
  {
    forall v | v in visited ensures ArrangedAt(tree, r, m1, inOrder + {x, t}, v) {
      UnplacedAt(tree, nodes, r, m, m1, targets, inOrder, v, x, t);
    }
  }

  /** The pairs of the matching after a round, against those before it. */
  lemma RoundPairs(m: Matching, n: nat, t: NodeId, x: NodeId)
    requires Bijective(m) && PartnersIn(m, n) && (forall s | s in m.st :: s < n)
    requires x == (match PartnerIn(m, t) case None => n case Some(s) => s)
    requires t !in m.st
    ensures var m1 := if PartnerIn(m, t).None? then With(m, MatchingPair(n, t)) else m;
      && Bijective(m1) && x in m1.st && m1.st[x] == t && (x in m.st || x >= n)
      && (forall j | j in m.st :: j in m1.st && m1.st[j] == m.st[j])
      && (forall j | j in m1.st && j != x :: j in m.st)
      && (forall j | 0 <= j < n :: (j in m.st <==> j in m1.st) && (j in m.st ==> m1.st[j] == m.st[j]))
      && (forall z | z != t :: (z in m.ts <==> z in m1.ts) && (z in m.ts ==> m1.ts[z] == m.ts[z]))
      && (PartnerIn(m, t).Some? ==> m1 == m)
  {
    if PartnerIn(m, t).None? {
      AddKeepsBijection(m, MatchingPair(n, t));
    }
  }

  /**
   * The first half of a round keeps every visited target arranged, once the round's pair
   * joins the in-order set: the insert or move puts the counterpart where the in-order
   * siblings say, and takes it out of the children it left.
   */
  lemma PlaceArranged(tree: seq<Node>, nodes: seq<Node>, m: Matching, targets: seq<NodeId>, inOrder: set<NodeId>,
                      visited: seq<NodeId>, t: NodeId, position: int)
    requires RoundBase(tree, nodes, m, targets) && t in targets && t !in visited
    requires forall v | v in visited :: v in targets
    requires Arranged(tree, nodes, m, inOrder, visited)
    requires nodes[t].parent.Some? ==> nodes[t].parent.value in visited
    requires PartnerIn(m, t).None? || (nodes[t].parent.Some? && Misplaced(nodes, m, PartnerIn(m, t).value, t)) ==>
      Position(nodes, m, inOrder, t) == Some(position)
    ensures Arranged(tree, Placed(nodes, m, t, position),
                     if PartnerIn(m, t).None? then With(m, MatchingPair(|nodes|, t)) else m,
                     inOrder + {Counterpart(nodes, m, t), t}, visited)
  {
    RoundPairs(m, |nodes|, t, Counterpart(nodes, m, t));
    if nodes[t].parent.None? {
      PlaceArrangedRoot(tree, nodes, m, targets, inOrder, visited, t, position);
    } else if PartnerIn(m, t).None? || Misplaced(nodes, m, PartnerIn(m, t).value, t) {
      PlaceArrangedShift(tree, nodes, m, targets, inOrder, visited, t, position);
    } else {
      PlaceArrangedStay(tree, nodes, m, targets, inOrder, visited, t, position);
    }
  }

  /** `PlaceArranged` for the round of `order[i]` in a parent-first walk of the targets. */
  lemma PlaceArrangedFor(tree: seq<Node>, order: seq<NodeId>, i: nat, nodes: seq<Node>, m: Matching,
                         targets: seq<NodeId>, inOrder: set<NodeId>, position: int)
    requires RoundBase(tree, nodes, m, targets)
    requires NoDup(order) && ParentFirst(tree, order) && i < |order|
    requires forall k | 0 <= k < |order| :: order[k] in targets
    requires Arranged(tree, nodes, m, inOrder, order[..i])
    requires PartnerIn(m, order[i]).None? || (nodes[order[i]].parent.Some? && Misplaced(nodes, m, PartnerIn(m, order[i]).value, order[i])) ==>
      Position(nodes, m, inOrder, order[i]) == Some(position)
    ensures Arranged(tree, Placed(nodes, m, order[i], position),
                     if PartnerIn(m, order[i]).None? then With(m, MatchingPair(|nodes|, order[i])) else m,
                     inOrder + {Counterpart(nodes, m, order[i]), order[i]}, order[..i])
  {
    var t := order[i];
    assert t !in order[..i];
    assert nodes[t] == tree[t];
    PlaceArranged(tree, nodes, m, targets, inOrder, order[..i], t, position);
  }

  /** `PlaceArranged` for the round of the target root. */
  lemma PlaceArrangedRoot(tree: seq<Node>, nodes: seq<Node>, m: Matching, targets: seq<NodeId>, inOrder: set<NodeId>,
                          visited: seq<NodeId>, t: NodeId, position: int)
    requires RoundBase(tree, nodes, m, targets) && t in targets && t !in visited && nodes[t].parent.None?
    requires forall v | v in visited :: v in targets
    requires Arranged(tree, nodes, m, inOrder, visited)
    ensures Arranged(tree, Placed(nodes, m, t, position),
                     if PartnerIn(m, t).None? then With(m, MatchingPair(|nodes|, t)) else m,
                     inOrder + {Counterpart(nodes, m, t), t}, visited)
  {
    var m1 := if PartnerIn(m, t).None? then With(m, MatchingPair(|nodes|, t)) else m;
    var x := Counterpart(nodes, m, t);
    RoundPairs(m, |nodes|, t, x);
    PlacedRootShape(nodes, m, t, position);
    ArrangedAfterStay(tree, nodes, Placed(nodes, m, t, position), m, m1, targets, inOrder, visited, x, t);
  }

  /** `PlaceArranged` for a round below the root that inserts or moves the counterpart. */
  lemma PlaceArrangedShift(tree: seq<Node>, nodes: seq<Node>, m: Matching, targets: seq<NodeId>, inOrder: set<NodeId>,
                           visited: seq<NodeId>, t: NodeId, position: int)
    requires RoundBase(tree, nodes, m, targets) && t in targets && t !in visited
    requires forall v | v in visited :: v in targets
    requires Arranged(tree, nodes, m, inOrder, visited)
    requires nodes[t].parent.Some? && nodes[t].parent.value in visited
    requires PartnerIn(m, t).None? || Misplaced(nodes, m, PartnerIn(m, t).value, t)
    requires Position(nodes, m, inOrder, t) == Some(position)
    ensures Arranged(tree, Placed(nodes, m, t, position),
                     if PartnerIn(m, t).None? then With(m, MatchingPair(|nodes|, t)) else m,
                     inOrder + {Counterpart(nodes, m, t), t}, visited)
  {
    var tp := nodes[t].parent.value;
    PositionAtArranged(tree, nodes, m, targets, inOrder, t, tp, position);
    if PartnerIn(m, t).None? {
      PlaceArrangedInsert(tree, nodes, m, targets, inOrder, visited, t, tp, position);
    } else {
      PlaceArrangedMove(tree, nodes, m, targets, inOrder, visited, t, tp, position);
    }
  }

  /** `PlaceArranged` for the insert of a new node below the root. */
  lemma PlaceArrangedInsert(tree: seq<Node>, nodes: seq<Node>, m: Matching, targets: seq<NodeId>, inOrder: set<NodeId>,
                            visited: seq<NodeId>, t: NodeId, tp: NodeId, position: nat)
    requires RoundBase(tree, nodes, m, targets) && t in targets && t < |nodes|
    requires forall v | v in visited :: v in targets
    requires Arranged(tree, nodes, m, inOrder, visited)
    requires tp in visited && tp < |tree| && PartnerIn(m, tp).Some? && PartnerIn(m, tp).value < |nodes|
    requires nodes[t].parent == Some(tp) && PartnerIn(m, t).None?
    requires var p := PartnerIn(m, tp).value;
      position == AlignedPosition(m, nodes[p].children, tree[tp].children, inOrder, t)
    ensures Arranged(tree, Placed(nodes, m, t, position), With(m, MatchingPair(|nodes|, t)),
                     inOrder + {|nodes| as NodeId, t}, visited)
  {
    var m1 := With(m, MatchingPair(|nodes|, t));
    RoundPairs(m, |nodes|, t, |nodes|);
    var p := PartnerIn(m, tp).value;
    var r := Placed(nodes, m, t, position);
    InsertPlacedShape(nodes, m, t, p, position);
    assert ArrangedAt(tree, nodes, m, inOrder, tp);
    ArrangedAfterShift(tree, nodes, r, m, m1, targets, inOrder, visited, tp, |nodes|, t, position, None);
  }

  /** `PlaceArranged` for the move of a matched node below the root. */
  lemma PlaceArrangedMove(tree: seq<Node>, nodes: seq<Node>, m: Matching, targets: seq<NodeId>, inOrder: set<NodeId>,
                          visited: seq<NodeId>, t: NodeId, tp: NodeId, position: nat)
    requires RoundBase(tree, nodes, m, targets) && t in targets
    requires forall v | v in visited :: v in targets
    requires Arranged(tree, nodes, m, inOrder, visited)
    requires nodes[t].parent == Some(tp) && tp in visited
    requires PartnerIn(m, t).Some? && Misplaced(nodes, m, PartnerIn(m, t).value, t)
    requires var p := PartnerIn(m, tp).value;
      position == AlignedPosition(m, nodes[p].children, tree[tp].children, inOrder, t)
    ensures Arranged(tree, Placed(nodes, m, t, position), m, inOrder + {PartnerIn(m, t).value, t}, visited)
  {
    var x := PartnerIn(m, t).value;
    RoundPairs(m, |nodes|, t, x);
    var p := PartnerIn(m, tp).value;
    assert ArrangedAt(tree, nodes, m, inOrder, tp);
    MovePlacedShape(nodes, m, t, x, p, position);
    ArrangedAfterShift(tree, nodes, Placed(nodes, m, t, position), m, m, targets, inOrder, visited, tp, x, t, position,
                       nodes[x].parent);
  }

  /** `PlaceArranged` for a round below the root whose partner already hangs in place. */
  lemma PlaceArrangedStay(tree: seq<Node>, nodes: seq<Node>, m: Matching, targets: seq<NodeId>, inOrder: set<NodeId>,
                          visited: seq<NodeId>, t: NodeId, position: int)
    requires RoundBase(tree, nodes, m, targets) && t in targets && t !in visited
    requires forall v | v in visited :: v in targets
    requires Arranged(tree, nodes, m, inOrder, visited)
    requires nodes[t].parent.Some? && nodes[t].parent.value in visited
    requires PartnerIn(m, t).Some? && !Misplaced(nodes, m, PartnerIn(m, t).value, t)
    ensures Arranged(tree, Placed(nodes, m, t, position), m, inOrder + {PartnerIn(m, t).value, t}, visited)
  {
    var x := PartnerIn(m, t).value;
    RoundPairs(m, |nodes|, t, x);
    var tp := nodes[t].parent.value;
    var p := PartnerIn(m, tp).value;
    PlacedStayShape(nodes, m, t, position);
    assert t in inOrder by {
      assert ArrangedAt(tree, nodes, m, inOrder, tp);
      assert tree[tp] == nodes[tp];
      assert nodes[x].parent == Some(p);
    }
    ArrangedAfterStay(tree, nodes, Placed(nodes, m, t, position), m, m, targets, inOrder, visited, x, t);
  }

  /**
   * The marks `_align_children` leaves: the children of both nodes leave the in-order set,
   * and the matched ones come back.
   */
  function Realigned(inOrder: set<NodeId>, sc: seq<NodeId>, tc: seq<NodeId>, m: Matching): set<NodeId>
  {
    inOrder - Elems(sc) - Elems(tc) + Elems(MatchedSources(m, sc, tc)) + Elems(MatchedTargets(m, sc, tc))
  }

  /** A visited target other than the realigned one keeps its arrangement. */
  lemma RealignedOther(tree: seq<Node>, placed: seq<Node>, after: seq<Node>, m: Matching, targets: seq<NodeId>,
                       inOrder: set<NodeId>, v: NodeId, s: NodeId, t: NodeId)
    requires RoundBase(tree, placed, m, targets) && Reordered(placed, after, s)
    requires v in targets && t in targets && v != t && tree[v].parent != Some(t)
    requires s < |placed| && s !in targets && PartnerIn(m, t) == Some(s)
    requires ArrangedAt(tree, placed, m, inOrder, v)
    ensures ArrangedAt(tree, after, m, Realigned(inOrder, placed[s].children, placed[t].children, m), v)
  {
    var sc, tc := placed[s].children, placed[t].children;
    var inOrder1 := Realigned(inOrder, sc, tc, m);
    var pv := PartnerIn(m, v).value;
    TargetPartners(m, targets, v, t);
    assert pv != s && after[pv] == placed[pv];
    assert tree[v] == placed[v];
    assert forall y | y in sc :: y !in targets by {
      forall y | y in sc ensures y !in targets {
        var k :| 0 <= k < |sc| && sc[k] == y;
      }
    }
    assert forall y | y in tree[v].children :: y !in tc && y in targets;
    assert v !in tc;
    ArrangedSame(m, m, placed[pv].children, tree[v].children, inOrder, inOrder1);
  }

  /** The realigned target is arranged: its partner's children stand in the order of theirs. */
  lemma RealignedOwn(tree: seq<Node>, placed: seq<Node>, after: seq<Node>, m: Matching, targets: seq<NodeId>,
                     inOrder: set<NodeId>, s: NodeId, t: NodeId)
    requires RoundBase(tree, placed, m, targets) && Reordered(placed, after, s)
    requires t in targets && tree[t].parent != Some(t) && t in inOrder
    requires s < |placed| && s !in targets && PartnerIn(m, t) == Some(s)
    requires Aligned(m, after[s].children, placed[t].children,
                     Realigned(inOrder, placed[s].children, placed[t].children, m))
    ensures ArrangedAt(tree, after, m, Realigned(inOrder, placed[s].children, placed[t].children, m), t)
  {
    var sc, tc := placed[s].children, placed[t].children;
    var inOrder1 := Realigned(inOrder, sc, tc, m);
    assert tree[t] == placed[t];
    assert forall y | y in sc :: y !in targets by {
      forall y | y in sc ensures y !in targets {
        var k :| 0 <= k < |sc| && sc[k] == y;
      }
    }
    assert forall y | y in tc :: y in targets && y !in m.st;
    assert t !in tc;
    SameMembers(after[s].children, sc);
  }

  /** Two sequences with the same multiset have the same members. */
  lemma SameMembers(a: seq<NodeId>, b: seq<NodeId>)
    requires multiset(a) == multiset(b)
    ensures forall x :: x in a <==> x in b
  {
    forall x ensures x in a <==> x in b {
      assert x in a <==> x in multiset(a);
      assert x in b <==> x in multiset(b);
    }
  }

  /**
   * The second half of a round, `_align_children` of the round's pair, keeps every visited
   * target arranged and arranges the round's target.
   */
  lemma FinishArranged(tree: seq<Node>, placed: seq<Node>, after: seq<Node>, m: Matching, targets: seq<NodeId>,
                       inOrder: set<NodeId>, visited: seq<NodeId>, s: NodeId, t: NodeId)
    requires RoundBase(tree, placed, m, targets) && Reordered(placed, after, s)
    requires forall v | v in visited :: v in targets && v != t && tree[v].parent != Some(t)
    requires t in targets && tree[t].parent != Some(t) && t in inOrder
    requires s < |placed| && s !in targets && PartnerIn(m, t) == Some(s)
    requires Arranged(tree, placed, m, inOrder, visited)
    requires Aligned(m, after[s].children, placed[t].children,
                     Realigned(inOrder, placed[s].children, placed[t].children, m))
    ensures Arranged(tree, after, m, Realigned(inOrder, placed[s].children, placed[t].children, m), visited + [t])
  {
    forall v | v in visited + [t]
      ensures ArrangedAt(tree, after, m, Realigned(inOrder, placed[s].children, placed[t].children, m), v)
    {
      if v == t {
        RealignedOwn(tree, placed, after, m, targets, inOrder, s, t);
      } else {
        RealignedOther(tree, placed, after, m, targets, inOrder, v, s, t);
      }
    }
  }

  /** The round of the target root changes no children list of the arena it starts on. */
  lemma PlacedRootShape(nodes: seq<Node>, m: Matching, t: NodeId, position: int)
    requires Closed(nodes) && PartnersIn(m, |nodes|) && t < |nodes| && nodes[t].parent.None?
    ensures var r := Placed(nodes, m, t, position);
      |nodes| <= |r| && forall j | 0 <= j < |nodes| :: r[j].children == nodes[j].children
  {
    if PartnerIn(m, t).None? {
      InsertShape(nodes, m, t, position);
      var g := nodes + [Fresh(nodes[t])];
      assert forall j | 0 <= j < |nodes| :: g[j] == nodes[j];
    }
  }

  /** The round of a matched target whose partner hangs in place changes no children list. */
  lemma PlacedStayShape(nodes: seq<Node>, m: Matching, t: NodeId, position: int)
    requires Closed(nodes) && PartnersIn(m, |nodes|) && t < |nodes| && nodes[t].parent.Some?
    requires PartnerIn(m, t).Some? && PartnerIn(m, t).value < |nodes| && !Misplaced(nodes, m, PartnerIn(m, t).value, t)
    ensures var r := Placed(nodes, m, t, position);
      |nodes| <= |r| && forall j | 0 <= j < |nodes| :: r[j].children == nodes[j].children
  {
    UpdateKeepsLinks(nodes, PartnerIn(m, t).value, nodes[t].value);
  }

  // ---------------------------------------------------------------------------------------
  // The labels of the partners

  /**
   * What the rounds keep of the labels: the nodes of the initial arena keep their kinds, a
   * node matched from the start to a parentless target keeps its parent link and value
   * (the round of a matched root updates nothing), and every pair made since stands for a
   * visited target and carries its kind; for a parentless target it is a parentless node
   * carrying its value.
   */
  predicate Labelled(tree: seq<Node>, nodes: seq<Node>, m0: Matching, m: Matching, visited: seq<NodeId>)
  {
    && |tree| <= |nodes|
    && (forall j | 0 <= j < |tree| :: nodes[j].kind == tree[j].kind)
    && (forall s | s in m0.st && s < |tree| && m0.st[s] < |tree| && tree[m0.st[s]].parent.None? ::
          nodes[s].parent == tree[s].parent && nodes[s].value == tree[s].value)
    && (forall y | y in m.ts && y !in m0.ts ::
          && y in visited && y < |tree| && m.ts[y] < |nodes| && nodes[m.ts[y]].kind == tree[y].kind
          && (tree[y].parent.None? ==> nodes[m.ts[y]].parent.None? && nodes[m.ts[y]].value == tree[y].value))
  }

  /** The round of a matched root changes nothing; a new node for a root is a parentless copy. */
  lemma PlacedRoot(nodes: seq<Node>, m: Matching, t: NodeId, position: int)
    requires Closed(nodes) && PartnersIn(m, |nodes|) && t < |nodes| && nodes[t].parent.None?
    ensures PartnerIn(m, t).Some? ==> Placed(nodes, m, t, position) == nodes
    ensures PartnerIn(m, t).None? ==> Placed(nodes, m, t, position)[|nodes|] == Fresh(nodes[t])
  {
    if PartnerIn(m, t).None? {
      InsertShape(nodes, m, t, position);
    }
  }

  /** A round keeps the labels, and the pair it makes, if any, carries the labels of its target. */
  lemma RoundLabelled(tree: seq<Node>, nodes: seq<Node>, m0: Matching, m: Matching, visited: seq<NodeId>, t: NodeId, position: int, after: seq<Node>)
    requires Bijective(m) && Closed(nodes) && PartnersIn(m, |nodes|) && Kept(m0, m)
    requires t < |tree| && t < |nodes| && t !in m.st && nodes[t] == tree[t]
    requires Labelled(tree, nodes, m0, m, visited) && t !in visited
    requires Reordered(Placed(nodes, m, t, position), after, Counterpart(nodes, m, t))
    ensures Labelled(tree, after, m0, if PartnerIn(m, t).None? then With(m, MatchingPair(|nodes|, t)) else m,
                     visited + [t])
  {
    var r := Placed(nodes, m, t, position);
    var c := Counterpart(nodes, m, t);
    var m1 := if PartnerIn(m, t).None? then With(m, MatchingPair(|nodes|, t)) else m;
    if nodes[t].parent.None? {
      PlacedRoot(nodes, m, t, position);
    }
    assert t in m.ts ==> t in m0.ts;
    forall s | s in m0.st && s < |tree| && m0.st[s] < |tree| && tree[m0.st[s]].parent.None?
      ensures after[s].parent == tree[s].parent && after[s].value == tree[s].value
    {
      assert after[s].parent == r[s].parent && after[s].value == r[s].value;
      if s == c && PartnerIn(m, t).Some? {
        assert m.st[s] == t;
      }
    }
    forall y | y in m1.ts && y !in m0.ts
      ensures && y in visited + [t] && y < |tree| && m1.ts[y] < |after| && after[m1.ts[y]].kind == tree[y].kind
              && (tree[y].parent.None? ==> after[m1.ts[y]].parent.None? && after[m1.ts[y]].value == tree[y].value)
    {
      if y != t {
        assert y in m.ts && m1.ts[y] == m.ts[y] && m.ts[y] != c;
      }
    }
    assert |tree| <= |after| && forall j | 0 <= j < |tree| :: after[j].kind == r[j].kind == tree[j].kind;
    assert Labelled(tree, after, m0, m1, visited + [t]);
  }

  /** `RoundLabelled` for the round of `order[i]`. */
  lemma VisitLabelled(tree: seq<Node>, order: seq<NodeId>, i: nat, nodes: seq<Node>, m0: Matching, m: Matching,
                      sources: seq<NodeId>, targets: seq<NodeId>, ops: seq<Operation>, position: int, after: seq<Node>)
    requires Consistent(nodes, m, sources, targets, ops) && Kept(m0, m)
    requires NoDup(order) && i < |order| && order[i] in targets && order[i] < |tree| && TargetsKept(tree, nodes, targets)
    requires Labelled(tree, nodes, m0, m, order[..i])
    requires Reordered(Placed(nodes, m, order[i], position), after, Counterpart(nodes, m, order[i]))
    ensures Labelled(tree, after, m0, if PartnerIn(m, order[i]).None? then With(m, MatchingPair(|nodes|, order[i])) else m,
                     order[..i + 1])
  {
    var t := order[i];
    assert t !in order[..i];
    assert order[..i + 1] == order[..i] + [t];
    RoundLabelled(tree, nodes, m0, m, order[..i], t, position, after);
  }

  // ---------------------------------------------------------------------------------------
  // The delete phase

  /** The nodes of the walk absent from `source_target_map`, in walk order. */
  function Doomed(walk: seq<NodeId>, m: Matching): (r: seq<NodeId>)
    ensures forall x :: x in r <==> x in walk && x !in m.st
    decreases |walk|
  {
    if walk == [] then []
    else
      var init := walk[..|walk| - 1];
      var x := walk[|walk| - 1];
      assert forall z | z in walk :: z in init || z == x;
      Doomed(init, m) + (if x !in m.st then [x] else [])
  }

  /** Extending the walk by one node extends the doomed nodes by it when it is unmatched. */
  lemma DoomedStep(walk: seq<NodeId>, m: Matching, i: nat)
    requires i < |walk|
    ensures Doomed(walk[..i + 1], m) == Doomed(walk[..i], m) + (if walk[i] !in m.st then [walk[i]] else [])
  {
    assert walk[..i + 1][..i] == walk[..i];
  }

  /** The doomed nodes of a prefix of the walk are a prefix of its doomed nodes. */
  lemma {:induction false} DoomedPrefix(walk: seq<NodeId>, m: Matching, i: nat)
    requires i <= |walk|
    ensures Doomed(walk[..i], m) <= Doomed(walk, m)
    decreases |walk| - i
  {
    if i < |walk| {
      DoomedPrefix(walk, m, i + 1);
      DoomedStep(walk, m, i);
    } else {
      assert walk[..i] == walk;
    }
  }

  /** `Delete(node)` for each node, in order. */
  function DeleteOps(xs: seq<NodeId>): (r: seq<Operation>)
    ensures |r| == |xs| && forall k | 0 <= k < |xs| :: r[k] == Delete(xs[k])
  {
    seq(|xs|, k requires 0 <= k < |xs| => Delete(xs[k]))
  }

  /** Deleting one more node extends the delete script by one operation. */
  lemma DeleteStep(nodes: seq<Node>, xs: seq<NodeId>, x: NodeId)
    requires Closed(nodes) && ScriptInRange(nodes, DeleteOps(xs)) && x < |nodes|
    ensures DeleteOps(xs + [x]) == DeleteOps(xs) + [Delete(x)]
    ensures ScriptInRange(nodes, DeleteOps(xs + [x]))
    ensures ApplyAll(nodes, DeleteOps(xs + [x])) == Applied(ApplyAll(nodes, DeleteOps(xs)), Delete(x))
  {
    assert DeleteOps(xs + [x]) == DeleteOps(xs) + [Delete(x)];
    ApplyAllSnoc(nodes, DeleteOps(xs), Delete(x));
  }

  /**
   * Deletes keep every parent link, kind and value: `Delete.apply` only takes the node out
   * of its parent's children.
   */
  lemma {:induction false} DeletesKeepLabels(nodes: seq<Node>, xs: seq<NodeId>)
    requires Closed(nodes) && ScriptInRange(nodes, DeleteOps(xs))
    ensures forall j | 0 <= j < |nodes| ::
      var r := ApplyAll(nodes, DeleteOps(xs));
      r[j].parent == nodes[j].parent && r[j].kind == nodes[j].kind && r[j].value == nodes[j].value
    decreases |xs|
  {
    if xs != [] {
      var init := xs[..|xs| - 1];
      var x := xs[|xs| - 1];
      assert xs == init + [x];
      assert ScriptInRange(nodes, DeleteOps(init)) by {
        forall k | 0 <= k < |init| ensures OpInRange(nodes, DeleteOps(init)[k]) {
          assert OpInRange(nodes, DeleteOps(xs)[k]);
        }
      }
      DeletesKeepLabels(nodes, init);
      assert OpInRange(nodes, DeleteOps(xs)[|xs| - 1]);
      DeleteStep(nodes, init, x);
    }
  }

  /**
   * On a linked arena, deletes take the deleted nodes out of the children of their parents
   * and change no other children list: every list keeps its other members, in order.
   */
  lemma {:induction false} DeletesChildren(nodes: seq<Node>, xs: seq<NodeId>)
    requires Linked(nodes) && Closed(nodes) && ScriptInRange(nodes, DeleteOps(xs))
    ensures forall j | 0 <= j < |nodes| ::
      ApplyAll(nodes, DeleteOps(xs))[j].children == Drop(nodes[j].children, Elems(xs))
    decreases |xs|
  {
    if xs == [] {
      forall j | 0 <= j < |nodes| ensures nodes[j].children == Drop(nodes[j].children, Elems(xs)) {
        assert Elems(xs) == {};
        DropNothing(nodes[j].children);
      }
    } else {
      var init := xs[..|xs| - 1];
      var x := xs[|xs| - 1];
      assert xs == init + [x];
      assert ScriptInRange(nodes, DeleteOps(init)) by {
        forall k | 0 <= k < |init| ensures OpInRange(nodes, DeleteOps(init)[k]) {
          assert OpInRange(nodes, DeleteOps(xs)[k]);
        }
      }
      DeletesChildren(nodes, init);
      assert OpInRange(nodes, DeleteOps(xs)[|xs| - 1]);
      DeleteLast(nodes, init, x);
      DeletesChildrenStep(nodes, ApplyAll(nodes, DeleteOps(init)), ApplyAll(nodes, DeleteOps(xs)), init, x);
    }
  }

  /** The step of `DeletesChildren`: one more delete drops one more node from its parent's list. */
  lemma DeletesChildrenStep(nodes: seq<Node>, a: seq<Node>, r: seq<Node>, init: seq<NodeId>, x: NodeId)
    requires Linked(nodes) && Closed(a) && |a| == |nodes| && x < |nodes| && a[x].parent == nodes[x].parent
    requires forall j | 0 <= j < |nodes| :: a[j].children == Drop(nodes[j].children, Elems(init))
    requires r == DeleteNode(a, x)
    ensures forall j | 0 <= j < |nodes| :: r[j].children == Drop(nodes[j].children, Elems(init + [x]))
  {
    ElemsSnoc(init, x);
    DeleteDrops(nodes, a, Elems(init), Elems(init + [x]), x);
  }

  /** The last of a run of deletes acts on the arena the earlier ones left, where the node still hangs as before. */
  lemma DeleteLast(nodes: seq<Node>, init: seq<NodeId>, x: NodeId)
    requires Closed(nodes) && ScriptInRange(nodes, DeleteOps(init)) && x < |nodes|
    ensures Closed(ApplyAll(nodes, DeleteOps(init))) && |ApplyAll(nodes, DeleteOps(init))| == |nodes|
    ensures ApplyAll(nodes, DeleteOps(init))[x].parent == nodes[x].parent
    ensures ScriptInRange(nodes, DeleteOps(init + [x]))
    ensures ApplyAll(nodes, DeleteOps(init + [x])) == DeleteNode(ApplyAll(nodes, DeleteOps(init)), x)
  {
    DeletesKeepLabels(nodes, init);
    DeleteStep(nodes, init, x);
  }

  /** One delete on top of earlier ones: the deleted node joins the dropped set of every list. */
  lemma DeleteDrops(nodes: seq<Node>, a: seq<Node>, gone: set<NodeId>, gone': set<NodeId>, x: NodeId)
    requires Linked(nodes) && Closed(a) && |a| == |nodes| && x < |nodes| && a[x].parent == nodes[x].parent
    requires forall j | 0 <= j < |nodes| :: a[j].children == Drop(nodes[j].children, gone)
    requires gone' == gone + {x}
    ensures forall j | 0 <= j < |nodes| :: DeleteNode(a, x)[j].children == Drop(nodes[j].children, gone')
  {
    forall j | 0 <= j < |nodes|
      ensures DeleteNode(a, x)[j].children == Drop(nodes[j].children, gone + {x})
    {
      if nodes[x].parent == Some(j) {
        DeleteChild(a, x, j);
        DropWithout(nodes[j].children, gone, x);
      } else {
        assert x !in nodes[j].children;
        DropAbsent(nodes[j].children, gone, x);
        if nodes[x].parent.Some? {
          DeleteChild(a, x, nodes[x].parent.value);
        }
      }
    }
  }

  /** Deletes keep the mirrored part of the target tree mirrored. */
  lemma DeletesKeepMirrored(tree: seq<Node>, nodes: seq<Node>, m: Matching, visited: seq<NodeId>, xs: seq<NodeId>)
    requires Closed(nodes) && ScriptInRange(nodes, DeleteOps(xs)) && Mirrored(tree, nodes, m, visited)
    ensures Mirrored(tree, ApplyAll(nodes, DeleteOps(xs)), m, visited)
  {
    DeletesKeepLabels(nodes, xs);
  }

  /** Mirroring depends only on which targets were visited, not on the order of the visits. */
  lemma MirroredSameNodes(tree: seq<Node>, nodes: seq<Node>, m: Matching, a: seq<NodeId>, b: seq<NodeId>)
    requires Mirrored(tree, nodes, m, a) && forall x :: x in a <==> x in b
    ensures Mirrored(tree, nodes, m, b)
  {
  }

  /** What the breadth-first loop keeps over a walk holds over any list of the same targets. */
  lemma WalkSameNodes(tree: seq<Node>, nodes: seq<Node>, m0: Matching, m: Matching, inOrder: set<NodeId>,
                      a: seq<NodeId>, b: seq<NodeId>)
    requires forall x :: x in a <==> x in b
    requires Arranged(tree, nodes, m, inOrder, a) && Labelled(tree, nodes, m0, m, a)
    ensures Arranged(tree, nodes, m, inOrder, b) && Labelled(tree, nodes, m0, m, b)
  {
  }


  // ---------------------------------------------------------------------------------------
  // The script rebuilds the target tree

  /**
   * When the script turns the source tree into the target tree: the first registered
   * source node is a parentless root paired with the target root and carrying its value,
   * and every pair joins a source node and a node of the target tree of one kind.
   */
  predicate RootsPaired(nodes: seq<Node>, m: Matching, sources: seq<NodeId>, targets: seq<NodeId>)
  {
    && sources != [] && targets != [] && sources[0] < |nodes| && targets[0] < |nodes|
    && PartnerIn(m, targets[0]) == Some(sources[0])
    && nodes[sources[0]].parent.None? && nodes[sources[0]].value == nodes[targets[0]].value
    && forall s | s in m.st ::
         && s < |nodes| && s !in targets && m.st[s] < |nodes| && m.st[s] in targets
         && nodes[s].kind == nodes[m.st[s]].kind
  }

  /** The target tree: a well-formed arena whose target registry is the walk of its parentless root. */
  predicate TargetRooted(tree: seq<Node>, targets: seq<NodeId>)
  {
    && WellFormed(tree) && targets != [] && targets[0] < |tree| && tree[targets[0]].parent.None?
    && targets == PreOrder(tree, targets[0]) && TargetTree(tree, targets)
  }

  /**
   * The state the breadth-first phase leaves once it has visited every target: a linked
   * arena whose partners mirror the target tree, with the children of every partner
   * arranged and the labels kept.
   */
  predicate Visited(tree: seq<Node>, nodes: seq<Node>, m0: Matching, m: Matching, inOrder: set<NodeId>,
                    targets: seq<NodeId>)
  {
    && TargetRooted(tree, targets) && Linked(nodes) && Closed(nodes) && |tree| <= |nodes|
    && Bijective(m) && Kept(m0, m) && (forall s | s in m.st :: s !in targets)
    && Mirrored(tree, nodes, m, targets) && Arranged(tree, nodes, m, inOrder, targets)
    && Labelled(tree, nodes, m0, m, targets)
  }

  /** The only parentless target is the root. */
  lemma ParentlessTarget(tree: seq<Node>, targets: seq<NodeId>, v: NodeId)
    requires TargetRooted(tree, targets) && v in targets && v < |tree| && tree[v].parent.None?
    ensures v == targets[0]
  {
    if v != targets[0] {
      WalkParentInWalk(tree, targets[0], v);
    }
  }

  /** Every target but the root has a parent. */
  predicate SingleRoot(tree: seq<Node>, targets: seq<NodeId>)
  {
    targets != [] && forall v | v in targets && v < |tree| && tree[v].parent.None? :: v == targets[0]
  }

  lemma TargetRootedSingle(tree: seq<Node>, targets: seq<NodeId>)
    requires TargetRooted(tree, targets)
    ensures SingleRoot(tree, targets)
  {
    forall v | v in targets && v < |tree| && tree[v].parent.None? ensures v == targets[0] {
      ParentlessTarget(tree, targets, v);
    }
  }

  /** The partner of a target hangs under the partner of the target's parent, a target too. */
  predicate HangsUnder(tree: seq<Node>, nodes: seq<Node>, m: Matching, targets: seq<NodeId>, v: NodeId)
  {
    && v in targets && v < |tree| && PartnerIn(m, v).Some? && PartnerIn(m, v).value < |nodes|
    && (tree[v].parent.Some? ==>
          && tree[v].parent.value in targets && PartnerIn(m, tree[v].parent.value).Some?
          && nodes[PartnerIn(m, v).value].parent == PartnerIn(m, tree[v].parent.value))
  }

  /** Mirroring, stated target by target. */
  lemma MirroredHangs(tree: seq<Node>, nodes: seq<Node>, m: Matching, targets: seq<NodeId>)
    requires TargetTree(tree, targets) && Mirrored(tree, nodes, m, targets)
    ensures forall v {:trigger HangsUnder(tree, nodes, m, targets, v)} | v in targets :: HangsUnder(tree, nodes, m, targets, v)
  {
  }

  /**
   * The post-order walk from the partner of the target root reaches everything the walk
   * from the partner of a target reaches, given the fuel the target's depth leaves.
   */
  lemma PartnerInWalk(tree: seq<Node>, nodes: seq<Node>, m: Matching, targets: seq<NodeId>,
                      v: NodeId, fuel: nat, x: NodeId)
    requires WellFormed(tree) && SingleRoot(tree, targets) && Linked(nodes) && Closed(nodes)
    requires forall v {:trigger HangsUnder(tree, nodes, m, targets, v)} | v in targets :: HangsUnder(tree, nodes, m, targets, v)
    requires HangsUnder(tree, nodes, m, targets, v) && fuel + Depth(tree, v) == |nodes|
    requires x in PostOrderUpTo(nodes, PartnerIn(m, v).value, fuel)
    ensures HangsUnder(tree, nodes, m, targets, targets[0])
    ensures x in PostOrderUpTo(nodes, PartnerIn(m, targets[0]).value, |nodes|)
  {
    var u: NodeId, f: nat := v, fuel;
    while tree[u].parent.Some?
      invariant HangsUnder(tree, nodes, m, targets, u) && f + Depth(tree, u) == |nodes|
        && x in PostOrderUpTo(nodes, PartnerIn(m, u).value, f)
      decreases u
    {
      var w := tree[u].parent.value;
      ParentBelow(tree, u);
      assert HangsUnder(tree, nodes, m, targets, w);
      var pu, pw := PartnerIn(m, u).value, PartnerIn(m, w).value;
      assert pu in nodes[pw].children;
      WalkBelowChild(nodes, pw, pu, f, x);
      u, f := w, f + 1;
    }
  }

  /** A matched child of the partner of a target is the partner of a child of that target. */
  lemma MatchedChild(tree: seq<Node>, nodes: seq<Node>, m0: Matching, m: Matching, inOrder: set<NodeId>,
                     sources: seq<NodeId>, targets: seq<NodeId>, v: NodeId, x: NodeId)
    requires Visited(tree, nodes, m0, m, inOrder, targets)
    requires Bijective(m0) && RootsPaired(tree, m0, sources, targets)
    requires v in targets && x in nodes[PartnerIn(m, v).value].children && x in m.st
    ensures m.st[x] in tree[v].children
  {
    var pv := PartnerIn(m, v).value;
    var y := m.st[x];
    if x !in m0.st {
      assert y in m.ts && m.ts[y] == x;
      assert y !in m0.ts;
    }
    assert y in targets && PartnerIn(m, y) == Some(x);
    assert nodes[x].parent == Some(pv);
    if tree[y].parent.None? {
      ParentlessTarget(tree, targets, y);
      assert false;
    }
    var w := tree[y].parent.value;
    TargetPartners(m, targets, v, w);
    assert w == v;
  }

  /** The facts that rebuild the subtree of a target from the partner of the target. */
  predicate RebuiltAt(tree: seq<Node>, nodes: seq<Node>, m: Matching, v: NodeId)
  {
    && v < |tree| && PartnerIn(m, v).Some? && PartnerIn(m, v).value < |nodes|
    && nodes[PartnerIn(m, v).value].kind == tree[v].kind && nodes[PartnerIn(m, v).value].value == tree[v].value
    && |nodes[PartnerIn(m, v).value].children| == |tree[v].children|
    && forall k | 0 <= k < |tree[v].children| :: PartnerIn(m, tree[v].children[k]) == Some(nodes[PartnerIn(m, v).value].children[k])
  }

  /** Where every target is rebuilt from its partner, the partner's subtree is the target's. */
  lemma {:induction false} TreeRebuilt(tree: seq<Node>, nodes: seq<Node>, m: Matching, targets: seq<NodeId>,
                                       v: NodeId, fuel: nat)
    requires Ordered(tree) && TargetTree(tree, targets) && Closed(nodes)
    requires forall w | w in targets :: RebuiltAt(tree, nodes, m, w)
    requires v in targets && RebuiltAt(tree, nodes, m, v) && fuel >= |tree| - v
    ensures ToTreeUpTo(nodes, PartnerIn(m, v).value, fuel) == ToTree(tree, v)
    decreases |tree| - v
  {
    var tc := tree[v].children;
    var pc := nodes[PartnerIn(m, v).value].children;
    forall k | 0 <= k < |tc| ensures ToTreeUpTo(nodes, pc[k], fuel - 1) == ToTree(tree, tc[k]) {
      assert tc[k] in tc;
      TreeRebuilt(tree, nodes, m, targets, tc[k], fuel - 1);
    }
  }

  /** After the deletes, the partner of a target carries its kind and value. */
  lemma RebuiltLabels(tree: seq<Node>, nodes: seq<Node>, after: seq<Node>, m0: Matching, m: Matching,
                      inOrder: set<NodeId>, sources: seq<NodeId>, targets: seq<NodeId>, v: NodeId)
    requires Visited(tree, nodes, m0, m, inOrder, targets)
    requires Bijective(m0) && RootsPaired(tree, m0, sources, targets)
    requires |after| == |nodes| && forall j | 0 <= j < |nodes| ::
      after[j].kind == nodes[j].kind && after[j].value == nodes[j].value
    requires v in targets
    ensures v < |tree| && PartnerIn(m, v).Some? && PartnerIn(m, v).value < |after|
    ensures after[PartnerIn(m, v).value].kind == tree[v].kind && after[PartnerIn(m, v).value].value == tree[v].value
  {
    var pv := PartnerIn(m, v).value;
    if v in m0.ts {
      var s := m0.ts[v];
      assert m.ts[v] == s && m0.st[s] == v;
      if tree[v].parent.None? {
        ParentlessTarget(tree, targets, v);
      }
    }
  }

  /** A child of a node is in the post-order walk from that node. */
  lemma ChildInWalk(nodes: seq<Node>, p: NodeId, x: NodeId, fuel: nat)
    requires Closed(nodes) && p < |nodes| && x in nodes[p].children && fuel >= 1
    ensures x in PostOrderUpTo(nodes, p, fuel)
  {
    var below: nat := fuel - 1;
    var own := PostOrderUpTo(nodes, x, below);
    assert own[|own| - 1] == x;
    WalkBelowChild(nodes, p, x, below, x);
  }

  /** A child of the partner of a target is deleted exactly when it is unmatched. */
  lemma ChildFate(tree: seq<Node>, nodes: seq<Node>, m: Matching, targets: seq<NodeId>, deleted: seq<NodeId>,
                  v: NodeId, fuel: nat, x: NodeId)
    requires WellFormed(tree) && SingleRoot(tree, targets) && Linked(nodes) && Closed(nodes) && |tree| <= |nodes|
    requires forall v {:trigger HangsUnder(tree, nodes, m, targets, v)} | v in targets :: HangsUnder(tree, nodes, m, targets, v)
    requires HangsUnder(tree, nodes, m, targets, targets[0]) && HangsUnder(tree, nodes, m, targets, v)
    requires fuel + Depth(tree, v) == |nodes| && x in nodes[PartnerIn(m, v).value].children
    requires deleted == Doomed(PostOrderUpTo(nodes, PartnerIn(m, targets[0]).value, |nodes|), m)
    ensures x in Elems(deleted) <==> x !in m.st
  {
    DepthBelow(tree, v);
    ChildInWalk(nodes, PartnerIn(m, v).value, x, fuel);
    PartnerInWalk(tree, nodes, m, targets, v, fuel, x);
  }

  /** The deletions take, below the partner of every target, exactly the unmatched children. */
  lemma DoomedChildren(tree: seq<Node>, nodes: seq<Node>, m: Matching, targets: seq<NodeId>, deleted: seq<NodeId>)
    requires WellFormed(tree) && SingleRoot(tree, targets) && Linked(nodes) && Closed(nodes) && |tree| <= |nodes|
    requires forall v {:trigger HangsUnder(tree, nodes, m, targets, v)} | v in targets :: HangsUnder(tree, nodes, m, targets, v)
    requires HangsUnder(tree, nodes, m, targets, targets[0])
    requires deleted == Doomed(PostOrderUpTo(nodes, PartnerIn(m, targets[0]).value, |nodes|), m)
    ensures forall v, x | HangsUnder(tree, nodes, m, targets, v) && x in nodes[PartnerIn(m, v).value].children ::
      x in Elems(deleted) <==> x !in m.st
  {
    forall v, x | HangsUnder(tree, nodes, m, targets, v) && x in nodes[PartnerIn(m, v).value].children
      ensures x in Elems(deleted) <==> x !in m.st
    {
      DepthBelow(tree, v);
      ChildFate(tree, nodes, m, targets, deleted, v, |nodes| - Depth(tree, v), x);
    }
  }

  /** Source nodes whose partners are exactly the targets `tc` are those targets' partners, in order. */
  lemma PartnersPaired(m: Matching, ms: seq<NodeId>, tc: seq<NodeId>)
    requires Bijective(m) && (forall x | x in ms :: x in m.st) && (forall y | y in tc :: y !in m.st)
    requires Partners(m, ms) == tc
    ensures |ms| == |tc| && forall k | 0 <= k < |tc| :: PartnerIn(m, tc[k]) == Some(ms[k])
  {
    forall k | 0 <= k < |tc| ensures PartnerIn(m, tc[k]) == Some(ms[k]) {
      PartnersAt(m, ms, k);
    }
  }

  /** After the deletes, the children of the partner of a target are the partners of its children. */
  lemma RebuiltChildren(tree: seq<Node>, nodes: seq<Node>, after: seq<Node>, m0: Matching, m: Matching,
                        inOrder: set<NodeId>, sources: seq<NodeId>, targets: seq<NodeId>, gone: set<NodeId>,
                        v: NodeId)
    requires Visited(tree, nodes, m0, m, inOrder, targets)
    requires Bijective(m0) && RootsPaired(tree, m0, sources, targets) && v in targets
    requires |after| == |nodes| && forall j | 0 <= j < |nodes| :: after[j].children == Drop(nodes[j].children, gone)
    requires forall x | x in nodes[PartnerIn(m, v).value].children :: x in gone <==> x !in m.st
    ensures var pv := PartnerIn(m, v).value;
      var tc := tree[v].children;
      && |after[pv].children| == |tc|
      && forall k | 0 <= k < |tc| :: PartnerIn(m, tc[k]) == Some(after[pv].children[k])
  {
    var pv := PartnerIn(m, v).value;
    var cs, tc := nodes[pv].children, tree[v].children;
    forall x | x in cs ensures x in gone <==> x !in Into(m.st, tc) {
      if x in m.st {
        MatchedChild(tree, nodes, m0, m, inOrder, sources, targets, v, x);
      }
    }
    DropMarked(cs, gone, Into(m.st, tc));
    var ms := MatchedSources(m, cs, tc);
    assert after[pv].children == ms;
    assert forall y | y in tc :: y in inOrder by {
      forall y | y in tc ensures y in inOrder {
        assert ArrangedAt(tree, nodes, m, inOrder, y);
      }
    }
    AlignedComplete(m, cs, tc, inOrder);
    assert forall y | y in tc :: y !in m.st by {
      forall y | y in tc ensures y !in m.st { assert y in targets; }
    }
    PartnersPaired(m, ms, tc);
  }

  /**
   * The script rebuilds the target tree: once every target is visited and the unmatched
   * nodes of the post-order walk from the source root are deleted, the subtree of the
   * source root is, structurally, the target tree.
   */
  lemma SourceBecomesTarget(tree: seq<Node>, nodes: seq<Node>, m0: Matching, m: Matching, inOrder: set<NodeId>,
                            sources: seq<NodeId>, targets: seq<NodeId>, deleted: seq<NodeId>)
    requires Visited(tree, nodes, m0, m, inOrder, targets)
    requires Bijective(m0) && RootsPaired(tree, m0, sources, targets)
    requires deleted == Doomed(PostOrderUpTo(nodes, sources[0], |nodes|), m)
    requires ScriptInRange(nodes, DeleteOps(deleted))
    ensures ToTreeUpTo(ApplyAll(nodes, DeleteOps(deleted)), sources[0], |nodes|) == ToTree(tree, targets[0])
  {
    var after := ApplyAll(nodes, DeleteOps(deleted));
    assert PartnerIn(m, targets[0]) == Some(sources[0]);
    DeletesChildren(nodes, deleted);
    DeletesKeepLabels(nodes, deleted);
    TargetRootedSingle(tree, targets);
    MirroredHangs(tree, nodes, m, targets);
    assert HangsUnder(tree, nodes, m, targets, targets[0]);
    DoomedChildren(tree, nodes, m, targets, deleted);
    forall w | w in targets ensures RebuiltAt(tree, after, m, w) {
      assert HangsUnder(tree, nodes, m, targets, w);
      RebuiltLabels(tree, nodes, after, m0, m, inOrder, sources, targets, w);
      RebuiltChildren(tree, nodes, after, m0, m, inOrder, sources, targets, Elems(deleted), w);
    }
    TreeRebuilt(tree, after, m, targets, targets[0], |nodes|);
  }
  /**
   * What the delete phase can count on: when the roots are paired, deleting the unmatched
   * nodes of the post-order walk from the first registered source node leaves, below that
   * node, the target tree.
   */
  predicate Rebuilds(tree: seq<Node>, nodes: seq<Node>, m0: Matching, m: Matching, sources0: seq<NodeId>,
                     targets: seq<NodeId>)
  {
    && Ordered(tree) && Closed(nodes) && |tree| <= |nodes|
    && (RootsPaired(tree, m0, sources0, targets) ==>
          var deleted := Doomed(PostOrderUpTo(nodes, sources0[0], |nodes|), m);
          ScriptInRange(nodes, DeleteOps(deleted)) ==>
            ToTreeUpTo(ApplyAll(nodes, DeleteOps(deleted)), sources0[0], |nodes|) == ToTree(tree, targets[0]))
  }

  /** Once every target is visited, the deletes rebuild the target tree. */
  lemma VisitedRebuilds(tree: seq<Node>, nodes: seq<Node>, m0: Matching, m: Matching, inOrder: set<NodeId>,
                        sources0: seq<NodeId>, targets: seq<NodeId>)
    requires Visited(tree, nodes, m0, m, inOrder, targets) && Bijective(m0)
    ensures Rebuilds(tree, nodes, m0, m, sources0, targets)
  {
    if RootsPaired(tree, m0, sources0, targets) {
      var deleted := Doomed(PostOrderUpTo(nodes, sources0[0], |nodes|), m);
      if ScriptInRange(nodes, DeleteOps(deleted)) {
        SourceBecomesTarget(tree, nodes, m0, m, inOrder, sources0, targets, deleted);
      }
    }
  }

  /**
   * The start of the breadth-first loop: nothing is visited yet, so the walk's invariants
   * hold of the untouched arena, and the breadth-first order from the target root lists
   * every target once, parents first.
   */
  lemma StartWalk(tree: seq<Node>, m0: Matching, sources0: seq<NodeId>, targets: seq<NodeId>)
    requires Start(tree, m0, sources0, targets)
    ensures Hung(tree, m0, targets, {}, {}) && TargetsKept(tree, tree, targets)
    ensures (forall z | z in targets :: z < |tree|) && Labelled(tree, tree, m0, m0, [])
    ensures targets != [] ==>
      var order := BfsFrom(tree, [targets[0]]);
      && NoDup(order) && (forall x :: x in order <==> x in targets) && ParentFirst(tree, order)
  {
    if targets != [] {
      BfsOrder(tree, targets);
    }
  }

  /** The end of the breadth-first loop, once it has walked every target in `order`. */
  lemma PhaseEnds(tree: seq<Node>, nodes: seq<Node>, m0: Matching, m: Matching, inOrder: set<NodeId>,
                  order: seq<NodeId>, sources0: seq<NodeId>, sources: seq<NodeId>, targets: seq<NodeId>,
                  ops: seq<Operation>)
    requires Start(tree, m0, sources0, targets) && targets != []
    requires Consistent(nodes, m, sources, targets, ops) && Ready(nodes, m, sources, targets)
    requires TargetsKept(tree, nodes, targets) && Kept(m0, m) && forall x :: x in order <==> x in targets
    requires Mirrored(tree, nodes, m, order) && Arranged(tree, nodes, m, inOrder, order)
    requires Labelled(tree, nodes, m0, m, order)
    ensures Mirrored(tree, nodes, m, targets) && Rebuilds(tree, nodes, m0, m, sources0, targets)
  {
    MirroredSameNodes(tree, nodes, m, order, targets);
    WalkSameNodes(tree, nodes, m0, m, inOrder, order, targets);
    assert Visited(tree, nodes, m0, m, inOrder, targets);
    VisitedRebuilds(tree, nodes, m0, m, inOrder, sources0, targets);
  }

  /**
   * The context as the constructor and a matcher leave it: a well-formed arena whose target
   * registry is the pre-order walk of its parentless root, and a one-to-one matching between
   * registered source nodes and target nodes.
   */
  predicate Start(nodes: seq<Node>, m: Matching, sources: seq<NodeId>, targets: seq<NodeId>)
  {
    && WellFormed(nodes)
    && Consistent(nodes, m, sources, targets, [])
    && Ready(nodes, m, sources, targets)
    && (targets != [] ==>
          targets[0] < |nodes| && nodes[targets[0]].parent.None? && targets == PreOrder(nodes, targets[0]))
  }

  // ---------------------------------------------------------------------------------------
  // The generator

  /** The loop of `_find_position`: the rightmost in-order sibling before the target. */
  method RightmostInOrder(sibs: seq<NodeId>, t: NodeId, inOrder: set<NodeId>) returns (rightmost: Option<NodeId>)
    ensures rightmost == LastMarked(Before(sibs, t), inOrder)
  {
    rightmost := None;
    var k := 0;
    while k < |sibs|
      invariant k <= |sibs| && t !in sibs[..k]
      invariant rightmost == LastMarked(sibs[..k], inOrder)
    {
      if sibs[k] == t {
        break;
      }
      if sibs[k] in inOrder {
        rightmost := Some(sibs[k]);
      }
      assert sibs[..k + 1][..k] == sibs[..k];
      k := k + 1;
    }
    assert sibs[..k] == Before(sibs, t) by {
      var b := Before(sibs, t);
      if |b| < |sibs| {
        assert sibs[|b|] == t;
      }
    }
  }

  /**
   * The first half of `_align_children`: the matched children of both nodes, in order, and
   * the longest common subsequence of partnered pairs between them.
   */
  method AlignPlan(m: Matching, sc: seq<NodeId>, tc: seq<NodeId>)
    returns (msc: seq<NodeId>, mtc: seq<NodeId>, lcs: seq<(NodeId, NodeId)>)
    ensures msc == MatchedSources(m, sc, tc) && mtc == MatchedTargets(m, sc, tc)
    ensures lcs == LcsPairs(m, msc, mtc)
  {
    msc := MatchedSources(m, sc, tc);
    mtc := MatchedTargets(m, sc, tc);
    lcs := LongestCommonSubsequence(msc, mtc, PartnerEq(m));
  }

  class WithMoveGenerator {
    var context: DiffContext?
    var inOrder: set<NodeId>
    var ops: seq<Operation>

    /** A generator before `prepare`: no context yet. */
    constructor()
      ensures context == null && inOrder == {} && ops == []
    {
      context, inOrder, ops := null, {}, [];
    }

    predicate Valid()
      reads this, context
      reads if context != null then {context.forest, context.matching} else {}
    {
      && context != null
      && Consistent(context.forest.nodes, context.matching.Value(), context.sourceNodes, context.targetNodes, ops)
    }

    function Nodes(): seq<Node>
      requires context != null
      reads this`context, context, context.forest
    {
      context.forest.nodes
    }

    function Matched(): Matching
      requires context != null
      reads this`context, context, context.matching
    {
      context.matching.Value()
    }

    /** `prepare`: the generator starts on the context with nothing in order and no operations. */
    method Prepare(c: DiffContext)
      modifies this
      ensures context == c && inOrder == {} && ops == []
    {
      context, inOrder, ops := c, {}, [];
    }

    /**
     * `_find_position`, with its early exit when no sibling is in order or the target is
     * the first one that is; the exit gives the same answer as the general rule.
     */
    method FindPosition(t: NodeId) returns (pos: Option<int>)
      requires context != null && Closed(Nodes()) && PartnersIn(Matched(), |Nodes()|) && t < |Nodes()|
      ensures pos == Position(Nodes(), Matched(), inOrder, t)
    {
      var nodes := context.forest.nodes;
      var sibs := Siblings(nodes, t);
      var inOrderSiblings := Marked(sibs, inOrder);
      if inOrderSiblings == [] || t == inOrderSiblings[0] {
        if inOrderSiblings != [] {
          FirstMarkedIsTarget(sibs, inOrder, t);
        }
        return Some(0);
      }
      var rightmost := RightmostInOrder(sibs, t, inOrder);
      var source := if rightmost.None? then None else context.Partner(rightmost.value);
      if source.None? {
        return Some(0);
      }
      var index := PositionInSiblings(nodes, source.value);
      if index.None? {
        return None;
      }
      return Some(index.value + 1);
    }

    /**
     * One realignment of `_align_children`: the source child leaves `s`, then re-enters it
     * at the position `_find_position` gives its partner on the arena without it, and the
     * move is recorded.
     */
    method MoveBack(s: NodeId, x: NodeId, y: NodeId) returns (position: int)
      requires Valid() && Ready(Nodes(), Matched(), context.sourceNodes, context.targetNodes)
      requires Hung(Nodes(), Matched(), context.targetNodes, inOrder, {})
      requires s < |Nodes()| && s !in context.targetNodes && x in Nodes()[s].children
      requires y in context.targetNodes && x in Matched().st && Matched().st[x] == y
      modifies this`ops, this`inOrder, context.forest
      ensures Matched() == old(Matched()) && context.sourceNodes == old(context.sourceNodes)
      ensures context.targetNodes == old(context.targetNodes)
      ensures Valid() && Ready(Nodes(), Matched(), context.sourceNodes, context.targetNodes)
      ensures Hung(Nodes(), Matched(), context.targetNodes, inOrder, {})
      ensures Reordered(old(Nodes()), Nodes(), s)
      ensures Nodes() == MoveNode(old(Nodes()), x, Some(s), position)
      ensures Position(DeleteNode(old(Nodes()), x), Matched(), old(inOrder), y) == Some(position)
      ensures inOrder == old(inOrder) + {x, y}
      ensures ops == old(ops) + [Move(x, Some(s), position)]
    {
      ghost var nodes0 := Nodes();
      ghost var m := Matched();
      var forest := context.forest;
      assert x < |nodes0|;
      ApplyDelete(forest, x);
      PositionAfterDelete(nodes0, m, context.targetNodes, inOrder, x, y, forest.nodes);
      var pos := FindPosition(y);
      position := pos.value;
      Reinsert(nodes0, m, context.sourceNodes, context.targetNodes, s, x, y, position);
    }

    /** The second half of a realignment: the source child re-enters `s` at `position` and the move is recorded. */
    method Reinsert(ghost nodes0: seq<Node>, ghost m: Matching, ghost sources: seq<NodeId>, ghost targets: seq<NodeId>,
                    s: NodeId, x: NodeId, y: NodeId, position: int)
      requires context != null && Matched() == m && context.sourceNodes == sources && context.targetNodes == targets
      requires Consistent(nodes0, m, sources, targets, ops) && Ready(nodes0, m, sources, targets)
      requires Hung(nodes0, m, targets, inOrder, {})
      requires s < |nodes0| && s !in targets && x in nodes0[s].children
      requires y in targets && x in m.st && m.st[x] == y
      requires Nodes() == DeleteNode(nodes0, x)
      modifies this`ops, this`inOrder, context.forest
      ensures Matched() == m && context.sourceNodes == sources && context.targetNodes == targets
      ensures Consistent(Nodes(), m, sources, targets, ops) && Ready(Nodes(), m, sources, targets)
      ensures Hung(Nodes(), m, targets, inOrder, {})
      ensures Reordered(nodes0, Nodes(), s)
      ensures Nodes() == MoveNode(nodes0, x, Some(s), position)
      ensures inOrder == old(inOrder) + {x, y}
      ensures ops == old(ops) + [Move(x, Some(s), position)]
    {
      assert x < |nodes0|;
      ReinsertKeeps(nodes0, m, sources, targets, ops, inOrder, s, x, y, position);
      InsertBack(nodes0, s, x, y, position);
    }

    /**
     * `_align_children`: the children of both nodes leave the in-order set, the matched
     * pairs on the LCS of the matched children join it, and every other matched source
     * child is moved back under `s`, in the order of the loop over the target children
     * and, inside, the source children. In the end exactly the matched children of the two
     * nodes are in order, and only the order of the children of `s` changed.
     */
    method AlignChildren(ghost nodes0: seq<Node>, ghost m: Matching, ghost sources: seq<NodeId>, ghost targets: seq<NodeId>,
                         s: NodeId, t: NodeId)
      returns (ghost moved: seq<Operation>, ghost after: seq<Node>)
      requires context != null && Nodes() == nodes0 && Matched() == m
      requires context.sourceNodes == sources && context.targetNodes == targets
      requires Consistent(nodes0, m, sources, targets, ops) && Ready(nodes0, m, sources, targets)
      requires Hung(nodes0, m, targets, inOrder, {})
      requires s < |nodes0| && s !in targets && t in targets
      modifies this`ops, this`inOrder, context.forest
      ensures Nodes() == after && Matched() == m && context.sourceNodes == sources && context.targetNodes == targets
      ensures Consistent(after, m, sources, targets, ops) && Ready(after, m, sources, targets)
      ensures Hung(after, m, targets, inOrder, {})
      ensures Reordered(nodes0, after, s)
      ensures ops == old(ops) + moved && MovesUnder(moved, s)
      ensures var sc := nodes0[s].children;
        var tc := nodes0[t].children;
        var msc := MatchedSources(m, sc, tc);
        var mtc := MatchedTargets(m, sc, tc);
        && OpNodes(moved) == Misaligned(m, msc, mtc, LcsPairs(m, msc, mtc))
        && inOrder == old(inOrder) - Elems(sc) - Elems(tc) + Elems(msc) + Elems(mtc)
      ensures Aligned(m, after[s].children, nodes0[t].children, inOrder)
    {
      ghost var ops0 := ops;
      var nodes := context.forest.nodes;
      var sourceChildren := nodes[s].children;
      var targetChildren := nodes[t].children;
      inOrder := inOrder - Elems(sourceChildren) - Elems(targetChildren);
      var matching := context.matching.Value();
      var msc, mtc, lcs := AlignPlan(matching, sourceChildren, targetChildren);
      HungLcs(nodes0, m, sources, targets, ops0, inOrder, s, lcs);
      inOrder := inOrder + LcsIds(lcs);
      ghost var inOrder0 := inOrder;
      assert forall k | 0 <= k < |mtc| :: mtc[k] in targets;
      assert forall y | y in targetChildren :: y in targets;
      LcsAligned(m, sourceChildren, targetChildren, inOrder0);
      ghost var mis;
      moved, mis := AlignAll(nodes0, matching, sources, targets, ops0, inOrder0, s, t, msc, mtc, lcs);
      assert Matched() == m && context.sourceNodes == sources && context.targetNodes == targets;
      after := Nodes();
      AlignFacts(nodes0, after, m, sources, targets, ops0, moved, mis, inOrder0, s);
      AlignedInOrder(m, sourceChildren, targetChildren, lcs, mis, old(inOrder), inOrder);
    }

    /**
     * The loop of `_align_children` over the matched target children: for each, the
     * misaligned source children partnered with it are moved back under `s`. The state is
     * described against `nodes0`, the arena before the first move.
     */
    method AlignAll(ghost nodes0: seq<Node>, m: Matching, ghost sources: seq<NodeId>, ghost targets: seq<NodeId>,
                    ghost ops0: seq<Operation>, ghost inOrder0: set<NodeId>, s: NodeId, ghost t: NodeId,
                    msc: seq<NodeId>, mtc: seq<NodeId>, lcs: seq<(NodeId, NodeId)>)
      returns (ghost moved: seq<Operation>, ghost mis: seq<NodeId>)
      requires context != null && Matched() == m && context.sourceNodes == sources && context.targetNodes == targets
      requires Consistent(nodes0, m, sources, targets, ops0) && Ready(nodes0, m, sources, targets)
      requires Hung(nodes0, m, targets, inOrder0, {})
      requires s < |nodes0| && s !in targets && Nodes() == nodes0 && ops == ops0 && inOrder == inOrder0
      requires forall k | 0 <= k < |msc| :: msc[k] in m.st && msc[k] in nodes0[s].children
      requires forall k | 0 <= k < |mtc| :: mtc[k] in targets
      requires t in targets && NoDup(msc) && NoDup(mtc) && forall k | 0 <= k < |mtc| :: mtc[k] in nodes0[t].children
      requires Aligned(m, nodes0[s].children, nodes0[t].children, inOrder0)
      requires OnLcs(m, nodes0[s].children, nodes0[t].children, inOrder0, lcs)
      modifies this`ops, this`inOrder, context.forest
      ensures Reordered(nodes0, Nodes(), s)
      ensures mis == Misaligned(m, msc, mtc, lcs)
      ensures Tally(nodes0, m, s, ops0, ops, inOrder0, inOrder, moved, mis)
      ensures Aligned(m, Nodes()[s].children, nodes0[t].children, inOrder)
    {
      moved, mis := [], [];
      for i := 0 to |mtc|
        invariant Reordered(nodes0, Nodes(), s)
        invariant mis == Misaligned(m, msc, mtc[..i], lcs)
        invariant Tally(nodes0, m, s, ops0, ops, inOrder0, inOrder, moved, mis)
        invariant Aligned(m, Nodes()[s].children, nodes0[t].children, inOrder)
      {
        MisalignedStep(m, msc, mtc, lcs, i);
        MisalignedElsewhere(m, msc, mtc, lcs, i);
        moved, mis := AlignWith(nodes0, m, sources, targets, ops0, inOrder0, s, t, mtc[i], msc, lcs, moved, mis);
      }
      assert mtc[..|mtc|] == mtc;
    }

    /**
     * One realignment inside `_align_children`: the matched source child `x` of `s` is moved
     * back under `s`, and the move and the pair are recorded against `nodes0`.
     */
    method AlignMove(ghost nodes0: seq<Node>, ghost m: Matching, ghost sources: seq<NodeId>, ghost targets: seq<NodeId>,
                     ghost ops0: seq<Operation>, ghost inOrder0: set<NodeId>, s: NodeId, ghost t: NodeId,
                     x: NodeId, y: NodeId, ghost lcs: seq<(NodeId, NodeId)>, ghost moved: seq<Operation>, ghost mis: seq<NodeId>)
      returns (position: int)
      requires context != null && Matched() == m && context.sourceNodes == sources && context.targetNodes == targets
      requires Consistent(nodes0, m, sources, targets, ops0) && Ready(nodes0, m, sources, targets)
      requires Hung(nodes0, m, targets, inOrder0, {})
      requires s < |nodes0| && s !in targets && y in targets
      requires x in m.st && m.st[x] == y && x in nodes0[s].children
      requires Reordered(nodes0, Nodes(), s)
      requires Tally(nodes0, m, s, ops0, ops, inOrder0, inOrder, moved, mis)
      requires t in targets && y in nodes0[t].children && x !in mis && (x, y) !in lcs
      requires OnLcs(m, nodes0[s].children, nodes0[t].children, inOrder0, lcs)
      requires Aligned(m, Nodes()[s].children, nodes0[t].children, inOrder)
      modifies this`ops, this`inOrder, context.forest
      ensures Reordered(nodes0, Nodes(), s)
      ensures Tally(nodes0, m, s, ops0, ops, inOrder0, inOrder, moved + [Move(x, Some(s), position)], mis + [x])
      ensures Aligned(m, Nodes()[s].children, nodes0[t].children, inOrder)
    {
      AlignFacts(nodes0, Nodes(), m, sources, targets, ops0, moved, mis, inOrder0, s);
      ReorderedHas(nodes0, Nodes(), s, x);
      ghost var before, ops1, inOrder1 := Nodes(), ops, inOrder;
      position := MoveBack(s, x, y);
      RealignInOrder(nodes0, before, m, sources, targets, ops1, inOrder0, inOrder1, s, t, x, y, lcs, mis, position);
      ReorderedTrans(nodes0, before, Nodes(), s);
      AlignRecord(nodes0, m, ops0, ops1, ops, moved, mis, inOrder0, inOrder1, inOrder, s, x, y, position);
    }

    /**
     * The inner loop of `_align_children` for one matched target child `y`: each matched
     * source child, in order, whose partner is `y` and whose pair is off the LCS is moved
     * back under `s`. The state is described against `nodes0`, the arena before the first
     * move under `s`.
     */
    method AlignWith(ghost nodes0: seq<Node>, m: Matching, ghost sources: seq<NodeId>, ghost targets: seq<NodeId>,
                     ghost ops0: seq<Operation>, ghost inOrder0: set<NodeId>, s: NodeId, ghost t: NodeId, y: NodeId,
                     msc: seq<NodeId>, lcs: seq<(NodeId, NodeId)>, ghost moved0: seq<Operation>, ghost mis0: seq<NodeId>)
      returns (ghost moved: seq<Operation>, ghost mis: seq<NodeId>)
      requires context != null && Matched() == m && context.sourceNodes == sources && context.targetNodes == targets
      requires Consistent(nodes0, m, sources, targets, ops0) && Ready(nodes0, m, sources, targets)
      requires Hung(nodes0, m, targets, inOrder0, {})
      requires s < |nodes0| && s !in targets && y in targets
      requires forall k | 0 <= k < |msc| :: msc[k] in m.st && msc[k] in nodes0[s].children
      requires Reordered(nodes0, Nodes(), s)
      requires Tally(nodes0, m, s, ops0, ops, inOrder0, inOrder, moved0, mis0)
      requires t in targets && y in nodes0[t].children && NoDup(msc)
      requires forall z | z in mis0 :: PartnerIn(m, z) != Some(y)
      requires OnLcs(m, nodes0[s].children, nodes0[t].children, inOrder0, lcs)
      requires Aligned(m, Nodes()[s].children, nodes0[t].children, inOrder)
      modifies this`ops, this`inOrder, context.forest
      ensures Reordered(nodes0, Nodes(), s)
      ensures mis == mis0 + MisalignedWith(m, msc, y, lcs)
      ensures Tally(nodes0, m, s, ops0, ops, inOrder0, inOrder, moved, mis)
      ensures Aligned(m, Nodes()[s].children, nodes0[t].children, inOrder)
    {
      moved, mis := moved0, mis0;
      for j := 0 to |msc|
        invariant Reordered(nodes0, Nodes(), s)
        invariant mis == mis0 + MisalignedWith(m, msc[..j], y, lcs)
        invariant Tally(nodes0, m, s, ops0, ops, inOrder0, inOrder, moved, mis)
        invariant Aligned(m, Nodes()[s].children, nodes0[t].children, inOrder)
      {
        var x := msc[j];
        MisalignedWithNext(m, msc, y, lcs, j, mis0, mis);
        if PartnerIn(m, x) == Some(y) && (x, y) !in lcs {
          assert x !in msc[..j];
          var position := AlignMove(nodes0, m, sources, targets, ops0, inOrder0, s, t, x, y, lcs, moved, mis);
          moved, mis := moved + [Move(x, Some(s), position)], mis + [x];
        }
      }
      assert msc[..|msc|] == msc;
    }

    /** The insert and the record of a realignment. */
    method InsertBack(ghost nodes0: seq<Node>, s: NodeId, x: NodeId, y: NodeId, position: int)
      requires context != null && Closed(nodes0) && s < |nodes0| && x < |nodes0|
      requires Nodes() == DeleteNode(nodes0, x)
      modifies this`ops, this`inOrder, context.forest
      ensures Nodes() == MoveNode(nodes0, x, Some(s), position)
      ensures inOrder == old(inOrder) + {x, y}
      ensures ops == old(ops) + [Move(x, Some(s), position)]
    {
      MoveIsDeleteInsert(nodes0, x, s, position);
      ApplyInsert(context.forest, x, Some(s), position);
      ops := ops + [Move(x, Some(s), position)];
      inOrder := inOrder + {x, y};
    }

    /**
     * The insert path of a round of `generate_edit_script`: a new node with the target's
     * label and value is inserted under `source_parent` at `position` (which the caller has
     * from `_find_position`), recorded, registered as a source node and matched with the target.
     */
    method InsertFor(ghost nodes0: seq<Node>, ghost m: Matching, ghost sources: seq<NodeId>,
                     t: NodeId, sourceParent: Option<NodeId>, position: int)
      returns (node: NodeId)
      requires context != null && Nodes() == nodes0 && Matched() == m && context.sourceNodes == sources
      requires Closed(nodes0) && PartnersIn(m, |nodes0|) && t < |nodes0|
      requires sourceParent == SourceParent(nodes0, m, t) && (sourceParent.Some? ==> sourceParent.value < |nodes0|)
      requires NoDup(sources) && |nodes0| !in sources
      requires context.matching.Valid() && !IsMatched(m, MatchingPair(|nodes0|, t))
      modifies this`ops, context.forest, context`sourceNodes, context.matching
      ensures node == |nodes0|
      ensures Nodes() == InsertNode(nodes0 + [Fresh(nodes0[t])], node, sourceParent, position)
      ensures Matched() == With(m, MatchingPair(node, t)) && context.sourceNodes == sources + [node]
      ensures ops == old(ops) + [Insert(node, sourceParent, position)]
    {
      node := PlaceNew(t, sourceParent, position);
      ops := ops + [Insert(node, sourceParent, position)];
      RegisterNew(sources, m, node, t);
    }

    /** The arena side of an insert: a fresh copy of the target's label, hung under `parent`. */
    method PlaceNew(t: NodeId, parent: Option<NodeId>, position: int) returns (node: NodeId)
      requires context != null && Closed(Nodes()) && t < |Nodes()| && (parent.Some? ==> parent.value < |Nodes()|)
      modifies context.forest
      ensures node == |old(Nodes())| && node < |Nodes()| && Nodes()[node].children == []
      ensures Nodes() == InsertNode(old(Nodes()) + [Fresh(old(Nodes())[t])], node, parent, position)
    {
      ghost var leaf := Fresh(Nodes()[t]);
      var target := context.forest.nodes[t];
      node := context.forest.NewNode(target.kind, target.value);
      assert context.forest.nodes == old(Nodes()) + [leaf];
      Apply(context.forest, Insert(node, parent, position));
    }

    /** The bookkeeping side of an insert: the new leaf is registered and matched with `t`. */
    method RegisterNew(ghost sources: seq<NodeId>, ghost m: Matching, node: NodeId, t: NodeId)
      requires context != null && Closed(Nodes()) && node < |Nodes()| && Nodes()[node].children == []
      requires context.sourceNodes == sources && NoDup(sources) && node !in sources
      requires Matched() == m && context.matching.Valid() && !IsMatched(m, MatchingPair(node, t))
      modifies context`sourceNodes, context.matching
      ensures context.sourceNodes == sources + [node] && Matched() == With(m, MatchingPair(node, t))
    {
      LeafWalk(context.forest.nodes, node, |context.forest.nodes|);
      RegisterAllSpec(sources, [node]);
      var registered := context.AddSource(node);
      var added := context.matching.Add(MatchingPair(node, t));
    }

    /** The update of a round: the partner takes the target's value when the two differ. */
    method UpdateFor(s: NodeId, value: string)
      requires context != null && Closed(Nodes()) && s < |Nodes()|
      modifies this`ops, context.forest
      ensures Nodes() == if old(Nodes())[s].value != value then UpdateValue(old(Nodes()), s, value) else old(Nodes())
      ensures ops == old(ops) + if old(Nodes())[s].value != value then [Update(s, value, Some(old(Nodes())[s].value))] else []
    {
      if context.forest.nodes[s].value != value {
        var update := Update(s, value, Some(context.forest.nodes[s].value));
        Apply(context.forest, update);
        ops := ops + [update];
      }
    }

    /**
     * The move of a round: when the partner `s` does not hang under `source_parent`, it is
     * moved there, at the position `_find_position` gives for the target.
     */
    method MoveFor(ghost u: seq<Node>, ghost m: Matching, s: NodeId, t: NodeId, sourceParent: Option<NodeId>)
      returns (position: int)
      requires context != null && Nodes() == u && Matched() == m
      requires Closed(u) && PartnersIn(m, |u|) && s < |u| && t < |u|
      requires sourceParent.Some? && sourceParent.value < |u|
      requires Misplaced(u, m, s, t) ==> Position(u, m, inOrder, t).Some?
      modifies this`ops, context.forest
      ensures Misplaced(u, m, s, t) ==> Position(u, m, inOrder, t) == Some(position)
      ensures Nodes() == if Misplaced(u, m, s, t) then MoveNode(u, s, sourceParent, position) else u
      ensures ops == old(ops) + if Misplaced(u, m, s, t) then [Move(s, sourceParent, position)] else []
    {
      var q := context.forest.nodes[s].parent;
      var here := if q.None? then None else context.Partner(q.value);
      assert here != u[t].parent <==> Misplaced(u, m, s, t);
      position := 0;
      if here != context.forest.nodes[t].parent {
        var pos := FindPosition(t);
        position := pos.value;
        ApplyMove(u, s, sourceParent, position);
      }
    }

    /** `Move(source, source_parent, position)`, applied and recorded. */
    method ApplyMove(ghost u: seq<Node>, s: NodeId, parent: Option<NodeId>, position: int)
      requires context != null && Nodes() == u && Closed(u) && s < |u|
      requires parent.Some? && parent.value < |u|
      modifies this`ops, context.forest
      ensures Nodes() == MoveNode(u, s, parent, position) && ops == old(ops) + [Move(s, parent, position)]
    {
      var move := Move(s, parent, position);
      Apply(context.forest, move);
      ops := ops + [move];
    }

    /** The round of an unmatched target: `_find_position`, then the insert of a new partner. */
    method InsertRound(ghost nodes0: seq<Node>, ghost m: Matching, ghost sources: seq<NodeId>,
                       t: NodeId, sourceParent: Option<NodeId>)
      returns (s: NodeId, position: int)
      requires context != null && Nodes() == nodes0 && Matched() == m && context.sourceNodes == sources
      requires Closed(nodes0) && PartnersIn(m, |nodes0|) && t < |nodes0| && PartnerIn(m, t).None?
      requires sourceParent == SourceParent(nodes0, m, t) && (sourceParent.Some? ==> sourceParent.value < |nodes0|)
      requires Position(nodes0, m, inOrder, t).Some?
      requires NoDup(sources) && |nodes0| !in sources
      requires context.matching.Valid() && !IsMatched(m, MatchingPair(|nodes0|, t))
      modifies this`ops, context.forest, context`sourceNodes, context.matching
      ensures s == |nodes0| && Position(nodes0, m, old(inOrder), t) == Some(position)
      ensures Nodes() == Placed(nodes0, m, t, position) && ops == old(ops) + Emitted(nodes0, m, t, position)
      ensures Matched() == With(m, MatchingPair(s, t)) && context.sourceNodes == sources + [s]
    {
      var pos := FindPosition(t);
      position := pos.value;
      s := InsertFor(nodes0, m, sources, t, sourceParent, position);
      InsertShape(nodes0, m, t, position);
    }

    /** The round of a matched target below the root: the update, then the move, of its partner. */
    method RelocateRound(ghost nodes0: seq<Node>, ghost m: Matching, s: NodeId, t: NodeId, sourceParent: Option<NodeId>)
      returns (position: int)
      requires context != null && Nodes() == nodes0 && Matched() == m
      requires Closed(nodes0) && PartnersIn(m, |nodes0|) && s < |nodes0| && t < |nodes0|
      requires PartnerIn(m, t) == Some(s) && nodes0[t].parent.Some?
      requires sourceParent == SourceParent(nodes0, m, t) && sourceParent.Some? && sourceParent.value < |nodes0|
      requires Misplaced(nodes0, m, s, t) ==> Position(nodes0, m, inOrder, t).Some?
      modifies this`ops, context.forest
      ensures Misplaced(nodes0, m, s, t) ==> Position(nodes0, m, old(inOrder), t) == Some(position)
      ensures Nodes() == Placed(nodes0, m, t, position) && ops == old(ops) + Emitted(nodes0, m, t, position)
    {
      UpdateKeepsPlace(nodes0, m, inOrder, s, t);
      ghost var v := nodes0[t].value;
      ghost var u := if nodes0[s].value != v then UpdateValue(nodes0, s, v) else nodes0;
      ghost var up := if nodes0[s].value != v then [Update(s, v, Some(nodes0[s].value))] else [];
      ghost var ops0 := ops;
      UpdateFor(s, context.forest.nodes[t].value);
      assert Nodes() == u && ops == ops0 + up;
      ghost var misplaced := Misplaced(nodes0, m, s, t);
      ghost var io := inOrder;
      assert Misplaced(u, m, s, t) == misplaced;
      assert Position(u, m, io, t) == Position(nodes0, m, io, t);
      position := MoveFor(u, m, s, t, sourceParent);
      assert inOrder == io;
      ghost var mv := if misplaced then [Move(s, sourceParent, position)] else [];
      assert ops == ops0 + up + mv;
      AppendAssoc(ops0, up, mv);
      RelocateShape(nodes0, m, t, position);
    }

    /**
     * The first half of a round of `generate_edit_script`: the insert, or the update and move,
     * of the target's counterpart, which then stands where the round leaves it.
     */
    method PlaceRound(ghost nodes0: seq<Node>, ghost m: Matching, ghost sources: seq<NodeId>, t: NodeId)
      returns (s: NodeId, position: int, ghost r: seq<Node>, ghost m1: Matching, ghost sources1: seq<NodeId>,
               ghost emitted: seq<Operation>)
      requires context != null && Nodes() == nodes0 && Matched() == m && context.sourceNodes == sources
      requires Placeable(nodes0, m, sources, inOrder, t)
      modifies this`ops, context.forest, context`sourceNodes, context.matching
      ensures s == Counterpart(nodes0, m, t)
      ensures PartnerIn(m, t).None? || (nodes0[t].parent.Some? && Misplaced(nodes0, m, PartnerIn(m, t).value, t)) ==>
                Position(nodes0, m, old(inOrder), t) == Some(position)
      ensures r == Placed(nodes0, m, t, position) && emitted == Emitted(nodes0, m, t, position)
      ensures m1 == (if PartnerIn(m, t).None? then With(m, MatchingPair(|nodes0|, t)) else m)
      ensures sources1 == (if PartnerIn(m, t).None? then sources + [|nodes0|] else sources)
      ensures Nodes() == r && ops == old(ops) + emitted && Matched() == m1 && context.sourceNodes == sources1
      ensures context == old(context) && context.forest == old(context.forest)
      ensures context.matching == old(context.matching) && context.targetNodes == old(context.targetNodes)
    {
      var nodes := context.forest.nodes;
      var source := context.Partner(t);
      var parent := nodes[t].parent;
      var sourceParent := if parent.None? then None else context.Partner(parent.value);
      position := 0;
      if source.None? {
        s, position := InsertRound(nodes0, m, sources, t, sourceParent);
        m1, sources1 := With(m, MatchingPair(s, t)), sources + [s];
      } else if parent.Some? {
        s := source.value;
        position := RelocateRound(nodes0, m, s, t, sourceParent);
        m1, sources1 := m, sources;
      } else {
        s := source.value;
        m1, sources1 := m, sources;
      }
      r, emitted := Placed(nodes0, m, t, position), Emitted(nodes0, m, t, position);
    }

    /**
     * One round of the breadth-first loop of `generate_edit_script` for the target `order[i]`:
     * the insert, or the update and move, of its counterpart, then the pair joins the in-order
     * set and the children of both are realigned. The round keeps the generator's invariants,
     * deletes nothing and extends the mirrored part of the target tree by its target.
     */
    method Visit(ghost tree: seq<Node>, order: seq<NodeId>, i: nat,
                 ghost nodes0: seq<Node>, ghost m: Matching, ghost sources: seq<NodeId>, ghost targets: seq<NodeId>)
      returns (ghost m1: Matching, ghost sources1: seq<NodeId>, ghost e: seq<Operation>, ghost position: int)
      requires context != null && Nodes() == nodes0 && Matched() == m
      requires context.sourceNodes == sources && context.targetNodes == targets
      requires Consistent(nodes0, m, sources, targets, ops) && Ready(nodes0, m, sources, targets)
      requires Hung(nodes0, m, targets, inOrder, {})
      requires NoDup(order) && ParentFirst(tree, order) && i < |order|
      requires forall k | 0 <= k < |order| :: order[k] in targets
      requires TargetsKept(tree, nodes0, targets) && Mirrored(tree, nodes0, m, order[..i])
      requires forall z | z in targets :: z < |tree|
      requires Arranged(tree, nodes0, m, inOrder, order[..i])
      modifies this`ops, this`inOrder, context.forest, context`sourceNodes, context.matching
      ensures m1 == (if PartnerIn(m, order[i]).None? then With(m, MatchingPair(|nodes0|, order[i])) else m)
      ensures sources1 == (if PartnerIn(m, order[i]).None? then sources + [|nodes0|] else sources)
      ensures Matched() == m1 && context.sourceNodes == sources1 && context.targetNodes == targets
      ensures ops == old(ops) + e && NoDeletes(e)
      ensures Consistent(Nodes(), m1, sources1, targets, ops) && Ready(Nodes(), m1, sources1, targets)
      ensures Hung(Nodes(), m1, targets, inOrder, {})
      ensures TargetsKept(tree, Nodes(), targets)
      ensures Mirrored(tree, Nodes(), m1, order[..i + 1])
      ensures Arranged(tree, Nodes(), m1, inOrder, order[..i + 1])
      ensures Reordered(Placed(nodes0, m, order[i], position), Nodes(), Counterpart(nodes0, m, order[i]))
    {
      var t := order[i];
      RoundReady(tree, nodes0, m, targets, order, i);
      assert order[..i + 1] == order[..i] + [t];
      var s;
      ghost var r, emitted;
      s, position, r, m1, sources1, emitted := Place(tree, order, i, nodes0, m, sources, targets);
      ghost var moved := FinishRound(tree, order[..i], r, m1, sources1, targets, s, t);
      NoDeletesJoin(emitted, moved);
      AppendAssoc(old(ops), emitted, moved);
      e := emitted + moved;
    }

    /**
     * The first half of a round, with what it keeps of the generator's invariants: it
     * deletes nothing and the target of the round is mirrored once it is done.
     */
    method Place(ghost tree: seq<Node>, order: seq<NodeId>, i: nat,
                 ghost nodes0: seq<Node>, ghost m: Matching, ghost sources: seq<NodeId>, ghost targets: seq<NodeId>)
      returns (s: NodeId, ghost position: int, ghost r: seq<Node>, ghost m1: Matching, ghost sources1: seq<NodeId>,
               ghost emitted: seq<Operation>)
      requires context != null && Nodes() == nodes0 && Matched() == m
      requires context.sourceNodes == sources && context.targetNodes == targets
      requires Consistent(nodes0, m, sources, targets, ops) && Ready(nodes0, m, sources, targets)
      requires Hung(nodes0, m, targets, inOrder, {})
      requires NoDup(order) && ParentFirst(tree, order) && i < |order|
      requires forall k | 0 <= k < |order| :: order[k] in targets
      requires TargetsKept(tree, nodes0, targets) && Mirrored(tree, nodes0, m, order[..i])
      requires nodes0[order[i]].parent.Some? ==> SourceParent(nodes0, m, order[i]).Some?
      requires (forall z | z in targets :: z < |tree|) && Arranged(tree, nodes0, m, inOrder, order[..i])
      modifies this`ops, context.forest, context`sourceNodes, context.matching
      ensures m1 == (if PartnerIn(m, order[i]).None? then With(m, MatchingPair(|nodes0|, order[i])) else m)
      ensures sources1 == (if PartnerIn(m, order[i]).None? then sources + [|nodes0|] else sources)
      ensures context == old(context) && context.forest == old(context.forest) && context.targetNodes == targets
      ensures Nodes() == r && Matched() == m1 && context.sourceNodes == sources1 && ops == old(ops) + emitted
      ensures r == Placed(nodes0, m, order[i], position) && s == Counterpart(nodes0, m, order[i])
      ensures Consistent(r, m1, sources1, targets, ops) && Ready(r, m1, sources1, targets)
      ensures s < |r| && s !in targets && Hung(r, m1, targets, inOrder + {s, order[i]}, {})
      ensures NoDeletes(emitted) && TargetsKept(tree, r, targets) && Mirrored(tree, r, m1, order[..i + 1])
      ensures PartnerIn(m1, order[i]) == Some(s) && Arranged(tree, r, m1, inOrder + {s, order[i]}, order[..i])
    {
      var t := order[i];
      RoundPlaceable(nodes0, m, sources, targets, ops, inOrder, t);
      s, position, r, m1, sources1, emitted := PlaceRound(nodes0, m, sources, t);
      RoundSettles(nodes0, m, sources, targets, old(ops), inOrder, t, position, r, s, m1, sources1, ops);
      RoundCloses(tree, order, i, nodes0, m, sources, targets, old(ops), position, r, m1, emitted);
      OwnPartner(nodes0, m, m1, t);
      assert RoundBase(tree, nodes0, m, targets);
      PlaceArrangedFor(tree, order, i, nodes0, m, targets, inOrder, position);
    }

    /**
     * The second half of a round: the pair joins the in-order set and the children of both
     * are realigned, which reorders the children of the counterpart and nothing else.
     */
    method FinishRound(ghost tree: seq<Node>, ghost before: seq<NodeId>, ghost placed: seq<Node>, ghost m1: Matching,
                       ghost sources1: seq<NodeId>, ghost targets: seq<NodeId>, s: NodeId, t: NodeId)
      returns (ghost moved: seq<Operation>)
      requires context != null && Nodes() == placed && Matched() == m1
      requires context.sourceNodes == sources1 && context.targetNodes == targets
      requires Consistent(placed, m1, sources1, targets, ops) && Ready(placed, m1, sources1, targets)
      requires Hung(placed, m1, targets, inOrder + {s, t}, {})
      requires s < |placed| && s !in targets && t in targets && PartnerIn(m1, t) == Some(s)
      requires TargetsKept(tree, placed, targets) && Mirrored(tree, placed, m1, before + [t])
      requires forall z | z in targets :: z < |tree|
      requires tree[t].parent != Some(t) && forall v | v in before :: v in targets && v != t && tree[v].parent != Some(t)
      requires Arranged(tree, placed, m1, inOrder + {s, t}, before)
      modifies this`ops, this`inOrder, context.forest
      ensures Matched() == m1 && context.sourceNodes == sources1 && context.targetNodes == targets
      ensures Reordered(placed, Nodes(), s)
      ensures ops == old(ops) + moved && MovesUnder(moved, s) && NoDeletes(moved)
      ensures Consistent(Nodes(), m1, sources1, targets, ops) && Ready(Nodes(), m1, sources1, targets)
      ensures Hung(Nodes(), m1, targets, inOrder, {})
      ensures TargetsKept(tree, Nodes(), targets) && Mirrored(tree, Nodes(), m1, before + [t])
      ensures Arranged(tree, Nodes(), m1, inOrder, before + [t])
    {
      inOrder := inOrder + {s, t};
      ghost var after;
      moved, after := AlignChildren(placed, m1, sources1, targets, s, t);
      RealignKeeps(tree, placed, after, m1, targets, before + [t], s);
      MovesNoDeletes(moved, s);
      assert RoundBase(tree, placed, m1, targets);
      assert inOrder == Realigned(old(inOrder) + {s, t}, placed[s].children, placed[t].children, m1);
      FinishArranged(tree, placed, after, m1, targets, old(inOrder) + {s, t}, before, s, t);
    }

    /**
     * The breadth-first loop of `generate_edit_script` over the target tree, in `order`.
     * Every round keeps the generator's invariants and extends the part of the target tree
     * that the source side mirrors; no round deletes anything.
     */
    method VisitAll(ghost tree: seq<Node>, order: seq<NodeId>) returns (ghost emitted: seq<Operation>)
      requires context != null
      requires Consistent(Nodes(), Matched(), context.sourceNodes, context.targetNodes, ops)
      requires Ready(Nodes(), Matched(), context.sourceNodes, context.targetNodes)
      requires Hung(Nodes(), Matched(), context.targetNodes, inOrder, {})
      requires TargetsKept(tree, Nodes(), context.targetNodes)
      requires NoDup(order) && ParentFirst(tree, order) && forall k | 0 <= k < |order| :: order[k] in context.targetNodes
      requires (forall z | z in context.targetNodes :: z < |tree|) && Labelled(tree, Nodes(), Matched(), Matched(), [])
      modifies this`ops, this`inOrder, context.forest, context`sourceNodes, context.matching
      ensures Consistent(Nodes(), Matched(), context.sourceNodes, context.targetNodes, ops)
      ensures Ready(Nodes(), Matched(), context.sourceNodes, context.targetNodes)
      ensures TargetsKept(tree, Nodes(), context.targetNodes)
      ensures Kept(old(Matched()), Matched())
      ensures Mirrored(tree, Nodes(), Matched(), order)
      ensures ops == old(ops) + emitted && NoDeletes(emitted)
      ensures context.targetNodes == old(context.targetNodes) && old(context.sourceNodes) <= context.sourceNodes
      ensures Arranged(tree, Nodes(), Matched(), inOrder, order) && Labelled(tree, Nodes(), old(Matched()), Matched(), order)
    {
      ghost var m0, ops0 := Matched(), ops;
      ghost var targets, sources0 := context.targetNodes, context.sourceNodes;
      emitted := [];
      for i := 0 to |order|
        invariant Consistent(Nodes(), Matched(), context.sourceNodes, targets, ops)
        invariant Ready(Nodes(), Matched(), context.sourceNodes, targets)
        invariant Hung(Nodes(), Matched(), targets, inOrder, {})
        invariant TargetsKept(tree, Nodes(), targets)
        invariant Kept(m0, Matched())
        invariant Mirrored(tree, Nodes(), Matched(), order[..i])
        invariant ops == ops0 + emitted && NoDeletes(emitted)
        invariant context.targetNodes == targets && sources0 <= context.sourceNodes
        invariant Arranged(tree, Nodes(), Matched(), inOrder, order[..i])
        invariant Labelled(tree, Nodes(), m0, Matched(), order[..i])
      {
        emitted := Round(tree, order, i, m0, ops0, emitted);
      }
      assert order[..|order|] == order;
    }

    /** The body of the breadth-first loop: the round of `order[i]` and what it keeps. */
    method Round(ghost tree: seq<Node>, order: seq<NodeId>, i: nat, ghost m0: Matching, ghost ops0: seq<Operation>,
                 ghost emitted0: seq<Operation>)
      returns (ghost emitted: seq<Operation>)
      requires context != null && i < |order|
      requires NoDup(order) && ParentFirst(tree, order) && forall k | 0 <= k < |order| :: order[k] in context.targetNodes
      requires Consistent(Nodes(), Matched(), context.sourceNodes, context.targetNodes, ops)
      requires Ready(Nodes(), Matched(), context.sourceNodes, context.targetNodes)
      requires Hung(Nodes(), Matched(), context.targetNodes, inOrder, {})
      requires TargetsKept(tree, Nodes(), context.targetNodes)
      requires Kept(m0, Matched())
      requires Mirrored(tree, Nodes(), Matched(), order[..i])
      requires ops == ops0 + emitted0 && NoDeletes(emitted0)
      requires forall z | z in context.targetNodes :: z < |tree|
      requires Arranged(tree, Nodes(), Matched(), inOrder, order[..i]) && Labelled(tree, Nodes(), m0, Matched(), order[..i])
      modifies this`ops, this`inOrder, context.forest, context`sourceNodes, context.matching
      ensures Consistent(Nodes(), Matched(), context.sourceNodes, context.targetNodes, ops)
      ensures Ready(Nodes(), Matched(), context.sourceNodes, context.targetNodes)
      ensures Hung(Nodes(), Matched(), context.targetNodes, inOrder, {})
      ensures TargetsKept(tree, Nodes(), context.targetNodes)
      ensures Kept(m0, Matched())
      ensures Mirrored(tree, Nodes(), Matched(), order[..i + 1])
      ensures ops == ops0 + emitted && NoDeletes(emitted)
      ensures context.targetNodes == old(context.targetNodes) && old(context.sourceNodes) <= context.sourceNodes
      ensures Arranged(tree, Nodes(), Matched(), inOrder, order[..i + 1])
      ensures Labelled(tree, Nodes(), m0, Matched(), order[..i + 1])
    {
      ghost var nodes, m, sources, targets := Nodes(), Matched(), context.sourceNodes, context.targetNodes;
      ghost var m1, sources1, e, position := Visit(tree, order, i, nodes, m, sources, targets);
      VisitLabelled(tree, order, i, nodes, m0, m, sources, targets, old(ops), position, Nodes());
      RoundKeepsPairs(m, |nodes|, order[i]);
      KeptTrans(m0, m, m1);
      NoDeletesJoin(emitted0, e);
      AppendAssoc(ops0, emitted0, e);
      emitted := emitted0 + e;
    }

    /**
     * The delete phase of `generate_edit_script`: along the post-order walk of the source
     * root, every node absent from `source_target_map` is deleted, the delete recorded and
     * the node's subtree deregistered. The walk is the one of the arena as the phase
     * starts: a delete only replaces the parent's children tuple, which the walk has
     * already captured. A failed `remove_source` assertion ends the phase with `ok == false`.
     */
    method DeleteUnmatched(ghost nodes0: seq<Node>, ghost m: Matching, root: NodeId)
      returns (ok: bool, ghost deleted: seq<NodeId>)
      requires context != null && Nodes() == nodes0 && Matched() == m && Closed(nodes0) && root < |nodes0|
      modifies this`ops, context.forest, context`sourceNodes
      ensures var walk := PostOrderUpTo(nodes0, root, |nodes0|);
        && deleted <= Doomed(walk, m) && (ok ==> deleted == Doomed(walk, m))
      ensures ScriptInRange(nodes0, DeleteOps(deleted))
      ensures ops == old(ops) + DeleteOps(deleted)
      ensures Nodes() == ApplyAll(nodes0, DeleteOps(deleted)) && Matched() == m
    {
      var nodes := context.forest.nodes;
      var walk := PostOrderUpTo(nodes, root, |nodes|);
      deleted := [];
      ok := true;
      for i := 0 to |walk|
        invariant deleted == Doomed(walk[..i], m)
        invariant ScriptInRange(nodes0, DeleteOps(deleted))
        invariant ops == old(ops) + DeleteOps(deleted)
        invariant Nodes() == ApplyAll(nodes0, DeleteOps(deleted)) && Matched() == m
      {
        var source := walk[i];
        assert source in walk;
        DoomedStep(walk, m, i);
        if source !in context.matching.st {
          ok := DeleteOne(nodes0, deleted, source);
          DeleteStep(nodes0, deleted, source);
          AppendAssoc(old(ops), DeleteOps(deleted), [Delete(source)]);
          deleted := deleted + [source];
          if !ok {
            DoomedPrefix(walk, m, i + 1);
            return;
          }
        }
      }
      assert walk[..|walk|] == walk;
    }

    /**
     * One step of the delete phase: the source node is deleted, the delete recorded and the
     * node's subtree deregistered; `ok` is the outcome of the `remove_source` assertion.
     */
    method DeleteOne(ghost nodes0: seq<Node>, ghost deleted: seq<NodeId>, source: NodeId) returns (ok: bool)
      requires context != null && Closed(nodes0) && ScriptInRange(nodes0, DeleteOps(deleted)) && source < |nodes0|
      requires Nodes() == ApplyAll(nodes0, DeleteOps(deleted))
      modifies this`ops, context.forest, context`sourceNodes
      ensures Nodes() == Applied(old(Nodes()), Delete(source)) && Matched() == old(Matched())
      ensures ops == old(ops) + [Delete(source)]
      ensures (context.sourceNodes, ok) ==
        DeregisterAll(old(context.sourceNodes), PreOrderUpTo(Nodes(), source, |Nodes()|))
    {
      Apply(context.forest, Delete(source));
      ops := ops + [Delete(source)];
      ok := context.RemoveSource(source);
    }

    /**
     * The first half of `generate_edit_script`: the context is taken on, the target tree is
     * walked breadth-first from its root and every target is visited. `done` is false when
     * the target registry is empty and `first` finds no root.
     */
    method BreadthFirstPhase(c: DiffContext) returns (done: bool, ghost tree: seq<Node>, ghost emitted: seq<Operation>)
      requires Start(c.forest.nodes, c.matching.Value(), c.sourceNodes, c.targetNodes)
      modifies this, c`sourceNodes, c.forest, c.matching
      ensures context == c && tree == old(c.forest.nodes) && c.targetNodes == old(c.targetNodes)
      ensures done ==>
        && Closed(Nodes()) && (forall x | x in c.sourceNodes :: x < |Nodes()|)
        && Mirrored(tree, Nodes(), Matched(), c.targetNodes)
        && Kept(old(c.matching.Value()), Matched())
        && ops == emitted && NoDeletes(emitted)
        && old(c.sourceNodes) <= c.sourceNodes
        && Rebuilds(tree, Nodes(), old(c.matching.Value()), Matched(), old(c.sourceNodes), c.targetNodes)
    {
      ghost var m0, sources0, targets := c.matching.Value(), c.sourceNodes, c.targetNodes;
      tree, emitted := c.forest.nodes, [];
      StartWalk(tree, m0, sources0, targets);
      Prepare(c);
      var targetRoot := c.TargetRoot();
      if targetRoot.None? {
        return false, tree, emitted;
      }
      var order := Bfs(c.forest.nodes, targetRoot.value);
      emitted := VisitAll(tree, order);
      PhaseEnds(tree, Nodes(), m0, Matched(), inOrder, order, sources0, c.sourceNodes, targets, ops);
      done := true;
    }

    /**
     * `generate_edit_script`: the breadth-first phase over the target tree, then the delete
     * phase over the source tree; the script is the operations in the order they were
     * applied. None stands for a missing root (`first` of an empty registry) and for a
     * failed `remove_source` assertion.
     *
     * When a script comes back, every target node has a partner that, below the root, hangs
     * under the partner of the target's parent and carries the target's value; the matching
     * only grew; the breadth-first phase deleted nothing, and the delete phase deleted, in
     * post-order, exactly the source nodes left unmatched.
     */
    method GenerateEditScript(c: DiffContext)
      returns (script: Option<seq<Operation>>, ghost emitted: seq<Operation>, ghost middle: seq<Node>,
               ghost root: NodeId, ghost deleted: seq<NodeId>)
      requires Start(c.forest.nodes, c.matching.Value(), c.sourceNodes, c.targetNodes)
      modifies this, c`sourceNodes, c.forest, c.matching
      ensures context == c
      ensures script.Some? ==> script.value == ops && ops == emitted + DeleteOps(deleted) && NoDeletes(emitted)
      ensures script.Some? ==> Mirrored(old(c.forest.nodes), c.forest.nodes, c.matching.Value(), c.targetNodes)
      ensures script.Some? ==> Kept(old(c.matching.Value()), c.matching.Value())
      ensures script.Some? ==>
        && Closed(middle) && root < |middle|
        && deleted == Doomed(PostOrderUpTo(middle, root, |middle|), c.matching.Value())
        && ScriptInRange(middle, DeleteOps(deleted))
        && c.forest.nodes == ApplyAll(middle, DeleteOps(deleted))
      ensures script.Some? && RootsPaired(old(c.forest.nodes), old(c.matching.Value()), old(c.sourceNodes), old(c.targetNodes)) ==>
        && root == old(c.sourceNodes)[0]
        && ToTreeUpTo(c.forest.nodes, root, |c.forest.nodes|) == ToTree(old(c.forest.nodes), old(c.targetNodes)[0])
    {
      script, middle, root, deleted := None, [], 0, [];
      var done;
      ghost var tree;
      done, tree, emitted := BreadthFirstPhase(c);
      if !done {
        return;
      }
      var ok;
      ok, middle, root, deleted := DeletePhase(tree, old(c.matching.Value()), old(c.sourceNodes), c.targetNodes);
      if !ok {
        return;
      }
      script := Some(ops);
    }

    /**
     * The second half of `generate_edit_script`: the delete phase from the first registered
     * source node, on the state the breadth-first phase leaves. `ok` is false when no source
     * node is registered (`first` of an empty registry) or a `remove_source` assertion fails.
     */
    method DeletePhase(ghost tree: seq<Node>, ghost m0: Matching, ghost sources0: seq<NodeId>, ghost targets: seq<NodeId>)
      returns (ok: bool, ghost middle: seq<Node>, ghost root: NodeId, ghost deleted: seq<NodeId>)
      requires context != null && context.targetNodes == targets
      requires Closed(Nodes()) && Mirrored(tree, Nodes(), Matched(), targets)
      requires Rebuilds(tree, Nodes(), m0, Matched(), sources0, targets)
      requires sources0 <= context.sourceNodes && forall x | x in context.sourceNodes :: x < |Nodes()|
      modifies this`ops, context.forest, context`sourceNodes
      ensures middle == old(Nodes()) && Matched() == old(Matched()) && context.targetNodes == targets
      ensures ok ==>
        && root < |middle|
        && deleted == Doomed(PostOrderUpTo(middle, root, |middle|), Matched())
        && ScriptInRange(middle, DeleteOps(deleted))
        && Nodes() == ApplyAll(middle, DeleteOps(deleted))
        && ops == old(ops) + DeleteOps(deleted)
        && Mirrored(tree, Nodes(), Matched(), targets)
      ensures ok && RootsPaired(tree, m0, sources0, targets) ==>
        && root == sources0[0]
        && ToTreeUpTo(Nodes(), root, |Nodes()|) == ToTree(tree, targets[0])
    {
      middle, root, deleted := Nodes(), 0, [];
      var sourceRoot := context.SourceRoot();
      if sourceRoot.None? {
        return false, middle, root, deleted;
      }
      root := sourceRoot.value;
      assert root in context.sourceNodes;
      ghost var sources := context.sourceNodes;
      ghost var m := Matched();
      ok, deleted := DeleteUnmatched(middle, m, sourceRoot.value);
      if ok {
        DeletesKeepMirrored(tree, middle, m, targets, deleted);
        assert RootsPaired(tree, m0, sources0, targets) ==> sources0 != [] && root == sources0[0];
      }
    }
  }
}
