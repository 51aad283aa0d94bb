/**
 * Grouping of equally hashed nodes during the top-down GumTree phase
 * (astdiff/matcher/gumtree_utils.py).
 *
 * A `Mapping` holds two Python sets of node ids. Here each set is a duplicate-free sequence
 * in the order its ids were added, which is also the order in which this model iterates
 * it; the `MappingStore` dict keeps its keys in insertion order, like Python's dict.
 */
module GumTreeUtils {
  import opened Base
  import opened Nodes

  /** `Mapping`: source and target ids sharing one hashcode. */
  datatype Mapping = Mapping(sourceIds: seq<NodeId>, targetIds: seq<NodeId>)

  const EmptyMapping := Mapping([], [])

  /** `duplicate`: both sides non-empty and at least one side with more than one id. */
  predicate IsDuplicate(m: Mapping)
  {
    |m.sourceIds| > 0 && |m.targetIds| > 0 && (|m.sourceIds| > 1 || |m.targetIds| > 1)
  }

  /** `unique`: exactly one id on each side. */
  predicate IsUnique(m: Mapping)
  {
    |m.sourceIds| == 1 && |m.targetIds| == 1
  }

  /** `unmatched`: some side is empty. */
  predicate IsUnmatched(m: Mapping)
  {
    |m.sourceIds| == 0 || |m.targetIds| == 0
  }

  /** The three properties as one classification. */
  datatype Kind = UniqueKind | DuplicateKind | UnmatchedKind

  function KindOf(m: Mapping): (k: Kind)
    ensures k == UniqueKind <==> IsUnique(m)
    ensures k == DuplicateKind <==> IsDuplicate(m)
    ensures k == UnmatchedKind <==> IsUnmatched(m)
  {
    if |m.sourceIds| == 0 || |m.targetIds| == 0 then UnmatchedKind
    else if |m.sourceIds| == 1 && |m.targetIds| == 1 then UniqueKind
    else DuplicateKind
  }

  /** Every mapping is exactly one of unique, duplicate and unmatched. */
  lemma ExactlyOneKind(m: Mapping)
    ensures IsUnique(m) || IsDuplicate(m) || IsUnmatched(m)
    ensures !(IsUnique(m) && IsDuplicate(m))
    ensures !(IsUnique(m) && IsUnmatched(m))
    ensures !(IsDuplicate(m) && IsUnmatched(m))
  {
    var _ := KindOf(m);
  }

  /** Every source id is a node with metadata. */
  predicate SourcesMeasured(nodes: seq<Node>, m: Mapping)
  {
    forall x | x in m.sourceIds :: x < |nodes| && nodes[x].metadata.Some?
  }

  /**
   * `max_size`: the largest metadata size among the source nodes. `max` over an empty set
   * raises, which None reports.
   */
  function MaxSize(nodes: seq<Node>, m: Mapping): (r: Option<nat>)
    requires SourcesMeasured(nodes, m)
    ensures r.Some? <==> m.sourceIds != []
    ensures r.Some? ==> forall x | x in m.sourceIds :: nodes[x].metadata.value.size <= r.value
    ensures r.Some? ==> exists x | x in m.sourceIds :: nodes[x].metadata.value.size == r.value
    decreases |m.sourceIds|
  {
    if m.sourceIds == [] then None
    else
      assert m.sourceIds[0] in m.sourceIds;
      var here := nodes[m.sourceIds[0]].metadata.value.size;
      assert forall x | x in m.sourceIds[1..] :: x in m.sourceIds;
      var rest := MaxSize(nodes, Mapping(m.sourceIds[1..], m.targetIds));
      assert forall x | x in m.sourceIds :: x == m.sourceIds[0] || x in m.sourceIds[1..];
      if rest.None? || rest.value <= here then Some(here) else rest
  }

  /** A duplicate mapping has a source node, so `max_size` never raises on one. */
  lemma DuplicateHasMaxSize(nodes: seq<Node>, m: Mapping)
    requires SourcesMeasured(nodes, m)
    requires IsDuplicate(m)
    ensures MaxSize(nodes, m).Some?
  {
  }

  /** `set.add` on the source side. */
  function AddSourceId(m: Mapping, id: NodeId): (r: Mapping)
    ensures r.targetIds == m.targetIds
    ensures forall x :: x in r.sourceIds <==> x in m.sourceIds || x == id
    ensures NoDup(m.sourceIds) ==> NoDup(r.sourceIds)
  {
    if id in m.sourceIds then m
    else
      assert NoDup(m.sourceIds) ==> NoDup(m.sourceIds + [id]) by {
        if NoDup(m.sourceIds) { NoDupAppend(m.sourceIds, [id]); }
      }
      Mapping(m.sourceIds + [id], m.targetIds)
  }

  /** `set.add` on the target side. */
  function AddTargetId(m: Mapping, id: NodeId): (r: Mapping)
    ensures r.sourceIds == m.sourceIds
    ensures forall x :: x in r.targetIds <==> x in m.targetIds || x == id
    ensures NoDup(m.targetIds) ==> NoDup(r.targetIds)
  {
    if id in m.targetIds then m
    else
      assert NoDup(m.targetIds) ==> NoDup(m.targetIds + [id]) by {
        if NoDup(m.targetIds) { NoDupAppend(m.targetIds, [id]); }
      }
      Mapping(m.sourceIds, m.targetIds + [id])
  }

  /** The mappings of the given kind, in order: the three generators of `MappingStore`. */
  function Select(ms: seq<Mapping>, k: Kind): (r: seq<Mapping>)
    ensures |r| <= |ms|
  {
    if ms == [] then []
    else (if KindOf(ms[0]) == k then [ms[0]] else []) + Select(ms[1..], k)
  }

  /**
   * The three generators split the stored mappings: every mapping appears under exactly
   * its own kind, and the three counts add up to the number of mappings.
   */
  lemma {:induction false} SelectPartitions(ms: seq<Mapping>)
    ensures |Select(ms, UniqueKind)| + |Select(ms, DuplicateKind)| + |Select(ms, UnmatchedKind)| == |ms|
    ensures forall m :: m in Select(ms, UniqueKind) <==> m in ms && IsUnique(m)
    ensures forall m :: m in Select(ms, DuplicateKind) <==> m in ms && IsDuplicate(m)
    ensures forall m :: m in Select(ms, UnmatchedKind) <==> m in ms && IsUnmatched(m)
  {
    if ms != [] {
      SelectPartitions(ms[1..]);
      SelectMembers(ms, UniqueKind);
      SelectMembers(ms, DuplicateKind);
      SelectMembers(ms, UnmatchedKind);
    }
  }

  lemma {:induction false} SelectMembers(ms: seq<Mapping>, k: Kind)
    ensures forall m :: m in Select(ms, k) <==> m in ms && KindOf(m) == k
  {
    if ms != [] {
      SelectMembers(ms[1..], k);
      assert forall m :: m in ms <==> m == ms[0] || m in ms[1..];
    }
  }

  /**
   * `MappingStore`: a defaultdict from hashcode to mapping, updated in place. `hashes`
   * holds the dict keys in insertion order.
   */
  class MappingStore {
    var hashes: seq<int>
    var mappings: map<int, Mapping>

    predicate Valid()
      reads this
    {
      && NoDup(hashes)
      && mappings.Keys == set h | h in hashes
      && (forall h | h in mappings :: NoDup(mappings[h].sourceIds) && NoDup(mappings[h].targetIds))
    }

    /** Every stored id is a node whose hashcode is the key it is stored under. */
    predicate Grouped(nodes: seq<Node>)
      reads this
    {
      forall h | h in mappings ::
        && (forall x | x in mappings[h].sourceIds :: x < |nodes| && nodes[x].metadata.Some? && nodes[x].metadata.value.hashcode == h)
        && (forall x | x in mappings[h].targetIds :: x < |nodes| && nodes[x].metadata.Some? && nodes[x].metadata.value.hashcode == h)
    }

    constructor()
      ensures hashes == [] && mappings == map[]
      ensures Valid()
    {
      hashes, mappings := [], map[];
    }

    /** The mapping stored under `h`, or the empty one a defaultdict would create. */
    function Get(h: int): Mapping
      reads this
    {
      if h in mappings then mappings[h] else EmptyMapping
    }

    /** `add_source`: the node's id joins the mapping of its hashcode. */
    method AddSource(nodes: seq<Node>, id: NodeId)
      requires Valid() && id < |nodes| && nodes[id].metadata.Some?
      modifies this
      ensures Valid()
      ensures var h := nodes[id].metadata.value.hashcode;
        && mappings == old(mappings)[h := AddSourceId(old(Get(h)), id)]
        && hashes == if h in old(mappings) then old(hashes) else old(hashes) + [h]
      ensures old(Grouped(nodes)) ==> Grouped(nodes)
    {
      var h := nodes[id].metadata.value.hashcode;
      if h !in mappings {
        NoDupAppend(hashes, [h]);
        hashes := hashes + [h];
      }
      mappings := mappings[h := AddSourceId(Get(h), id)];
    }

    /** `add_target`: the node's id joins the mapping of its hashcode. */
    method AddTarget(nodes: seq<Node>, id: NodeId)
      requires Valid() && id < |nodes| && nodes[id].metadata.Some?
      modifies this
      ensures Valid()
      ensures var h := nodes[id].metadata.value.hashcode;
        && mappings == old(mappings)[h := AddTargetId(old(Get(h)), id)]
        && hashes == if h in old(mappings) then old(hashes) else old(hashes) + [h]
      ensures old(Grouped(nodes)) ==> Grouped(nodes)
    {
      var h := nodes[id].metadata.value.hashcode;
      if h !in mappings {
        NoDupAppend(hashes, [h]);
        hashes := hashes + [h];
      }
      mappings := mappings[h := AddTargetId(Get(h), id)];
    }

    /** `mappings.values()`, in key insertion order. */
    function Values(): (r: seq<Mapping>)
      reads this
      requires Valid()
      ensures |r| == |hashes|
      ensures forall k | 0 <= k < |r| :: r[k] == mappings[hashes[k]]
    {
      var hs, ms := hashes, mappings;
      seq(|hs|, k requires 0 <= k < |hs| => ms[hs[k]])
    }

    /** `candidate_mappings`. */
    function CandidateMappings(): (r: seq<Mapping>)
      reads this
      requires Valid()
      ensures forall m :: m in r <==> m in Values() && IsDuplicate(m)
    {
      SelectPartitions(Values());
      Select(Values(), DuplicateKind)
    }

    /** `unique_mappings`. */
    function UniqueMappings(): (r: seq<Mapping>)
      reads this
      requires Valid()
      ensures forall m :: m in r <==> m in Values() && IsUnique(m)
    {
      SelectPartitions(Values());
      Select(Values(), UniqueKind)
    }

    /** `unmatched_mappings`. */
    function UnmatchedMappings(): (r: seq<Mapping>)
      reads this
      requires Valid()
      ensures forall m :: m in r <==> m in Values() && IsUnmatched(m)
    {
      SelectPartitions(Values());
      Select(Values(), UnmatchedKind)
    }
  }

  /**
   * In a grouped store the ids of one mapping all share a hashcode, so the two ids of a
   * unique mapping are `isomorphic_to` each other.
   */
  lemma UniqueMappingIsIsomorphic(store: MappingStore, nodes: seq<Node>, m: Mapping)
    requires store.Valid() && store.Grouped(nodes)
    requires m in store.Values() && IsUnique(m)
    ensures m.sourceIds[0] < |nodes| && m.targetIds[0] < |nodes|
    ensures IsomorphicTo(nodes[m.sourceIds[0]], nodes[m.targetIds[0]])
  {
    var k :| 0 <= k < |store.hashes| && store.Values()[k] == m;
    var h := store.hashes[k];
    assert h in store.mappings && m == store.mappings[h];
    assert m.sourceIds[0] in store.mappings[h].sourceIds && m.targetIds[0] in store.mappings[h].targetIds;
  }
}
