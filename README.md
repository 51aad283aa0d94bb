# ast-diff core, modelled in Dafny

This project models the core of **ast-diff**, a structural differ for abstract syntax trees:
- it matches the nodes of a source tree with the nodes of a target tree using the GumTree algorithm
  (a top-down phase over isomorphic subtrees, then a bottom-up phase over containers);
- it then produces an edit script (Insert, Delete, Update, Move) with the algorithm of Chawathe
  et al., which also applies every operation to the source tree as it goes.

The model keeps every node in one arena, a `seq<Node>` indexed by `NodeId`. This is how the
Python code identifies nodes with `id()`. A node records its label, value, children, parent link
and metadata (size, height, hash). The value-level `Tree` datatype is what Python's `==` on nodes
compares; `Nodes.ToTree` projects an arena node to it.

Modules, one per source file:
- `Base`, `Builtins`: the Python built-ins the core relies on (`list.insert`, a stable
  `sorted`, `max`, `itertools.product`).
- `Nodes`: `astdiff/ast/node.py`. `Metadata`: `astdiff/ast/metadata.py`. `Traversal`:
  `astdiff/ast/traversal.py` and `astdiff/traversal.py`.
- `Context`: `astdiff/context.py`, the matching set and the diff context.
- `Util`: `astdiff/util.py` and `astdiff/queue.py` (`group_by`, the LCS, the height-indexed
  priority queue).
- `Ops`, `EditScripts`: `astdiff/editscript/ops.py` and `astdiff/editscript/__init__.py`.
- `GumTreeUtils`, `GumTree`: `astdiff/matcher/gumtree_utils.py` and `astdiff/matcher/gumtree.py`.
- `Alignment`, `WithMove`: `astdiff/generator/with_move.py`.

Code that changes state in place keeps that form. These are classes with fields and `modifies`
clauses, proved against specification functions on the arena:
- `Nodes.Forest`: node attributes;
- `Context.MatchingSet` and `Context.DiffContext`;
- `Util.HeightQueue`;
- `GumTreeUtils.MappingStore`;
- `GumTree.GumTreeMatcher`;
- `WithMove.WithMoveGenerator`.

Python's assertion failures and the `ZeroDivisionError` of the Dice coefficient become failure
outcomes (`ok == false`, `None`). They are not preconditions.

## Model

| member | source | states |
|---|---|---|
| Nodes.ToTree | astdiff/ast/node.py:35-46 | the structural value `==` compares: a node's label, value and child count, with parent, metadata and position left out |
| Nodes.EqualIgnoresLinks | astdiff/ast/node.py:44-46 | structural equality is unchanged by any change to parent links or metadata (those fields are `compare=False`) |
| Nodes.LinkedIsUnshared | astdiff/ast/node.py:41-44 | parent links that agree with the children lists mean no node is listed twice as a child |
| Nodes.PositionInSiblings | astdiff/ast/node.py:56-64 | `position_in_siblings`: None for a root or a node missing from its siblings, otherwise the first index at which the node itself sits among its parent's children |
| Nodes.PositionOfLinkedNode | astdiff/ast/node.py:56-60 | in a linked forest a non-root node is found among its siblings exactly once |
| Nodes.CompareFields | astdiff/ast/node.py:71-78 | `compare_fields`: label, value, child count and the hashcode only once metadata is attached |
| Nodes.FieldsOrderIsStrictTotal | astdiff/ast/node.py:71-78 | the order on `compare_fields` tuples is irreflexive, transitive and total on distinct tuples, so it is stable and deterministic |
| Nodes.LexLessTotal | astdiff/ast/node.py:118-119 | Python's lexicographic `<` on code-point sequences orders any two distinct sequences |
| Nodes.LexLessTransitive | astdiff/ast/node.py:118-119 | the lexicographic `<` is transitive |
| Nodes.CodesInjective | astdiff/ast/node.py:118-119 | distinct strings have distinct code-point sequences, so string `<` separates them |
| Nodes.Standalone | astdiff/ast/node.py:80-84 | `standalone`: same label and value, no children, no parent, no metadata |
| Nodes.IsomorphicWithoutValuesIff | astdiff/ast/node.py:102-116 | `isomorphic_to_without_values` holds exactly when the two trees are equal once every value is blanked |
| Nodes.IsomorphicWithoutValuesReflexive | astdiff/ast/node.py:102-116 | every subtree is isomorphic to itself when values are ignored |
| Nodes.EqualImpliesIsomorphicWithoutValues | astdiff/ast/node.py:86-116 | `==`-equal subtrees are isomorphic without values, can match and have as many children |
| Nodes.Forest.SetSiblings | astdiff/ast/node.py:66-69 | the `siblings` setter replaces the parent's children and does nothing on a root; no other slot changes |
| Nodes.Forest.SetParent | astdiff/ast/node.py:44 | `node.parent = p` changes only that slot's parent |
| Nodes.Forest.NewNode | astdiff/ast/node.py:36-46 | `Node(label, value)` appends a fresh slot with no children, parent or metadata |
| Metadata.Size | astdiff/ast/metadata.py:27-35 | the size of a tree is at least 1 (1 for a leaf, 1 plus the children's sizes otherwise) |
| Metadata.Height | astdiff/ast/metadata.py:38-46 | the height of a tree is at least 1 (1 for a leaf, 1 plus the tallest child otherwise) |
| Metadata.TreePairs | astdiff/ast/metadata.py:54-78 | a tree's hashcode is the hash of its label and value folded over its children's (hashcode, size) pairs |
| Metadata.CalculateHash | astdiff/ast/metadata.py:54-92 | `_calculate_hash`: both the leaf branch (exponent 1) and the loop over the children equal the fold over the children's (hashcode, size) pairs |
| Metadata.CalculateSizeMatchesTree | astdiff/ast/metadata.py:27-35 | once the children carry metadata, `_calculate_size` is the size of the subtree |
| Metadata.CalculateHeightMatchesTree | astdiff/ast/metadata.py:38-46 | once the children carry metadata, `_calculate_height` is the height of the subtree |
| Metadata.ChildPairsMatchTree | astdiff/ast/metadata.py:74-76 | once the children carry metadata, the pairs read from them are those of the subtree |
| Metadata.AttachMetadata | astdiff/ast/metadata.py:14-24 | `attach_metadata`: afterwards every node of the subtree carries the metadata of the subtree it roots; only metadata changes, and only inside the subtree |
| Metadata.AttachDone | astdiff/ast/metadata.py:14-24 | after the post-order walk every node of the subtree carries its own metadata and nothing outside it changed |
| Metadata.ChildrenReady | astdiff/ast/metadata.py:19 | in post-order the children of each node got their metadata before the node itself |
| Metadata.SizeCountsNodes | astdiff/ast/metadata.py:27-35 | size counts the nodes of the subtree (its pre-order walk) |
| Metadata.HashExponent | astdiff/ast/metadata.py:71-78 | the end marker is weighted by 33 to the power 2*size-1 |
| Metadata.LeafHash | astdiff/ast/metadata.py:65-66 | a leaf hashes as hash(start) + hash(end)*33, with size and height 1 |
| Metadata.EqualTreesAreIsomorphic | astdiff/ast/node.py:92-100 | subtrees equal under `==` carry equal metadata, so `isomorphic_to` holds between them (the hashcode docstring's "if" direction) |
| Metadata.MetadataFacts | astdiff/ast/metadata.py:14-46 | attached metadata: size counts the subtree's nodes, height is at least 1, every child is shorter |
| Metadata.AddParents | astdiff/ast/metadata.py:5-11 | `add_parents`: every child in the subtree points back at the node listing it; only parent links change, the root keeps its parent |
| Metadata.AddParentsDone | astdiff/ast/metadata.py:5-11 | after the walk every listed child points at its parent and no other node's parent changed |
| Metadata.LinkChildren | astdiff/ast/metadata.py:10-11 | the inner loop of `add_parents`: every child of the current node of the walk points at it, the earlier nodes' children keep their links and no other parent changes |
| Metadata.LinkStep | astdiff/ast/metadata.py:10-11 | pointing the next child at its parent keeps the loop facts |
| Traversal.PreOrder | astdiff/ast/traversal.py:15-23 | `pre_order_walk` (also astdiff/traversal.py:4-8): starts with the node itself |
| Traversal.PostOrder | astdiff/ast/traversal.py:26-34 | `post_order_walk` (also astdiff/traversal.py:11-15): ends with the node itself |
| Traversal.Descendants | astdiff/ast/traversal.py:6-12 | `descendants`: the node followed by its descendants is the pre-order walk |
| Traversal.DescendantsAreStrictSubtree | astdiff/ast/traversal.py:6-12 | `descendants` yields exactly the walked nodes other than the start |
| Traversal.PreOrderRange | astdiff/ast/traversal.py:15-23 | a walk stays inside the arena and below its start |
| Traversal.ChildWalkIncluded | astdiff/ast/traversal.py:22-23 | the walk from a child is contained in the walk from its parent |
| Traversal.PostOrderSameNodes | astdiff/ast/traversal.py:26-34 | post-order visits the same nodes as pre-order, as many of them |
| Traversal.PostOrderChildBefore | astdiff/ast/traversal.py:31-34 | post-order yields every child before its parent (bottom-up) |
| Traversal.WalksIgnoreLinks | astdiff/ast/traversal.py:15-34 | the walks read only the children lists, not parents or metadata |
| Traversal.WalkParentInWalk | astdiff/ast/traversal.py:15-23 | every walked node other than the start has its parent in the walk |
| Traversal.SiblingWalksDisjoint | astdiff/ast/traversal.py:22-23 | the subtrees of two different children share no node |
| Traversal.WalksVisitOnce | astdiff/ast/traversal.py:15-34 | both walks visit every node of the subtree exactly once |
| Traversal.PostOrderUpTo | astdiff/ast/traversal.py:26-34 | the post-order walk over an arena whose links no longer follow index order (after edits) ends with the start and stays in the arena |
| Traversal.WalksUpToAgree | astdiff/ast/traversal.py:15-34 | on an index-ordered arena the cut-off walks equal the plain walks |
| Traversal.BfsPermutation | astdiff/ast/traversal.py:37-45 | `bfs` yields every node of the tree exactly as often as the pre-order walk |
| Traversal.BfsDepthOrdered | astdiff/ast/traversal.py:37-45 | from a deque sorted by depth, `bfs` yields depths in non-decreasing order |
| Traversal.Bfs | astdiff/ast/traversal.py:37-45 | `bfs` with its deque loop: root first, a permutation of the tree's nodes, equal to the unfolded definition |
| Traversal.BfsVisitsTreeByLevels | astdiff/ast/traversal.py:37-45 | on a tree, `bfs` yields the root first, each node once, by level, so a parent before its children |
| Builtins.SortDescendingIsSortedPermutation | astdiff/matcher/gumtree.py:127 | `sort(key=..., reverse=True)` returns the same elements with keys in non-increasing order |
| Builtins.SortDescendingStable | astdiff/matcher/gumtree.py:127 | the sort is stable: elements sharing a key keep their order, as Python's sort does with `reverse=True` |
| Builtins.InsertDescendingStable | astdiff/matcher/gumtree.py:132-139 | inserting behind the larger or equal keys puts the element after every element with its own key |
| Builtins.Best | astdiff/matcher/gumtree.py:163-167 | `max(..., default=(-inf, None))`: None exactly on no candidates, otherwise a candidate no other candidate exceeds in (dice, pair) order |
| Builtins.Product | astdiff/matcher/gumtree.py:133-136 | `itertools.product` yields as many pairs as the two lengths multiplied |
| Builtins.ProductMembers | astdiff/matcher/gumtree.py:133-136 | the product holds exactly the pairs joining an element of each list |
| Base.MaxOf | astdiff/ast/metadata.py:46 | `max(xs)` is at least every element and is one of them |
| Base.IndexOf | astdiff/ast/node.py:56-60 | the `next(..., None)` search: None exactly when absent, otherwise the first index holding the element |
| Base.Without | astdiff/editscript/ops.py:84 | the filtered children tuple: the element is gone, every other element stays, order and uniqueness are kept, one fewer when it occurred once |
| Base.InsertAt | astdiff/editscript/ops.py:49-51 | `list.insert(position, x)`: one longer, `x` at the position clamped to the length, the others shifted |
| Base.InsertAtSplit | astdiff/editscript/ops.py:49-51 | the inserted list is the prefix, the new element and the suffix |
| Base.InsertAtNoDup | astdiff/editscript/ops.py:49-51 | inserting a new element into a list without repetitions repeats nothing |
| Ops.InsertIndex | astdiff/editscript/ops.py:49-50 | where `list.insert` puts the node: the position itself when inside the list, clamped to the ends, negative positions counted from the end |
| Ops.DeleteNode | astdiff/editscript/ops.py:80-84 | `Delete.apply`: a root is untouched; otherwise the node leaves its parent's children, the other children keep their order, its own parent link is kept, and only that parent's children list changes |
| Ops.DeleteNodeCut | astdiff/editscript/ops.py:84 | a node listed once among its siblings is cut out at that index |
| Ops.InsertNode | astdiff/editscript/ops.py:43-52 | `Insert.apply`: without a parent nothing changes; otherwise the node enters the parent's children at the `list.insert` index and points back at the parent; nothing else changes |
| Ops.MoveNode | astdiff/editscript/ops.py:65-70 | `Move.apply`: the node leaves its old parent and, given a parent, ends up among that parent's children pointing back at it; only the two children lists and the node's parent change |
| Ops.MoveIsDeleteInsert | astdiff/editscript/ops.py:69-70 | a move under a parent is the insert applied after the delete |
| Ops.UpdateValue | astdiff/editscript/ops.py:97-101 | `Update.apply`: the node's value becomes the new one and nothing else changes |
| Ops.Applied | astdiff/editscript/ops.py:19-24 | the arena after `op.apply()` for each of the four operation kinds stays closed and the same size |
| Ops.ApplyDelete | astdiff/editscript/ops.py:80-84 | applying a delete in place leaves the forest equal to `DeleteNode` of the old one |
| Ops.ApplyInsert | astdiff/editscript/ops.py:43-52 | applying an insert in place leaves the forest equal to `InsertNode` of the old one |
| Ops.Apply | astdiff/editscript/ops.py:43-101 | applying any operation in place leaves the forest equal to `Applied` of the old one |
| Ops.InsertThenDelete | astdiff/editscript/ops.py:43-84 | deleting a node just inserted gives back the arena, except for the node's new parent link |
| Ops.UpdateRestores | astdiff/editscript/ops.py:97-101 | updating back to the old value restores the arena |
| Ops.MoveKeepsLinked | astdiff/editscript/ops.py:65-70 | a move under a parent keeps the forest linked; a root moved is simply inserted |
| Ops.DeletedIsOrphan | astdiff/editscript/ops.py:80-84 | after a delete the node is nobody's child and no children list gained anything |
| Ops.MoveAmongSiblings | astdiff/editscript/ops.py:65-70 | moving a child back under its own parent only reorders that parent's children |
| Ops.MoveReorders | astdiff/editscript/ops.py:65-70 | such a move permutes the parent's children (same multiset) |
| Ops.StandaloneOf | astdiff/editscript/ops.py:26-107 | `standalone`: fails exactly for an insert or move without a parent; the node becomes its detached copy, an update's copy carries the old value when there is one |
| EditScripts.ApplyAll | astdiff/editscript/ops.py:19-24 | applying a script keeps the arena closed and its size |
| EditScripts.ApplyAllSnoc | astdiff/editscript/ops.py:19-24 | applying a script then one more operation is applying the longer script |
| EditScripts.StandaloneScript | astdiff/editscript/__init__.py:11-15 | `EditScript.standalone`: Some exactly when every operation's copy exists, then the copies in the same order |
| EditScripts.StandaloneKeepsKinds | astdiff/editscript/__init__.py:11-15 | the standalone script keeps every operation's kind in order and detaches every node |
| Context.PairOrderIsStrictTotal | astdiff/context.py:25-26 | `MatchingPair.__lt__` on (source, target) is a strict total order |
| Context.AddKeepsBijection | astdiff/context.py:38-45 | `add` keeps the two dicts mutual inverses and grows each by exactly the new pair |
| Context.AddAllKeepsBijection | astdiff/context.py:47-52 | `update` keeps the dicts mutual inverses whether or not an assertion stops it, and when it does not stop every pair ends up in both dicts |
| Context.AddAllKeepsValues | astdiff/context.py:42-52 | pairs already recorded stay recorded: `update` never overwrites an entry |
| Context.AddAllFrom | astdiff/context.py:47-52 | after `update` an old entry keeps its value and every new entry is one of the added pairs |
| Context.TargetsDistinct | astdiff/context.py:35-45 | the targets of the recorded pairs repeat nothing and are exactly the target dict's keys |
| Context.BijectiveSameSize | astdiff/context.py:63-65 | the equality `__len__` asserts always holds: both dicts have as many keys as pairs recorded |
| Context.MatchingSet.constructor | astdiff/context.py:29-36 | a new matching set is empty |
| Context.MatchingSet.Add | astdiff/context.py:38-45 | `add`: fails, changing nothing, exactly when either side is already matched; otherwise records the pair in both dicts |
| Context.MatchingSet.Update | astdiff/context.py:47-52 | `update`: `add` for each pair in order, stopping at the first failed assertion |
| Context.MatchingSet.Len | astdiff/context.py:63-65 | `__len__` is the number of source keys, which equals the number of target keys |
| Context.MatchingSet.Pairs | astdiff/context.py:67-72 | `pairs`: every recorded pair exactly once, and nothing else |
| Context.PairsOfListsAll | astdiff/context.py:67-72 | the pairs in insertion order list every recorded pair and only those |
| Context.Place | astdiff/context.py:90-92 | the deep copies: the source arena followed by the target arena shifted past it |
| Context.PlaceKeepsSource | astdiff/context.py:91 | the copy of the source tree equals the original under `==`, with the same pre-order walk |
| Context.PlaceKeepsTarget | astdiff/context.py:92 | the copy of the target tree equals the original under `==` |
| Context.RegisterAllSpec | astdiff/context.py:96-103 | registering a walk succeeds exactly when it repeats nothing and meets no registered id; it then appends the walk |
| Context.DeregisterAllSpec | astdiff/context.py:105-112 | removing a walk succeeds exactly when it repeats nothing and every id is registered; the other ids stay in order |
| Context.PartnerIn | astdiff/context.py:114-127 | `partner`: None exactly when the node is in neither dict; the source-to-target dict is consulted first |
| Context.DiffContext.constructor | astdiff/context.py:90-94 | the context holds copies equal to both trees, registers their nodes in pre-order (roots first) and starts with an empty matching set |
| Context.DiffContext.Partner | astdiff/context.py:114-127 | `partner` on the context's matching set, with the same two lookups |
| Context.DiffContext.SourceRoot | astdiff/context.py:135-137 | `source_root`: the first registered source node, None where `first` would raise on an empty registry |
| Context.DiffContext.TargetRoot | astdiff/context.py:139-141 | `target_root`: the first registered target node |
| Context.DiffContext.AddSource | astdiff/context.py:96-103 | `add_source`: registers the subtree in pre-order, failing at the first id already registered |
| Context.DiffContext.RemoveSource | astdiff/context.py:105-112 | `remove_source`: deregisters the subtree in pre-order, failing at the first id not registered |
| Context.PartnerOfPartner | astdiff/context.py:114-127 | `partner` is an involution on matched nodes |
| Context.ContextPartnerOfPartner | astdiff/context.py:114-133 | on a context: `partner(partner(x)) is x`, and `unmatched` means absent from both dicts |
| Util.GroupBy | astdiff/util.py:16-22 | `group_by`: the keys in first-seen order, and each key's list holds exactly the items with that key, in input order |
| Util.FilterEmpty | astdiff/util.py:16-22 | a key has a non-empty group exactly when some item carries it |
| Util.FilterMembers | astdiff/util.py:16-22 | every group holds only items of its key, and every item sits in the group of its key |
| Util.GroupKeysDistinct | astdiff/util.py:16-22 | the keys repeat nothing and are exactly the keys the items carry |
| Util.GroupByKeepsCount | astdiff/util.py:16-22 | `group_by` neither loses nor duplicates items: the group sizes add up to the item count |
| Util.LongestCommonSubsequence | astdiff/util.py:25-60 | `longest_common_subsequence`: the table loop and the two-cursor loop yield the pairs at the collected indices, which form a common subsequence (increasing on both sides, equal under `equals_fn`) of the table's length |
| Util.LcsTable | astdiff/util.py:30-44 | the table loop fills every entry with the LCS length of the two suffixes |
| Util.CursorStep | astdiff/util.py:50-60 | each move of the cursors follows the table: a match moves both, otherwise the cursor that keeps the longer remainder, the source cursor on a tie |
| Util.LcsIndicesHold | astdiff/util.py:46-60 | the collected index pairs are increasing on both sides, equal under `equals_fn`, and as many as the table entry |
| Util.LcsLengthSteps | astdiff/util.py:38-44 | a step of either cursor loses at most one from the remaining LCS length and never gains |
| Util.LcsIsLongest | astdiff/util.py:30-44 | no common subsequence is longer than the table entry, so the result is a longest common subsequence |
| Util.LcsOfEqualInputs | astdiff/util.py:25-60 | a sequence against itself under a reflexive `equals_fn` pairs every position with itself |
| Util.LcsOfEqualInputsIsZip | astdiff/util.py:25-60 | equal inputs give the zip of the input with itself |
| Util.LcsTieBreak | astdiff/util.py:56-57 | on a tie the source cursor moves first: "12" against "21" keeps "2", the swapped call keeps "1" |
| Util.MaxHeight | astdiff/util.py:96-101 | the largest stored height, 0 for an empty heap |
| Util.IdLessOrder | astdiff/ast/node.py:118-119 | `Node.__lt__` on arena nodes is irreflexive and transitive |
| Util.HeightQueue.constructor | astdiff/util.py:68-69 | a new queue is empty |
| Util.HeightQueue.Len | astdiff/util.py:71-72 | `__len__` is the number of stored entries |
| Util.HeightQueue.PeekMax | astdiff/util.py:96-101 | `peek_max`: the height of the tallest node, 0 when empty |
| Util.HeightQueue.Push | astdiff/util.py:81-85 | `push`: one more entry keyed by the node's height |
| Util.HeightQueue.Open | astdiff/util.py:74-79 | `open`: pushes every child, left to right |
| Util.HeightQueue.Pop | astdiff/util.py:87-94 | `pop`: yields exactly the nodes at the old maximum height, ascending by `Node.__lt__` as heapq pops `(-height, node)`, and leaves the others; the flag is false exactly when the maximum was 0 |
| Util.SmallestAt | astdiff/util.py:93 | the entry `heappop` takes among those at the maximum: no other entry at that height is smaller |
| Util.PopLeavesShorter | astdiff/util.py:87-94 | after `pop` only strictly shorter nodes remain, and the popped nodes are exactly those stored at the old maximum |
| Util.LayerRemove | astdiff/util.py:93-94 | taking an entry out takes its id out of the layer and keeps the others |
| GumTreeUtils.KindOf | astdiff/matcher/gumtree_utils.py:27-50 | the classification agrees with each of `duplicate`, `unique` and `unmatched`, both ways |
| GumTreeUtils.ExactlyOneKind | astdiff/matcher/gumtree_utils.py:27-50 | every mapping is exactly one of unique, duplicate and unmatched |
| GumTreeUtils.MaxSize | astdiff/matcher/gumtree_utils.py:18-25 | `max_size`: the largest size among the source nodes, None where `max` of an empty set would raise |
| GumTreeUtils.DuplicateHasMaxSize | astdiff/matcher/gumtree_utils.py:18-36 | a duplicate mapping has a source node, so `max_size` never raises on one |
| GumTreeUtils.AddSourceId | astdiff/matcher/gumtree_utils.py:65 | `set.add` on the source ids: the id joins, nothing else changes, no id is repeated |
| GumTreeUtils.AddTargetId | astdiff/matcher/gumtree_utils.py:71 | `set.add` on the target ids |
| GumTreeUtils.SelectPartitions | astdiff/matcher/gumtree_utils.py:73-89 | the three generators split the stored mappings: each appears under exactly its own kind, and the counts add up |
| GumTreeUtils.MappingStore.constructor | astdiff/matcher/gumtree_utils.py:58-59 | a new store holds no mapping |
| GumTreeUtils.MappingStore.AddSource | astdiff/matcher/gumtree_utils.py:61-65 | `add_source`: the id joins the mapping of its hashcode (created empty on first use), and every stored id stays under its own hashcode |
| GumTreeUtils.MappingStore.AddTarget | astdiff/matcher/gumtree_utils.py:67-71 | `add_target`: the same on the target side |
| GumTreeUtils.MappingStore.Values | astdiff/matcher/gumtree_utils.py:77 | `mappings.values()` in key insertion order |
| GumTreeUtils.MappingStore.CandidateMappings | astdiff/matcher/gumtree_utils.py:73-77 | `candidate_mappings`: exactly the stored duplicate mappings |
| GumTreeUtils.MappingStore.UniqueMappings | astdiff/matcher/gumtree_utils.py:79-83 | `unique_mappings`: exactly the stored unique mappings |
| GumTreeUtils.MappingStore.UnmatchedMappings | astdiff/matcher/gumtree_utils.py:85-89 | `unmatched_mappings`: exactly the stored unmatched mappings |
| GumTreeUtils.UniqueMappingIsIsomorphic | astdiff/matcher/gumtree_utils.py:61-83 | the two ids of a unique mapping share a hashcode, so they are `isomorphic_to` each other |
| GumTree.DescendantMatches | astdiff/matcher/gumtree.py:278-292 | `_descendant_matches`: when no assertion fails the first pair yielded is the pair itself |
| GumTree.DescendantMatchesZipWalks | astdiff/matcher/gumtree.py:278-292 | the yielded pairs zip the two pre-order walks position by position, exhaust both walks together on success, and every pair joins two nodes of the same label |
| GumTree.DescendantMatchesSucceedIff | astdiff/matcher/gumtree.py:285-286 | no assertion of `_descendant_matches` fails exactly when the two subtrees are `isomorphic_to_without_values` |
| GumTree.DescendantMatchesStayInside | astdiff/matcher/gumtree.py:278-292 | the pairs yielded for nodes inside two subtrees stay inside them |
| GumTree.DescendantPairsBelow | astdiff/matcher/gumtree.py:230-231 | the pairs yielded for a child of `s` and a child of `t` lie strictly below `s` and `t` |
| GumTree.RecoveredPairIsFree | astdiff/matcher/gumtree.py:168-170 | a pair of free nodes stays free when everything matched since lies strictly below them, so the `add` after recovery cannot fail |
| GumTree.CommonBounded | astdiff/matcher/gumtree.py:309-315 | with mutually inverse dicts the common descendant matches are no more than either side's descendants |
| GumTree.DiceInUnitInterval | astdiff/matcher/gumtree.py:294-323 | the dice coefficient, when the division does not raise, lies between 0 and 1 |
| GumTree.DiceDefinedWithChildren | astdiff/matcher/gumtree.py:317-321 | a node with children has a descendant, so the division never raises for it |
| GumTree.DiceNode | astdiff/matcher/gumtree.py:301-303 | with `compare_parents` each node is replaced by its parent, or kept at a root; otherwise the node itself |
| GumTree.WeightOfLayerSplit | astdiff/matcher/gumtree.py:82-122 | popping a height layer splits the remaining work of a queue between the layer and the rest (the measure by which `match_anchors` ends) |
| GumTree.ChildEntriesWeight | astdiff/matcher/gumtree.py:84-89 | opening a node replaces it by its children: one node less remains reachable |
| GumTree.WeightOfSublist | astdiff/matcher/gumtree.py:114-119 | opening only the nodes of unmatched mappings never adds work |
| GumTree.FitsTargets | astdiff/context.py:119-125 | with mutually inverse dicts the target dict's keys are target nodes partnered with source nodes |
| GumTree.AddAllBelow | astdiff/matcher/gumtree.py:231 | `update` keeps what was recorded and adds only the pairs it is given |
| GumTree.DescendantPairsFit | astdiff/matcher/gumtree.py:285 | the pairs `_descendant_matches` yields for a source and a target node all join a source node and a target node of the same label |
| GumTree.ClimbFrom | astdiff/matcher/gumtree.py:268-276 | the climb from a partner to the root, stopping at a node seen before: each qualifying node listed once; afterwards every node above the partner is seen, the seen nodes stay closed under parents, and every seen unmatched node of the source node's label is listed (stopping early loses nothing) |
| GumTree.CandidateOrder | astdiff/matcher/gumtree.py:127 | the candidate mappings sorted by `max_size`: the same mappings, sizes never growing along the order, mappings of equal size in the order they were collected |
| GumTree.ResolveOrder | astdiff/matcher/gumtree.py:131-139 | the pairs of a mapping sorted by dice are exactly the pairs of its `product` |
| GumTree.MatchedCovers | astdiff/matcher/gumtree.py:141-143 | once each sorted pair has a matched node, no pair of the mapping is left with both nodes free |
| GumTree.GumTreeMatcher.constructor | astdiff/matcher/gumtree.py:36-44 | the three thresholds are stored as given, with no context and an empty cache |
| GumTree.GumTreeMatcher.Prepare | astdiff/matcher/gumtree.py:58-65 | `prepare`: binds the context and a fresh empty matching set and empties the dice cache |
| GumTree.GumTreeMatcher.Dice | astdiff/matcher/gumtree.py:294-323 | `_dice_coefficient`: the cached value when the hashcode pair was seen; otherwise the coefficient on the current matching, cached unless the division raised; always between 0 and 1; defined for a node with children |
| GumTree.GumTreeMatcher.FindCandidateContainerMatches | astdiff/matcher/gumtree.py:257-276 | `_find_candidate_container_matches`: each candidate once, and a pair is listed if and only if its target is an unmatched node of the source node's label above the partner of some descendant |
| GumTree.GumTreeMatcher.Recovery | astdiff/matcher/gumtree.py:179-204 | `_attempt_recovery_matching`: a too-large pair changes nothing; otherwise the matching and the outcome are `RecoveryOf`: the LCS pass under `isomorphic_to`, then the LCS pass under `isomorphic_to_without_values`, then the histogram pass, each recording exactly what `LcsMatching` and `HistogramOf` say and stopping at the first failed assertion; every pair recorded lies strictly below the given pair and nothing recorded is dropped |
| GumTree.GumTreeMatcher.LcsPasses | astdiff/matcher/gumtree.py:196-202 | the two LCS passes of recovery: the matching and the outcome are `LcsMatching` with `isomorphic_to` and then, unless an assertion failed, `LcsMatching` without values on what the first left; only pairs strictly below are recorded and nothing is dropped |
| GumTree.GumTreeMatcher.LcsRecovery | astdiff/matcher/gumtree.py:206-231 | the matching and the outcome are `LcsMatching`: the longest common subsequence of the children of the two nodes that were free at the start, under the given equality, taken pair by pair in order (`LcsFold` of `LcsStep`) up to the first failed assertion; only pairs strictly below the two nodes are recorded and nothing is dropped |
| GumTree.GumTreeMatcher.MatchChildPairs | astdiff/matcher/gumtree.py:220-231 | the loop over the LCS child pairs: the matching and the outcome are `LcsFold` over the pairs in the order given; only pairs strictly below are recorded and nothing is dropped |
| GumTree.LcsFoldStops | astdiff/matcher/gumtree.py:220-231 | once a pair's `update` fails, the pairs after it change nothing: the fold over the whole list is the fold up to that pair |
| GumTree.GumTreeMatcher.MatchSubtrees | astdiff/matcher/gumtree.py:143 | `update(_descendant_matches(match))`: the matching becomes `update`'s result on the zipped pairs; on success the pair itself is recorded, and so is every pair of the two subtrees, node by node (`SubtreeMatched`) |
| GumTree.SubtreeUpdateMatches | astdiff/matcher/gumtree.py:278-292 | `update(_descendant_matches(s, t))` on a matching whose maps are mutual inverses keeps them so and drops nothing; when it succeeds, every zipped pair of the two subtrees is recorded, the pair of roots first |
| GumTree.SubtreeMatchedKept | astdiff/context.py:38-52 | a whole subtree recorded stays recorded while the matching only grows |
| GumTree.GumTreeMatcher.MatchChildren | astdiff/matcher/gumtree.py:225-231 | the result is `LcsStep`: a child pair with any matched node in either pre-order walk leaves the matching as it is and succeeds; otherwise it is `update` of the zipped descendant pairs (`SubtreeUpdate`), with its outcome |
| GumTree.GumTreeMatcher.HistogramRecovery | astdiff/matcher/gumtree.py:233-255 | `_attempt_histogram_matching`: the matching and the outcome are `HistogramOf` over every label of the source children, in the order first seen: for each label carried by exactly one child on each side, with neither matched, that pair is added and recovered below (`HistogramStep`), up to the first failed assertion; only pairs below the two nodes are recorded and nothing is dropped |
| GumTree.GumTreeMatcher.HistogramLabels | astdiff/matcher/gumtree.py:250-255 | the loop over the labels: the matching and the outcome are `HistogramOf` over all the labels |
| GumTree.GumTreeMatcher.HistogramLabel | astdiff/matcher/gumtree.py:237-255 | one label: a label the target children lack gives an empty group; after the labels before it, success leaves `HistogramOf` one label further and failure leaves what the whole pass yields |
| GumTree.GumTreeMatcher.HistogramGroups | astdiff/matcher/gumtree.py:244-255 | one label given its two groups: the result is `HistogramStep`, and only pairs below the two nodes are recorded |
| GumTree.HistogramStepIs | astdiff/matcher/gumtree.py:244-255 | the two children a label singles out are children of the two nodes carrying that label; the step is recovery below them with the pair added when both are free, and nothing otherwise |
| GumTree.HistogramStops | astdiff/matcher/gumtree.py:252-255 | once a label's recovery fails, the later labels change nothing |
| GumTree.GumTreeMatcher.HistogramPair | astdiff/matcher/gumtree.py:252-255 | the only two children carrying a label, both free, are added and stay paired; the matching and the outcome are `RecoveryOf` below them, started from the matching with the pair added |
| GumTree.GumTreeMatcher.MatchUnique | astdiff/matcher/gumtree.py:105-110 | on success the two nodes of every unique mapping are paired, and so is every pair of their two subtrees, node by node (`AnchoredFirst`) |
| GumTree.GumTreeMatcher.MatchLayer | astdiff/matcher/gumtree.py:91-122 | the equal-height branch: each queue pops exactly its tallest entries and then holds its shorter entries followed by the children of the nodes it opened, in opening order; the nodes opened on each side are exactly the popped nodes whose hashcode the other layer lacks, each once; a node alone with its hashcode in both layers ends up paired with its counterpart, with the whole of their two subtrees matched node by node; the candidates returned are duplicate hashcodes of the two layers and hold every popped node of such a hashcode; the two queues together lose work |
| GumTree.GumTreeMatcher.MatchPopped | astdiff/matcher/gumtree.py:105-122 | the equal-height branch once both layers are grouped: the unique pairs end up paired with their whole subtrees, exactly the duplicate hashcodes are returned, and each queue gains the children of exactly its one-sided popped nodes |
| GumTree.PopLayers | astdiff/matcher/gumtree.py:96-100 | both layers popped and grouped: each is exactly the tallest entries of its queue, the queue keeps its other entries, and every popped node is stored under its hashcode |
| GumTree.OpenUnmatched | astdiff/matcher/gumtree.py:114-119 | the `unmatched_mappings` loop: the nodes opened are exactly the popped nodes whose hashcode the other layer lacks, each once, and the queue gains exactly their children in opening order |
| GumTree.OpenAndCollect | astdiff/matcher/gumtree.py:114-122 | the one-sided nodes are opened as `OpenUnmatched` states, and the mappings returned are exactly the store's candidate mappings |
| GumTree.OpenIds | astdiff/matcher/gumtree.py:115-119 | `open` for each listed node in turn: the queue gains the children of each node, in order |
| GumTree.UniquesAnchored | astdiff/matcher/gumtree.py:105-110 | once the first pair of every unique mapping of the store is recorded with its whole subtrees, every node alone with its hashcode in both layers is paired with its counterpart and their subtrees are matched node by node |
| GumTree.DuplicatesStored | astdiff/matcher/gumtree.py:121-122 | the store's candidate mappings are duplicate hashcodes of the two layers, and every node of a duplicate hashcode lies in one of them |
| GumTree.OpenedAll | astdiff/matcher/gumtree.py:114-119 | once every hashcode is visited, the nodes of the one-sided mappings are exactly the popped nodes whose hashcode the other layer lacks |
| GumTree.GumTreeMatcher.AnchorStep | astdiff/matcher/gumtree.py:83-122 | one round of the `match_anchors` loop, returned as a `Round` that satisfies `RoundOf` and runs from the queues as given to the queues as left: the queues lose work, the matching only grows, and when the two heights are equal every unique pair of the two popped layers is paired, with the whole of its two subtrees |
| GumTree.OpenTaller | astdiff/matcher/gumtree.py:83-89 | the two unequal-height branches: only the taller queue pops its tallest layer and opens every popped node; the other queue is untouched, nothing is found, and the queues lose work |
| GumTree.PopAndOpen | astdiff/matcher/gumtree.py:84-85 | `for node in queue.pop(): queue.open(node)`: the queue keeps its shorter entries followed by the children of exactly the popped tallest nodes, in order, and loses work |
| GumTree.RootQueues | astdiff/matcher/gumtree.py:76-80 | each queue starts holding exactly one entry, the root of its tree with the root's height |
| GumTree.RanStep | astdiff/matcher/gumtree.py:82-122 | a round that starts where the previous rounds ended, above `min_height`, with its unique pairs paired, extends the run, and the candidates grow by what it found (`extend`) |
| GumTree.ChainedStep | astdiff/matcher/gumtree.py:82-83 | a round beginning with the queues the last round left continues the chain, and the queues then end where that round ended |
| GumTree.RanKept | astdiff/matcher/gumtree.py:105-110 | what the rounds recorded stays true while the matching only grows |
| GumTree.FoundGroups | astdiff/matcher/gumtree.py:121-122 | every candidate collected is a duplicate hashcode of the two layers of some equal-height round, and every popped node of a duplicate hashcode of such a round is in a collected candidate |
| GumTree.GumTreeMatcher.MatchAnchors | astdiff/matcher/gumtree.py:67-145 | `match_anchors`: the trees and registries are unchanged and nothing recorded is dropped. The rounds run are chained from the two queues holding only the roots; each satisfies `RoundOf` and began with both tallest nodes at least `min_height` tall (`Ran`); the unique pairs of every equal-height round stay paired with their whole subtrees; the candidates are exactly the mappings the rounds found, in collection order (`FoundGroups` says what they hold); on success the last round leaves a queue below `min_height` (`Stopped`), the rounds already hold of the matching they leave (`anchored`), the final matching is `ResolveFold` from there over the sorted pairs of each candidate, taken in the stable descending `max_size` order, and every candidate is resolved |
| GumTree.GumTreeMatcher.CollectAnchors | astdiff/matcher/gumtree.py:82-122 | the `while` loop of `match_anchors`: it ends, since the queues lose work each round; the matching only grows; the rounds it returns are chained from the queues as given, each satisfies `RoundOf` and began above `min_height`, every equal-height round has its unique pairs paired with their whole subtrees, and the candidates are the concatenation of what the rounds found; on success the queues as left are where the last round ended and one of them is below `min_height` |
| GumTree.GumTreeMatcher.ResolveCandidates | astdiff/matcher/gumtree.py:126-143 | the candidates are resolved in the stable descending `max_size` order: the matching is `ResolveFold` over the concatenated pair lists of the candidates reached, each list holding exactly the pairs of its candidate's `product`; the call succeeds exactly when that fold does and every candidate was reached, and then no pair of any candidate is left with both nodes free |
| GumTree.GumTreeMatcher.ResolveMapping | astdiff/matcher/gumtree.py:131-143 | the pairs of the `product`, weighted by their parents' dice and stably sorted from the largest (exactly the pairs of the product), are resolved in that order: the matching and the outcome are `ResolveFold` over them; a dice without a value fails before anything changes; on success no pair of the mapping has both nodes free |
| GumTree.GumTreeMatcher.AddResolved | astdiff/matcher/gumtree.py:141-143 | the pairs of one mapping, best first: the matching and the outcome are `ResolveFold` over them; on success every pair of the mapping has a matched side, and nothing recorded is dropped |
| GumTree.GumTreeMatcher.WeighPairs | astdiff/matcher/gumtree.py:129-137 | each pair is weighted by its parents' dice, read from the cache when present; a division that raises stops at that pair |
| GumTree.GumTreeMatcher.MatchUnlessMatched | astdiff/matcher/gumtree.py:141-143 | the matching and the outcome are `ResolveFold` over the pairs in the order given: a pair with a matched node is skipped, a free pair gets `update(_descendant_matches(...))`, up to the first failed assertion; on success every pair of the list has a matched node |
| GumTree.ResolveFoldCovers | astdiff/matcher/gumtree.py:141-143 | the resolution loop keeps the two maps mutual inverses, drops nothing, and on success leaves every pair with a matched node |
| GumTree.ResolveFoldSkips | astdiff/matcher/gumtree.py:142 | pairs that each have a matched node already are all skipped: the matching is unchanged |
| GumTree.ResolveFoldStops | astdiff/matcher/gumtree.py:141-143 | once an `update` fails, the later pairs change nothing |
| GumTree.ResolveFoldAppend | astdiff/matcher/gumtree.py:131-143 | resolving one list of pairs after another is resolving their concatenation, so the loop over candidates is one fold |
| GumTree.GumTreeMatcher.RecoverAndAdd | astdiff/matcher/gumtree.py:168-170 | recovery then `add` for two free nodes: on success the two are paired |
| GumTree.GumTreeMatcher.MatchContainer | astdiff/matcher/gumtree.py:161-170 | the container step: the candidate with the largest dice (ties as Python compares the tuples) is paired after recovery when the dice reaches `min_dice`; otherwise nothing changes |
| GumTree.GumTreeMatcher.AddBest | astdiff/matcher/gumtree.py:167-170 | the best weighted candidate is paired exactly when its dice reaches `min_dice` |
| GumTree.GumTreeMatcher.ContainerStep | astdiff/matcher/gumtree.py:155-170 | one node of the walk: the root branch fails exactly where the `add` assertion fails and otherwise pairs a free source root with the target root |
| GumTree.GumTreeMatcher.MatchRoot | astdiff/matcher/gumtree.py:156-159 | recovery below the roots, then `add` of the two roots, failing whenever the target root is already matched |
| GumTree.GumTreeMatcher.WeighCandidates | astdiff/matcher/gumtree.py:163-165 | each candidate is weighted by its dice, from the cache when its hashcodes were seen |
| GumTree.GumTreeMatcher.MatchContainers | astdiff/matcher/gumtree.py:147-177 | `match_containers`: on success the source root is paired with the target root, unless it was matched before the phase |
| GumTree.GumTreeMatcher.FindMatchingNodes | astdiff/matcher/gumtree.py:46-56 | `find_matching_nodes`: the trees are unchanged, and on success the source root has a partner |
| GumTree.RootStepAsWrittenCases | astdiff/matcher/gumtree.py:156-159 | as written, the root step fails exactly when the source root is free and the target root is not |
| GumTree.RootStepFailsOnExample | astdiff/matcher/gumtree.py:156-159 | on source A(B(x,y)) and target B(x,y) the top-down phase pairs the B subtrees and the root step's `add` then fails |
| GumTree.RootStepNeverFails | astdiff/matcher/gumtree.py:156-159 | the corrected root step never fails, keeps a bijection, pairs two free roots, and agrees with the step as written wherever that succeeds |
| Alignment.Marked | astdiff/generator/with_move.py:144-148 | the in-order siblings: exactly the siblings in the in-order set, in sibling order |
| Alignment.LastMarked | astdiff/generator/with_move.py:153-158 | the rightmost in-order sibling before the target: None exactly when no element is in order, otherwise an in-order element of the list |
| Alignment.Before | astdiff/generator/with_move.py:154-156 | the siblings the loop of `_find_position` looks at before it breaks on the target: a prefix without the target, followed by the target when it is present |
| Alignment.MatchedSources | astdiff/generator/with_move.py:101-105 | `matched_source_children`: exactly the source children whose partner is among the target children, in order and without repeats |
| Alignment.MatchedTargets | astdiff/generator/with_move.py:106-110 | `matched_target_children`: exactly the target children whose partner is among the source children, in order and without repeats |
| Alignment.FirstMarkedIsTarget | astdiff/generator/with_move.py:150-151 | when the target heads the in-order siblings, nothing before it is in order, so the early return of 0 agrees with the general rule |
| Alignment.MarkedEndsWithLast | astdiff/generator/with_move.py:144-158 | the rightmost in-order sibling found by the loop ends the list of in-order siblings; with none, that list is empty |
| Alignment.AlignedInsert | astdiff/generator/with_move.py:135-138 | re-inserting a misaligned source child at the position `_find_position` gives its partner keeps the matched children in the order of their in-order partners |
| Alignment.AlignedPositionAfter | astdiff/generator/with_move.py:140-161 | the position `_find_position` gives is 0 when no earlier target sibling is in order, and otherwise lies right after the partner of the last earlier sibling that is |
| Alignment.AlignedLcs | astdiff/generator/with_move.py:113-123 | once exactly the pairs of an increasing common subsequence are in order, the matched source children stand in the order of their in-order partners |
| Alignment.AlignedComplete | astdiff/generator/with_move.py:125-138 | once every target child is in order, aligned source children list their partners exactly as the target children |
| Alignment.MarkedSubsequence | astdiff/generator/with_move.py:113-123 | filtering a list without repeats by the elements of one of its subsequences gives that subsequence back |
| WithMove.TargetPartner | astdiff/generator/with_move.py:49 | the partner of a target node is a source node of the arena whose partner is that target |
| WithMove.Position | astdiff/generator/with_move.py:140-161 | `_find_position`: never negative; 0 when no sibling before the target is in order or that sibling is unmatched, otherwise one past the position of that sibling's partner |
| WithMove.LcsPairs | astdiff/generator/with_move.py:113-120 | the LCS of the matched children under the partner test: pairs of a source and a target child that are partners, increasing on both sides, and as long as any such subsequence |
| WithMove.Misaligned | astdiff/generator/with_move.py:125-133 | the source children the double loop realigns, in loop order: exactly the matched pairs that are off the LCS |
| WithMove.AlignedInOrder | astdiff/generator/with_move.py:98-138 | after `_align_children` the in-order set is the old one without the children of both nodes, plus the matched children of both |
| WithMove.Emitted | astdiff/generator/with_move.py:53-72 | the operations of one round: one Insert exactly for an unmatched target; for a matched root nothing; below the root an Update exactly when the values differ and a Move exactly when the partner's parent is not partnered with the target's parent |
| WithMove.Placed | astdiff/generator/with_move.py:53-72 | the arena after one round: a new leaf with the target's kind when unmatched, the partner carrying the target's value below the root, and every other node's value and parent unchanged |
| WithMove.PlacedHangs | astdiff/generator/with_move.py:51-72 | below the root, after the round the target's counterpart hangs under the partner of the target's parent |
| WithMove.PositionIgnoresValues | astdiff/generator/with_move.py:62-69 | an update never changes the position `_find_position` gives afterwards |
| WithMove.InsertShape | astdiff/generator/with_move.py:53-60 | the round of an unmatched target is exactly one Insert of a fresh leaf under `source_parent` |
| WithMove.RelocateShape | astdiff/generator/with_move.py:62-72 | the round of a matched target below the root is the update when the values differ followed by the move when the partner hangs elsewhere |
| WithMove.RoundKeeps | astdiff/generator/with_move.py:48-75 | every round keeps the matching one-to-one, the source side apart from the target tree, the arena linked and the target slots untouched |
| WithMove.RoundExtends | astdiff/generator/with_move.py:48-75 | a round extends the mirrored part of the target tree by its target |
| WithMove.BfsOrder | astdiff/generator/with_move.py:48 | the breadth-first order visits every target exactly once and each parent before its children |
| WithMove.Doomed | astdiff/generator/with_move.py:77-78 | the nodes of the walk absent from `source_target_map`, in walk order |
| WithMove.DeletesKeepLabels | astdiff/generator/with_move.py:79-80 | deletes keep every parent link, kind and value |
| WithMove.DeletesKeepMirrored | astdiff/generator/with_move.py:77-82 | the delete phase keeps the mirrored part of the target tree mirrored |
| WithMove.RightmostInOrder | astdiff/generator/with_move.py:153-158 | the loop of `_find_position` returns the rightmost in-order sibling before the target |
| WithMove.AlignPlan | astdiff/generator/with_move.py:95-120 | the matched children of both nodes and the LCS of partnered pairs between them |
| WithMove.WithMoveGenerator.constructor | astdiff/generator/with_move.py:18-23 | a generator before `prepare` has no context, nothing in order and no operations |
| WithMove.WithMoveGenerator.Prepare | astdiff/generator/with_move.py:25-40 | the generator holds the context, with an empty in-order set and no operations |
| WithMove.WithMoveGenerator.FindPosition | astdiff/generator/with_move.py:140-161 | the early exit and the loop give exactly `Position` |
| WithMove.WithMoveGenerator.MoveBack | astdiff/generator/with_move.py:134-138 | one realignment: the child is moved back under the same parent at the position of its partner on the arena without it, the pair joins the in-order set and a Move is recorded |
| WithMove.WithMoveGenerator.AlignChildren | astdiff/generator/with_move.py:86-138 | `_align_children`: only the children of the source node are reordered, the moves are exactly the misaligned pairs, and the in-order set ends as `AlignedInOrder` says |
| WithMove.WithMoveGenerator.AlignAll | astdiff/generator/with_move.py:125-138 | the outer loop over the matched target children moves exactly the misaligned children |
| WithMove.WithMoveGenerator.AlignWith | astdiff/generator/with_move.py:125-138 | the inner loop over the matched source children moves those partnered with the given target child whose pair is off the LCS |
| WithMove.WithMoveGenerator.InsertFor | astdiff/generator/with_move.py:55-60 | a new leaf with the target's label and value is inserted under `source_parent`, recorded, registered and matched with the target |
| WithMove.WithMoveGenerator.UpdateFor | astdiff/generator/with_move.py:63-66 | the partner takes the target's value, with an Update recorded, exactly when the two differ |
| WithMove.WithMoveGenerator.MoveFor | astdiff/generator/with_move.py:68-72 | the partner is moved under `source_parent` at the target's position, with a Move recorded, exactly when it hangs elsewhere |
| WithMove.WithMoveGenerator.PlaceRound | astdiff/generator/with_move.py:49-72 | the first half of a round leaves the arena `Placed` and emits `Emitted` |
| WithMove.WithMoveGenerator.Visit | astdiff/generator/with_move.py:48-75 | one round keeps the invariants, deletes nothing and extends the mirrored part by its target |
| WithMove.WithMoveGenerator.VisitAll | astdiff/generator/with_move.py:48-75 | after the breadth-first loop every target is mirrored, the matching only grew and no delete was emitted |
| WithMove.WithMoveGenerator.DeleteUnmatched | astdiff/generator/with_move.py:77-82 | along the post-order walk of the source root exactly the unmatched nodes are deleted, in walk order, unless a `remove_source` assertion fails |
| WithMove.WithMoveGenerator.DeleteOne | astdiff/generator/with_move.py:79-82 | one delete applied and recorded, and the deleted subtree deregistered |
| WithMove.StartWalk | astdiff/generator/with_move.py:42-48 | before the first round nothing is visited, so the loop invariants hold of the untouched arena, and `bfs` from the target root lists every target once, parents first |
| WithMove.PlacedRoot | astdiff/generator/with_move.py:53-62 | the round of a matched target root changes nothing, whatever the two values; for an unmatched target root the new node is a parentless copy of it |
| WithMove.RoundLabelled | astdiff/generator/with_move.py:49-75 | a round keeps the kinds of the original nodes and the parent and value of originally matched roots; a pair it adds carries the target's kind and, for the target root, is a parentless node with the root's value |
| WithMove.VisitLabelled | astdiff/generator/with_move.py:48-75 | the labelling invariant extends from the first `i` targets of the walk to the first `i + 1` |
| WithMove.PlaceArrangedFor | astdiff/generator/with_move.py:49-72 | the insert or move of a round keeps the children of every visited target's partner in the order of the target's children |
| WithMove.FinishArranged | astdiff/generator/with_move.py:74-75 | `_align_children` of the round's pair arranges the children of the round's target and keeps the earlier ones arranged |
| WithMove.MirroredSameNodes | astdiff/generator/with_move.py:48 | mirroring depends only on which targets were visited, not on the walk order |
| WithMove.WalkSameNodes | astdiff/generator/with_move.py:48 | the arrangement and labelling the walk builds depend only on which targets were visited |
| WithMove.PhaseEnds | astdiff/generator/with_move.py:48-75 | after the breadth-first loop every target is mirrored, and the deletes that follow rebuild the target tree whenever the roots are paired |
| WithMove.DeletesChildren | astdiff/generator/with_move.py:77-82 | deletes on a linked arena take exactly the deleted nodes out of their parents' children lists and keep the rest of every list in order |
| WithMove.DeleteDrops | astdiff/generator/with_move.py:79-80 | one more delete adds its node to the set dropped from every children list |
| WithMove.PartnerInWalk | astdiff/generator/with_move.py:77 | every node below the partner of a target is reached by the post-order walk from the source root |
| WithMove.ChildFate | astdiff/generator/with_move.py:77-80 | a child of the partner of a target is deleted exactly when it is unmatched |
| WithMove.DoomedChildren | astdiff/generator/with_move.py:77-80 | below the partner of every target, the deletes take exactly the unmatched children |
| WithMove.MatchedChild | astdiff/generator/with_move.py:48-75 | after the breadth-first loop, a matched child of the partner of a target is the partner of a child of that target |
| WithMove.RebuiltLabels | astdiff/generator/with_move.py:48-82 | after the deletes the partner of every target carries the target's kind and value, when the roots are paired with equal values |
| WithMove.RebuiltChildren | astdiff/generator/with_move.py:48-82 | after the deletes the children of the partner of every target are, in order, the partners of the target's children |
| WithMove.TreeRebuilt | astdiff/generator/with_move.py:48-82 | where every target is rebuilt from its partner, the partner's subtree equals the target's subtree |
| WithMove.SourceBecomesTarget | astdiff/generator/with_move.py:42-84 | once every target is visited, deleting the unmatched nodes of the post-order walk leaves the source root's subtree equal to the target tree, when the roots are paired with equal values and matched nodes share their kind |
| WithMove.VisitedRebuilds | astdiff/generator/with_move.py:42-84 | once every target is visited, the delete phase can only rebuild the target tree, under the same root conditions |
| WithMove.WithMoveGenerator.Place | astdiff/generator/with_move.py:49-72 | the first half of a round keeps the invariants, deletes nothing and mirrors the round's target |
| WithMove.WithMoveGenerator.FinishRound | astdiff/generator/with_move.py:74-75 | the pair joins the in-order set; the realignment reorders only the children of the counterpart with moves under it, and the round's target ends mirrored and arranged |
| WithMove.WithMoveGenerator.Round | astdiff/generator/with_move.py:48-75 | one iteration of the breadth-first loop keeps the invariants, extends the mirrored, arranged and labelled part of the walk by its target and deletes nothing |
| WithMove.WithMoveGenerator.AlignMove | astdiff/generator/with_move.py:134-138 | one realignment inside `_align_children`: only the children of `s` are reordered, the move and the child are added to the tally, and the children stay aligned with the in-order partners |
| WithMove.WithMoveGenerator.BreadthFirstPhase | astdiff/generator/with_move.py:46-75 | the breadth-first phase: every target ends mirrored, the matching only grew, no delete was emitted, and the deletes that follow rebuild the target tree when the roots are paired |
| WithMove.WithMoveGenerator.DeletePhase | astdiff/generator/with_move.py:77-84 | the delete phase from the source root: exactly the unmatched nodes of its post-order walk are deleted, mirroring is kept, and under paired roots the source root's subtree ends equal to the target tree |
| WithMove.WithMoveGenerator.GenerateEditScript | astdiff/generator/with_move.py:42-84 | the script is the operations in the order applied: inserts, updates and moves first, then the deletes of exactly the unmatched nodes of the post-order walk; every target is mirrored and the matching only grew; when the source root is paired with the target root, carries its value and matched nodes share their kind, the source root's subtree afterwards equals the target tree |

## Left out

- GumTreeUtils.AddSourceId: iterating the `source_ids` and `target_ids` sets of a `Mapping` (gumtree_utils.py:15-16) follows insertion order, while Python iterates a set in hash order. This also fixes the order of `product` over them (gumtree.py:133-135).
- Builtins.Product: it pairs the ids in the insertion order of the two sets, as above. It does not use CPython's set order.
- GumTree.GumTreeMatcher.Dice: the dice coefficient (gumtree.py:317-321), `min_dice` (DEFAULT_MIN_DICE = 0.5, gumtree.py:25) and the comparison `dice >= self.min_dice` (gumtree.py:168) use exact reals, not Python floats. A correctly rounded `2c/n` keeps both the order of the stable sort by dice and the outcome of `>=` against a short decimal threshold for any realistic tree size, but float rounding itself is not modelled.
- Builtins.Best: ties in `max` over `(dice, MatchingPair)` (gumtree.py:162-166) are broken by arena indices. Python compares the `id()` addresses of the nodes.
- Context.DiffContext.constructor: `deepcopy` and `id()` become copying both arenas into one `seq<Node>`, and node ids become indices into it. Memory addresses, garbage collection and aliasing between separate Python objects are not modelled.
- Nodes.Forest.NewNode: `NodePosition` (node.py:23-46) is dropped. It holds source-file coordinates, and `==` and every algorithm ignore it.
- Metadata.CalculateHash: Python's built-in `hash` of `(label, value, marker)` is a function parameter `h`. Its value depends on the interpreter and on the hash seed.
- WithMove.WithMoveGenerator.Prepare: the `logging` calls are dropped. So are all other `logger` calls in the core. They have no effect on the result.
- Traversal.Bfs: the lazy generators are eager sequences. This covers `bfs`, the walks, `HeightIndexedPriorityQueue.pop` and `_descendant_matches` as `MatchingSet.update` consumes it.
- Util.HeightQueue.Pop: nodes of equal height come out ascending by `Node.__lt__`, as heapq pops `(-height, node)` tuples. Among nodes whose `compare_fields` are also equal, Python's order depends on the heap's internal layout; the model keeps push order.
- GumTree.DescendantMatches: `_descendant_matches` is computed whole before `update` adds its pairs. The pairs yielded before a failed assertion are the ones handed to `update`, and the failure becomes a flag instead of an exception.
- GumTree.GumTreeMatcher.MatchLayer: the nodes it opens are stated as a duplicate-free list holding exactly the one-sided popped nodes. Their order, hashcode by hashcode in the order the `MappingStore` first saw each hashcode (gumtree.py:114-119), is stated by `GumTree.OpenUnmatched` but not carried up to `MatchLayer`, `AnchorStep` or `RoundOf`.
- GumTree.GumTreeMatcher.ResolveCandidates: each list of pairs is stated to hold exactly the pairs of its candidate's `product`; their order by dice is stated only at `ResolveMapping`, where the weights are the cached or fresh coefficients at that moment. Since the cache and the matching change from one candidate to the next, that order is not carried up to `ResolveCandidates` or `MatchAnchors`.
- GumTree.GumTreeMatcher.CollectAnchors: a round in which `_descendant_matches` fails an assertion is not among the rounds returned, and the queues after it are not described. Python raises at that point, so nothing after it is used.
- Parsing source text into trees (`astdiff/ast/parser.py`, `astdiff/parser/`), the command line, printing and file I/O are not part of this model.
- The change-distilling matcher and the generator without moves are not part of this model.
- WithMove.WithMoveGenerator.GenerateEditScript: the rebuilt-tree clause holds only when the first registered source node is a parentless root paired with the target root and carrying its value, and every matched pair shares its kind. The source guarantees none of these. It never updates the value of a matched root (with_move.py:62 skips the root; `WithMove.PlacedRoot` and `WithMove.Emitted` state this), so roots with different values leave the source root's value unchanged.
- WithMove.WithMoveGenerator.GenerateEditScript: an unmatched target root gets a fresh node with no parent (with_move.py:53-60). The delete phase then walks the old source root, which `context.source_root` still names, so the rebuilt-tree clause does not cover this case.

## Findings

| source | as written | input that shows it | evidently intended | confidence | as-written member | corrected member |
|---|---|---|---|---|---|---|
| astdiff/matcher/gumtree.py:156-159 | an unmatched source root is paired with the target root without checking that the target root is free, so `MatchingSet.add` raises AssertionError | source A(B(x,y)), target B(x,y): the top-down phase pairs the two B subtrees, then the post-order walk reaches A and `add((A, B))` fails | pair the roots only when the target root is still free | not executed | GumTree.RootStepFailsOnExample | GumTree.RootStepNeverFails |
