# Octree model

A verified model of the generic `Octree<T>` in `Scripts/Octree.cs`. It is a
point-region octree over `Node3D` payloads (`where T : Node3D`, at
Scripts/Octree.cs:25). Each node has:

- a centre and a size;
- a block capacity;
- a list of payloads;
- once subdivided, eight children.

Payloads are inserted at a point. They are stored in leaves until a leaf is
full. A full leaf is then subdivided, and each later insert into a subdivided node
goes down to the child that `GetChildIndex` picks for its point.

`Remove` removes a payload from the child picked the same way. After every
successful removal it tries to merge the node, and the merge happens when all
eight children are then empty leaves. `Update` moves
payloads by repeating three steps:

1. remove the payload;
2. grow the root until its bounds hold the new point;
3. re-insert the payload.

`Query` reports the list of a leaf when four things hold: the list is not
empty, the box holds the leaf's centre, the box overlaps the leaf's bounds, and
the box overlaps the bounds of every node on the way down to the leaf. A box
that misses a node's bounds prunes its whole subtree, even where a child region
reaches outside its parent.
`GetEnumerator` lists payloads.

The project has four modules:

- `Geometry` holds exact 3D vectors and axis-aligned boxes: closed containment
  of a point, open overlap of two boxes, and a node's bounds.
- `OctreeModel` holds the octree as an immutable value `Node<T>`, with every
  operation as a function on it. It also defines the specification functions:
  - `Payloads`, the multiset of everything stored in a subtree;
  - `LeafPayloads`, everything stored in its leaves;
  - `Height`.
- `OctreeProperties` holds the lemmas about those functions: what each
  operation does to the stored payloads, to the shape of the tree and to query
  results, plus a worked example.
- `Octrees` holds the class `Octree<T>` on the heap. Its fields are the
  source's fields, and `Children` is an `array?` of child objects. It has a
  ghost `Tree: Node<T>` and a `Repr` footprint. `Valid()` ties every field to
  `Tree`, recursively, and keeps the children's footprints disjoint. Each method
  of the class is proved to move `Tree` exactly as the matching function of
  `OctreeModel` moves it. The lemmas of `OctreeProperties` therefore hold for
  the objects too.

## Where the code departs from the evident design

The model follows the code, including where the code does not do what its
comments and names suggest.

- **Subdivide keeps the parent's list.** `Subdivide` (Scripts/Octree.cs:72-88)
  does not push the parent's payloads down into the new children.
  - Those payloads stay on a node that is no longer a leaf. `Query` never
    reports them (`QueryMissesInternalData`), while `GetEnumerator` still
    lists them.
  - `Remove` on that node only looks in a child, so removing such a payload
    fails (`ExampleRemove`).
- **Subdividing a subdivided node loses its subtree.** `Subdivide` is public
  and does not check whether the node already has children. On a subdivided
  node it replaces the eight children with empty leaves, so every payload
  below the node is lost (`SubdivideHoldsOwnList`, `SubdivideDropsDescendants`).
  `Insert` only subdivides a leaf, so it never triggers this.
- **The child order disagrees with `GetChildIndex`.**
  - `Subdivide` builds child `i` with bit 1 meaning +x, bit 2 meaning +z and
    bit 4 meaning −y.
  - `GetChildIndex` (Scripts/Octree.cs:49) reads bit 1 as +x, bit 2 as −y and
    bit 4 as +z.
  - So a point is routed to a child whose region need not contain it
    (`SubdivideOrderDiffersFromChildIndex`).
- **The child regions do not tile the parent.** Children are centred half the
  size away from the parent's centre and have half its size. They reach
  outside the parent and leave its centre uncovered (`ChildRegionsLeaveParent`).
- **Merging keeps the node's own list.** `TryMerge` (Scripts/Octree.cs:172-193)
  clears the children but keeps the node's own list.
- **Enumeration is shallow.** `GetEnumerator` (Scripts/Octree.cs:265-284) goes
  down one level only: it lists each child's own list and then the node's own
  list (`EnumerateIsShallow`).
- **Growing a subdivided root fails.** On that branch the new root has no
  children array (Scripts/Octree.cs:139-152), so the first access to it
  faults. When the growth direction is 0 this is the assignment at line 148;
  otherwise it is the assignment at line 152. The model returns an explicit
  failure for it.

The worked example has capacity 2 and inserts payloads a, b and c at (1,1,1),
(2,2,2) and (3,3,3):

- a query over a box containing everything returns only `[c]`;
- removing b fails;
- enumeration is `[c, a, b]`.

This is lemma `ThreeInsertsExample`.

## Model

| member | source | states |
|---|---|---|
| Geometry.Bounds | Scripts/Octree.cs:50 | the bounds have the node's size, their lowest corner plus half the size is the centre, and their highest corner is the centre plus half the size |
| OctreeModel.ChildIndex | Scripts/Octree.cs:49 | the index is below 8, and its bits 1, 2 and 4 are set exactly when the point is above the centre in x, below it in y and above it in z |
| OctreeModel.AdjustedCapacity | Scripts/Octree.cs:54-64 | below 60 frames per second the capacity drops by 2 but not under 4; otherwise it rises by 1 but not over 20 |
| OctreeProperties.AdjustStaysInRange | Scripts/Octree.cs:54-64 | once the capacity is between 4 and 20, every adjustment keeps it there |
| OctreeProperties.AdjustKeepsPositive | Scripts/Octree.cs:54-64 | a positive capacity stays positive after any adjustment |
| OctreeModel.Subdivide | Scripts/Octree.cs:72-88 | the node becomes subdivided with eight children; its centre, size, capacity and own list are unchanged (the layout of the children is SubdivideChildren) |
| OctreeProperties.SubdivideChildren | Scripts/Octree.cs:72-88 | child i is centred at the parent's centre plus the offset for i: +x for bit 1, +z for bit 2, −y for bit 4 |
| OctreeProperties.SubdivideOrderDiffersFromChildIndex | Scripts/Octree.cs:49-88 | for a node of positive size, GetChildIndex sends the centre of the child in slot i to the slot with bits 2 and 4 of i exchanged, so slots 2 and 4 (and 3 and 5) are swapped |
| OctreeProperties.ChildRegionsLeaveParent | Scripts/Octree.cs:72-88 | for a node of positive size, no child region lies within the parent's region, and none holds the parent's centre |
| OctreeProperties.SubdivideHoldsOwnList | Scripts/Octree.cs:72-88 | after Subdivide the node holds its own list and nothing else, whatever was below it before |
| OctreeProperties.SubdivideDropsDescendants | Scripts/Octree.cs:72-88 | on a node that has payloads below it, Subdivide changes the payloads the subtree holds |
| OctreeProperties.SubdividePayloads | Scripts/Octree.cs:72-88 | subdividing a leaf, the step Insert takes on a full leaf, keeps exactly the payloads the leaf held |
| OctreeModel.Insert | Scripts/Octree.cs:89-107 | inserting keeps the tree well formed and keeps the centre, size and capacity; the node's own list grows, by the payload at its end, only when the node is a leaf with room |
| OctreeProperties.InsertIntoLeafWithRoom | Scripts/Octree.cs:93-96 | a leaf below its capacity appends the payload to its list and changes nothing else |
| OctreeProperties.InsertRoutesToChild | Scripts/Octree.cs:97-105 | otherwise the node ends up subdivided with its own list unchanged; the child GetChildIndex picks becomes an insert into it and gains exactly the payload, and the other children are those of the subdivided node |
| OctreeProperties.InsertPayloads | Scripts/Octree.cs:89-107 | an insert adds exactly one copy of the payload to the subtree and loses nothing |
| OctreeModel.RemoveFirst | Scripts/Octree.cs:210 | the list loses at most one element: one exactly when the payload is in it, otherwise it is unchanged |
| OctreeProperties.RemoveFirstAt | Scripts/Octree.cs:210 | it removes the first occurrence of the payload and keeps the rest of the list in order, so the list's multiset loses exactly one copy of it |
| OctreeProperties.RemoveFromLeaf | Scripts/Octree.cs:208-211 | on a leaf, removing succeeds exactly when the payload is in the list, and then removes its first occurrence only |
| OctreeModel.TryMerge | Scripts/Octree.cs:172-193 | the result is well formed and keeps the node's centre, size, capacity and own list (when it merges is TryMergeOutcome) |
| OctreeProperties.TryMergeOutcome | Scripts/Octree.cs:177-190 | it merges exactly when the node is subdivided and all eight children are empty leaves, and then the node becomes a leaf with its own list; otherwise the node is left as it is |
| OctreeProperties.TryMergeIdempotent | Scripts/Octree.cs:172-193 | merging a second time changes nothing and reports no merge |
| OctreeProperties.TryMergePayloads | Scripts/Octree.cs:172-193 | merging keeps every payload |
| OctreeModel.Remove | Scripts/Octree.cs:195-214 | removing keeps the tree well formed and keeps the centre, size and capacity; a remove that reports failure leaves the tree exactly as it was |
| OctreeProperties.RemovePayloads | Scripts/Octree.cs:195-214 | a successful remove takes away exactly one copy of the payload; a payload stored nowhere in the subtree cannot be removed |
| OctreeProperties.RemoveFollowsChildIndex | Scripts/Octree.cs:200-206 | on a subdivided node, removing never touches the node's own list and succeeds exactly when removing from the child GetChildIndex picks succeeds, which needs the payload stored under that child; after a success the node is TryMerge of the node with that child replaced, so it becomes a leaf exactly when the eight children are then empty leaves, and otherwise the other seven children are unchanged |
| OctreeProperties.RemoveAfterInsert | Scripts/Octree.cs:89-214 | a payload just inserted at a point can be removed at that same point |
| OctreeModel.GrowUntil | Scripts/Octree.cs:122-171 | the growth loop keeps the tree well formed; when it ends covered, the root's bounds hold the point; when it stops at a subdivided root, that root does not hold the point |
| OctreeModel.Grow | Scripts/Octree.cs:133-171 | growing a leaf gives a well-formed node with the same capacity, twice the size, centred at GrowCenter |
| OctreeProperties.GrowKeepsPayloads | Scripts/Octree.cs:133-171 | growing a leaf gives a node of twice the size, centred at the old centre plus the size times (direction − 1/2), that holds exactly the leaf's payloads |
| OctreeProperties.InsertAllPayloads | Scripts/Octree.cs:159-162 | inserting a list of payloads one by one adds exactly that list's multiset |
| OctreeProperties.GrowUntilPayloads | Scripts/Octree.cs:122-125 | the growth loop never changes the stored payloads, however many times it grows |
| OctreeModel.UpdateFrom | Scripts/Octree.cs:113-129 | applying the movements from k on keeps the tree well formed, and a failure status names a movement from k on |
| OctreeModel.Update | Scripts/Octree.cs:109-131 | an update keeps the tree well formed, and a failure status names a movement of the batch |
| OctreeProperties.UpdatePayloads | Scripts/Octree.cs:109-131 | a fully successful update keeps the multiset of stored payloads |
| OctreeProperties.UpdateFromPayloads | Scripts/Octree.cs:113-129 | a batch that completes, or stops because a removal found nothing, keeps the payloads; one that stops in the growth loop has lost exactly the payload it was moving |
| OctreeModel.Query | Scripts/Octree.cs:239-262 | everything a query reports is stored in a leaf of the subtree, as many times at most as it is stored there |
| OctreeProperties.QueryLeaf | Scripts/Octree.cs:254-260 | a leaf reports its whole list exactly when the box overlaps its bounds, holds its centre and the list is not empty; otherwise it reports nothing |
| OctreeProperties.QueryPrunes | Scripts/Octree.cs:241-244 | a node whose bounds the box does not overlap reports nothing |
| OctreeProperties.QueryChildOrder | Scripts/Octree.cs:246-253 | a subdivided node reports the results of its children in index order, 0 to 7 |
| OctreeProperties.QueryMissesInternalData | Scripts/Octree.cs:246-253 | a payload held only on a subdivided node's own list is never reported |
| OctreeProperties.QueryCovering | Scripts/Octree.cs:239-262 | when the box overlaps the bounds of every node and holds the centre of every leaf, the query reports exactly the leaf payloads |
| OctreeModel.Enumerate | Scripts/Octree.cs:265-284 | everything enumerated is stored in the subtree, as many times at most as it is stored there |
| OctreeProperties.EnumerateLeaf | Scripts/Octree.cs:280-283 | a leaf enumerates its own list |
| OctreeProperties.EnumerateChildOrder | Scripts/Octree.cs:268-283 | a subdivided node enumerates the own lists of its children in child order 0 to 7, then its own list |
| OctreeProperties.EnumerateIsShallow | Scripts/Octree.cs:265-284 | a subdivided node enumerates a payload exactly when it is on the node's own list or on a child's own list |
| OctreeProperties.ThreeInsertsExample | Scripts/Octree.cs:89-284 | with capacity 2, inserting a, b and c at (1,1,1), (2,2,2) and (3,3,3) gives a tree whose covering query is [c], on which removing b fails, and which enumerates [c, a, b] |
| Octrees.Octree.constructor | Scripts/Octree.cs:43-48 | the new object is a valid empty leaf with the given centre, size and capacity |
| Octrees.Octree.GetChildIndex | Scripts/Octree.cs:49 | the index is the one ChildIndex gives for the node's centre |
| Octrees.Octree.Bounds | Scripts/Octree.cs:50 | the bounds are those of the node's centre and size |
| Octrees.Octree.AdjustThresholdBasedOnPerformanceMetrics | Scripts/Octree.cs:54-64 | only the capacity changes, to the adjusted capacity |
| Octrees.Octree.Subdivide | Scripts/Octree.cs:72-88 | the object's tree becomes the subdivided tree, it stays valid, and the children array and the eight children in it are fresh objects |
| Octrees.Octree.Insert | Scripts/Octree.cs:89-107 | the object's tree becomes Insert of the old tree, and it stays valid |
| Octrees.Octree.TryMerge | Scripts/Octree.cs:172-193 | the new tree and the result are those of TryMerge on the old tree |
| Octrees.Octree.Remove | Scripts/Octree.cs:195-214 | the new tree and the result are those of Remove on the old tree, and the footprint is unchanged |
| Octrees.Octree.Grow | Scripts/Octree.cs:133-171 | on a leaf, the object's tree becomes Grow of the old tree |
| Octrees.Octree.Update | Scripts/Octree.cs:109-131 | the new tree and the status are those of Update on the old tree and the movements |
| Octrees.Octree.Query | Scripts/Octree.cs:239-262 | the results list is extended by exactly the model's query results, in order |
| Octrees.Octree.GetEnumerator | Scripts/Octree.cs:265-284 | the payloads come out in the order the model's Enumerate gives |

## Left out

- Locking: `ExecuteWithLock` (Scripts/Octree.cs:215-237) and its lock timeout are not modelled, because the model is sequential, so the timeout exception cannot occur.
- Disposal: the `Dispose` methods and the finaliser (Scripts/Octree.cs:291-326) release engine resources and do not change the tree.
- `PerformanceManagement` (Scripts/Octree.cs:65-71) reads the frame rate from the engine. The model takes the frame rate as a parameter of the adjustment instead.
- `OnNodeUpdated` (Scripts/Octree.cs:52) is a callback that the octree itself never calls.
- Octrees.Octree.Grow: only the leaf branch is modelled. On a subdivided node the source assigns into a children array that was never allocated (Scripts/Octree.cs:148 when the growth direction is 0, otherwise line 152). The model reports this as a failure status and never links the old node into a new root.
- OctreeModel.Update: the loop that grows the root until it holds the new point (Scripts/Octree.cs:122-125) is bounded by a `fuel` count. Running out of fuel is a status of its own, so trees the loop would take more steps to grow are not followed further.
- Update's exception when a payload cannot be removed, and the fault on the subdivided growth branch, are returned as `UpdateStatus` values. The movements already applied are kept, as they are in the source.
- Numbers:
  - coordinates are exact reals, not 32-bit floats;
  - the frame rate is a real, not a double;
  - capacities are unbounded integers.
- The source does not define the `Aabb` type. The model takes `HasPoint` as closed containment and `Intersects` as the strict test on each axis, `a < b + lb && b < a + la`, which also holds for a box of zero extent strictly inside the other. This is Godot's `Aabb.Intersects`, which does not count touching borders.
- A payload's position (`data.Position` at Scripts/Octree.cs:161) is a function `pos` given as a parameter.
- Octrees.Octree.constructor requires a capacity of at least 1. The source accepts any integer, but a zero or negative capacity makes every insert subdivide without end.
- Octrees.Octree.Subdivide creates the eight children in a loop, through the offset table `ChildOffset`, rather than as eight literal constructor calls. The offsets and order are those of Scripts/Octree.cs:79-86.
- Octrees.Octree.GetEnumerator returns the whole sequence at once, rather than yielding lazily. The non-generic enumerator (Scripts/Octree.cs:286-289) is the same sequence.
- Octrees.Octree.Query returns the extended results list as a new sequence, rather than appending to a shared list in place.
- `ILocatable`, `IRotatable` and `IScalable` (Scripts/Octree.cs:9-22) carry no behaviour.
- The rest of the repository (the player, the terrain, the library scripts) is not part of this model.
