# Quixel octree terrain: level-of-detail bookkeeping in Dafny

Quixel keeps voxel terrain as a forest of octrees. A 3 x 3 x 3 grid of
top-level nodes at level `maxLOD` surrounds the viewer. Every node either is
a leaf or has eight children one level down, each half its width. When the
viewer moves, `NodeManager<T>.SetViewPosition` does two things:

- it slides the top-level grid so that the viewer's top cell stays in the
  middle, disposing the nine nodes that leave and creating nine that enter;
- it asks every top node to refine the branches near the viewer and prune the
  ones far from it (`Node<T>.ViewPosChanged`).

A node asks the mesh factory for a mesh when it is created or edited. The
`regenReq`/`regenFlag` pair makes sure at most one request per node is ever
in flight. An edit writes into a node's change grid (`VoxelData<T>`) and makes
the node and its ancestors permanent. A permanent node is never released
when pruned. `ChunkPool<T>` recycles render objects first in, first out.

The model is a functional state machine over an arena of nodes:

- `Arena.Tree` maps node identifiers to records (parent, eight child slots,
  six neighbour slots, level, lattice position, flags). It also holds the
  per-level `nodeCount` and an append-only log of collaborator calls:
  `RequestMesh`, `SetRenderState`, `DisposeVoxelData`, `ApplyVoxelData`.
- Positions are integers. Every node position is a multiple of its width, so
  the source's float arithmetic on them is exact. The source's two rounding
  rules are modelled explicitly: `(int)` casts truncate toward zero
  (`Vectors.TruncDiv`), while `GetTopNode` rounds down (`Vectors.FloorDiv`).
- `default(T)` is the parameter `dflt`.

Each operation is a pure function whose contract states what it changes and
what it keeps. Lemmas connect each operation to a partner:

- an inverse: `Vectors.AddSubtract`, `Voxels.SetThenGet`;
- an invariant it preserves: `Regen.AtMostOneOutstanding`,
  `Managers.StepKeepsArranged`;
- an independent characterisation: `Arena.BottomLevelMeans`,
  `ViewUpdate.PrunesMeans`, `Search.ManagerSearch`;
- idempotence: `Disposal.DisposeIdempotent`, `Voxels.ApplyChangesIdempotent`.

## Model

| member | source | states |
|---|---|---|
| ChunkPool.NewPool | ChunkPool.cs:18-32 | A new pool holds no spare handle and has created none. |
| ChunkPool.GetChunk | ChunkPool.cs:38-52 | On an empty pool, it hands out a freshly created handle, counts exactly one creation and leaves the pool empty. Otherwise, it hands out the front handle, keeps the remaining handles in order and creates none. |
| ChunkPool.RecycleChunk | ChunkPool.cs:58-62 | The handle joins the back of the pool, the pool grows by one and the creation count is unchanged. |
| ChunkPool.RecycleAllAppends | ChunkPool.cs:58-62 | Recycling a sequence of handles appends it to the pool in that order. |
| ChunkPool.TakeNFront | ChunkPool.cs:38-52 | Taking n handles from a pool holding at least n yields its first n handles in order, leaves the rest and creates none. |
| ChunkPool.RecycledInOrder | ChunkPool.cs:38-62 | First in, first out: after recycling a sequence, draining the pool returns the older spares, then the recycled handles in recycling order, with no creation. |
| Voxels.New | Utilities.cs:21-24 | A new grid has every cell of -1..17 at the default value and no change overlay. |
| Voxels.GetVAgrees | Utilities.cs:40-46 | The vector overload of `Get` returns what the three-integer overload returns at every in-range coordinate, with any overlay chain. |
| Voxels.GetWithOverlay | Utilities.cs:29-35 | With an overlay attached, `Get` yields the overlay's value where it differs from the default and the grid's own value otherwise. |
| Voxels.GetWithoutOverlay | Utilities.cs:29-35 | Without an overlay, `Get` yields the grid's own value. |
| Voxels.Set | Utilities.cs:51-54 | `Set` writes exactly the addressed cell. Every other cell and the overlay are unchanged. |
| Voxels.SetThenGet | Utilities.cs:29-54 | Round trip: after `Set(x, y, z, v)`, `Get(x, y, z)` returns `v` and every other coordinate reads as before. |
| Voxels.SetChangeData | Utilities.cs:81-84 | Attaching an overlay keeps the grid's own values and makes the given grid the overlay. |
| Voxels.ApplyChanges | Utilities.cs:68-75 | Each cell takes the other grid's value where that value is not the default and keeps its own otherwise. The overlay is untouched. |
| Voxels.ApplyChangesIdempotent | Utilities.cs:68-75 | Applying the same changes twice gives what applying them once gives. |
| Voxels.Dispose | Utilities.cs:89-95 | Every one of the 19 x 19 x 19 cells is reset to the default value. |
| Vectors.Add | Utilities.cs:167-170 | The sum differs from the first operand by the second, component by component. |
| Vectors.Subtract | Utilities.cs:177-180 | The difference plus the second operand gives back the first, component by component. |
| Vectors.Equals | Utilities.cs:142-151 | Equal iff all three components agree. |
| Vectors.AddSubtract | Utilities.cs:167-180 | Subtracting what was added gives back the original vector. |
| Vectors.SubtractAdd | Utilities.cs:167-180 | Adding back what was subtracted gives back the original vector. |
| Vectors.TruncDiv | NodeManager.cs:119-121 | The C# `(int)` cast of a quotient: a non-negative dividend rounds down, a negative one rounds up toward zero, each within one divisor. |
| Vectors.FloorDiv | NodeManager.cs:330-332 | `Mathf.Floor` of a quotient: the greatest multiple of the divisor not above the dividend. |
| Geometry.WidthDoubles | NodeManager.cs:42-55 | Each level's node width is twice the width one level down, and never below one node's 16 voxels. |
| Geometry.OppositeInvolution | NodeManager.cs:419-437 | `oppositeNeighbor` pairs each of the six sides with a different side, is its own inverse, and maps each side's offset to its negation. |
| Geometry.MaskIndex | NodeManager.cs:27-37 | Each of the eight 0/1 corner offsets appears in the `mask` table. |
| Geometry.ChildInsideParent | NodeManager.cs:313-322 | Child `i` sits at the parent's position plus half the parent's width times `mask[i]`, and its closed box lies inside the parent's. |
| Geometry.ChildHolding | NodeManager.cs:313-322 | For a point in a parent's box, names a child slot whose box holds the point. |
| Geometry.ChildrenCover | NodeManager.cs:313-322 | The eight children's boxes cover the parent's box. |
| Geometry.TightInsideDensity | NodeManager.cs:610-644 | A point in a node's box is inside its density box, which is padded by one voxel of the node's level on every side. |
| Geometry.NegativeNodeSharesChunkPos | NodeManager.cs:458-461 | As written, truncation gives the level-0 nodes at x = -16 and x = 0 the same `chunkPos` (0, 0, 0). |
| Geometry.FloorChunkPosExact | NodeManager.cs:458-461 | Rounded down, a node's chunk position is its own lattice coordinate at its level. |
| Geometry.FloorChunkPosInjective | NodeManager.cs:458-461 | Rounded down, two nodes of one level share a chunk position iff they are the same lattice node. |
| Arena.BottomLevelMeans | NodeManager.cs:760-771 | A node is a leaf iff some child slot is empty or holds a disposed child. |
| Arena.TransitionalMeans | NodeManager.cs:778-791 | A node of level 0 or 1 is never transitional. Otherwise a node is transitional iff it has children and a neighbour of its own level is a leaf. |
| Construct.NewRecord | NodeManager.cs:439-465 | A new node has the given parent, position, slot and level, and `chunkPos` truncated from its centre. It has no children or neighbours, an empty change grid and no mesh, and one mesh request is outstanding. |
| Construct.NewNode | NodeManager.cs:439-465 | Creating a node stores it under a fresh identifier, keeps every other node, inherits the parent's permanence, adds one to the count of its level only, and logs exactly one mesh request. |
| Construct.CreateAll | NodeManager.cs:813-817 | Eight fresh nodes one level down fill the slots in `mask` order, each in the box of its slot. The count one level down rises by eight, eight requests are logged in slot order, and no other node changes. |
| Construct.Reactivate | NodeManager.cs:801-810 | Every child in the slots becomes live again. Only disposal flags change, and only those of these children. |
| Construct.CreateAllSubdivides | NodeManager.cs:813-817 | After filling an empty node's slots, the node is no longer a leaf and every slot holds a live child. |
| Construct.ReactivateSubdivides | NodeManager.cs:801-810 | After reactivating a full node's slots, the node is no longer a leaf. |
| Subdivide.CreateSubNodes | NodeManager.cs:796-818 | At level 0 nothing changes. Above it, the node ends with a live child in every slot: existing children are reactivated with no creation, count change or request, and otherwise eight fresh children are made. |
| Disposal.Unlink | NodeManager.cs:894-901 | Each neighbour stops pointing back at the node through the opposite side. Only neighbour slots change. |
| Disposal.Release | NodeManager.cs:888-903 | A non-permanent node is uncounted once at its level, loses its mesh, and is unlinked from its neighbours. Its parent's visibility verdict is logged, then exactly one release of its voxel data. |
| Disposal.DropChild | NodeManager.cs:872-879 | Disposing and clearing one slot leaves the child disposed, empties exactly that slot, and changes no count at or above the node's level. |
| Disposal.Dispose | NodeManager.cs:864-904 | An already-disposed node changes nothing. Otherwise the node ends disposed with all eight slots empty. Other nodes at or above its level change only in their neighbour slots, and counts above its level are unchanged. If and only if it was not permanent, it is uncounted once at its level, loses its mesh and is unlinked from every neighbour. |
| Disposal.DisposeTrail | NodeManager.cs:872-903 | Every voxel-data release logged by a dispose names a node below the disposed node's level, except a final release of the node itself, which is logged iff it was live and not permanent. |
| Disposal.DisposeIdempotent | NodeManager.cs:866-868 | Disposing twice is disposing once. |
| Disposal.DisposeReleasesOnce | NodeManager.cs:881-903 | The node's own voxel data is released exactly once, as the last event, and only when it was live and not permanent. |
| DisposeTree.DisposeSubtree | NodeManager.cs:864-904 | Nodes outside the subtree keep their disposal flags. When no disposed node holds children, the same holds afterwards, every node of the subtree ends disposed, and each level's count drops by exactly the number of that level's live, non-permanent subtree nodes. |
| ViewUpdate.PrunesMeans | NodeManager.cs:490-504 | Despite the operator grouping, the two far tests together prune iff the level is 3 or more or the view is more than three cells away on some axis. |
| ViewUpdate.Sprout | NodeManager.cs:479-480 | A leaf above level 0 ends with a live child in every slot. Any other node is left as it is. |
| ViewUpdate.Prune | NodeManager.cs:495-513 | Every former child ends disposed and every child slot ends empty. Nodes above its level keep their child slots and disposal flags. |
| ViewUpdate.ViewPosChanged | NodeManager.cs:471-541 | Nodes above the visited node's level keep their slots and flags. Identifiers, positions and levels are kept, and every node keeps all-or-none child slots. |
| ViewUpdate.ViewNear | NodeManager.cs:475-487 | With the view within one cell on every axis, a leaf above level 0 ends with live children in every slot. A node that had children keeps the same children and stays a non-leaf. |
| ViewUpdate.ViewFar | NodeManager.cs:488-514 | With the view out of the near box, and either the level 3 or more or the view more than three cells away, every former child ends disposed and every child slot ends empty. |
| ViewUpdate.ViewBand | NodeManager.cs:488-540 | In the hysteresis band (level below 3, view between one and three cells away), only the node's own visibility verdict is logged. |
| ViewUpdate.ViewEndsWithVerdict | NodeManager.cs:540 | A visit ends with the node's visibility call, when it has a render object: shown iff live and a leaf. |
| Search.FirstHolding | NodeManager.cs:589-594 | Returns the first child from a given slot on whose box holds the point, or reports that no such child exists. |
| Search.CoveredByChild | NodeManager.cs:587-596 | A non-leaf whose box holds the point always has a child whose box holds it. |
| Search.Descend | NodeManager.cs:582-597 | From a node whose box holds the point, the descent stops at a node whose box holds it and which is at the searched level or a leaf. Started at or above the searched level, it never descends below it. |
| Search.NodeSearch | NodeManager.cs:580-603 | A node found holds the point in its density box. When the start node's density box holds the point, the search is the descent from it. |
| Search.ManagerSearch | NodeManager.cs:289-305 | There is no result iff no top node's box holds the point. Otherwise the result's box holds it and it is at the searched level or a leaf. No node is created. |
| SearchCreate.SearchNodeCreate | NodeManager.cs:548-573 | Outside the density box nothing changes. At the searched level, the node fills the first empty entry. Below it, only entries that were empty are filled, each with a node at the searched level whose density box holds the point. Nodes above its level keep their child slots and disposal flags. |
| SearchCreate.SearchContainingDensity | NodeManager.cs:267-283 | Returns eight entries, each empty or a node at the searched level whose density box holds the point. Earlier nodes are kept. |
| SearchFound.SearchFinds | NodeManager.cs:543-573 | Creating if none is found: when the start node's box holds the point and the list has an empty entry, some entry gets filled. |
| SearchFound.ContainingFinds | NodeManager.cs:267-283 | When some top node's box holds the point, some entry of the result holds a node. |
| Render.RenderCheck | NodeManager.cs:649-678 | Only the log changes, by the call `Render.Verdict` describes for the node. |
| Render.RenderCheckMeans | NodeManager.cs:649-678 | Only the log changes. It gains one call iff the node has a render object, and that call shows the node iff it is live and a leaf. A disposed node is hidden. |
| Render.ParentHiddenWhileChildrenPending | NodeManager.cs:665-676 | A live node with live children is hidden even while a child has no mesh yet. |
| Meshes.RegenerateChunk | NodeManager.cs:848-859 | With a request in flight, only `regenFlag` is set and nothing is logged. Otherwise exactly one request is logged. Either way a request is then in flight, and `regenFlag ==> regenReq` is kept. |
| Meshes.Deliver | NodeManager.cs:686-696 | A delivered mesh marks the node as having one and clears `regenFlag`. It issues exactly one new request iff `regenFlag` was set. |
| Meshes.Attach | NodeManager.cs:700-730 | A non-empty mesh gives the node a render object. It logs the attach, the node's visibility call and then its parent's. |
| Meshes.SetMesh | NodeManager.cs:684-731 | The node has a mesh and `regenFlag` is clear, and a request is in flight iff one was deferred. An empty mesh logs only that request. A non-empty one leaves a render object. Disposal flags and child slots stay as they were, whether or not the node is disposed. |
| Regen.Constructed | NodeManager.cs:463-464 | A new node starts with one request issued and `regenFlag ==> regenReq`. |
| Regen.Regenerate | NodeManager.cs:848-859 | A request is issued iff none was in flight. Afterwards one is in flight, and a second call while one is in flight only defers. |
| Regen.Delivered | NodeManager.cs:688-694 | A delivery reissues iff a regeneration was deferred, clears `regenFlag`, and leaves a request in flight iff one was reissued. |
| Regen.AtMostOneOutstanding | NodeManager.cs:684-694 | Over any sequence of regenerations and deliveries, each delivery answering an outstanding request, at most one request per node is outstanding. |
| Regen.DeferredReissuedOnce | NodeManager.cs:848-859 | Any number of regenerations during one request defer into one flag, and the next delivery reissues exactly one request. |
| Permanence.MakePermanent | NodeManager.cs:933-944 | Exactly the node and its ancestors become permanent, and nothing but permanence changes. |
| Permanence.MakeTransient | NodeManager.cs:939-944 | Exactly the node and its descendants become non-permanent, and nothing but permanence changes. |
| Permanence.PermanentUpward | NodeManager.cs:935-937 | Afterwards the node and every ancestor are permanent, and no node loses permanence. |
| Permanence.TransientDownward | NodeManager.cs:939-942 | Afterwards the node and every descendant are non-permanent, and no node gains permanence. |
| Neighbors.Probe | NodeManager.cs:920-926 | The side's slot holds a node whose box holds the point one width beyond the centre, at the node's level or a leaf. It is empty only if no top box holds that point. A same-level find points back through the opposite side. |
| Neighbors.FindNeighbors | NodeManager.cs:909-928 | Only neighbour slots change. A side already linked to a node of the same level keeps its link. Every other side is re-searched as `Neighbors.Probe` states. |
| Edits.TruncInRange | NodeManager.cs:826-832 | A truncated grid coordinate lies in -1..17 iff the offset lies strictly between -2 and 18 voxels. |
| Edits.AcceptedMeans | NodeManager.cs:825-836 | An edit is accepted iff, on every axis, the point's offset from the node lies strictly between -2 and 18 voxels of the node's level. |
| Edits.DensityPointAccepted | NodeManager.cs:826-836 | Every point of a node's density box is accepted for editing. |
| Edits.SetDataFromWorldPos | NodeManager.cs:823-843 | An out-of-range edit changes nothing. An accepted one writes exactly that change-grid cell, sets `hasDensityChangeData`, and makes the node and exactly its ancestors permanent. Nothing else changes. |
| Managers.NewManager | NodeManager.cs:91-109 | The 27 top nodes sit at `(i-1, j-1, k-1)` widths from the origin, live and counted at the top level only. The centre cell is the origin, and every level's view cell starts at (0, 0, 0). |
| Managers.GetTopNode | NodeManager.cs:327-335 | The viewer's top cell is the rounded-down one whose box holds it on every axis. |
| Managers.CentreHolds | NodeManager.cs:327-335 | In a grid arranged around the viewer's top cell, the centre node's box holds the viewer. |
| Managers.ViewChunks | NodeManager.cs:116-122 | Each level's view cell is the viewer's position divided by that level's width, truncated toward zero. |
| Managers.BottomCell | NodeManager.cs:124-125 | The bottom cell is the viewer's position in half level-0 widths, truncated toward zero. |
| Managers.Follow | NodeManager.cs:127-247 | Among the top-level nodes, only those that leave the grid can change their disposal flag, and disposed nodes stay disposed. The new grid holds old top nodes or fresh ones. A viewer that stays in its top cell leaves the grid as it was. |
| Managers.Refresh | NodeManager.cs:249-260 | When the bottom cell is unchanged, nothing changes. Otherwise every top node is visited: identifiers, positions and levels are kept, as are all-or-none child slots. |
| Managers.SetViewPosition | NodeManager.cs:114-261 | Afterwards the centre cell is the viewer's floor cell and the view cells are its truncated cells. The grid holds old or fresh top nodes. A top node outside the old grid keeps its disposal flag. A viewer that stays in its top and bottom cells leaves the tree as it was. |
| Managers.SetViewIdempotent | NodeManager.cs:114-261 | Reporting the same position twice is reporting it once. |
| Managers.StepKeepsArranged | NodeManager.cs:127-247 | A viewer that stays in its top cell or crosses one cell along one axis finds every top node at its cell's place around the new centre, with itself inside the centre node. |
| Managers.JumpUnarranged | NodeManager.cs:130-168 | As written, a viewer crossing two top cells along one axis leaves the grid not arranged around its new cell, whatever the grid held before. |
| Managers.DiagonalUnarranged | NodeManager.cs:130-189 | As written, a viewer crossing one top cell along each of two axes leaves the grid not arranged around its new cell. |
| Managers.SetViewTracked | NodeManager.cs:114-261 | The corrected update: the same cells as `SetViewPosition`, with each recentring pass placing its nodes around the centre as moved so far. |
| Managers.TrackedArranged | NodeManager.cs:127-247 | With the corrected passes, a viewer moving any distance along any axes finds the grid arranged around its new cell, with itself inside the centre node. |
| TopShift.Slide | NodeManager.cs:138-141 | One line of the grid moves one cell against the direction of travel, the new node enters at the far end, and every other line is untouched. |
| TopShift.Evict | NodeManager.cs:138 | The leaving top node ends disposed. No other top-level node changes its disposal flag, and no node is added or removed. |
| TopShift.Enter | NodeManager.cs:141-145 | A new top-level node enters, live and at the given position, counted once at the top level. |
| TopShift.ShiftAxis | NodeManager.cs:132-149 | Among the top-level nodes, only the nine at the leaving face can change their disposal flag. Every line slides one cell, and each entering node is placed at its cell's place around the centre the pass is given. |
| TopShift.Plan | NodeManager.cs:130-246 | The passes for a move are all the x passes, then all y passes, then all z passes, each as many as that component's size and in its direction. |
| TopShift.ShiftPlaces | NodeManager.cs:132-149 | A pass run with the centre one step on keeps a grid arranged around that centre. |
| TopShift.Recentre | NodeManager.cs:127-247 | Among the top-level nodes, only those that leave the grid can change their disposal flag. The new grid holds old top nodes or fresh ones. A zero move changes nothing. |
| Recentring.RecentreStep | NodeManager.cs:127-247 | As written, a one-cell move along one axis leaves every top node where its cell belongs around the new centre. |
| Recentring.TwoCellsCollide | NodeManager.cs:130-168 | As written, after a two-cell move along one axis, the middle cell and the entering cell of every line hold distinct nodes at one position. |
| Recentring.DiagonalMisplaces | NodeManager.cs:130-189 | As written, after a one-cell move along two axes, some cell holds a node placed at another cell's place. |
| Tracking.TrackArranged | NodeManager.cs:130-246 | Passes that each place their nodes around the centre as moved so far keep the grid arranged, around the centre moved by all of them. |
| Tracking.MovedPlan | NodeManager.cs:130-246 | The passes planned for a move carry the centre by exactly that move. |
| Tracking.RetrackArranged | NodeManager.cs:127-247 | With the corrected passes, every move, however far and along however many axes, leaves the grid arranged around the new centre. |

## Left out

- Managers.SetViewPosition: takes the viewer position as an integer point. The source's float position, and the difference between rounding down (NodeManager.cs:330-332) and truncation (NodeManager.cs:119-125) for points between lattice points, are not modelled.
- Edits.ArrayPos: takes the world point as an integer. `Math.Round` (NodeManager.cs:826-828) is the identity on integers, so rounding of fractional edit positions is not modelled.
- ViewUpdate.ViewPosChanged: the level-0 collision band (NodeManager.cs:517-538) is absent. It only sets `collides`, a flag the collider code reads. The `pos` argument is used only there, so the model takes just the per-level view cells.
- Render types: `renderType`, `collides` and the `SetRenderType` calls (NodeManager.cs:451, 663, 671, 738-754, 805-806) are not modelled. Every call site passes `FRONT`, and the render type only selects a Unity layer.
- Meshes.SetMesh: `data.SetChangeData` (NodeManager.cs:686) and the Unity mesh construction and layer switch (NodeManager.cs:701-714, 717-728) are not modelled. The mesh is reduced to whether it is empty, and `ApplyVoxelData` is logged and taken to attach a render object, as the terrain controllers do. `Node.data` is filled by the mesh factory, which is not part of this model.
- SearchCreate.SearchNodeCreate: requires `0 <= searchLOD <= lod`. Outside that range the source descends past level 0, where `CreateSubNodes` leaves the slots null, and dereferences a null child (NodeManager.cs:564-570). That failure path is not modelled. `Debug.Log` for a full list is not modelled either.
- SearchCreate.SearchContainingDensity: requires every top node to be at or above the searched level, for the same null-dereference reason.
- Subdivide.CreateSubNodes: requires all-or-none child slots. `ViewUpdate.ViewPosChanged`, `SearchCreate.SearchNodeCreate` and `Managers.SetViewPosition` require the same of every node (`Arena.Shaped`). This is an assumed invariant of the tree: every operation of the model that changes slots is proved to keep it, but nothing proves the source never breaks it.
- DisposeTree.DisposeSubtree: completeness and the count drop are stated under the hypothesis that no disposed node holds children (`DisposeTree.Settled`). `Dispose` is proved to keep that hypothesis, but the other operations are not.
- Regen.AtMostOneOutstanding: the mesh factory and its worker thread (`RequestMesh`, Threading.cs) are reduced to logged `RequestMesh` events. The lemma assumes each delivery answers an outstanding request.
- Voxels.Get / Voxels.Set: require the coordinate to lie in -1..17 on every axis. Outside that range the source's array access throws `IndexOutOfRangeException` (Utilities.cs:29-35, 51-54); that error path is not modelled. `SetDataFromWorldPos` checks the range before it writes, so the core never reaches it.
- Voxels.SetChangeData: stores the overlay grid as a value. The source stores a reference (Utilities.cs:81-84), so a later `Set` on the overlay grid shows through the owner's `Get`; the model does not capture that aliasing. The core's only call is in `SetMesh`, which is left out above.
- Voxels.GetWithOverlay: stated for an overlay with no overlay of its own, which is how a node attaches its change grid. Longer chains are covered only by `Voxels.GetVAgrees` and the definition of `Get`.
- `CheckRangeIntersection` (NodeManager.cs:953-979): unused, and computed with float distances.
- `LODRange` (NodeManager.cs:61-74): marked deprecated and never read.
- `Debug.Log`, `ToString`, `GetHashCode`, and the commented-out save request in `SetDataFromWorldPos`: no effect on the modelled state.
- ChunkPool.GetChunk: creating and activating a Unity `GameObject` is reduced to a handle supplied by the caller. `SetActive` is not modelled.
- Collaborators: `SetRenderState`, `DisposeVoxelData`, `ApplyVoxelData` and `RequestMesh` are log entries. Whatever the controllers do with them is not modelled.
- Integer widths: node counts and coordinates are unbounded integers. 32-bit overflow of positions or counts is not modelled.

## Findings

| source | as written | input that shows it | evidently intended | confidence | as-written member | corrected member |
|---|---|---|---|---|---|---|
| NodeManager.cs:130-246 | `curTopNode` is set to the final top cell before the shift loops, so every pass places its entering nodes around the final cell, even when the move takes several passes. | The viewer crosses two top cells along x in one call, so two x+ passes run. Afterwards cells (1, y, z) and (2, y, z) hold distinct nodes at the same position, and nothing covers the centre. The same happens for a one-cell move along x and y together. | Each pass places its nodes around the centre as moved by the passes so far. Then every move leaves the grid arranged around the new top cell. | medium; not executed | Recentring.TwoCellsCollide, Recentring.DiagonalMisplaces, Managers.JumpUnarranged, Managers.DiagonalUnarranged | Tracking.RetrackArranged, Managers.TrackedArranged |
| NodeManager.cs:458-461 | `chunkPos` is the node centre divided by the width and truncated toward zero, so lattice cells -1 and 0 collapse onto 0 on every axis. | The level-0 nodes at x = -16 and x = 0 (centres -8 and 8, width 16) both get `chunkPos.x` 0. | Round down, as `GetTopNode` does (NodeManager.cs:330-332), so that each lattice node gets its own lattice coordinate. | medium; not executed | Geometry.NegativeNodeSharesChunkPos | Geometry.FloorChunkPosInjective, Geometry.FloorChunkPosExact |

The model keeps the source's behaviour in its main operations:

- `Managers.SetViewPosition` uses the passes as written, and `Construct.NewRecord` the truncated `chunkPos`.
- The corrected recentring is a complete operation, `Managers.SetViewTracked`, and the arrangement invariant is proved for it.
- The rounded-down chunk position is `Geometry.FloorChunkPos`.

The view cells that `ViewPosChanged` compares against (NodeManager.cs:119-121) are truncated the same way as `chunkPos`. A fix would round both down.
