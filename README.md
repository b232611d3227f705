# Ludum-Dare-21 mesh library and game bookkeeping, modelled in Dafny

This project models the integer core of the Ludum-Dare-21 game. It has five parts.

- **TriMesh arena** (`TriMeshes`, trimesh.dfy). An indexed triangle store.
  - `TriMesh<V>` is a class with the five containers of the C++ struct as `seq` fields: `deadTris`, `triData`, `deadVerts`, `vertData` and `incidence`.
  - Freed names are reused last-in first-out.
  - `Valid()` is the store's invariant. The free lists name slots of their arrays, each at most once. Every corner of a live triangle is a live vertex. Vertex v's incidence list holds each live triangle t exactly as many times as t has v as a corner (a multiset equality).
  - `add_vertex`, `add_triangle`, `remove_triangle`, `remove_vertex` and `garbage_collect` are methods proved to keep `Valid()`.
  - `add_vertex`, `add_triangle` and `remove_triangle` state their exact new state. `remove_vertex` states the vertex's own list and the free list exactly, and every other list only as a multiset. `garbage_collect` states the new layout up to the renamings it returns: they are bijections, and names below the new size are kept.
  - `garbage_collect` also returns the renamings of vertices and triangles, with their inverses. Its compaction loops run over the sorted free list, as in the source.
- **Triangle and Z-order hash** (`Triangles`, triangle.dfy; `Morton`, morton.dfy).
  - A triangle is a value of three vertex names. `index_of` is a search loop.
  - The Morton `expand` and the cell hash are straight-line functions on `bv64`.
- **Connected components** (`Components`, components.dfy).
  - A flood fill with a to-visit stack and the two `visited` arrays (Dafny arrays).
  - Each flood builds a fresh `TriMesh` through `AddVertex` and `AddTriangleOf`.
- **Vertex repair** (`Repair`, repair.dfy).
  - `repair_mesh_vertices` with the geometry abstracted. `key` gives the grid cell of a vertex's data and `close` the tolerance test. The spatial grid is a `map<Cell, int>`.
  - The fuse loop retargets or drops each triangle on the duplicate vertex through the mesh's own operations, then removes the vertex.
- **Menu cursor** (`Menus`, menu.dfy) and **audio slot table** (`Sound`, sound.dfy). Both are classes.
  - The menu cursor clamps to the option list. The source's int/size_t comparisons are written out.
  - The slot table is an `array` of stream records, with the loaded sounds and the handle counter.

`wrappers.dfy` holds an `Option` type. `seqs.dfy` (`SeqUtil`) holds the sequence helpers that stand for `std::sort` over a free list and for the swap-with-last erase of an incidence entry.

Two mesh operations are modelled in their corrected form:

- The vertex phase of `garbage_collect` works on the free list sorted and without repeats.
- The triangle phase also renames the incidence entries of each triangle it moves.

The lines as written are modelled too, with the inputs that break them (see Findings).

## Model

| member | source | states |
|---|---|---|
| Triangles.FromSeq | includes/mesh/core/triangle.h:48-57 | the pointer and vector constructors keep the first three entries as corners 0, 1, 2 in order |
| Triangles.Triangle.VList | includes/mesh/core/triangle.h:70-72 | vlist has three entries, entry k being corner k |
| Triangles.VListRoundTrip | includes/mesh/core/triangle.h:53-72 | vlist and the vector constructor are inverse both ways |
| Triangles.IndexOf | includes/mesh/core/triangle.h:60-67 | the result is -1 exactly when x is no corner; otherwise corner r is x and no earlier corner is x (the first match) |
| Triangles.Triangle.WithCorner | includes/mesh/algorithms/repair.h:61 | writing corner k sets that corner to x and leaves the other two |
| Triangles.WithFirstCorner | includes/mesh/algorithms/repair.h:61 | writing x at the position index_of found is replacing the first occurrence |
| Triangles.ReplaceFirstNAll | includes/mesh/core/trimesh.h:297-305 | renaming the first occurrence once per incidence entry (once per corner holding a) renames every occurrence |
| Triangles.RenameCount | includes/mesh/core/trimesh.h:297-305 | renaming corners through a map that is one to one on them keeps how often each vertex occurs |
| Morton.ToU64 | includes/mesh/implementation/util.h:63-64 | the int coordinate converted to uint64_t keeps its low 32 bits and is unchanged when non-negative |
| Morton.ExpandLow32 | includes/mesh/implementation/util.h:52 | expand depends only on the low 32 bits of its argument |
| Morton.ExpandOnlyMultiplesOfThree | includes/mesh/implementation/util.h:58 | expand sets no bit outside the positions divisible by 3 |
| Morton.ExpandZero | includes/mesh/implementation/util.h:51-61 | expand(0) == 0 |
| Morton.ExpandMovesBits | includes/mesh/implementation/util.h:54-58 | for x < 2^21, bit 3k of expand(x) is bit k of x, for every k < 21 |
| Morton.ExpandSetsNothingElse | includes/mesh/implementation/util.h:54-58 | for x < 2^21, expand sets only bits 3k with k < 21 |
| Morton.CompactExpand | includes/mesh/implementation/util.h:51-61 | the bit-gathering inverse undoes expand on [0, 2^21) |
| Morton.HashPartsDisjoint | includes/mesh/implementation/util.h:64 | the three interleaved parts of the hash never share a bit, for every input |
| Morton.UnhashHash | includes/mesh/implementation/util.h:63-65 | every cell in [0, 2^21)^3 is recovered from its hash |
| Morton.HashInjective | includes/mesh/implementation/util.h:63-65 | distinct cells in [0, 2^21)^3 get distinct hashes |
| Morton.CollisionAboveRange | includes/mesh/implementation/util.h:52-58 | the range bound is needed: coordinate 2^22 collides with 0 |
| Morton.NegativeCoordinate | includes/mesh/implementation/util.h:51-52 | `expand` of the sign-extended -1 equals `expand` of 2^32 - 1: the mask drops the sign extension |
| TriMeshes.TriMesh.constructor | includes/mesh/core/trimesh.h:38 | a new mesh has five empty containers and is valid |
| TriMeshes.TriMesh.Copy | includes/mesh/core/trimesh.h:39-50 | the copy and move constructors copy all five containers; a valid source gives a valid copy |
| TriMeshes.TriMesh.Assign | includes/mesh/core/trimesh.h:51-66 | assignment takes all five containers of the other mesh, and validity with them |
| TriMeshes.TriMesh.Swap | includes/mesh/core/trimesh.h:89-95 | the two meshes exchange all five containers, and both stay valid |
| TriMeshes.TriMesh.Clear | includes/mesh/core/trimesh.h:100-106 | all five containers become empty and the mesh is valid |
| TriMeshes.TriMesh.Triangle | includes/mesh/core/trimesh.h:116 | each corner of a live triangle is a live vertex whose incidence list names the triangle |
| TriMeshes.TriMesh.VertexIncidence | includes/mesh/core/trimesh.h:143 | the list holds each live triangle as often as it has v as a corner, names only live triangles on v, and is empty for a dead v |
| TriMeshes.TriMesh.AddVertex | includes/mesh/core/trimesh.h:152-167 | the last freed name is popped and reused, else the name is the old size and the arrays grow by one; the name holds the data and an empty list; the mesh stays valid |
| TriMeshes.TriMesh.AddTriangle | includes/mesh/core/trimesh.h:176-191 | the last freed triangle name is popped and reused, else appended; each vertex's list gains the name once per corner it holds; the mesh stays valid |
| TriMeshes.TriMesh.AddTriangleOf | includes/mesh/core/trimesh.h:200-202 | the three-name alias stores Triangle(v0, v1, v2) with the same effects as add_triangle |
| TriMeshes.AppendToCorners | includes/mesh/core/trimesh.h:187-189 | after the corner loop each list is the old list plus the name repeated once per corner holding that vertex |
| TriMeshes.TriMesh.RemoveTriangle | includes/mesh/core/trimesh.h:230-242 | n is pushed on the free list; each corner's list loses one copy of n per corner, other entries surviving as a multiset; the mesh stays valid |
| TriMeshes.RemoveFromCorners | includes/mesh/core/trimesh.h:231-240 | the corner loop erases one copy of n from each corner's list, once per corner holding that vertex |
| SeqUtil.SwapRemoveFirst | includes/mesh/core/trimesh.h:233-238 | the search-and-swap-with-last loop removes exactly one copy of x when present and changes nothing otherwise |
| SeqUtil.RemoveFirstNCount | includes/mesh/core/trimesh.h:231-240 | erasing x k times takes exactly k copies of x away and keeps every other count |
| TriMeshes.TriMesh.RemoveVertex | includes/mesh/core/trimesh.h:214-219 | every triangle on n is freed, last incidence entry first; n's list ends empty and n is pushed on the free list; the live triangles are the old ones not on n; the mesh stays valid |
| TriMeshes.TriMesh.RemoveIncident | includes/mesh/core/trimesh.h:215-217 | the loop of remove_vertex empties n's incidence list and frees its triangles in reverse list order, keeping the mesh valid |
| TriMeshes.TriMesh.RemoveLastIncident | includes/mesh/core/trimesh.h:216 | one pass of that loop frees the triangle named by the last entry of n's list and shortens the list by that entry |
| TriMeshes.RemovedAreIncident | includes/mesh/core/trimesh.h:214-219 | the triangles remove_vertex frees are exactly the live triangles having n as a corner |
| TriMeshes.TakeName | includes/mesh/core/trimesh.h:155-160 | popping the last free name gives a name that was free and is now live, and changes no other name's liveness |
| TriMeshes.AddVertexKeeps | includes/mesh/core/trimesh.h:152-167 | giving a free name an empty incidence list keeps the mesh invariant |
| TriMeshes.AddTriangleKeeps | includes/mesh/core/trimesh.h:176-191 | a new live triangle on live corners, appended once per corner, keeps the invariant |
| TriMeshes.RemoveTriangleKeeps | includes/mesh/core/trimesh.h:230-242 | dropping one copy per corner and freeing the name keeps the invariant |
| TriMeshes.RemoveVertexKeeps | includes/mesh/core/trimesh.h:214-219 | a vertex with an empty incidence list can be freed without breaking the invariant |
| TriMeshes.DeadVertexUnused | includes/mesh/core/trimesh.h:143 | a dead vertex has an empty incidence list |
| TriMeshes.TriMesh.GarbageCollect | includes/mesh/core/trimesh.h:262-348 | both free lists end empty; surviving vertices and live triangles get new names through bijections, keeping their data; a survivor whose name is below the new size keeps it; triangles are renamed through the vertex renaming and lists through the triangle renaming; sizes shrink by the distinct dead names; with cleanup no vertex is left without a triangle |
| TriMeshes.TriMesh.CollectWhenNothingDead | includes/mesh/core/trimesh.h:262-348 | with both free lists empty, `garbage_collect(false)` leaves the vertices, the triangles and the incidence lists as they were |
| TriMeshes.Collect | includes/mesh/core/trimesh.h:262-348 | the same on the five arrays, corrected as in Findings: the invariant holds afterwards, with the renamings, data, sizes and incidence lists stated |
| TriMeshes.PushOrphans | includes/mesh/core/trimesh.h:263-269 | the cleanup loop leaves the free list in front and adds every vertex with an empty list, and only those |
| TriMeshes.OrphansUnused | includes/mesh/core/trimesh.h:263-269 | freeing the vertices without triangles leaves every live triangle's corners live |
| SeqUtil.SortUnique | includes/mesh/core/trimesh.h:273-279 | the sorted free list with repeats skipped is strictly increasing, holds the same names and is no longer |
| SeqUtil.SameNamesSameLength | includes/mesh/core/trimesh.h:277-279 | a repeat-free free list and its sorted deduplicated form have the same length |
| TriMeshes.SkipRepeats | includes/mesh/core/trimesh.h:277-279 | the duplicate skip passes exactly the entries equal to their predecessor |
| TriMeshes.SkipTop | includes/mesh/core/trimesh.h:285-288 | the tail skip lowers j and n in step and stops at an entry other than n |
| TriMeshes.SkipHoles | includes/mesh/core/trimesh.h:285-288 | on a strictly increasing free list the tail skip keeps the loop's indices and renaming exact, and stops below a top slot in use |
| TriMeshes.RelabelCorners | includes/mesh/core/trimesh.h:297-305 | the relabel loop replaces the first a by b in each triangle once per entry of the incidence list |
| TriMeshes.RelabelStep | includes/mesh/core/trimesh.h:297-305 | relabelling vertex n to slot v over n's incidence list is renaming through ren[n := v] for every live triangle |
| TriMeshes.MoveVertex | includes/mesh/core/trimesh.h:290-310 | moving the top vertex into the lowest hole updates the renaming and its inverse and carries data, lists and triangles |
| TriMeshes.VertexLoop | includes/mesh/core/trimesh.h:275-311 | when the vertex loop stops, the indices, renaming and moved arrays are exact |
| TriMeshes.FinishScan | includes/mesh/core/trimesh.h:313-315 | when a compaction loop stops, slots 0..n are exactly those in use and n + 1 is the size minus the holes |
| TriMeshes.CompactVertices | includes/mesh/core/trimesh.h:272-317 | the vertex phase keeps each live vertex's data and list under a bijective renaming, fixes names below the new size, and renames every live triangle's corners |
| TriMeshes.VertexPhase | includes/mesh/core/trimesh.h:263-317 | with optional orphan cleanup, the vertex phase keeps the mesh invariant with no dead vertex; the new size is the old size minus the free names |
| TriMeshes.MoveTriangle | includes/mesh/core/trimesh.h:337-343 | moving the top triangle into the lowest hole updates the renaming and, in the corrected phase, renames its incidence entries |
| TriMeshes.CompactTriangles | includes/mesh/core/trimesh.h:320-347 | the corrected triangle phase keeps each live triangle under a bijective renaming, with incidence lists renamed through it and mirroring the new array |
| TriMeshes.TrianglePhase | includes/mesh/core/trimesh.h:320-347 | the triangle phase keeps the mesh invariant with no dead triangle; the new size is the old size minus the free names |
| TriMeshes.RenamedMirrors | includes/mesh/core/trimesh.h:342 | incidence lists renamed through a bijection of live triangles mirror the moved triangle array |
| TriMeshes.RepeatedHolesAsWritten | includes/mesh/core/trimesh.h:275-315 | as written, the vertex loop walks the free list [0, 0, 1, 1, 2, 2] of three dead vertices to a size of 1 |
| TriMeshes.CompactTrianglesAsWritten | includes/mesh/core/trimesh.h:320-347 | the triangle phase as written keeps each live triangle's data under a bijective renaming that fixes names below the new size, and leaves the incidence lists exactly as they were |
| TriMeshes.StaleIncidenceWitness | includes/mesh/core/trimesh.h:342 | a valid mesh whose incidence lists no longer mirror its triangles after the phase as written |
| TriMeshes.TriMesh.GetBuffers | includes/mesh/core/trimesh.h:356-366 | the vertex buffer is the vertex data with its count; the index buffer has 3 entries per triangle, the corners in order; after a collection every index names a vertex |
| TriMeshes.Flatten | includes/mesh/core/trimesh.h:362-363 | the index buffer has length 3 times the triangle count, with entry 3i + k being corner k of triangle i |
| Components.ConnectedComponents | includes/mesh/algorithms/connected_components.h:16-73 | the parts are distinct meshes, none of them the input; every vertex slot lands in exactly one part and every live triangle in exactly one; each part is valid and dead-free, copies its vertices' data in order, and has its triangles' corners translated into its own names; the totals equal the vertex count and the live triangle count |
| Components.Search | includes/mesh/algorithms/connected_components.h:32-70 | after the outer loop every vertex is visited, the parts found are exact, and every processed vertex has all its triangles visited |
| Components.SearchFrom | includes/mesh/algorithms/connected_components.h:32-39 | one pass of the outer loop keeps its invariant, starting a part only at an unvisited vertex |
| Components.FloodPart | includes/mesh/algorithms/connected_components.h:37-69 | a flood from unvisited i adds one part, a mesh different from all before it, and keeps the outer invariant |
| Components.StartFlood | includes/mesh/algorithms/connected_components.h:37-39 | a fresh mesh receives i's data as its vertex 0, visited_v[i] becomes 0 and i is the only entry on the stack |
| Components.Flood | includes/mesh/algorithms/connected_components.h:37-67 | when the stack empties, the part is an exact copy of the vertices and triangles it visited, starting with i, and every vertex visited so far is closed |
| Components.VisitVertex | includes/mesh/algorithms/connected_components.h:42-66 | processing a popped vertex copies each of its unvisited triangles, after which every triangle on it is visited |
| Components.VisitTriangle | includes/mesh/algorithms/connected_components.h:55-65 | an unvisited live triangle is copied once; visited_t records its new name and the stack gains exactly the new vertices |
| Components.TranslateCorner | includes/mesh/algorithms/connected_components.h:58-63 | a visited corner keeps its name; an unvisited one gets the next name, its data copied and pushed on the stack |
| Components.TranslateCorners | includes/mesh/algorithms/connected_components.h:56-64 | after the corner loop, n[k] is the part's name of corner k for every k |
| Components.AddCopy | includes/mesh/algorithms/connected_components.h:65 | adding the translated triangle to the part records it in visited_t and keeps the copy exact |
| Components.CornerPlaced | includes/mesh/algorithms/connected_components.h:58-59 | a visited corner of an unvisited live triangle belongs to the part being built |
| Components.LiveVisited | includes/mesh/algorithms/connected_components.h:47-53 | once every vertex is visited and closed, every live triangle is visited |
| Components.CoverAllNames | includes/mesh/algorithms/connected_components.h:32-70 | the parts' source lists name every vertex slot once and every live triangle once |
| Components.Totals | includes/mesh/algorithms/connected_components.h:21-22 | the parts' vertex and triangle counts add up to the lengths of the joined source lists |
| Components.Finish | includes/mesh/algorithms/connected_components.h:72 | when the outer loop ends the parts split the mesh and the totals are the vertex count and the live triangle count |
| Repair.Probe | includes/mesh/algorithms/repair.h:34-41 | the overlaps are exactly the positive entries of the 27 cells around c, each once when the hash stores each value at one cell |
| Repair.HitsMembers | includes/mesh/algorithms/repair.h:38-40 | the probes push exactly the positive entries of the probed cells |
| Repair.HitsNoDup | includes/mesh/algorithms/repair.h:34-41 | distinct cells of an injective hash push no value twice |
| Repair.ProbeFinds | includes/mesh/algorithms/repair.h:35-41 | the 27 probes in loop order reach every cell around c |
| Repair.ProbeCandidates | includes/mesh/algorithms/repair.h:38-40 | in a sound hash every overlap is a live vertex above i whose cell is near i's |
| Repair.Dropped | includes/mesh/algorithms/repair.h:58-59 | the triangles the fuse loop drops are exactly those of the list that have i as a corner |
| Repair.Retarget | includes/mesh/algorithms/repair.h:61 | on a simple triangle without i, writing i where v was replaces v by i and keeps the triangle simple |
| Repair.FuseTriangle | includes/mesh/algorithms/repair.h:55-62 | one triangle on v is removed and either dropped (it has i) or re-added under the same name with v replaced by i |
| Repair.FusedDrop | includes/mesh/algorithms/repair.h:57-59 | dropping a triangle on i extends the fuse state by one triangle |
| Repair.FusedKeep | includes/mesh/algorithms/repair.h:57-62 | remove and re-add of a retargeted triangle reuses its name and extends the fuse state by one triangle |
| Repair.IncidenceNoDup | includes/mesh/algorithms/repair.h:53 | with simple triangles a vertex's incidence list has no repeats and holds exactly the live triangles on it |
| Repair.FuseTriangles | includes/mesh/algorithms/repair.h:53-63 | the triangle loop visits v's incidence list from the end, and every live triangle on v is dropped or retargeted, all others unchanged |
| Repair.FuseAll | includes/mesh/algorithms/repair.h:54-63 | the loop from the last entry of the list down handles the entries in reverse order, each dropped or retargeted, keeping the mesh valid with simple triangles |
| Repair.FusedFinal | includes/mesh/algorithms/repair.h:53-66 | after the loop no live triangle names v; triangles on both v and i are freed and those on v alone have v replaced by i |
| Repair.NoneLeft | includes/mesh/algorithms/repair.h:66 | when no live triangle names v, v's incidence list is empty |
| Repair.FuseVertex | includes/mesh/algorithms/repair.h:52-68 | v ends dead with an empty list; the freed triangles are those on v that have i, in loop order; the rest on v have v replaced by i; the mesh stays valid with simple triangles |
| Repair.MergedFuse | includes/mesh/algorithms/repair.h:52-63 | a fuse of v into i, after the triangles were renamed through rep, leaves them renamed through rep redirected from v to i: a triangle lives on exactly when its renamed corners stay distinct |
| Repair.MergedIdentity | includes/mesh/algorithms/repair.h:26-28 | after the first collection every triangle is live and simple, so the triangles are themselves renamed through the identity |
| Repair.FuseFusions | includes/mesh/algorithms/repair.h:46-68 | fusing v into a close vertex i in a nearby cell keeps the fusion record: v now ends up where i does, and i is what v was fused into |
| Repair.ScanStep | includes/mesh/algorithms/repair.h:44-69 | an overlap close to i is fused: exactly that vertex dies, its cell and no other becomes -1, the triangles change as FuseVertex states, and the survivor and fused-into records are redirected; a far one changes nothing at all; the hash stays sound |
| Repair.PassStep | includes/mesh/algorithms/repair.h:44-69 | one more fused vertex extends a pass's bookkeeping: its cell cleared, its survivors redirected to i, i recorded as what it was fused into |
| Repair.ScanOverlaps | includes/mesh/algorithms/repair.h:44-69 | the overlap loop: every overlap close to i died and only those, and the hash, survivors and fused-into record are those of the pass's bookkeeping |
| Repair.ClearSound | includes/mesh/algorithms/repair.h:67-68 | setting a removed vertex's cell to -1 keeps the hash sound |
| Repair.RecordSound | includes/mesh/algorithms/repair.h:72 | recording live vertex i at its own cell keeps the hash sound for the next vertex down |
| Repair.ScanFinished | includes/mesh/algorithms/repair.h:44-69 | after the overlap loop the vertices that died are exactly the overlaps close to i |
| Repair.RepairVertex | includes/mesh/algorithms/repair.h:28-73 | one pass for vertex i: the vertices that die are appended to the free list, each above i, close to i and in a nearby cell, and every vertex the hash holds near i's cell that is close to i is among them; the new hash is the old one with their cells set to -1 and then i's cell set to i; every vertex that ended up in one of them now ends up in i; the triangles stay the base renamed through the survivors |
| Repair.RepairVertices | includes/mesh/algorithms/repair.h:28-73 | the vertex loop from the last vertex down keeps the vertex data, keeps the mesh valid and simple, and leaves the triangles the collected ones renamed through each vertex's survivor, with every dead vertex fused into a close vertex in a nearby cell; and it is complete: two live vertices close to each other and in nearby cells both survive only when a vertex between them in the loop, in the later one's cell and not close to it, overwrote that cell |
| Repair.CompleteStep | includes/mesh/algorithms/repair.h:38-72 | one pass keeps the loop's completeness: a survivor recorded near i's cell and close to i would have been probed and fused, so a close survivor was shadowed; recording i shadows any survivor in i's own cell that is not close to it |
| Repair.CompleteFates | includes/mesh/algorithms/repair.h:26-28 | the loop's completeness, stated on the names after the first collection, holds on the input names with each vertex ranked by its name after that collection |
| Repair.OneSurvivor | includes/mesh/algorithms/repair.h:28-73 | when all live input vertices are pairwise close and in nearby cells, at most one survives |
| Repair.ProperRenamed | includes/mesh/algorithms/repair.h:26 | garbage collection keeps every triangle simple |
| Repair.CollectSimple | includes/mesh/algorithms/repair.h:26 | the collection repair_mesh_vertices runs leaves both free lists empty and the triangles simple, and renames every live vertex and live triangle through a bijection that keeps vertex data and renames each triangle's corners (Collected) |
| Repair.VertexPhases | includes/mesh/algorithms/repair.h:17-76 | a collection, the vertex loop and a second collection together give VertexOutcome and LoopComplete on the input names, with fate the survivor renamed by both collections |
| Repair.TrianglePhases | includes/mesh/algorithms/repair.h:17-76 | the same three phases give TriangleOutcome for that fate |
| Repair.VertexFates | includes/mesh/algorithms/repair.h:17-76 | the fusions between the two collections, carried back to the input names and forward to the output names, give VertexOutcome |
| Repair.TriangleFates | includes/mesh/algorithms/repair.h:17-76 | the triangles after the second collection are the input's live triangles renamed through where each vertex ended up, each used once, less exactly those whose renamed corners coincide |
| Repair.RepairMeshVertices | includes/mesh/algorithms/repair.h:17-76 | the result is valid, with simple triangles and no free name. Every live input vertex x ends up in output vertex fate[x]: either it survives, its data kept and its output name its own, or it was fused into a live input vertex close to it in a nearby cell and ends up where that one does; every output vertex holds a survivor. Every output triangle is a live input triangle renamed through fate, no input triangle is used twice, and a live input triangle survives exactly when its renamed corners are distinct. Completeness (LoopComplete): ranking each input vertex by its position in the vertex loop, two survivors close to each other and in nearby cells are both kept only when a live vertex between them, in the later one's cell and not close to it, took over that cell |
| Menus.Menu.constructor | src/menu.cc:7-10 | the title is stored and there are no options |
| Menus.Menu.SetEscOption | src/menu.cc:12-15 | escoption becomes i |
| Menus.Menu.Reset | src/menu.cc:49-52 | the cursor becomes 0, which names an option when there is one |
| Menus.NextCursor | src/menu.cc:23-28 | one step down, clamped to the last option; a cursor still negative after the step jumps to the last option through the size_t comparison |
| Menus.Menu.NextOption | src/menu.cc:23-28 | the cursor becomes NextCursor of the old one and stays on an option when it was on one |
| Menus.PrevCursor | src/menu.cc:30-35 | one step up, clamped at 0 |
| Menus.Menu.PrevOption | src/menu.cc:30-35 | the cursor becomes PrevCursor of the old one and stays on an option when it was on one |
| Menus.CursorStaysOnAnOption | src/menu.cc:23-35 | both steps keep a cursor on an option |
| Menus.NextCursorSaturates | src/menu.cc:23-28 | k steps down from cur give min(cur + k, n - 1) |
| Menus.SelectedCall | src/menu.cc:43-46 | a call happens exactly when the cursor names an option with a non-null callback, and it is that callback on its data |
| Menus.Menu.SelectOption | src/menu.cc:37-47 | as written, for every cursor but the off-by-one one, the call is the selected option's callback |
| Menus.Menu.SelectOptionFixed | src/menu.cc:37-47 | with the corrected guard, the call is the selected option's callback for every cursor |
| Menus.SelectGuardAdmitsEnd | src/menu.cc:40 | the written guard lets cursor == number of options through; the corrected guard stops it |
| Menus.SelectGuardFixedExact | src/menu.cc:40 | the corrected guard passes exactly the cursors 0..n-1; the written one passes 0..n |
| Menus.Menu.ActivateEscOption | src/menu.cc:17-21 | the cursor becomes escoption and, through `select_option` as written, the call is what selecting it gives |
| Menus.Menu.AddOption | src/menu.cc:117-126 | exactly one option {text, cb, data} is appended and earlier options are unchanged |
| Sound.AudioDriver.Initialize | src/sound.cc:231-239 | the driver is marked not loaded, no format, handles start at 1 and every slot is a fresh idle stream; the sounds already loaded stay |
| Sound.FirstFree | src/sound.cc:250-259 | the lowest slot not playing, or -1 exactly when all slots are playing |
| Sound.AudioDriver.GetFreeStream | src/sound.cc:250-259 | the scan returns the lowest free slot or -1 |
| Sound.FirstFreeIsLowest | src/sound.cc:252-255 | a free slot with every slot below it playing is the one chosen |
| Sound.FirstFreeNone | src/sound.cc:258 | with every slot playing the result is -1 |
| Sound.IdRejectedExactly | src/sound.cc:269-273 | the id check rejects exactly the ids outside 1..count, negative ones through the size_t comparison |
| Sound.AudioDriver.PlaySoundObject | src/sound.cc:261-291 | -1 with nothing changed when there is no free slot, the id is out of range or the sound is invalid; otherwise the lowest free slot starts the sound at position 0 with the rate and looping flag, gets the old counter as handle, the counter grows by one and the handle is returned; handles stay unique |
| Sound.Stopped | src/sound.cc:146-153 | stop_stream's table: slots whose handle is h stop playing, all others unchanged |
| Sound.AudioDriver.StopStream | src/sound.cc:146-153 | the loop leaves the table as Stopped of the old one |
| Sound.StopStreamStopsOne | src/sound.cc:146-153 | as handles are unique, stopping one slot's handle leaves every other used slot unchanged |
| Sound.StopUnknownHandle | src/sound.cc:146-153 | a handle never handed out stops no used slot |
| Sound.AudioDriver.LoadSoundFromFile | src/sound.cc:155-165 | one sound is appended and its 1-based id, the new count, is returned |

## Left out

- Floating point is not modelled.
  - Positions and the tolerance test of repair.h (lines 29-31, 47-50 and 67) are abstracted to the parameters `key` and `close`. The float-to-int bucketing that makes `ipos` is the same.
  - The audio mixer (`mix_audio`, `interpolate`), the stream position and the rate stay outside the model. Rate is kept as an uninterpreted `real`.
- SDL, OpenGL and file I/O are not modelled.
  - `Sound` loading and format conversion are out; `LoadSoundFromFile` takes whether the file loaded as a parameter.
  - `set_format`, `unload`, `initialize_sound_driver`, the sound groups (which use `rand()`) and `Menu::render` are left out.
- `TriMesh::reserve` is left out: it changes capacity only, never contents.
- The accessors `triangles()`, `vertex(v)` and `vertices()` are field reads of the class.
- The default `Triangle()` constructor leaves its corners uninitialised and is not modelled. Copy and move construction and assignment of a triangle are value copies of the datatype.
- The 4-argument `add_triangle` and `triangle_data` that connected_components.h line 65 calls are not part of TriMesh. The flood uses the 3-name `add_triangle`.
- Components.ConnectedComponents: proves that the parts partition the vertices and live triangles with exact copies. Each triangle lies in the part of its corners, so no part can be extended, but it does not prove that each part is connected.
- Components.ConnectedComponents: a dead vertex slot becomes a one-vertex part of its own, as in the source.
- Components.ConnectedComponents: `result.push_back(m)` copies the mesh; the model keeps the built objects and states that they are distinct and not the input, not that they are newly allocated.
- TriMeshes.TriMesh.RemoveVertex: requires each live triangle to name the vertex at most once. With a repeated corner, the count-down index at trimesh.h line 215 runs past the shrinking list.
- TriMeshes.TriMesh.AddTriangle: requires live corners. The source does not check them, but a dead corner breaks the incidence invariant.
- TriMeshes.TriMesh.RemoveTriangle: requires a live name. Freeing a name twice puts a repeat in the free list.
- TriMeshes.TriMesh.GarbageCollect: states the corrected collection (free list deduplicated, incidence renamed); the code as written is in Findings.
- TriMeshes.TriMesh.GarbageCollect: no 32-bit limit on sizes or names; every count is an unbounded int.
- Repair.RepairMeshVertices: requires every live triangle to be simple (three distinct corners). A triangle that names v twice and i once, or v three times, is on v's incidence list two or three times: the loop at repair.h line 57 then removes it again and repeats its name in the free list. This requires also excludes the well-defined case (v, v, w) without i: line 61 writes i only at the first corner holding v, so that triangle becomes (i, v, w) on its first visit and is dropped at line 58 on its second, as it now holds i, before `remove_vertex` at line 66 runs on an empty list.
- Repair.RepairMeshVertices: runs the corrected `garbage_collect` at repair.h lines 26 and 75. As written, the triangle phase leaves stale incidence lists (see Findings), and the loop at line 53 reads them.
- Repair.RepairMeshVertices: does not state that no two close vertices survive, because that is not so. A later vertex overwrites the cell of an earlier one at repair.h line 72, and that can hide the earlier one from the probe. What it states instead is that this overwrite is the only way two close vertices in nearby cells both survive (LoopComplete).
- Repair.FuseVertex: states the incidence lists only through the mesh invariant (as multisets), not their order after the swap-removals.
- Menus.Menu.NextOption: requires the cursor below INT_MAX and fewer than 2^31 options, excluding signed overflow.
- Menus.Menu.PrevOption: requires the cursor above INT_MIN, excluding signed overflow.
- Menus.Menu.SelectOption: requires the cursor not equal to the option count. For that cursor the written guard at menu.cc line 40 lets the read of `options[curoption]` run past the end (see Findings).
- Menus.Menu.ActivateEscOption: requires escoption not equal to the option count, since it calls `select_option` as written with the cursor set to escoption.
- Menus.Menu.constructor: the source leaves curoption and escoption uninitialised. The constructor takes their initial values as parameters.
- Sound.AudioDriver.PlaySoundObject: requires the id above INT_MIN, excluding the signed overflow of `i--` at sound.cc line 269.
- Sound.AudioDriver.PlaySoundObject: the handle counter is an unbounded int, so its 32-bit overflow is not modelled. Before `initialize`, `streamindex` is uninitialised in the source; the model requires `Valid()`, which holds after `Initialize`.
- Sound.AudioDriver.LoadSoundFromFile: the returned size_t count is assumed to fit an int. The source needs no `initialize` before loading; the model requires `Valid()`, so it models loading only after `Initialize`.

## Findings

| source | as written | input that shows it | evidently intended | confidence | as-written member | corrected member |
|---|---|---|---|---|---|---|
| includes/mesh/core/trimesh.h:275-315 | the duplicate skip moves i past repeated holes, but the tail skip steps j over only one copy of the top hole | three vertices, all removed, then `garbage_collect(true)`: the cleanup pushes them again, the sorted list is [0, 0, 1, 1, 2, 2] and the loop ends with one vertex kept | every dead vertex removed (size 0) | high; not executed | TriMeshes.RepeatedHolesAsWritten | TriMeshes.Collect |
| includes/mesh/core/trimesh.h:342 | the triangle phase moves `tri_data[n]` into slot t and renames no incidence entry | triangles 0 and 1 both on vertices 0, 1, 2, triangle 0 removed: after collection every list still names 1, a slot that no longer exists | the moved triangle's incidence entries renamed to its new slot | high; not executed | TriMeshes.StaleIncidenceWitness | TriMeshes.CompactTriangles |
| src/menu.cc:40 | the guard `curoption > options.size()` lets `curoption == options.size()` through | an empty menu after `reset()`, then `select_option()`: reads `options[0]` | `curoption >= options.size()` | high; not executed | Menus.SelectGuardAdmitsEnd | Menus.Menu.SelectOptionFixed |
