# Halfedge mesh kernel of pmp-library, modelled in Dafny

This project models the core of the Polygon Mesh Processing Library (pmp-library). It covers two kernels.

The current kernel is `SurfaceMesh` in src/pmp/surface_mesh.cpp and src/pmp/SurfaceMesh.h. Its parts are modelled as follows:
- the handle arithmetic: `Handles`;
- the named property arrays: `Properties`;
- the mesh container with its connectivity records, circulators, iterators, deletion and queries: `HalfedgeMesh`;
- the shared compaction loop: `Compaction`;
- garbage collection: `MeshGarbage`;
- face addition: `FaceAddition`;
- a triangle added, deleted and collected again, as in the kernel's own test: `MeshLifecycle`;
- the Euler operators:
  - flip, insert_vertex and adjust_outgoing_halfedge: `EulerOperators`;
  - insert_edge and split of a face: `FaceSplitting`;
  - split of an edge: `EdgeSplitting` and `EdgeSplitPairs`;
  - collapse: `EdgeCollapse`;
  - remove_edge: `EdgeRemoval`.

The earlier, layered kernel builds `GeometryObject`, then `PointSet`, then `EdgeSet`, then `SurfaceMesh` (src/pmp/GeometryObject.h, PointSet.cpp, EdgeSet.cpp, SurfaceMesh.cpp). It is modelled in `GeometryObjects`, `PointSets`, `EdgeSets` and `LayeredSurfaceMesh`.

The layered kernel shares some code with the current one:
- Its face split, flip, insertVertex, insertEdge, collapse and valence(Face) (SurfaceMesh.cpp:416-427 and 505-971) are the same algorithms as in surface_mesh.cpp. They are modelled once, by the current kernel's members.
- Its addFace, fan triangulation, deleteFace and deleteEdge differ from surface_mesh.cpp, so they have members of their own.

Three algorithms on top of the mesh are modelled on the values they read:
- the decimater's indexed heap, candidate choice and driver loop: `DecimationHeap` and `Decimation`;
- the discrete passes of the remesher: `Remeshing`;
- the minimum-weight triangulation of a polygon: `Triangulation`.

Modelling conventions:
- Handles are natural numbers, and the invalid handle is the largest unsigned 32-bit value.
- Where the source relies on 32-bit signed or unsigned arithmetic, the model writes out the wrap-around.
- Mesh objects are classes whose fields are the per-element records. Operations that change a mesh are methods whose `ensures` give the new records.

## Model

| member | source | states |
|---|---|---|
| Handles.Reset | src/pmp/SurfaceMesh.h:36-40 | a reset handle is invalid |
| Handles.Opposite | src/pmp/SurfaceMesh.h:1164-1167 | the opposite halfedge differs from h |
| Handles.EdgeOf | src/pmp/SurfaceMesh.h:1187 | the edge e of h satisfies 2e <= h <= 2e+1 |
| Handles.HalfedgeOf | src/pmp/SurfaceMesh.h:1193-1197 | the i-th halfedge of e has edge e and lowest bit i |
| Handles.OppositeInvolution | src/pmp/SurfaceMesh.h:1164-1167 | opposite is an involution without fixed point and keeps the edge |
| Handles.OppositeParity | src/pmp/SurfaceMesh.h:1164-1167 | h and its opposite share the edge index and differ in the lowest bit, the `idx ^ 1` of the header comment |
| Handles.EdgeHalfedgeRoundTrip | src/pmp/SurfaceMesh.h:1187-1197 | edge(halfedge(e, i)) == e for i in {0, 1}, halfedge(edge(h), h % 2) == h, and the two halfedges of an edge are opposite |
| Handles.HalfedgeRange | src/pmp/SurfaceMesh.h:1187 | h < 2n iff edge(h) < n iff opposite(h) < 2n |
| Properties.Resized | src/pmp/Properties.h:71 | the resized array has length n, keeps the old values below the old length and fills the rest with the default |
| Properties.IndexOf | src/pmp/Properties.h:228-237 | the position of the first array with that name, or the number of arrays when none has it |
| Properties.Lookup | src/pmp/Properties.h:257-263 | a handle to the first array of that name when its element type matches; null when the name is absent or the type differs |
| Properties.PropertyContainer.constructor | src/pmp/Properties.h:186 | a new container has no arrays and size 0 |
| Properties.PropertyContainer.Properties | src/pmp/Properties.h:215-221 | one name per array, in order |
| Properties.PropertyContainer.Find | src/pmp/Properties.h:228-231 | the name scan returns IndexOf |
| Properties.PropertyContainer.Add | src/pmp/Properties.h:225-244 | an existing name, whatever its type, gives a null handle and no change; otherwise one array of size() default slots is appended and a handle to it returned |
| Properties.PropertyContainer.Exists | src/pmp/Properties.h:247-253 | true iff some array has the name |
| Properties.PropertyContainer.Get | src/pmp/Properties.h:257-263 | returns Lookup of the name and type |
| Properties.PropertyContainer.GetOrAdd | src/pmp/Properties.h:267-273 | an existing array of the type is returned and nothing is added; a name held with another type gives null because the add is refused; a fresh name is added as by add |
| Properties.PropertyContainer.GetType | src/pmp/Properties.h:276-282 | the void type iff no array has the name, otherwise the type of the first array with it |
| Properties.PropertyContainer.Remove | src/pmp/Properties.h:286-299 | the array h points to is cut out of the sequence, the others keep their order, and h is reset; an unknown h changes nothing |
| Properties.PropertyContainer.Clear | src/pmp/Properties.h:302-308 | no arrays and size 0 |
| Properties.PropertyContainer.Resize | src/pmp/Properties.h:318-323 | every array is resized to n with its default, and size becomes n |
| Properties.PropertyContainer.PushBack | src/pmp/Properties.h:333-338 | every array gains one default slot at the end and size grows by one |
| Properties.PropertyContainer.Swap | src/pmp/Properties.h:341-345 | slots i0 and i1 are exchanged in every array, nothing else changes |
| Properties.PropertyContainer.Assign | src/pmp/Properties.h:195-206 | the size and every array equal those of rhs, each array a clone with a fresh identity; self-assignment changes nothing |
| Properties.IndexOfIsFirst | src/pmp/Properties.h:228-237 | a position k with no earlier match, holding the name or past the end, is IndexOf |
| Properties.LookupUnique | src/pmp/Properties.h:257-263 | with distinct names, get finds exactly the array of that name, or null when its type differs |
| Properties.LookupAfterAdd | src/pmp/Properties.h:225-263 | after add of a fresh name, get with that name and type returns the new array |
| Properties.SwapTwice | src/pmp/Properties.h:77-82 | swapping the same two slots twice is the identity |
| Properties.ResizeUndoesPushBack | src/pmp/Properties.h:71-73 | resize back to the old size undoes a push_back, and push_back equals resize by one |
| GeometryObjects.SignedIdx | src/pmp/GeometryObject.h:67 | idx() reads the unsigned index back as a signed 32-bit value congruent to it modulo 2^32, equal below 2^31 |
| GeometryObjects.InvalidReadsNegative | src/pmp/GeometryObject.h:64-73 | the default handle reads as -1 |
| GeometryObjects.Lookup | src/pmp/PointSet.cpp:240 | reading a map entry yields the stored value, or 0 for a missing key |
| GeometryObjects.GeometryObject.constructor | src/pmp/GeometryObject.h:131 | a new object holds exactly one object-property slot and no arrays |
| GeometryObjects.GeometryObject.Clear | src/pmp/GeometryObject.h:168-172 | clear restores the single empty slot of a new object |
| GeometryObjects.GeometryObject.CopyFrom | src/pmp/GeometryObject.h:141-150 | copying from another object takes its garbage flag, its size and as many arrays as it has, each with the name and values of rhs's array under a fresh id; self-assignment changes nothing |
| GeometryObjects.GeometryObject.Assign | src/pmp/GeometryObject.h:153-161 | assign leaves one empty slot and copies no property; self-assignment changes nothing |
| GeometryObjects.GeometryObject.SetGarbage | src/pmp/GeometryObject.h:284 | sets the garbage flag |
| GeometryObjects.GeometryObject.ClearGarbageProps | src/pmp/GeometryObject.h:183 | empties the scratch map shared by the two stages |
| GeometryObjects.GeometryObject.FinalizeGarbage | src/pmp/GeometryObject.h:278 | the base finalizeGarbage clears the garbage flag |
| GeometryObjects.GeometryObject.Store | src/pmp/PointSet.cpp:226 | stores one key in the scratch map |
| GeometryObjects.GeometryObject.Fetch | src/pmp/PointSet.cpp:240 | returns the stored value or 0, inserting the key |
| PointSets.AsWrittenBelowHalfRange | src/pmp/PointSet.h:231-234 | below 2^31 vertices the signed test is the bounds check |
| PointSets.AsWrittenRejectsExistingVertex | src/pmp/PointSet.h:231-234 | with 2^31 + 1 vertices the signed test reports the existing vertex 0 invalid |
| PointSets.VerticesCollected | src/pmp/PointSet.cpp:192-227 | after the two-pointer compaction each surviving vertex sits at its new slot below nV with its position, and each slot below nV holds a survivor |
| PointSets.CompactVertices | src/pmp/PointSet.cpp:199-223 | the exchanges of the two-pointer loop, applied to positions, flags and the identity map, and the survivor count |
| PointSets.PointSet.constructor | src/pmp/PointSet.cpp:39-48 | a new point set has no vertex, no deleted vertex and no garbage |
| PointSets.PointSet.NVerticesCountsLive | src/pmp/PointSet.h:211-214 | nVertices equals the number of vertices not flagged deleted |
| PointSets.PointSet.IsValidMeaning | src/pmp/PointSet.h:231-234 | the default vertex is invalid, and below 2^31 vertices the bounds check agrees with the signed test |
| PointSets.PointSet.NewVertex | src/pmp/PointSet.h:368-378 | at the index limit the invalid handle and no change; otherwise one more slot in every vertex array and its index size-1 |
| PointSets.PointSet.AddVertex | src/pmp/PointSet.cpp:168-174 | verticesSize grows by one and the position is stored at the new index; the limit returns invalid and changes nothing |
| PointSets.PointSet.DeleteVertex | src/pmp/PointSet.cpp:178-188 | a live vertex is flagged, counted once and sets garbage; deleting it again changes nothing |
| PointSets.PointSet.BeginGarbage | src/pmp/PointSet.cpp:192-227 | the survivors move to the front by the two-pointer exchanges applied to every vertex array and the identity map, and nV is stored |
| PointSets.PointSet.FinalizeGarbage | src/pmp/PointSet.cpp:231-246 | the map is removed, the arrays are cut to the stored nV, the deleted count is zero and garbage is false |
| PointSets.PointSet.GarbageCollection | src/pmp/GeometryObject.h:181-186 | scratch map cleared, then both stages: the vertices are the survivors at their new slots, none deleted, nVertices unchanged, no garbage |
| PointSets.PointSet.Clear | src/pmp/PointSet.cpp:126-136 | no vertex, a zero deleted count, no garbage and one empty object slot |
| PointSets.PointSet.CopyFrom | src/pmp/PointSet.cpp:56-75 | a deep copy of the vertex arrays, the deleted count and the garbage flag; self-copy changes nothing |
| PointSets.PointSet.Assign | src/pmp/PointSet.cpp:79-105 | positions, flags, deleted count and garbage flag of rhs, and no other vertex array |
| PointSets.CountAppendClear | src/pmp/PointSet.h:376 | a new clear flag leaves the deleted count unchanged |
| Compaction.CountMark | src/pmp/surface_mesh.cpp:1079-1083 | setting one deletion flag raises the deleted count by one unless it was already set |
| Compaction.Swap | src/pmp/Properties.h:77-82 | slots i and j are exchanged and every other slot is kept |
| Compaction.SwapMultiset | src/pmp/Properties.h:77-82 | an exchange keeps the multiset of values |
| Compaction.ApplyMultiset | src/pmp/surface_mesh.cpp:1163-1175 | a sequence of exchanges keeps the multiset of values, hence the deleted count |
| Compaction.ApplyAt | src/pmp/surface_mesh.cpp:1174 | after the exchanges slot p holds the old content of slot Perm(p) |
| Compaction.PermInvolution | src/pmp/surface_mesh.cpp:1163-1175 | disjoint exchanges compose to an involution |
| Compaction.NewSlot | src/pmp/surface_mesh.cpp:1135-1174 | old slot w's data lands at Perm(w), and the identity map array exchanged alongside holds Perm(w) at w: it maps old to new indices |
| Compaction.PermInjective | src/pmp/surface_mesh.cpp:1163-1175 | distinct old slots get distinct new slots |
| Compaction.PartitionedCount | src/pmp/surface_mesh.cpp:1178 | flags with n survivors first and deleted slots after count |flags| - n deleted |
| Compaction.TwoPointer | src/pmp/surface_mesh.cpp:1158-1179 | the two-pointer loop's exchanges are in bounds and nested, leave the flags partitioned at the new size, and the new size is the old size minus the deleted count |
| Compaction.SwapStep | src/pmp/surface_mesh.cpp:1170-1174 | one exchange of a deleted front slot with a surviving back slot keeps the loop invariant |
| Compaction.Finish | src/pmp/surface_mesh.cpp:1170-1178 | when the pointers meet, the flags are partitioned at `deleted[i0] ? i0 : i0 + 1` |
| Compaction.SkipSurvivors | src/pmp/surface_mesh.cpp:1166-1167 | the front pointer stops at the first deleted slot or at the back pointer |
| Compaction.SkipDeleted | src/pmp/surface_mesh.cpp:1168-1169 | the back pointer stops at the last surviving slot or at the front pointer |
| Compaction.Compacted | src/pmp/surface_mesh.cpp:1157-1179 | an element survives iff its new slot is below the new size; its data moves with it and the map records its new slot |
| Compaction.Survivor | src/pmp/surface_mesh.cpp:1157-1179 | every slot below the new size holds a survivor, the one whose old slot maps to it |
| Compaction.SwapPair | src/pmp/surface_mesh.cpp:1213-1214 | exchanging edges i and j exchanges halfedges 2i, 2j and then 2i+1, 2j+1 |
| Compaction.SwapPairAt | src/pmp/surface_mesh.cpp:1213-1214 | halfedge p of edge w receives halfedge p of the edge exchanged with w |
| Compaction.PairAt | src/pmp/surface_mesh.cpp:1201-1215 | after the pair exchanges halfedge 2w+p holds the old halfedge 2Perm(w)+p |
| Compaction.NewPairSlot | src/pmp/surface_mesh.cpp:1201-1215 | halfedge p of old edge w lands at halfedge p of its new edge |
| Compaction.NewPairMap | src/pmp/surface_mesh.cpp:1213-1214 | the exchanged halfedge map records that slot |
| HalfedgeMesh.Put | src/pmp/SurfaceMesh.h:1091 | writing one slot keeps the array length |
| HalfedgeMesh.PutRefs | src/pmp/SurfaceMesh.h:1091 | writing an in-range handle keeps every stored handle in range |
| HalfedgeMesh.Range | src/pmp/SurfaceMesh.h:1521-1536 | the indices i, ..., n-1 in increasing order |
| HalfedgeMesh.SurvivorsSpec | src/pmp/SurfaceMesh.h:230-262 | Survivors lists exactly the unflagged indices from i on, in strictly increasing order |
| HalfedgeMesh.SurvivorsAll | src/pmp/SurfaceMesh.h:230-262 | without deletions the survivors are all indices |
| HalfedgeMesh.NoneDeleted | src/pmp/SurfaceMesh.h:1026 | a zero deleted count means no flag is set |
| HalfedgeMesh.HandleIterator.constructor | src/pmp/SurfaceMesh.h:230-236 | the iterator skips deleted elements only when the mesh has garbage, and what it visits from there is what remains from h |
| HalfedgeMesh.HandleIterator.Increment | src/pmp/SurfaceMesh.h:254-262 | from a visited element the iterator moves to the next visited one or to the end: what remained is the current element followed by what remains now; past the end it only steps, and at the largest index it wraps to 0 |
| HalfedgeMesh.HandleIterator.SkipForward | src/pmp/SurfaceMesh.h:258-260 | the skip loop passes only deleted elements, and only while the mesh has garbage |
| HalfedgeMesh.HandleIterator.Decrement | src/pmp/SurfaceMesh.h:273-281 | one step down, wrapping from 0 to the invalid index, then deleted elements are passed while the mesh has garbage |
| HalfedgeMesh.HandleIterator.SkipBackward | src/pmp/SurfaceMesh.h:277-279 | the backward skip passes only deleted elements, possibly wrapping to the invalid index |
| HalfedgeMesh.SurvivorsCount | src/pmp/SurfaceMesh.h:1026-1035 | survivors and deleted slots from i together fill the rest of the array |
| HalfedgeMesh.Enumerate | src/pmp/SurfaceMesh.h:1521-1536 | a range-for over a linear iterator yields exactly the indices not skipped, in increasing order: all of [0, size) without garbage, the non-deleted ones with garbage |
| HalfedgeMesh.RemainingMembers | src/pmp/SurfaceMesh.h:230-262 | what remains from i are exactly the visited indices from i on |
| HalfedgeMesh.VisitsBetween | src/pmp/SurfaceMesh.h:254-262 | no index between two consecutive iterator positions is visited |
| HalfedgeMesh.SkipAhead | src/pmp/SurfaceMesh.h:254-262 | a step over deleted slots leaves the old position followed by what remains from the new one |
| HalfedgeMesh.SurvivorsSkip | src/pmp/SurfaceMesh.h:258-260 | deleted slots add nothing to the survivors |
| HalfedgeMesh.EdgesOf | src/pmp/SurfaceMesh.h:1187 | the edge of each listed halfedge |
| HalfedgeMesh.TargetsIn | src/pmp/SurfaceMesh.h:1120 | the target vertex of each listed halfedge |
| HalfedgeMesh.AllSetStep | src/pmp/surface_mesh.cpp:998-999 | flags that only grow keep every listed element deleted, and one more deleted element extends the list |
| HalfedgeMesh.Relabelled | src/pmp/SurfaceMesh.h:1135 | set_face over a list keeps the array length |
| HalfedgeMesh.RelabelledSpec | src/pmp/surface_mesh.cpp:1048-1050 | exactly the listed halfedges get face f and every other keeps its face |
| HalfedgeMesh.PutGrows | src/pmp/surface_mesh.cpp:1032 | setting a flag only sets flags |
| HalfedgeMesh.Walked | src/pmp/SurfaceMesh.h:864-921 | a walk has at most fuel entries and starts at h |
| HalfedgeMesh.WalkedLinksOnly | src/pmp/SurfaceMesh.h:1172-1183 | walks depend on the next and prev records only |
| HalfedgeMesh.WalkedShape | src/pmp/SurfaceMesh.h:559-626 | each entry is one step from the previous one, the anchor occurs only at the head, and a walk that stopped early steps from its last entry back to the anchor |
| HalfedgeMesh.WalkedRingStep | src/pmp/SurfaceMesh.h:559-626 | one step along a walk leads to the next entry, unless it returns to the anchor or the walk used all its fuel |
| HalfedgeMesh.ReleaseGrows | src/pmp/surface_mesh.cpp:1085-1113 | releasing an endpoint keeps positions and sizes and only sets flags |
| HalfedgeMesh.SurfaceMesh.constructor | src/pmp/surface_mesh.cpp:9-21 | a new mesh has no elements, no deletions and no garbage |
| HalfedgeMesh.SurfaceMesh.CountsAreSurvivors | src/pmp/SurfaceMesh.h:1026-1035 | the n_* counts are the numbers of unflagged elements, and n_halfedges == 2 n_edges |
| HalfedgeMesh.SurfaceMesh.RotationsInverse | src/pmp/SurfaceMesh.h:1172-1183 | where next and prev are inverse, cw_rotated(ccw_rotated(h)) == h, and the other way round |
| HalfedgeMesh.SurfaceMesh.Walk | src/pmp/SurfaceMesh.h:559-626 | a walk has at most fuel entries and starts at h |
| HalfedgeMesh.SurfaceMesh.WalkIsWalked | src/pmp/SurfaceMesh.h:1172-1183 | the walk of the mesh is the walk on its halfedge records |
| HalfedgeMesh.SurfaceMesh.WalkSteps | src/pmp/SurfaceMesh.h:586-600 | each halfedge of a walk is one step from the previous one |
| HalfedgeMesh.SurfaceMesh.WalkEnds | src/pmp/SurfaceMesh.h:572-577 | the anchor occurs only at the head, and an early stop steps back to the anchor |
| HalfedgeMesh.SurfaceMesh.RingStep | src/pmp/SurfaceMesh.h:572-592 | on a closed ring each step leads to the next entry, and back to the anchor exactly after the last |
| HalfedgeMesh.SurfaceMesh.RingNext | src/pmp/SurfaceMesh.h:572-592 | a step leads to the next entry unless it returns to the anchor or the walk has as many entries as there are halfedges |
| HalfedgeMesh.SurfaceMesh.FirstToSpec | src/pmp/surface_mesh.cpp:160-168 | the first halfedge of the list pointing to end, invalid exactly when there is none |
| HalfedgeMesh.SurfaceMesh.FindHalfedge | src/pmp/surface_mesh.cpp:151-169 | the first halfedge of start's clockwise rotation, from its stored halfedge, that points to end, or invalid |
| HalfedgeMesh.SurfaceMesh.FindHalfedgeMeaning | src/pmp/surface_mesh.cpp:151-169 | the result lies in start's rotation and points to end, and it is invalid exactly when no halfedge of the rotation does |
| HalfedgeMesh.SurfaceMesh.FindEdge | src/pmp/surface_mesh.cpp:171-175 | the edge of find_halfedge, or invalid |
| HalfedgeMesh.SurfaceMesh.FirstBoundarySpec | src/pmp/surface_mesh.cpp:184-192 | the first boundary halfedge of the list, found iff the list has one |
| HalfedgeMesh.SurfaceMesh.FindBoundaryHalfedge | src/pmp/surface_mesh.cpp:179-193 | the search loop of adjust_outgoing_halfedge returns the first boundary halfedge of the clockwise rotation |
| HalfedgeMesh.SurfaceMesh.AdjustOutgoingHalfedge | src/pmp/surface_mesh.cpp:177-194 | a vertex with a boundary halfedge in its rotation stores the first one clockwise; otherwise nothing changes |
| HalfedgeMesh.SurfaceMesh.AdjustedIsBoundary | src/pmp/surface_mesh.cpp:177-194 | the stored halfedge is then a boundary halfedge of the rotation |
| HalfedgeMesh.SurfaceMesh.VertexValence | src/pmp/surface_mesh.cpp:418-422 | valence(v) is the number of outgoing halfedges of v |
| HalfedgeMesh.SurfaceMesh.FaceValence | src/pmp/surface_mesh.cpp:424-428 | valence(f) is the length of the face's next-loop |
| HalfedgeMesh.SurfaceMesh.IsManifold | src/pmp/SurfaceMesh.h:1104-1117 | true iff fewer than two outgoing halfedges of v are boundary halfedges |
| HalfedgeMesh.SurfaceMesh.IsBoundaryFace | src/pmp/SurfaceMesh.h:1227-1238 | true iff some halfedge of the face loop has a boundary opposite |
| HalfedgeMesh.SurfaceMesh.AllFacesHaveValence | src/pmp/surface_mesh.cpp:430-446 | true iff every face the face iterator visits has valence k |
| HalfedgeMesh.SurfaceMesh.IsTriangleMesh | src/pmp/surface_mesh.cpp:430-437 | true iff every visited face is a triangle |
| HalfedgeMesh.SurfaceMesh.IsQuadMesh | src/pmp/surface_mesh.cpp:439-446 | true iff every visited face is a quad |
| HalfedgeMesh.SurfaceMesh.NewVertex | src/pmp/SurfaceMesh.h:1821-1831 | an allocation error and no change at the largest index; otherwise one vertex at the origin, isolated and not deleted, with index size-1 |
| HalfedgeMesh.SurfaceMesh.AddVertex | src/pmp/surface_mesh.cpp:196-202 | a new vertex holding p, or the allocation error |
| HalfedgeMesh.SurfaceMesh.NewEdge | src/pmp/SurfaceMesh.h:1835-1851 | an allocation error and no change at the limit; otherwise one edge and two unconnected halfedges appended, returning h0 = size-2 |
| HalfedgeMesh.SurfaceMesh.NewEdgeBetween | src/pmp/SurfaceMesh.h:1857-1878 | as new_edge, with to_vertex(h0) == end, to_vertex(opposite(h0)) == start and the new edge index |
| HalfedgeMesh.SurfaceMesh.NewFace | src/pmp/SurfaceMesh.h:1882-1892 | an allocation error at the limit, otherwise one face without a halfedge |
| HalfedgeMesh.SurfaceMesh.SetVertexHalfedge | src/pmp/SurfaceMesh.h:1091 | writes the vertex's halfedge only |
| HalfedgeMesh.SurfaceMesh.SetFaceHalfedge | src/pmp/SurfaceMesh.h:1224 | writes the face's halfedge only |
| HalfedgeMesh.SurfaceMesh.SetVertex | src/pmp/SurfaceMesh.h:1129 | writes the target vertex of h only |
| HalfedgeMesh.SurfaceMesh.SetFace | src/pmp/SurfaceMesh.h:1135 | writes the face of h only |
| HalfedgeMesh.SurfaceMesh.SetNextHalfedge | src/pmp/SurfaceMesh.h:1144-1148 | writes next(h) = nh and prev(nh) = h and no other record |
| HalfedgeMesh.SurfaceMesh.SetPrevHalfedge | src/pmp/SurfaceMesh.h:1151-1155 | writes prev(h) = ph and next(ph) = h and no other record |
| HalfedgeMesh.SurfaceMesh.Clear | src/pmp/surface_mesh.cpp:106-133 | no elements, no deletions and no garbage, as after construction |
| HalfedgeMesh.SurfaceMesh.Collect | src/pmp/SurfaceMesh.h:864-921 | the loop a circulator range visits from a, bounded by the number of halfedges |
| HalfedgeMesh.SurfaceMesh.IncidentFaces | src/pmp/SurfaceMesh.h:708-786 | the faces of the non-boundary outgoing halfedges of v |
| HalfedgeMesh.SurfaceMesh.FacesOfInRange | src/pmp/SurfaceMesh.h:708-786 | the listed faces exist |
| HalfedgeMesh.SurfaceMesh.AdvanceOutside | src/pmp/SurfaceMesh.h:1138-1183 | stepping from a halfedge outside the arrays stays outside |
| HalfedgeMesh.SurfaceMesh.RingInRange | src/pmp/SurfaceMesh.h:1138-1183 | a closed loop from an existing halfedge stays among existing halfedges |
| HalfedgeMesh.SurfaceMesh.RingDistinct | src/pmp/SurfaceMesh.h:572-592 | a loop that comes back to its start meets no halfedge twice |
| HalfedgeMesh.SurfaceMesh.ChainDistinct | src/pmp/SurfaceMesh.h:572-592 | a chain meeting its head only at the start, closing back to it, has no repeated entry |
| HalfedgeMesh.SurfaceMesh.ChainRepeats | src/pmp/SurfaceMesh.h:572-592 | in a closing chain a repeated entry brings the head back early |
| HalfedgeMesh.SurfaceMesh.AdjustedInRange | src/pmp/surface_mesh.cpp:177-194 | the halfedge adjust_outgoing_halfedge stores exists |
| HalfedgeMesh.SurfaceMesh.DetachFace | src/pmp/surface_mesh.cpp:1044-1056 | each halfedge of the loop loses its face; the edges collected are LoneEdges (those whose other side has no face at that point), edges of the loop, and the vertices are its targets |
| HalfedgeMesh.SurfaceMesh.Bypass | src/pmp/surface_mesh.cpp:1064-1076 | prev0 is linked to next1 and prev1 to next0 |
| HalfedgeMesh.SurfaceMesh.UnlinkEdge | src/pmp/surface_mesh.cpp:1062-1113 | the neighbours are linked past the edge, the edge is flagged and counted once, and each endpoint whose outgoing halfedge leaves is moved on or deleted |
| HalfedgeMesh.SurfaceMesh.FlagEdge | src/pmp/surface_mesh.cpp:1079-1083 | the edge is flagged and the counter follows the flags |
| HalfedgeMesh.SurfaceMesh.ReleaseBoth | src/pmp/surface_mesh.cpp:1085-1113 | both endpoint updates in the source's order |
| HalfedgeMesh.SurfaceMesh.ReleaseVertex | src/pmp/surface_mesh.cpp:1086-1098 | an endpoint whose outgoing halfedge goes away takes next0, or is deleted once when next0 is that halfedge itself |
| HalfedgeMesh.Unlinked | src/pmp/surface_mesh.cpp:1060-1115 | after unlinking a list of edges in turn, every listed edge is flagged, no earlier edge or vertex flag is cleared, and faces, targets, positions and sizes are kept |
| HalfedgeMesh.UnlinkedKeepsFaced | src/pmp/surface_mesh.cpp:1064-1076 | where stepping back from a halfedge without a face reaches one without a face, unlinking edges with no face on either side keeps the next link of every halfedge that has a face, and keeps that property |
| HalfedgeMesh.LoneEdgesFaceless | src/pmp/surface_mesh.cpp:1044-1056 | once the loop has lost its face, both halfedges of every collected edge are without a face |
| HalfedgeMesh.LoneEdgesHas | src/pmp/surface_mesh.cpp:1048-1054 | a loop halfedge whose opposite has no face at its turn of the first loop has its edge collected |
| HalfedgeMesh.LoneEdgeOf | src/pmp/surface_mesh.cpp:1048-1054 | a loop halfedge whose opposite had no face, or lies in the loop too, has its edge collected |
| HalfedgeMesh.WalkKept | src/pmp/surface_mesh.cpp:1024-1122 | deleting a face leaves the next-walk of another face unchanged when that face's loop carried it and lay outside the deleted loop |
| HalfedgeMesh.SurfaceMesh.AdjustedFromStable | src/pmp/surface_mesh.cpp:177-194 | adjusting an outgoing halfedge twice gives what adjusting it once gives |
| HalfedgeMesh.SurfaceMesh.UnlinkEdges | src/pmp/surface_mesh.cpp:1060-1115 | the records after the loop are those of unlinking the listed edges in order: each is linked past and flagged, and each endpoint left without a halfedge is deleted; every listed edge is flagged, faces and targets are kept, counters follow the flags |
| HalfedgeMesh.SurfaceMesh.AdjustAll | src/pmp/surface_mesh.cpp:1117-1119 | each listed vertex leaves on the first boundary halfedge of its closed rotation, where there is one; every other vertex keeps its outgoing halfedge; flags and positions are unchanged |
| HalfedgeMesh.SurfaceMesh.DeleteLoop | src/pmp/surface_mesh.cpp:1036-1119 | the loop's halfedges lose their face; every lone edge of the loop is flagged; the records are those the three loops produce: lone edges unlinked in loop order with the vertices they isolate deleted, then every target of the loop adjusted |
| HalfedgeMesh.SurfaceMesh.DeleteFace | src/pmp/surface_mesh.cpp:1024-1122 | a deleted face: no change; otherwise the face is flagged and counted once and garbage is set; exactly its loop halfedges lose their face; every edge of the loop that is left with no face on either side is flagged; and the records are those of unlinking those edges in loop order, deleting the vertices this leaves without a halfedge, and adjusting the loop's targets |
| HalfedgeMesh.SurfaceMesh.DeleteFaces | src/pmp/surface_mesh.cpp:997-999 | every listed face ends up deleted |
| HalfedgeMesh.SurfaceMesh.DeleteVertex | src/pmp/surface_mesh.cpp:985-1008 | a deleted vertex: no change; otherwise every face around it is deleted, then it is flagged, and garbage is set |
| HalfedgeMesh.SurfaceMesh.DeleteEdge | src/pmp/surface_mesh.cpp:1010-1022 | a deleted edge or one without faces: no change; otherwise both incident faces are deleted, and where each face's loop runs through the edge's halfedge on its side and carries the face, the edge itself ends up deleted |
| HalfedgeMesh.SurfaceMesh.DeleteFirstFace | src/pmp/surface_mesh.cpp:1015-1019 | deleting the first face deletes it and either deletes the edge or leaves a different second face ready to delete it |
| HalfedgeMesh.SurfaceMesh.FirstSide | src/pmp/surface_mesh.cpp:1015-1019 | an edge whose only face is f0 is among the edges delete_face(f0) collects; a different face on the other side has its whole loop outside f0's |
| HalfedgeMesh.SurfaceMesh.SecondSide | src/pmp/surface_mesh.cpp:1020-1021 | a ready second face collects the edge when it is deleted |
| HalfedgeMesh.SurfaceMesh.EdgeCollected | src/pmp/surface_mesh.cpp:1048-1054 | an edge with a halfedge in the loop of f whose other halfedge has no face, or is in that loop too, is collected by delete_face(f) |
| HalfedgeMesh.SurfaceMesh.LoopKept | src/pmp/surface_mesh.cpp:1024-1122 | after delete_face, a face whose loop carried it and lay outside the deleted loop has the loop it had |
| HalfedgeMesh.VertexCirculator.constructor | src/pmp/SurfaceMesh.h:563-569 | starts at the vertex's halfedge, active |
| HalfedgeMesh.VertexCirculator.Begin | src/pmp/SurfaceMesh.h:616-620 | begin() makes an isolated vertex's circulator equal to its end, so it yields nothing |
| HalfedgeMesh.VertexCirculator.End | src/pmp/SurfaceMesh.h:622-626 | end() is active |
| HalfedgeMesh.VertexCirculator.Increment | src/pmp/SurfaceMesh.h:586-592 | rotates counter-clockwise and becomes active |
| HalfedgeMesh.VertexCirculator.Decrement | src/pmp/SurfaceMesh.h:595-600 | rotates clockwise |
| HalfedgeMesh.FaceCirculator.constructor | src/pmp/SurfaceMesh.h:868-874 | starts at the face's halfedge, active |
| HalfedgeMesh.FaceCirculator.Begin | src/pmp/SurfaceMesh.h:911-915 | begin() is inactive, so a face loop visits its first halfedge |
| HalfedgeMesh.FaceCirculator.End | src/pmp/SurfaceMesh.h:917-921 | end() is active |
| HalfedgeMesh.FaceCirculator.Increment | src/pmp/SurfaceMesh.h:891-897 | moves to the next halfedge and becomes active |
| HalfedgeMesh.FaceCirculator.Decrement | src/pmp/SurfaceMesh.h:900-905 | moves to the previous halfedge |
| MeshGarbage.RemappedAll | src/pmp/surface_mesh.cpp:1265-1269 | remapping keeps the array length |
| MeshGarbage.RemapValid | src/pmp/surface_mesh.cpp:1247-1252 | the vertex loop sends each stored outgoing halfedge below nv through the halfedge map and leaves isolated vertices alone |
| MeshGarbage.RemapAll | src/pmp/surface_mesh.cpp:1265-1269 | the face loop sends each face's halfedge below nf through the halfedge map |
| MeshGarbage.RemapHalfedges | src/pmp/surface_mesh.cpp:1255-1262 | the halfedge loop remaps the target vertex, the next halfedge with the previous record of its target, and the face off the boundary |
| MeshGarbage.Compact | src/pmp/surface_mesh.cpp:1129-1284 | the three two-pointer loops and the remapping loops produce Collected of their exchanges, sized consistently |
| MeshGarbage.GarbageCollection | src/pmp/surface_mesh.cpp:1124-1288 | without garbage nothing changes; otherwise the records become Collected for the exchanges the loops choose, the deleted counters are zero and has_garbage is false |
| MeshGarbage.Install | src/pmp/surface_mesh.cpp:1276-1287 | the final stores: the compacted arrays, zero counters, no garbage |
| MeshGarbage.CollectedSized | src/pmp/surface_mesh.cpp:1157-1284 | each size is the old size minus the deleted count, with two halfedges per surviving edge |
| MeshGarbage.AllClear | src/pmp/surface_mesh.cpp:1286 | no flag set means a zero count |
| MeshGarbage.CollectedNoneDeleted | src/pmp/surface_mesh.cpp:1157-1244 | no deleted element remains |
| MeshGarbage.HalfedgeMapAt | src/pmp/surface_mesh.cpp:1137-1214 | the halfedge map sends old halfedge h to its side of its edge's new slot |
| MeshGarbage.VertexMoves | src/pmp/surface_mesh.cpp:1157-1252 | a surviving vertex moves below the new size with its position, and its outgoing halfedge is sent to that halfedge's new index |
| MeshGarbage.HalfedgeMoves | src/pmp/surface_mesh.cpp:1195-1262 | a surviving halfedge moves below the new halfedge count, and its target vertex, next halfedge and face are sent through the same maps (boundary halfedges keep no face) |
| MeshGarbage.EdgeLands | src/pmp/surface_mesh.cpp:1195-1220 | a surviving halfedge's edge moves below the new edge count, keeping its side |
| MeshGarbage.PairRemapAt | src/pmp/surface_mesh.cpp:1213-1262 | exchanging pairs and then remapping reads, at the new slot, the map of the old value |
| MeshGarbage.MapGet | src/pmp/surface_mesh.cpp:1140-1145 | a map array read at a stored handle gives its new index, or invalid |
| MeshGarbage.TargetLands | src/pmp/surface_mesh.cpp:1258 | the new target vertex of a surviving halfedge is the map of its old one |
| MeshGarbage.NextLands | src/pmp/surface_mesh.cpp:1259 | the new next halfedge of a surviving halfedge is the map of its old one |
| MeshGarbage.FaceLands | src/pmp/surface_mesh.cpp:1260-1261 | the new face of a surviving halfedge is the map of its old one |
| MeshGarbage.FaceMoves | src/pmp/surface_mesh.cpp:1222-1269 | a surviving face moves below the new size, and its halfedge is sent to that halfedge's new index |
| MeshGarbage.HalfedgeOrigin | src/pmp/surface_mesh.cpp:1195-1220 | every new halfedge slot holds a surviving old halfedge |
| MeshGarbage.LiveHalfedgeLands | src/pmp/surface_mesh.cpp:1219 | a surviving halfedge lands below nh = 2 ne |
| MeshGarbage.LiveLands | src/pmp/surface_mesh.cpp:1178 | a surviving element lands below the new count |
| MeshGarbage.AnchorLands | src/pmp/surface_mesh.cpp:1247-1252 | in a consistent mesh a vertex's new outgoing halfedge is below the new halfedge count or invalid |
| MeshGarbage.FaceAnchorLands | src/pmp/surface_mesh.cpp:1265-1269 | in a consistent mesh a face's new halfedge is below the new halfedge count |
| MeshGarbage.LinksLand | src/pmp/surface_mesh.cpp:1255-1262 | in a consistent mesh the new target, next and face of each new halfedge lie below the new counts |
| MeshGarbage.RelinkedPrevHit | src/pmp/surface_mesh.cpp:1259 | a set_next_halfedge aimed at x leaves prev(x) below n |
| MeshGarbage.PrevLands | src/pmp/surface_mesh.cpp:1259 | in a consistent mesh every new previous record lies below the new halfedge count |
| MeshGarbage.PrevHit | src/pmp/surface_mesh.cpp:1259 | a new halfedge reached as a next record gets a previous record below the count |
| MeshGarbage.AnchorsLand | src/pmp/surface_mesh.cpp:1247-1252 | every vertex anchor after collection is in range |
| MeshGarbage.FaceAnchorsLand | src/pmp/surface_mesh.cpp:1265-1269 | every face anchor after collection is in range |
| MeshGarbage.AllLinksLand | src/pmp/surface_mesh.cpp:1255-1262 | every halfedge record after collection is in range |
| MeshGarbage.CollectedInRange | src/pmp/surface_mesh.cpp:1246-1269 | in a consistent mesh every stored handle after collection names an element of the compacted mesh or is invalid |
| FaceAddition.Succ | src/pmp/surface_mesh.cpp:265 | the successor corner `(i + 1) % n` lies in the polygon and wraps to 0 exactly after the last corner |
| FaceAddition.FoundAll | src/pmp/surface_mesh.cpp:273 | one find_halfedge result per corner |
| FaceAddition.FoundAllAt | src/pmp/surface_mesh.cpp:273 | entry k of the list is what find_halfedge returns from corner k to corner k+1 |
| FaceAddition.FoundEntry | src/pmp/surface_mesh.cpp:273 | entry k of any longer prefix is the halfedge found for corner k |
| FaceAddition.CornersOkMeaning | src/pmp/surface_mesh.cpp:265-281 | the prefix passes exactly when every corner in it is a boundary vertex whose existing halfedge to the next corner is a boundary halfedge |
| FaceAddition.CornerFails | src/pmp/surface_mesh.cpp:267-280 | one failing corner makes every longer prefix fail |
| FaceAddition.CheckCorners | src/pmp/surface_mesh.cpp:264-281 | TopologyException exactly when some corner is a complex vertex or has a complex edge; otherwise the halfedges found, corner by corner |
| FaceAddition.Turns | src/pmp/surface_mesh.cpp:300-305 | the gap search visits at most its bound of halfedges |
| FaceAddition.GapFrom | src/pmp/surface_mesh.cpp:296-308 | a gap it returns is an existing boundary halfedge other than inner_prev |
| FaceAddition.GapFromSpec | src/pmp/surface_mesh.cpp:300-305 | the search returns the first free gap among the halfedges it visits, and nothing exactly when none of them is free |
| FaceAddition.FindGap | src/pmp/surface_mesh.cpp:299-306 | the do-while loop returns what GapFrom specifies |
| FaceAddition.RelinkedFails | src/pmp/surface_mesh.cpp:283-328 | the relinking fails, always with a TopologyException, exactly when some corner whose two halfedges exist has no free gap or only the one the face closes |
| FaceAddition.RelinkedError | src/pmp/surface_mesh.cpp:311-316 | a failed relinking is a TopologyException |
| FaceAddition.CornerLinks | src/pmp/surface_mesh.cpp:286-327 | the relinking of one corner as a method computes PatchLinks |
| FaceAddition.Relink | src/pmp/surface_mesh.cpp:284-328 | the relinking loop computes Relinked over all corners |
| FaceAddition.FoundMeaning | src/pmp/surface_mesh.cpp:151-169 | a valid halfedge found for corner i lies in the mesh, starts at corner i and ends at corner i+1 |
| FaceAddition.FoundAllIn | src/pmp/surface_mesh.cpp:273 | every halfedge found runs from its corner to the next |
| FaceAddition.Missing | src/pmp/surface_mesh.cpp:333 | at most one missing edge per corner |
| FaceAddition.MissingGrows | src/pmp/surface_mesh.cpp:333 | a missing edge at corner i is counted by every later prefix |
| FaceAddition.Falses | src/pmp/SurfaceMesh.h:1835-1851 | c cleared deletion flags, as new elements get them |
| FaceAddition.CountFalses | src/pmp/SurfaceMesh.h:1835-1851 | appending cleared flags leaves the deleted count unchanged |
| FaceAddition.Grown | src/pmp/surface_mesh.cpp:331-337 | each missing edge appends two halfedge records |
| FaceAddition.GrownKeeps | src/pmp/surface_mesh.cpp:331-337 | creating edges keeps the target vertex of every existing halfedge |
| FaceAddition.GrownEnds | src/pmp/surface_mesh.cpp:335 | the edge created for missing corner k runs from corner k to corner k+1 and back, at the index counted from the old end |
| FaceAddition.AppendRefs | src/pmp/SurfaceMesh.h:1835-1851 | appending in-range references keeps every reference in range |
| FaceAddition.GrownInRange | src/pmp/surface_mesh.cpp:331-337 | the created halfedges refer only to existing vertices, so every reference stays in range |
| FaceAddition.GrowEdges | src/pmp/surface_mesh.cpp:330-337 | succeeds exactly when the halfedge indices suffice for two per missing corner; otherwise an AllocationException, and the edges created before it stay; on success corner i gets the found halfedge or the first of its new edge |
| FaceAddition.MakeEdges | src/pmp/surface_mesh.cpp:330-337 | as GrowEdges, and the links of the existing halfedges are kept |
| FaceAddition.FilledMeaning | src/pmp/surface_mesh.cpp:330-337 | after the edge creation every corner's halfedge exists and ends at the next corner |
| FaceAddition.SetupCorner | src/pmp/surface_mesh.cpp:345-399 | one pass sets the face of inner_prev and changes no array's length |
| FaceAddition.SetupAll | src/pmp/surface_mesh.cpp:343-400 | the setup loop changes no array's length |
| FaceAddition.SetupFaces | src/pmp/surface_mesh.cpp:399 | after the setup loop exactly the corners' halfedges have the new face; every other halfedge keeps its face |
| FaceAddition.AppendLinks | src/pmp/surface_mesh.cpp:366-393 | appending in-range links keeps the cache in range |
| FaceAddition.CornerInRange | src/pmp/surface_mesh.cpp:345-399 | one pass of the setup loop writes only existing handles |
| FaceAddition.SetupInRange | src/pmp/surface_mesh.cpp:343-400 | the setup loop writes only existing halfedges and faces |
| FaceAddition.SetupStep | src/pmp/surface_mesh.cpp:345-399 | one pass of the loop writes what SetupCorner specifies |
| FaceAddition.SetupCorners | src/pmp/surface_mesh.cpp:343-400 | the loop writes what SetupAll specifies |
| FaceAddition.LinkAll | src/pmp/surface_mesh.cpp:402-404 | writing the cached links changes only next and prev links, not the number of halfedges |
| FaceAddition.LinkAllInRange | src/pmp/surface_mesh.cpp:402-404 | links between existing halfedges keep every link in range |
| FaceAddition.ApplyLinks | src/pmp/surface_mesh.cpp:402-404 | the cache loop writes what LinkAll specifies |
| FaceAddition.AdjustCorners | src/pmp/surface_mesh.cpp:406-413 | only outgoing halfedges of marked corners change; points and deletion flags stay |
| FaceAddition.PatchLinksIn | src/pmp/surface_mesh.cpp:319-325 | the links one corner's relinking caches join existing halfedges |
| FaceAddition.RelinkedIn | src/pmp/surface_mesh.cpp:284-328 | the relinking caches only links between existing halfedges |
| FaceAddition.GrownMeshInRange | src/pmp/surface_mesh.cpp:331-337 | the mesh after the edge creation loop, also when it stops early, refers only to existing elements |
| FaceAddition.MissingAtMost | src/pmp/surface_mesh.cpp:333 | from corner i to corner j at most j - i edges are missing |
| FaceAddition.NoneFoundAt | src/pmp/surface_mesh.cpp:274 | with no edge found, no corner has a halfedge yet |
| FaceAddition.NoneFoundFilled | src/pmp/surface_mesh.cpp:335 | with no edge found, corner i gets the first halfedge of the i-th new edge |
| FaceAddition.RelinkedNone | src/pmp/surface_mesh.cpp:286 | with no edge found, the relinking caches nothing |
| FaceAddition.LinkAllLoop | src/pmp/surface_mesh.cpp:402-404 | after the cache is written each corner's halfedge leads to the next corner's when no later link breaks the loop: the last write wins |
| FaceAddition.LinkAllKeeps | src/pmp/surface_mesh.cpp:402-404 | a halfedge no cached link starts from keeps its next link, and one no link leads to keeps its prev link |
| FaceAddition.CycleWalked | src/pmp/SurfaceMesh.h:891-921 | distinct halfedges linked round in order are the walk along next from the first |
| FaceAddition.FreshCornerCase | src/pmp/surface_mesh.cpp:376-393 | on a face whose edges are all new each pass takes case 3, storing an outer halfedge only at a vertex without one |
| FaceAddition.FreshLinksFit | src/pmp/surface_mesh.cpp:376-393 | the links case 3 caches keep the face loop and touch old halfedges only at the corner's vertex |
| FaceAddition.FreshCorner | src/pmp/surface_mesh.cpp:345-399 | one pass keeps the state of a fully new face and caches the inner link of its corner |
| FaceAddition.FreshSetupAll | src/pmp/surface_mesh.cpp:343-400 | the setup loop on a fully new face caches every corner's inner link and nothing that breaks the loop |
| FaceAddition.FreshLinked | src/pmp/surface_mesh.cpp:402-404 | writing those links leaves each corner's halfedge leading to the next corner's, and other old halfedges with the links they had |
| FaceAddition.FreshFinish | src/pmp/surface_mesh.cpp:343-404 | the setup loop and the cache loop together link a fully new face round |
| FaceAddition.LinkCorners | src/pmp/surface_mesh.cpp:339-404 | the face's halfedge is the last corner's, exactly the corners' halfedges get the face, and only connectivity changes; the halfedge and outgoing-halfedge records are exactly those the setup loop and the next cache write |
| FaceAddition.FinishFace | src/pmp/surface_mesh.cpp:339-413 | as LinkCorners, followed by the adjustment of the marked corners; with every edge new nothing is marked and the records are those LinkCorners leaves |
| FaceAddition.KeepCounted | src/pmp/SurfaceMesh.h:1835-1892 | elements added with cleared deletion flags keep the deleted counters right |
| FaceAddition.CreateEdges | src/pmp/surface_mesh.cpp:330-337 | counters and references stay right also when the allocation fails; AllocationException exactly when the halfedge indices run out; each found halfedge is reused |
| FaceAddition.CreateFace | src/pmp/surface_mesh.cpp:339-413 | AllocationException exactly when the face indices run out; otherwise the new face is the last one and the face of every corner's halfedge |
| FaceAddition.GrownLinks | src/pmp/surface_mesh.cpp:331-337 | creating edges keeps the links of the existing halfedges |
| FaceAddition.GrownUnlinked | src/pmp/SurfaceMesh.h:1835-1851 | the outer halfedge of a new edge has no prev link |
| FaceAddition.FreshIndices | src/pmp/surface_mesh.cpp:335 | with no edge found, corner i has halfedge n0 + 2i |
| FaceAddition.FreshOpposites | src/pmp/surface_mesh.cpp:358-359 | the outer halves of the new corners' halfedges are no corner's and have no prev link |
| FaceAddition.FreshBuild | src/pmp/surface_mesh.cpp:330-337 | the edge creation of a fully new face leaves what the setup loop needs |
| FaceAddition.FreshEdgesHold | src/pmp/surface_mesh.cpp:330-337 | the edge creation keeps old links and, with no edge found, numbers the corners from the old end |
| FaceAddition.FaceLinkedGrown | src/pmp/surface_mesh.cpp:330-404 | the link result stated against the records after the edge creation holds against those before it |
| FaceAddition.FreshFaceLoop | src/pmp/SurfaceMesh.h:891-921 | a face whose distinct corner halfedges are linked round has them as its loop, from the last corner's |
| FaceAddition.FreshFaceMade | src/pmp/surface_mesh.cpp:341 | numbered and linked corners make the face's loop |
| FaceAddition.Build | src/pmp/surface_mesh.cpp:330-413 | AllocationException exactly when the halfedge or face indices run out; otherwise a new last face whose halfedges run from corner to corner and reuse the found ones; with every edge new and nothing cached, the face's loop is exactly its corners' halfedges and the records are those the setup loop and the next cache write |
| FaceAddition.RelinkFound | src/pmp/surface_mesh.cpp:283-328 | the relinking links lie in the mesh, a failure is a TopologyException, and with no edge found nothing is cached |
| FaceAddition.Test | src/pmp/surface_mesh.cpp:264-328 | TopologyException exactly when a corner fails its tests or a patch cannot be relinked; otherwise the halfedges found and the links cached |
| FaceAddition.AddFace | src/pmp/surface_mesh.cpp:240-416 | TopologyException exactly when the tests reject the face, and then the mesh is unchanged; AllocationException exactly when the indices run out, and then the edges already created remain; otherwise the new face is the last one, one edge is added per missing corner, found halfedges are reused, the face's halfedges run corner to corner, and with every edge new its loop is exactly them and the records are those the setup loop and the next cache write |
| FaceAddition.FreshTriangleLoop | src/pmp/surface_mesh.cpp:331-404 | a triangle made on an empty mesh has halfedges 0, 2 and 4 linked round, and its loop is 4, 0, 2 |
| FaceAddition.AddTriangle | src/pmp/surface_mesh.cpp:221-228 | add_face on three vertices: the new face's halfedge ends at v0, the face owns it, and at most three edges are added |
| FaceAddition.AddQuad | src/pmp/surface_mesh.cpp:230-238 | add_face on four vertices: the new face's halfedge ends at v0, the face owns it, and at most four edges are added |
| FaceAddition.FreshCorners | src/pmp/surface_mesh.cpp:264-281 | three isolated vertices in a mesh without edges pass every test and have no halfedge between them |
| FaceAddition.TriangleAssembled | src/pmp/surface_mesh.cpp:330-413 | a triangle on three isolated vertices of an empty mesh: the inner loop 0, 2, 4 carries the face, the outer loop 1, 5, 3 has none, and the vertices leave on 5, 1 and 3 |
| FaceAddition.TriangleMade | src/pmp/surface_mesh.cpp:330-413 | the records of that fresh triangle in full, with three vertices, three edges, one face and six halfedges |
| FaceAddition.FreshTriangle | tests/surface_mesh_test.cpp:27-32 | add_triangle on three fresh vertices gives face 0, three vertices, three edges, one face and six halfedges linked 0, 2, 4, and exactly the triangle's records |
| FaceAddition.TriangleCounts | tests/surface_mesh_test.cpp:29-32 | three live vertices, three new edges and one new face count as 3, 3 and 1 |
| MeshLifecycle.TriangleLoneEdges | src/pmp/surface_mesh.cpp:1044-1056 | the first loop of delete_face on the triangle's loop 4, 0, 2 strips every face and collects edges 2, 0, 1 in that order |
| MeshLifecycle.TriangleUnlinked | src/pmp/surface_mesh.cpp:1058-1115 | unlinking edges 2, 0 and 1 of the triangle flags all three edges and deletes all three vertices |
| MeshLifecycle.TriangleLoopDeleted | src/pmp/surface_mesh.cpp:1024-1122 | what delete_face leaves on that triangle has every vertex and every edge deleted |
| MeshLifecycle.DeleteTriangle | src/pmp/surface_mesh.cpp:1024-1122 | delete_face(f0) on the triangle deletes the face, its three edges and its three vertices, and sets garbage |
| MeshLifecycle.CollectAll | src/pmp/surface_mesh.cpp:1124-1288 | garbage_collection when every vertex, edge and face is deleted leaves every array empty and no element counted |
| MeshLifecycle.InsertRemoveTriangle | tests/surface_mesh_test.cpp:27-38 | add_triangle, delete_face(f0) and garbage_collection in turn leave no vertex, edge or face |
| EulerOperators.Link | src/pmp/SurfaceMesh.h:1144-1148 | after `set_next_halfedge(h, nh)` the next of h is nh and the prev of nh is h |
| EulerOperators.FlipOkMeaning | src/pmp/surface_mesh.cpp:680-700 | a flip is allowed exactly when the edge is interior, the two opposite vertices differ and no halfedge joins them |
| EulerOperators.IsFlipOk | src/pmp/surface_mesh.cpp:680-700 | returns true exactly when the flip is allowed |
| EulerOperators.CycleAt | src/pmp/surface_mesh.cpp:728-734 | three link writes along x y z set exactly those three slots |
| EulerOperators.Put2At | src/pmp/surface_mesh.cpp:736-740 | two writes to different slots set those two and keep the rest |
| EulerOperators.CycleRefs | src/pmp/surface_mesh.cpp:728-734 | writing in-range handles along a cycle keeps every reference in range |
| EulerOperators.Put2Refs | src/pmp/surface_mesh.cpp:736-740 | two in-range writes keep every reference in range |
| EulerOperators.NextFlipped | src/pmp/surface_mesh.cpp:728-734 | the six next writes make the loops a0 a2 b1 and b0 b2 a1 and change no other next link |
| EulerOperators.PrevFlipped | src/pmp/surface_mesh.cpp:728-734 | the matching prev writes make the same loops backwards and change no other prev link |
| EulerOperators.PairFlipped | src/pmp/surface_mesh.cpp:725-737 | a pair of writes inside the wing leaves every halfedge outside it unchanged |
| EulerOperators.FlipLoops | src/pmp/surface_mesh.cpp:728-734 | after the flip writes the two triangles are a0 a2 b1 and b0 b2 a1, by next and by prev |
| EulerOperators.FlipTargets | src/pmp/surface_mesh.cpp:725-726 | a0 and b0 point to the former targets of a1 and b1; the other four keep theirs |
| EulerOperators.FlipFaces | src/pmp/surface_mesh.cpp:736-737 | a1 moves to the face of b0 and b1 to the face of a0 |
| EulerOperators.FlipOthers | src/pmp/surface_mesh.cpp:725-737 | no halfedge outside the two triangles changes |
| EulerOperators.FlipAt | src/pmp/surface_mesh.cpp:725-737 | the writes on six different halfedges give the flipped loops, targets and faces |
| EulerOperators.FlipHalfedgesSpec | src/pmp/surface_mesh.cpp:707-737 | on two triangles at e the writes produce the flipped configuration |
| EulerOperators.FlipKeepsTriangles | src/pmp/surface_mesh.cpp:707-737 | after a flip e again lies between two triangles, a0 a2 b1 keeping the face of a0 and b0 b2 a1 that of b0, so it can be flipped again |
| EulerOperators.FlipHalfedgesIn | src/pmp/surface_mesh.cpp:725-737 | the flip stores only handles already stored, so references stay in range |
| EulerOperators.FlipVertexConnSpec | src/pmp/surface_mesh.cpp:742-745 | va0 gets a1 only if its outgoing halfedge was b0, vb0 gets b1 only if it was a0, and no other vertex changes |
| EulerOperators.FlipFaceConnSpec | src/pmp/surface_mesh.cpp:739-740 | fa gets a0, fb gets b0, and no other face changes |
| EulerOperators.Store | src/pmp/surface_mesh.cpp:725-745 | storing records that fit the element counts keeps the mesh valid and stores exactly them |
| EulerOperators.Flip | src/pmp/surface_mesh.cpp:702-746 | the halfedge records become the flipped configuration, fa and fb get a0 and b0, and only va0 and vb0 may change their outgoing halfedge |
| EulerOperators.Put3At | src/pmp/surface_mesh.cpp:620-626 | three writes to different slots set those three and keep the rest |
| EulerOperators.Put4At | src/pmp/surface_mesh.cpp:618-625 | four writes to different slots set those four and keep the rest |
| EulerOperators.Put3Refs | src/pmp/surface_mesh.cpp:620-626 | three in-range writes keep every reference in range |
| EulerOperators.Put4Refs | src/pmp/surface_mesh.cpp:618-625 | four in-range writes keep every reference in range |
| EulerOperators.Adjust | src/pmp/surface_mesh.cpp:177-194 | the outgoing halfedge becomes the first boundary halfedge of the clockwise rotation, if there is one; nothing else changes |
| EulerOperators.InsertLinksAt | src/pmp/surface_mesh.cpp:618-625 | the link writes make the paths h0 h1 h2 and o2 o1 o0, by next and by prev |
| EulerOperators.InsertRecordsAt | src/pmp/surface_mesh.cpp:620-627 | h0 and o1 end at v, h1 at the old target, h1 in the face of h0 and o1 in that of o0 |
| EulerOperators.InsertVertexSpec | src/pmp/surface_mesh.cpp:607-627 | the writes of insert_vertex give the split edge's paths, targets and faces, and nothing else changes |
| EulerOperators.AppendPairIn | src/pmp/SurfaceMesh.h:1835-1851 | a new edge between existing vertices keeps every reference in range |
| EulerOperators.InsertVertexIn | src/pmp/surface_mesh.cpp:614-627 | the writes of insert_vertex keep every reference in range |
| EulerOperators.InsertVertexFaceConnSpec | src/pmp/surface_mesh.cpp:636-639 | a valid face of h0 gets h0, a valid face of o0 gets o1, and no other face changes |
| EulerOperators.StoreAll | src/pmp/surface_mesh.cpp:614-639 | storing all four connectivity parts keeps the mesh valid and stores exactly them |
| EulerOperators.InsertVertexFits | src/pmp/surface_mesh.cpp:614-639 | the records insert_vertex stores fit the grown edge count |
| EulerOperators.StoreEdges | src/pmp/surface_mesh.cpp:655-675 | storing new halfedge, edge and face records over the same vertices keeps the mesh valid |
| EulerOperators.Anchor | src/pmp/surface_mesh.cpp:630-633 | set_halfedge then adjust_outgoing_halfedge: v gets h or a boundary halfedge, and no other vertex changes |
| EulerOperators.InsertVertexLinks | src/pmp/surface_mesh.cpp:607-639 | an AllocationException without any change when the halfedge indices run out; otherwise the new pair is appended and the records are those of the split edge |
| EulerOperators.InsertVertex | src/pmp/surface_mesh.cpp:591-642 | returns o1, the new halfedge after the old end; v splits the edge of h0; only v and v2 may change their outgoing halfedge, each to the new one or a boundary halfedge; allocation failure changes nothing |
| FaceSplitting.AppendPairFits | src/pmp/SurfaceMesh.h:1857-1878 | a new edge between two existing vertices keeps the records fitting the grown edge count |
| FaceSplitting.InsertEdgeFits | src/pmp/surface_mesh.cpp:655-669 | the records insert_edge writes before the relabelling fit the grown mesh |
| FaceSplitting.InsertEdgeLinksIn | src/pmp/surface_mesh.cpp:664-669 | the link writes of insert_edge keep every reference in range and add two halfedges |
| FaceSplitting.InsertEdgeFacesIn | src/pmp/surface_mesh.cpp:658-662 | the face anchors of insert_edge refer to existing halfedges |
| FaceSplitting.LinkNewEdge | src/pmp/surface_mesh.cpp:649-669 | AllocationException with no change when the halfedges run out; AllocationException leaving the new unlinked edge when the faces run out; otherwise the new edge h4 is linked after h0 and h5 after h1 |
| FaceSplitting.InsertEdge | src/pmp/surface_mesh.cpp:644-678 | the same three outcomes; on success returns h4, the face of h0 keeps h0 and h4, and the new face owns the loop from the old next of h0 round to h5 |
| FaceSplitting.InsertEdgeRelabels | src/pmp/surface_mesh.cpp:670-675 | the relabelling walks the records the link writes left |
| FaceSplitting.RelabelLoop | src/pmp/surface_mesh.cpp:670-675 | every halfedge met walking along next from a until it comes back gets face f, and nothing else changes |
| FaceSplitting.InsertNextAt | src/pmp/surface_mesh.cpp:664-669 | h0 runs into h4, h4 into the old next of h1, h1 into h5 and h5 into the old next of h0 |
| FaceSplitting.InsertPrevAt | src/pmp/surface_mesh.cpp:664-669 | the prev links mirror those four next links |
| FaceSplitting.InsertRecordsAt | src/pmp/surface_mesh.cpp:655-666 | h4 ends at the target of h1, h5 at that of h0, and h4 joins the face of h0 |
| FaceSplitting.InsertEdgeLinksAt | src/pmp/surface_mesh.cpp:649-669 | the writes change next links only at h0 and h1 and prev links only at their old nexts; old targets and faces stay |
| FaceSplitting.InsertThenRemove | src/pmp/surface_mesh.cpp:826-871 | remove_edge after insert_edge restores every next, prev and target of the old halfedges |
| FaceSplitting.RemoveInserted | src/pmp/surface_mesh.cpp:826-871 | the same round trip stated on link records alone |
| FaceSplitting.Restored | src/pmp/surface_mesh.cpp:851-858 | writing back the old values of the only two changed slots restores them all |
| FaceSplitting.InsertEdgeQuad | src/pmp/surface_mesh.cpp:644-678 | cutting a quad h0 q1 q2 q3 from the target of h0 to that of q2 leaves the triangles h0 h4 q3 in the old face and q1 q2 h5 in the new one |
| FaceSplitting.CutQuadWalk | src/pmp/surface_mesh.cpp:670-675 | after the cut of a quad the walk from q1 meets q1, q2 and h5 |
| FaceSplitting.CutQuad | src/pmp/surface_mesh.cpp:670-675 | relabelling q1, q2, h5 leaves two triangles with the right faces |
| FaceSplitting.TriangleFrom | src/pmp/surface_mesh.cpp:424-437 | three halfedges linked into a loop of one valid face form a triangle |
| FaceSplitting.SplitRounds | src/pmp/surface_mesh.cpp:465-485 | each round adds two halfedges and keeps the four arrays of one length |
| FaceSplitting.RoundAfter | src/pmp/surface_mesh.cpp:467-484 | one round adds two halfedges |
| FaceSplitting.SplitFace | src/pmp/surface_mesh.cpp:448-493 | TopologyError exactly when the loop of f does not close; AllocationException exactly when the edges or faces needed run out; both without change; otherwise the records become those of the fan of triangles around v |
| FaceSplitting.ApplySplit | src/pmp/surface_mesh.cpp:455-492 | the writes of split once the loop fits store exactly the fan's records |
| FaceSplitting.SplitLoop | src/pmp/surface_mesh.cpp:455-490 | the loop of the source computes SplitFaceHalfedges |
| FaceSplitting.RoundsStep | src/pmp/surface_mesh.cpp:465-485 | one more round is RoundAfter on the records so far |
| FaceSplitting.SplitFaceFits | src/pmp/surface_mesh.cpp:455-492 | the records split stores fit the grown counts |
| FaceSplitting.SplitStartIn | src/pmp/surface_mesh.cpp:458-461 | the first new edge keeps every reference in range |
| FaceSplitting.SplitRoundsIn | src/pmp/surface_mesh.cpp:465-485 | the rounds keep every reference in range |
| FaceSplitting.SplitRoundIn | src/pmp/surface_mesh.cpp:467-484 | one round keeps every reference in range |
| FaceSplitting.SplitEndIn | src/pmp/surface_mesh.cpp:487-490 | the closing writes keep every reference in range |
| FaceSplitting.SplitFaceFacesIn | src/pmp/surface_mesh.cpp:469-470 | the new faces are anchored at existing halfedges |
| FaceSplitting.RoundAt | src/pmp/surface_mesh.cpp:472-482 | one round closes the triangle h, hnew, hold in the new face, hnew ending at v, and changes only those links |
| FaceSplitting.StartAt | src/pmp/surface_mesh.cpp:458-463 | before the loop the first new edge follows hend and joins f |
| FaceSplitting.RoundsStaged | src/pmp/surface_mesh.cpp:465-485 | after each round every earlier halfedge of the loop closes a triangle with v |
| FaceSplitting.StagedStep | src/pmp/surface_mesh.cpp:467-484 | the state after the rounds so far carries over one more round |
| FaceSplitting.StagedFrame | src/pmp/surface_mesh.cpp:467-484 | a round's writes touch only its own triangle |
| FaceSplitting.EndAt | src/pmp/surface_mesh.cpp:487-490 | the closing writes link the last hold between hend's next and hend, in f |
| FaceSplitting.SplitFaceTriangles | src/pmp/surface_mesh.cpp:448-493 | after split every halfedge of the old loop is in a triangle with v as a corner: the first stays in f, the j-th lands in new face nf + j - 1 |
| FaceSplitting.EndTriangles | src/pmp/surface_mesh.cpp:487-490 | after the closing writes every triangle of the fan is complete |
| EdgeSplitting.SplitEdgeStart | src/pmp/surface_mesh.cpp:497-509 | the new pair e1, t1 is appended and the four arrays keep one length |
| EdgeSplitting.FirstSide | src/pmp/surface_mesh.cpp:511-546 | the side of h0 adds two halfedges exactly when h0 has a face |
| EdgeSplitting.Cut | src/pmp/surface_mesh.cpp:511-540 | cutting the face of h0 adds the pair e0, t0 |
| EdgeSplitting.Skirt | src/pmp/surface_mesh.cpp:541-546 | on the boundary t1 is linked in before h0 without new halfedges |
| EdgeSplitting.SecondSide | src/pmp/surface_mesh.cpp:548-583 | the side of o0 adds two halfedges exactly when o0 has a face |
| EdgeSplitting.CutOpposite | src/pmp/surface_mesh.cpp:548-577 | cutting the face of o0 adds the pair e2, t2 |
| EdgeSplitting.SkirtOpposite | src/pmp/surface_mesh.cpp:578-583 | on the boundary e1 is linked in after o0 without new halfedges |
| EdgeSplitting.SplitEdgeMiddle | src/pmp/surface_mesh.cpp:497-546 | the records after the side of h0 keep the four arrays of one length |
| EdgeSplitting.SplitEdge | src/pmp/surface_mesh.cpp:495-589 | returns t1, the new halfedge after the old end; AllocationException without change exactly when the edges or faces the split needs run out; otherwise the records become SplitEdgeRecords |
| EdgeSplitting.GetRef | src/pmp/SurfaceMesh.h:1091 | a slot of an in-range array holds an in-range reference |
| EdgeSplitting.TriangulatedIn | src/pmp/surface_mesh.cpp:525-539 | closing three halfedges into a triangle keeps every reference in range |
| EdgeSplitting.StartIn | src/pmp/surface_mesh.cpp:502-509 | the start of the split keeps every reference in range |
| EdgeSplitting.FirstSideIn | src/pmp/surface_mesh.cpp:511-546 | the side of h0 keeps every reference in range |
| EdgeSplitting.CutIn | src/pmp/surface_mesh.cpp:511-540 | the interior branch at h0 keeps every reference in range |
| EdgeSplitting.SkirtIn | src/pmp/surface_mesh.cpp:541-546 | the boundary branch at h0 keeps every reference in range |
| EdgeSplitting.SecondSideIn | src/pmp/surface_mesh.cpp:548-583 | the side of o0 keeps every reference in range |
| EdgeSplitting.CutOppositeIn | src/pmp/surface_mesh.cpp:548-577 | the interior branch at o0 keeps every reference in range |
| EdgeSplitting.SkirtOppositeIn | src/pmp/surface_mesh.cpp:578-583 | the boundary branch at o0 keeps every reference in range |
| EdgeSplitting.SplitEdgeHalfedgesIn | src/pmp/surface_mesh.cpp:495-589 | the halfedge records of the split refer only to elements that exist after it |
| EdgeSplitting.FirstStageIn | src/pmp/surface_mesh.cpp:511-546 | after the side of h0 the records are in range for the final face count |
| EdgeSplitting.StartStageIn | src/pmp/surface_mesh.cpp:502-509 | after the start the records are in range and the face of h0 is unchanged |
| EdgeSplitting.SplitEdgeFaceConnIn | src/pmp/surface_mesh.cpp:522-560 | the face anchors of the split refer to existing halfedges |
| EdgeSplitting.FirstAnchorsIn | src/pmp/surface_mesh.cpp:521-523 | the anchors of f0 and f1 refer to existing halfedges |
| EdgeSplitting.AnchorPairIn | src/pmp/surface_mesh.cpp:521-523 | a new face slot and two anchors keep the anchors in range |
| EdgeSplitting.SplitEdgeVertexConnIn | src/pmp/surface_mesh.cpp:508-586 | the vertex anchors of the split refer to existing halfedges |
| EdgeSplitting.SplitEdgeFits | src/pmp/surface_mesh.cpp:495-589 | the records split stores fit the grown counts |
| EdgeSplitPairs.TriangulatedAt | src/pmp/surface_mesh.cpp:525-539 | closing a, b, c into face f makes them a triangle and keeps every other link |
| EdgeSplitPairs.TriangleKept | src/pmp/surface_mesh.cpp:548-577 | a triangle no later write touches survives it |
| EdgeSplitPairs.StartAt | src/pmp/surface_mesh.cpp:502-509 | the start appends the pair from v to v2 and back, retargets o0 to v and keeps every link |
| EdgeSplitPairs.PairCut | src/pmp/surface_mesh.cpp:518-539 | the two triangles of one side both hold, targets stay and every other link is kept |
| EdgeSplitPairs.CutAt | src/pmp/surface_mesh.cpp:511-540 | the interior branch at h0 leaves the triangles (h0, h1, t0) and (e0, h2, t1) |
| EdgeSplitPairs.CutOppositeAt | src/pmp/surface_mesh.cpp:548-577 | the interior branch at o0 leaves the triangles (e1, o1, t2) and (o0, e2, o2) |
| EdgeSplitPairs.MiddleAt | src/pmp/surface_mesh.cpp:497-540 | after the side of h0 its triangle is cut in two and nothing outside it has moved |
| EdgeSplitPairs.FirstFrame | src/pmp/surface_mesh.cpp:497-540 | the same, for records known only through their stages |
| EdgeSplitPairs.SecondFrame | src/pmp/surface_mesh.cpp:548-577 | after the side of o0 the four triangles hold |
| EdgeSplitPairs.MiddleLayer | src/pmp/surface_mesh.cpp:511-540 | the first two stages are the start and the side of h0 |
| EdgeSplitPairs.LastLayer | src/pmp/surface_mesh.cpp:548-583 | the last stage is the side of o0 |
| EdgeSplitPairs.SecondAt | src/pmp/surface_mesh.cpp:548-577 | b0 still has a face when the second stage reaches it, and that stage leaves the four triangles |
| EdgeSplitPairs.SplitEdgeTrianglePair | src/pmp/surface_mesh.cpp:495-589 | split on an edge between two triangles creates two faces and leaves four triangles around v, with no other halfedge moved |
| EdgeCollapse.FindTo | src/pmp/surface_mesh.cpp:151-169 | find_halfedge(start, end) returns the first halfedge of the rotation of start that ends at end, or none |
| EdgeCollapse.ScanRing | src/pmp/surface_mesh.cpp:788-793 | the loop over the one-ring of v0 passes exactly when no neighbour other than v1, vl and vr has a halfedge to v1 |
| EdgeCollapse.LocalTests | src/pmp/surface_mesh.cpp:750-785 | the tests before the loop compute the apexes vl and vr and pass exactly on the four local conditions |
| EdgeCollapse.IsCollapseOk | src/pmp/surface_mesh.cpp:748-797 | returns exactly what CollapseOk states |
| EdgeCollapse.CollapseOkMeaning | src/pmp/surface_mesh.cpp:748-797 | the test passes exactly when neither face at the edge is an ear, vl and vr differ, the edge joins two boundary vertices only if it is a boundary edge, and no other neighbour of v0 is a neighbour of v1 |
| EdgeCollapse.LooseEdgeRejected | src/pmp/surface_mesh.cpp:779-780 | an edge with a boundary on both sides is never collapsed |
| EdgeCollapse.PinchesRejected | src/pmp/surface_mesh.cpp:757-785 | an interior edge between two boundary vertices, or an edge of an ear, is never collapsed |
| EdgeCollapse.FirstFreeIsFirstBoundary | src/pmp/surface_mesh.cpp:177-194 | the first halfedge without a face on the records is the first boundary halfedge of the rotation |
| EdgeCollapse.Opposites | src/pmp/surface_mesh.cpp:911-914 | the opposites of the outgoing halfedges, entry by entry |
| EdgeCollapse.AdjustAt | src/pmp/surface_mesh.cpp:177-194 | adjust_outgoing_halfedge changes only the anchor of v, as AdjustedConn states |
| EdgeCollapse.AdjustedConnIsAdjust | src/pmp/surface_mesh.cpp:177-194 | AdjustedConn anchors v at the first boundary halfedge of its closed rotation, if there is one |
| EdgeCollapse.SetTargets | src/pmp/surface_mesh.cpp:911-914 | every halfedge into vo now ends at vh and nothing else changes |
| EdgeCollapse.LinkIn | src/pmp/SurfaceMesh.h:1144-1148 | set_next_halfedge on in-range halfedges keeps the mesh valid |
| EdgeCollapse.OutgoingInIsRing | src/pmp/SurfaceMesh.h:563-600 | the outgoing halfedges on the records are the counterclockwise rotation of the vertex |
| EdgeCollapse.OutgoingOf | src/pmp/SurfaceMesh.h:563-600 | collecting `halfedges(v)` yields the rotation |
| EdgeCollapse.BypassEdge | src/pmp/surface_mesh.cpp:911-918 | the halfedges into vo end at vh and both loops skip the edge |
| EdgeCollapse.MoveEdgeFaceAnchors | src/pmp/surface_mesh.cpp:921-924 | the faces at the edge move onto the halfedges after it |
| EdgeCollapse.MoveEdgeVertexAnchors | src/pmp/surface_mesh.cpp:927-934 | vh may take next(h) and is adjusted, vo loses its anchor and is flagged and counted |
| EdgeCollapse.RemoveEdgeHelper | src/pmp/surface_mesh.cpp:895-938 | the records become EdgeRemoved; one vertex and one edge are counted without looking at the flags, and the garbage flag is raised |
| EdgeCollapse.BypassLoop | src/pmp/surface_mesh.cpp:958-962 | h1 takes the place of o0 in its loop and takes its face |
| EdgeCollapse.MoveLoopVertexAnchors | src/pmp/surface_mesh.cpp:965-968 | both ends of the loop are anchored on h1 and o1, each adjusted in turn |
| EdgeCollapse.RetireLoop | src/pmp/surface_mesh.cpp:971-982 | the face of o0 moves off o0, the face of h is flagged and counted when valid, the edge is flagged and counted |
| EdgeCollapse.RemoveLoopHelper | src/pmp/surface_mesh.cpp:940-983 | the records become LoopRemoved; one edge and, when h had a face, one face are counted |
| EdgeCollapse.FlagEdge | src/pmp/surface_mesh.cpp:935-936 | edge e is flagged, counted and the garbage flag raised |
| EdgeCollapse.Collapse | src/pmp/surface_mesh.cpp:873-893 | the records become Collapsed: the edge is removed, then each two-halfedge loop left at prev(h) and next(opposite(h)); the counters rise by what Collapsed deletes |
| EdgeCollapse.EdgeRemovedSkips | src/pmp/surface_mesh.cpp:911-918 | after remove_edge_helper every halfedge into vo ends at vh, no face changes, and prev(h), prev(o) are followed by next(h), next(o) with no other link changed |
| EdgeCollapse.LoopReplaced | src/pmp/surface_mesh.cpp:958-962 | after remove_loop_helper prev(o0) is followed by h1, h1 by next(o0), h1 has the face of o0, and no other next or face changes |
| EdgeCollapse.LoopRemovedKeeps | src/pmp/surface_mesh.cpp:958-962 | without assumptions only h1 and the halfedge read as prev(o0) get a new next, and only h1 a new face |
| EdgeCollapse.TrianglesBecomeLoops | src/pmp/surface_mesh.cpp:884-891 | after the edge of two triangles is removed each triangle has become a two-halfedge loop |
| EdgeCollapse.CollapseTrianglePair | src/pmp/SurfaceMesh.h:1668-1671 | collapsing an interior edge of two triangles deletes one vertex, three edges and two faces |
| EdgeCollapse.CollapseBoundaryEdge | src/pmp/SurfaceMesh.h:1668-1671 | collapsing a boundary halfedge of a triangle deletes one vertex, two edges and one face |
| EdgeCollapse.CollapseFlags | src/pmp/SurfaceMesh.h:1675-1676 | collapse only sets deletion flags, among them the start vertex and the edge of h |
| EdgeCollapse.EdgeRemovedFlags | src/pmp/surface_mesh.cpp:933-936 | remove_edge_helper flags vo and the edge and clears no flag |
| EdgeCollapse.LoopFlags | src/pmp/surface_mesh.cpp:975-981 | remove_loop_helper only sets flags and keeps the vertex flags |
| EdgeRemoval.MeetsElsewhereMeaning | src/pmp/surface_mesh.cpp:817-821 | the recursive test holds exactly when some vertex of the list other than v0 and v1 lies on f1 |
| EdgeRemoval.HasFace | src/pmp/surface_mesh.cpp:819-821 | the inner loop finds f exactly when it is among the faces of v |
| EdgeRemoval.IsRemovalOk | src/pmp/surface_mesh.cpp:799-824 | returns exactly what RemovalOk states |
| EdgeRemoval.ScanFace | src/pmp/surface_mesh.cpp:817-821 | the loop fails exactly when some vertex other than v0 and v1 has face f1 |
| EdgeRemoval.RemovalNeedsTwoFaces | src/pmp/surface_mesh.cpp:809-814 | boundary edges and edges inside one face are rejected |
| EdgeRemoval.RelabelledRefs | src/pmp/surface_mesh.cpp:852-853 | relabelling with an existing face keeps the face references in range |
| EdgeRemoval.LinkRefs | src/pmp/surface_mesh.cpp:856-857 | a link between existing halfedges keeps every reference in range |
| EdgeRemoval.RemovedFits | src/pmp/surface_mesh.cpp:846-868 | the records remove_edge stores fit the mesh |
| EdgeRemoval.SetFaces | src/pmp/surface_mesh.cpp:852-853 | every halfedge of the loop gets face f and nothing else changes |
| EdgeRemoval.RemoveDiagonal | src/pmp/surface_mesh.cpp:826-871 | removing the diagonal of two triangles leaves their four other halfedges as one quad of the second face |
| EdgeRemoval.QuadLinksAt | src/pmp/surface_mesh.cpp:856-857 | the two link writes join the halves into a loop of four |
| EdgeRemoval.QuadFacesAt | src/pmp/surface_mesh.cpp:852-853 | the relabelling puts all four halfedges in f1 |
| EdgeRemoval.MergeFaces | src/pmp/surface_mesh.cpp:831-868 | the halfedges of f0 move to f1, the loops skip e, the anchors move off e, and f0 and e are flagged |
| EdgeRemoval.RemoveEdge | src/pmp/surface_mesh.cpp:826-871 | returns exactly is_removal_ok; when false nothing changes; when true f0 is merged into f1, f0 and e are flagged and counted and the garbage flag raised |
| EdgeSets.SetNext | src/pmp/EdgeSet.h:573-577 | setting h's next to nh changes no array size |
| EdgeSets.SetPrev | src/pmp/EdgeSet.h:580-584 | setting h's previous to ph changes no array size |
| EdgeSets.SetTarget | src/pmp/EdgeSet.h:564 | setting h's target changes no array size |
| EdgeSets.HalfedgeEndMeaning | src/pmp/EdgeSet.h:619-623 | where next and previous are consistent, h lies at a segment end exactly when the rotation around its target holds a single halfedge |
| EdgeSets.VertexEndMeaning | src/pmp/EdgeSet.h:539-545 | where next and previous are consistent, a vertex lies at a segment end exactly when at most one halfedge leaves it |
| EdgeSets.FirstTargetSpec | src/pmp/EdgeSet.cpp:200-218 | the search result is the first halfedge of the list that points to end, and it is invalid exactly when none does |
| EdgeSets.EdgeOfAsWrittenBelowHalfRange | src/pmp/EdgeSet.h:616 | below 2^31 the signed shift of the source gives the correct edge |
| EdgeSets.EdgeOfAsWrittenLeavesEdge | src/pmp/EdgeSet.h:616 | halfedge 2^31 is sent by the signed shift to edge 0xC000_0000, not to its own edge 0x4000_0000 |
| EdgeSets.HalfedgeFlags | src/pmp/EdgeSet.h:504 | a halfedge is deleted exactly when its edge is, and there are two halfedges per edge |
| EdgeSets.HalfedgeFlagsCount | src/pmp/EdgeSet.h:485 | two halfedges are deleted per deleted edge |
| EdgeSets.Spliced | src/pmp/EdgeSet.cpp:252-291 | the writes of insertVertex keep every array size |
| EdgeSets.InsertedVertex | src/pmp/EdgeSet.cpp:252-291 | the corrected insertVertex keeps every array size |
| EdgeSets.InsertedVertexSplits | src/pmp/EdgeSet.cpp:252-291 | the corrected insertion splits the edge of h0 at v: the four new links are consistent and continuous, v leaves by h1 and the old target by o1, and the chain continues past the old target as before, or turns back where the edge ended |
| EdgeSets.SplicedEnd | src/pmp/EdgeSet.cpp:252-291 | at a polyline end the corrected splice turns the new edge back on itself |
| EdgeSets.SplicedThrough | src/pmp/EdgeSet.cpp:252-291 | inside a polyline the splice connects the new edge to the old next and previous halfedges |
| EdgeSets.InsertVertexAsWrittenBreaksEnd | src/pmp/EdgeSet.cpp:252-291 | on a single edge the written insertVertex overwrites the link from h0 to h1, so h1 is followed by a halfedge that does not start at its target; the corrected version keeps every link continuous |
| EdgeSets.EdgeInserted | src/pmp/EdgeSet.cpp:295-346 | the writes of insertEdge keep every array size |
| EdgeSets.InsertedEdgeBetweenIsolated | src/pmp/EdgeSet.cpp:295-346 | an edge between two isolated vertices forms its own segment: each end leaves by its halfedge of the edge and has one outgoing halfedge |
| EdgeSets.ChainOfTwoEdges | tests/EdgeSetTest.cpp:63-118 | two inserted edges form a chain of four halfedges in which the middle vertex has valence 2 and each end valence 1; deleting the first edge deletes its lone end and leaves the second edge as a segment of its own |
| EdgeSets.FirstEdgeOfChain | tests/EdgeSetTest.cpp:73 | the exact records the first insertEdge leaves |
| EdgeSets.SecondEdgeOfChain | tests/EdgeSetTest.cpp:74 | the exact records the second insertEdge leaves |
| EdgeSets.ChainRotations | tests/EdgeSetTest.cpp:101-115 | in the chain the middle vertex has two outgoing halfedges (one-manifold) and each end has one |
| EdgeSets.ChainRelease | src/pmp/EdgeSet.cpp:369-417 | deleting the first edge of the chain deletes vertex 0 and links the second edge to itself at both ends |
| EdgeSets.LastEdgeDeletesEnd | src/pmp/EdgeSet.cpp:391-399 | an end that left by the edge, where the edge turned back, is deleted |
| EdgeSets.KeptEndsLeaveEdge | src/pmp/EdgeSet.cpp:391-409 | an end of a deleted edge that survives no longer leaves by a halfedge of that edge |
| EdgeSets.EdgeSet.constructor | src/pmp/EdgeSet.cpp:42-50 | a new edge set has no vertex, no edge and no garbage |
| EdgeSets.EdgeSet.CountsLive | src/pmp/EdgeSet.h:485-488 | nEdges and nHalfedges count what the garbage-skipping iterators visit |
| EdgeSets.EdgeSet.NewEdge | src/pmp/EdgeSet.h:897-915 | at the index limit the invalid handle and no change; otherwise two new halfedges, the first pointing to end and its opposite to start |
| EdgeSets.EdgeSet.FindHalfedge | src/pmp/EdgeSet.cpp:200-218 | the result is the first halfedge of the clockwise rotation around start that points to end, or invalid |
| EdgeSets.EdgeSet.FindHalfedgeMeaning | src/pmp/EdgeSet.cpp:200-218 | the found halfedge lies in the rotation of start and points to end; it is invalid exactly when no halfedge there points to end |
| EdgeSets.EdgeSet.FindEdge | src/pmp/EdgeSet.cpp:222-226 | the edge of the found halfedge, or invalid when none is found |
| EdgeSets.EdgeSet.Valence | src/pmp/EdgeSet.cpp:230-241 | the valence is the number of halfedges the counter-clockwise rotation around v visits |
| EdgeSets.EdgeSet.IsOneManifold | src/pmp/EdgeSet.h:552 | true exactly when two halfedges leave v |
| EdgeSets.EdgeSet.Relink | src/pmp/EdgeSet.cpp:268-288 | the connectivity becomes the given records, and nothing else changes |
| EdgeSets.EdgeSet.InsertVertex | src/pmp/EdgeSet.cpp:252-291 | one new edge, and the links are those of the corrected insertion; at the index limit the writes of the source go to the invalid handle |
| EdgeSets.EdgeSet.InsertEdge | src/pmp/EdgeSet.cpp:295-346 | one new edge, linked into the rotations of both ends; at the index limit the writes of the source go to the invalid handle |
| EdgeSets.EdgeSet.ReleaseEnd | src/pmp/EdgeSet.cpp:391-409 | a vertex leaving by h moves on to the next halfedge, or is deleted when that is h itself; nothing else changes |
| EdgeSets.EdgeSet.DeleteEdge | src/pmp/EdgeSet.cpp:369-417 | a live edge is linked past on both sides, its ends are released, and it is flagged and counted once with the garbage flag raised; a deleted edge is left alone |
| EdgeSets.EdgeSet.DeleteVertex | src/pmp/EdgeSet.cpp:350-365 | every edge in the rotation of v is deleted, then v; a deleted vertex is left alone |
| EdgeSets.EdgeSet.DeleteEdges | src/pmp/EdgeSet.cpp:359-360 | every collected edge ends up deleted, and flags are only ever set |
| EdgeSets.EdgeSet.CollectEdges | src/pmp/EdgeSet.cpp:355-358 | the edges of the halfedges of the rotation around v, in order |
| EdgeSets.EdgeSet.BeginGarbage | src/pmp/EdgeSet.cpp:421-487 | the records are those of the two compactions and the remapping (Begun), the counts are stored, and the deleted counts are kept |
| EdgeSets.EdgeSet.EdgeStage | src/pmp/EdgeSet.cpp:426-486 | the edge part of beginGarbage leaves the Begun records for the vertex exchanges it is given |
| EdgeSets.EdgeSet.Install | src/pmp/EdgeSet.cpp:436-483 | the compacted arrays and the halfedge map replace the old ones |
| EdgeSets.EdgeSet.StoreCounts | src/pmp/EdgeSet.cpp:485-486 | the halfedge and edge counts are stored under their keys, and nothing else changes |
| EdgeSets.EdgeSet.FinalizeGarbage | src/pmp/EdgeSet.cpp:491-508 | the maps are dropped, the arrays are cut to the stored counts, and no deleted element or garbage flag remains |
| EdgeSets.EdgeSet.FetchCounts | src/pmp/EdgeSet.cpp:500-502 | the stored halfedge and edge counts are read back |
| EdgeSets.EdgeSet.CutEdges | src/pmp/EdgeSet.cpp:500-505 | the halfedge, edge and vertex-connectivity arrays are cut to their prefixes, leaving no deleted edge |
| EdgeSets.EdgeSet.GarbageCollection | src/pmp/GeometryObject.h:181-186 | the records become those of a face-free surface-mesh collection; nothing is deleted any more, and the live vertex and edge counts are kept |
| EdgeSets.EdgeSet.Clear | src/pmp/EdgeSet.cpp:147-157 | no vertex, no edge, no deleted count and no garbage remain |
| EdgeSets.EdgeSet.CopyFrom | src/pmp/EdgeSet.cpp:58-78 | every array and count of rhs is copied; copying onto itself changes nothing |
| EdgeSets.EdgeSet.Assign | src/pmp/EdgeSet.cpp:82-111 | positions, flags, connectivity and counts of rhs are copied and nothing else survives; assigning to itself changes nothing |
| EdgeSets.BegunCollects | src/pmp/EdgeSet.cpp:443-508 | after beginGarbage the survivors fill the slots below the stored counts, and those counts are the numbers of live elements; the cut arrays are those of the collection |
| EdgeSets.StoredCounts | src/pmp/EdgeSet.cpp:485-502 | the counts that beginGarbage stores are read back unchanged by finalizeGarbage |
| EdgeSets.KeysDistinct | src/pmp/EdgeSet.cpp:426-486 | the three scratch keys are distinct, so no stored count overwrites another |
| EdgeSets.CompactEdges | src/pmp/EdgeSet.cpp:443-483 | the two-pointer edge loop and the remapping leave the Begun records, keeping sizes and the deleted count |
| EdgeSets.EdgesBegun | src/pmp/EdgeSet.cpp:443-483 | the compactions, the maps and the remapped records together make up the state beginGarbage leaves |
| EdgeSets.ReleaseEndsGrows | src/pmp/EdgeSet.cpp:391-409 | releasing the ends of a deleted edge only sets deleted flags, never clears them |
| LayeredSurfaceMesh.FanRound | src/pmp/SurfaceMesh.cpp:476-489 | one round appends a new halfedge pair |
| LayeredSurfaceMesh.FanRounds | src/pmp/SurfaceMesh.cpp:474-493 | k rounds append k halfedge pairs |
| LayeredSurfaceMesh.FanClosed | src/pmp/SurfaceMesh.cpp:474-500 | the closed fan of k rounds has k new halfedge pairs |
| LayeredSurfaceMesh.FanClose | src/pmp/SurfaceMesh.cpp:495-500 | the closing writes add no halfedge |
| LayeredSurfaceMesh.FanAnchors | src/pmp/SurfaceMesh.cpp:479-480 | round i's face stores round i's base |
| LayeredSurfaceMesh.FanRoundKeeps | src/pmp/SurfaceMesh.cpp:476-489 | a round changes only the links and faces of the base, the current halfedge and the new pair |
| LayeredSurfaceMesh.FanRoundTargets | src/pmp/SurfaceMesh.cpp:482 | the new pair points to the start vertex and back to the target of the current halfedge |
| LayeredSurfaceMesh.RoundKeepsLinks | src/pmp/SurfaceMesh.cpp:474-493 | round k leaves the later halfedges of the loop and every old target as they were |
| LayeredSurfaceMesh.FanRoundsKeep | src/pmp/SurfaceMesh.cpp:474-493 | after k rounds the loop halfedges from k + 1 on and every old target are untouched |
| LayeredSurfaceMesh.FanCloseKeeps | src/pmp/SurfaceMesh.cpp:495-500 | the closing writes touch only the last base, the current halfedge and the one after it |
| LayeredSurfaceMesh.FanRoundTriangle | src/pmp/SurfaceMesh.cpp:484-490 | one round closes the triangle of its base, the current halfedge and the new halfedge for the new face |
| LayeredSurfaceMesh.TriangleThroughRound | src/pmp/SurfaceMesh.cpp:484-490 | a triangle that a round does not touch survives the round |
| LayeredSurfaceMesh.TriangleThroughClose | src/pmp/SurfaceMesh.cpp:495-500 | a triangle that the closing writes do not touch survives them |
| LayeredSurfaceMesh.FanDistinct | src/pmp/SurfaceMesh.cpp:474-493 | the halfedges of round i's triangle differ from every later base and from the later loop halfedges |
| LayeredSurfaceMesh.RoundKeepsTriangles | src/pmp/SurfaceMesh.cpp:474-493 | one more round keeps the earlier triangles |
| LayeredSurfaceMesh.RoundTriangles | src/pmp/SurfaceMesh.cpp:474-493 | one more round keeps the earlier triangles and adds its own |
| LayeredSurfaceMesh.FanRoundsTriangles | src/pmp/SurfaceMesh.cpp:474-493 | after k rounds each round i has left its triangle for face nf + i |
| LayeredSurfaceMesh.CloseTriangles | src/pmp/SurfaceMesh.cpp:495-500 | the closing writes keep the round triangles and make f the triangle of the last base and the two loop halfedges after it |
| LayeredSurfaceMesh.FanClosedTriangles | src/pmp/SurfaceMesh.cpp:464-501 | the closed fan of k rounds gives k new triangles and leaves f as the last one |
| LayeredSurfaceMesh.TriangleWalk | src/pmp/SurfaceMesh.cpp:464-501 | the loop from a halfedge of a triangle is that triangle |
| LayeredSurfaceMesh.FirstReturn | src/pmp/SurfaceMesh.cpp:474 | the first index from j on whose halfedge ends at s: no earlier one does, and that one does when it lies in the loop |
| LayeredSurfaceMesh.FanStep | src/pmp/SurfaceMesh.cpp:476-489 | the loop body: one new face storing the base, one new edge, and the records of FanRound |
| LayeredSurfaceMesh.FanRoundsRead | src/pmp/SurfaceMesh.cpp:474-476 | after k rounds the loop still reads the original link out of w[k + 1] and the original targets |
| LayeredSurfaceMesh.FanGuard | src/pmp/SurfaceMesh.cpp:474 | while the loop test holds, round k is not the last one and w[k + 1] does not end at the start vertex |
| LayeredSurfaceMesh.FanRoundOn | src/pmp/SurfaceMesh.cpp:474-493 | one round taken under the loop test keeps the fan state one round further |
| LayeredSurfaceMesh.FanLoop | src/pmp/SurfaceMesh.cpp:474-493 | the loop stops after FirstReturn - 2 rounds, with the fan state of that many rounds |
| LayeredSurfaceMesh.FanCloseUp | src/pmp/SurfaceMesh.cpp:495-500 | f stores the last base, which is linked in before the current halfedge and after the halfedge it leads to |
| LayeredSurfaceMesh.FanAlong | src/pmp/SurfaceMesh.cpp:464-501 | the loop and the closing writes leave the records of the closed fan and keep the vertex records |
| LayeredSurfaceMesh.FanFacesStored | src/pmp/SurfaceMesh.cpp:479-480 | k new live faces each store their base, f stores the last base, and every other face and flag is kept |
| LayeredSurfaceMesh.TriangleLoop | src/pmp/SurfaceMesh.cpp:464-501 | a face made as a triangle of three distinct halfedges has those three halfedges as its next-loop |
| LayeredSurfaceMesh.FanClosedFanned | src/pmp/SurfaceMesh.cpp:464-501 | the closed fan's records hold the k new triangle faces and f as the last triangle |
| LayeredSurfaceMesh.FanFaceLoops | src/pmp/SurfaceMesh.cpp:464-501 | every face of the fan has a three-halfedge next-loop |
| LayeredSurfaceMesh.Triangulate | src/pmp/SurfaceMesh.cpp:464-501 | an n-gon is split into a fan from the start of its halfedge: k new triangular faces, each the loop of its base, the next original halfedge and a new edge, with f reused as the last triangle; the vertex records are unchanged |
| LayeredSurfaceMesh.AddFace | src/pmp/SurfaceMesh.cpp:234-412 | a face the tests reject gives the invalid face and an unchanged mesh; the invalid face also comes back exactly when the indices run out; otherwise a new face whose corners point to the next vertices, whose loop is closed when every edge is new |
| LayeredSurfaceMesh.DeleteSetEdge | src/pmp/EdgeSet.cpp:369-417 | a live edge is linked past, its ends are released, and it is flagged with garbage raised; a deleted edge is left alone |
| LayeredSurfaceMesh.DeleteSetEdges | src/pmp/SurfaceMesh.cpp:1055-1065 | each collected edge goes through EdgeSet::deleteEdge and ends up deleted; flags only grow |
| LayeredSurfaceMesh.ClearFace | src/pmp/SurfaceMesh.cpp:1044-1072 | the loop halfedges lose their face, every edge left without a face is deleted, and flags only grow |
| LayeredSurfaceMesh.DeleteFace | src/pmp/SurfaceMesh.cpp:1016-1075 | a deleted face: no change; otherwise the face is flagged and counted once, exactly its loop halfedges lose their face, every edge left without a face is deleted, and garbage is set |
| LayeredSurfaceMesh.DeleteEdge | src/pmp/SurfaceMesh.cpp:996-1012 | a deleted edge: no change; otherwise both incident faces are deleted, and an edge without faces is deleted by EdgeSet::deleteEdge itself, linked past with its ends released |
| HalfedgeMesh.LoneEdgesMeaning | src/pmp/surface_mesh.cpp:1048-1054 | where no halfedge of the loop is opposite another, the collected edges are exactly those whose other side had no face |
| DecimationHeap.ParentIs | src/pmp/algorithms/decimation.cpp:198-204 | parent(j) == i exactly when j is left(i) or right(i), and a parent precedes its child |
| DecimationHeap.RootIsMinimum | src/pmp/algorithms/decimation.cpp:62-66 | in a heap-ordered vector the root has a priority no larger than any entry |
| DecimationHeap.UpStep | src/pmp/algorithms/decimation.cpp:146-150 | one round of the upheap loop moves the out-of-order slot one level up and keeps the rest ordered |
| DecimationHeap.DownStep | src/pmp/algorithms/decimation.cpp:162-177 | one round of the downheap loop, with the smaller child chosen, moves the hole one level down and keeps the pairs around it ordered |
| DecimationHeap.DownDone | src/pmp/algorithms/decimation.cpp:164-180 | where downheap stops, the vector is ordered but for the start slot, whose parent is no larger than its children |
| DecimationHeap.DropSlot | src/pmp/algorithms/decimation.cpp:91-99 | moving the last entry into slot p and shrinking removes exactly the entry that was at p |
| DecimationHeap.DroppedAbsent | src/pmp/algorithms/decimation.cpp:91-99 | when every vertex records its slot, the entry dropped from p occurs nowhere in what remains |
| DecimationHeap.HoleMove | src/pmp/algorithms/decimation.cpp:190-195 | entry(idx, entry(c)) writes the entry and its slot record together, so every slot but the hole stays recorded |
| DecimationHeap.HoleClose | src/pmp/algorithms/decimation.cpp:152-179 | writing the carried entry into the hole leaves every slot recorded and no unrelated slot record changed |
| DecimationHeap.Upheap | src/pmp/algorithms/decimation.cpp:141-153 | from a vector ordered but for slot k, upheap yields a heap-ordered permutation in which each entry records its slot and no slot record of an absent vertex changes |
| DecimationHeap.Downheap | src/pmp/algorithms/decimation.cpp:156-180 | downheap yields a permutation ordered but for slot k, with k's parent no larger than its children, and keeps the slot records |
| DecimationHeap.Resift | src/pmp/algorithms/decimation.cpp:100-113 | downheap(p) then upheap(p) restores a heap-ordered permutation |
| DecimationHeap.Unstore | src/pmp/algorithms/decimation.cpp:84-103 | the entry at p leaves the multiset, its slot becomes -1, the order and slot records hold for the rest |
| DecimationHeap.PopRoot | src/pmp/algorithms/decimation.cpp:69-81 | the root leaves the multiset, its slot becomes -1, the rest stays ordered and recorded |
| DecimationHeap.StillTracked | src/pmp/algorithms/decimation.cpp:43-52 | a vertex keeps the agreement "slot -1 iff not stored" across an operation that stores it, clears it, or leaves an absent vertex alone |
| DecimationHeap.SlotOf | src/pmp/algorithms/decimation.cpp:43-52 | a stored vertex's slot holds it; a vertex whose slot is -1 is not stored |
| DecimationHeap.OrderIgnoresUnstored | src/pmp/algorithms/decimation.cpp:393 | changing the priority of vertices outside the heap keeps it ordered |
| DecimationHeap.BridgeOfOrdered | src/pmp/algorithms/decimation.cpp:91-99 | after the last entry is moved into slot p of a heap, only the pairs at p may be out of order |
| DecimationHeap.Reweighed | src/pmp/algorithms/decimation.cpp:105-114 | changing the priority of the entry at p only can break the pairs at p |
| DecimationHeap.Heap.constructor | src/pmp/algorithms/decimation.cpp:22-27 | a new heap is empty and every vertex's slot property holds the default 0 |
| DecimationHeap.Heap.Clear | src/pmp/algorithms/decimation.cpp:31 | the entries are dropped and the slot property is untouched |
| DecimationHeap.Heap.ResetHeapPosition | src/pmp/algorithms/decimation.cpp:43-46 | sets h's slot to -1 and nothing else |
| DecimationHeap.Heap.IsStored | src/pmp/algorithms/decimation.cpp:49-52 | true iff h is among the entries |
| DecimationHeap.Heap.Front | src/pmp/algorithms/decimation.cpp:62-66 | returns the root, whose priority is no larger than any entry's |
| DecimationHeap.Heap.Insert | src/pmp/algorithms/decimation.cpp:55-59 | the size grows by one, h joins the multiset, and the heap stays ordered and recorded |
| DecimationHeap.Heap.PopFront | src/pmp/algorithms/decimation.cpp:69-81 | the size shrinks by one, a minimum leaves the multiset and gets slot -1, the heap stays ordered |
| DecimationHeap.Heap.Remove | src/pmp/algorithms/decimation.cpp:84-103 | the stored h leaves the multiset and gets slot -1, every other entry stays, the heap stays ordered |
| DecimationHeap.Heap.Update | src/pmp/algorithms/decimation.cpp:107-114 | after h's priority changed the heap is reordered under the new priorities with the same multiset |
| DecimationHeap.Heap.Check | src/pmp/algorithms/decimation.cpp:117-135 | true iff no child has a larger priority than its parent |
| Decimation.AsWrittenRightWingDegenerates | src/pmp/algorithms/decimation.cpp:1208-1213 | as written, whenever prev(next(v1v0)) == v1v0 the right wing is v1v0 itself and vr is v1 |
| Decimation.AsWrittenMissesRightWing | src/pmp/algorithms/decimation.cpp:1208-1213 | as written, in a right triangle with distinct halfedges vrv1 is not the halfedge of fr that enters v1 |
| Decimation.CollapseDataWings | src/pmp/algorithms/decimation.cpp:1190-1213 | with triangles on both sides, the record names the three halfedges of fl and of fr in next order, the faces of the wings and the two apexes |
| Decimation.MergedValence | src/pmp/algorithms/decimation.cpp:764-769 | the merged valence val0 + val1 - 1 - [fl] - [fr] as an unsigned 32-bit value, equal to the integer value whenever that is in range |
| Decimation.MergedValenceWraps | src/pmp/algorithms/decimation.cpp:764-769 | two valence-1 vertices with both faces give 2^32 - 1 |
| Decimation.LegalIffNoRejection | src/pmp/algorithms/decimation.cpp:722-772 | the early-return chain accepts a collapse iff it breaks none of the rules, each stated on its own |
| Decimation.BoundaryNotIntoInterior | src/pmp/algorithms/decimation.cpp:744-746 | a boundary v0 is never collapsed into an interior v1 |
| Decimation.TwoFacesNeeded | src/pmp/algorithms/decimation.cpp:748-751 | when two clockwise turns around v0 return to v0v1, the collapse is refused |
| Decimation.ValenceBound | src/pmp/algorithms/decimation.cpp:762-773 | with max_valence in force, a merged valence above it and not below max(val0, val1) is refused |
| Decimation.SelectionRespected | src/pmp/algorithms/decimation.cpp:724-729 | with a selection, a legal collapse starts at a selected vertex |
| Decimation.FirstMinimumUnique | src/pmp/algorithms/decimation.cpp:685-696 | at most one candidate is the first strict minimum of the scan |
| Decimation.FirstMinimumIsMinimum | src/pmp/algorithms/decimation.cpp:685-696 | the winner's priority is no larger than any admissible candidate's |
| Decimation.ChooseTarget | src/pmp/algorithms/decimation.cpp:682-696 | the target is valid iff some legal candidate with priority other than -1 lies below the largest float, and then it is the first strict minimum; otherwise the minimum stays at the largest float |
| Decimation.Decimater.constructor | src/pmp/algorithms/decimation.cpp:620-622 | the new "v:prio" and "v:target" properties hold 0 and the invalid halfedge |
| Decimation.Decimater.ResetVertex | src/pmp/algorithms/decimation.cpp:628-631 | v's slot becomes -1 and v is tracked from then on; entries and priorities stay |
| Decimation.Decimater.PopCheapest | src/pmp/algorithms/decimation.cpp:638-640 | the popped vertex had the least priority of the queue, leaves it, and has a valid target |
| Decimation.Decimater.EnqueueVertex | src/pmp/algorithms/decimation.cpp:680-720 | v is stored iff a first strict minimum exists, then with its priority and halfedge as target; otherwise v leaves the queue with priority -1 and an invalid target; the other entries stay |
| Decimation.Decimater.StoreTarget | src/pmp/algorithms/decimation.cpp:699-709 | records priority and target, then updates or inserts v; v is stored and the other entries stay |
| Decimation.Decimater.DropTarget | src/pmp/algorithms/decimation.cpp:711-719 | removes v if stored and sets its priority to -1 and its target invalid; the other entries stay |
| Decimation.Decimate | src/pmp/algorithms/decimation.cpp:611-678 | the loop ends; the vertex count falls by one per collapse, never below the target, and the queue is empty whenever the count stays above the target |
| Remeshing.FlipImprovesIff | src/pmp/algorithms/remeshing.cpp:919-953 | with di the deviation of vertex i from its optimal valence (4 on the boundary, 6 inside), the squared deviation drops by 2(d0 + d1 - d2 - d3) - 4, so a flip improves iff d0 + d1 - d2 - d3 > 2 |
| Remeshing.RegularQuadStays | src/pmp/algorithms/remeshing.cpp:919-953 | four interior vertices of valence 6 are never flipped |
| Remeshing.BumpedAt | src/pmp/algorithms/remeshing.cpp:956-959 | after a flip the cached valence of each vertex moves by -1 for v0 and v1 and +1 for v2 and v3 |
| Remeshing.BumpedKeepsSum | src/pmp/algorithms/remeshing.cpp:956-959 | a flip's valence update keeps the total of the cached valences |
| Remeshing.BumpValences | src/pmp/algorithms/remeshing.cpp:956-959 | the array of cached valences becomes the bumped sequence |
| Remeshing.FlipAllowedAt | src/pmp/algorithms/remeshing.cpp:900-963 | every flip in the log was allowed against the cached valences at its turn |
| Remeshing.SettledAt | src/pmp/algorithms/remeshing.cpp:896-898 | in a pass that flipped nothing, no edge passes the flip test |
| Remeshing.FlipStep | src/pmp/algorithms/remeshing.cpp:953-961 | one more admitted flip extends the log and bumps the cache by its quad |
| Remeshing.CacheKeepsSum | src/pmp/algorithms/remeshing.cpp:889-959 | any sequence of admitted flips keeps the valence total |
| Remeshing.FlipDecision | src/pmp/algorithms/remeshing.cpp:902-953 | the flip test on edge e: not locked or feature, no locked vertex among the four, the deviation drops and is_flip_ok holds |
| Remeshing.FlipEdges | src/pmp/algorithms/remeshing.cpp:879-968 | at most 10 passes; every flip made passed the test, the cache is the valence start bumped by each flip, the valence total is kept, and fewer than 10 passes means the last pass found no flip |
| Remeshing.FlippedEdgesFree | src/pmp/algorithms/remeshing.cpp:902-953 | a flipped edge was neither locked nor a feature, none of its four vertices was locked, and the flip improved and was legal |
| Remeshing.CollapseKeepsProtected | src/pmp/algorithms/remeshing.cpp:771-821 | a collapse never removes a boundary vertex into an interior one, a locked vertex, or a feature vertex into a non-feature one, and passes is_collapse_ok |
| Remeshing.SkippedEdgesStay | src/pmp/algorithms/remeshing.cpp:772-795 | two locked ends, two boundary ends on an interior edge, or two feature ends on a non-feature edge skip the edge |
| Remeshing.SmallerValenceRemoved | src/pmp/algorithms/remeshing.cpp:823-830 | when both directions are allowed the end of smaller valence is removed, v1 on a tie |
| Remeshing.ChoiceIff | src/pmp/algorithms/remeshing.cpp:818-870 | each direction is taken iff it is allowed, wins the valence tie-break when both are, and leaves no too long edge |
| Remeshing.AnyTooLong | src/pmp/algorithms/remeshing.cpp:836-843 | true iff some neighbour would be too far from the kept vertex |
| Remeshing.CollapseDecision | src/pmp/algorithms/remeshing.cpp:760-870 | the imperative rule chain of one edge returns the declarative choice |
| Remeshing.CollapseMadeAt | src/pmp/algorithms/remeshing.cpp:751-874 | every collapse in the log was due at its turn, in the direction the rules choose |
| Remeshing.CollapseShortEdges | src/pmp/algorithms/remeshing.cpp:739-877 | at most 10 passes; every collapse made was due, and fewer than 10 passes means the last pass found none |
| Remeshing.CollapsesKeepLocks | src/pmp/algorithms/remeshing.cpp:753-788 | no collapse runs on a locked edge or removes a locked vertex or a boundary vertex into the interior |
| Remeshing.SplitOne | src/pmp/algorithms/remeshing.cpp:713-732 | one split appends the new vertex and edges, with the feature marks carried to the new vertex and to the new edge at n_edges - 2 or - 3 |
| Remeshing.SplitLongEdges | src/pmp/algorithms/remeshing.cpp:690-737 | at most 10 passes; every split was of an unlocked too long edge, the flags are the replay of the log, and fewer than 10 passes means no edge is left to split |
| Remeshing.SplitReplayGrows | src/pmp/algorithms/remeshing.cpp:713-732 | splits only append: old edge and vertex flags are kept, new edges are unlocked, one vertex per split |
| Remeshing.LockedEdgesNotSplit | src/pmp/algorithms/remeshing.cpp:706 | no split is of a locked original edge, and each was too long |
| Remeshing.SplitMarksFeature | src/pmp/algorithms/remeshing.cpp:722-729 | splitting a feature edge marks the new vertex and the new half-edge as features and no other new edge |
| Remeshing.AnySelected | src/pmp/algorithms/remeshing.cpp:440-447 | true iff some vertex is selected |
| Remeshing.CountFeatures | src/pmp/algorithms/remeshing.cpp:471-474 | counts the feature edges among a vertex's outgoing halfedges |
| Remeshing.Lock | src/pmp/algorithms/remeshing.cpp:436-479 | a vertex is locked iff a selection exists and it is unselected, or it is a feature vertex on other than two feature edges; an edge iff a selection exists and one end is unselected |
| Remeshing.Setup | src/pmp/algorithms/remeshing.cpp:325-334 | a non-triangle mesh is refused with an invalid-input error; otherwise it records whether the feature properties exist |
| Remeshing.PropertiesRestored | src/pmp/algorithms/remeshing.cpp:624-639 | a remeshing run leaves exactly the properties the mesh had before |
| Triangulation.Plus | src/pmp/algorithms/triangulation.cpp:96-97 | a sum is finite iff both weights are, and then it is their sum |
| Triangulation.ScanSpec | src/pmp/algorithms/triangulation.cpp:90-104 | the split scan returns -1 iff every split is impossible; otherwise the first split of least weight, strictly lighter than every earlier one and no heavier than any |
| Triangulation.OptIsMinimal | src/pmp/algorithms/triangulation.cpp:94-107 | the optimum of an interval is no heavier than any of its splits |
| Triangulation.OptAttained | src/pmp/algorithms/triangulation.cpp:94-107 | a possible optimum is attained at the recorded split, strictly inside the interval, with both halves possible |
| Triangulation.NoSplitIffImpossible | src/pmp/algorithms/triangulation.cpp:90-107 | the recorded split is -1 iff the optimum is impossible iff every split is |
| Triangulation.BestSplit | src/pmp/algorithms/triangulation.cpp:89-104 | the inner loop over m, reading the shorter intervals from the table, returns the scan's weight and split |
| Triangulation.FillLength | src/pmp/algorithms/triangulation.cpp:87-108 | one length of intervals is filled with their optimum and split, the shorter ones kept |
| Triangulation.FillTables | src/pmp/algorithms/triangulation.cpp:70-109 | every interval [i, k] of the tables holds its optimal weight and split |
| Triangulation.InsertAllConcat | src/pmp/algorithms/triangulation.cpp:115-130 | replaying a + b is replaying a, then b |
| Triangulation.InsertTwo | src/pmp/algorithms/triangulation.cpp:125-126 | the two calls of one triangle insert start-split, then split-end |
| Triangulation.CallCount | src/pmp/algorithms/triangulation.cpp:115-130 | replaying an interval of L sides makes 2(L-1) calls of insert_edge |
| Triangulation.StackPush | src/pmp/algorithms/triangulation.cpp:128-129 | pushing the two halves keeps the stack replayable, schedules the upper half first, and adds its share of the remaining work |
| Triangulation.PopSide | src/pmp/algorithms/triangulation.cpp:121-122 | popping an interval of one side schedules nothing |
| Triangulation.PopSplit | src/pmp/algorithms/triangulation.cpp:117-129 | popping an interval of two or more sides issues its two calls and pushes its halves, and the remaining work falls |
| Triangulation.Reconstruct | src/pmp/algorithms/triangulation.cpp:111-130 | the stack loop ends; it fails iff the optimum is impossible, and otherwise inserts exactly the recursive replay's calls in order |
| Triangulation.FirstTwo | src/pmp/algorithms/triangulation.cpp:125-126 | the two calls of a triangle add each inner side that is a chord and find each one that is already a side |
| Triangulation.AboveReady | src/pmp/algorithms/triangulation.cpp:125-129 | after those calls the upper half has its sides and no chord inside it |
| Triangulation.BelowReady | src/pmp/algorithms/triangulation.cpp:125-129 | after the upper half's replay the lower half has its sides and no chord inside it |
| Triangulation.AddedInside | src/pmp/algorithms/triangulation.cpp:125-129 | whatever the three stages add lies strictly inside the interval |
| Triangulation.ReplayAddsChords | src/pmp/algorithms/triangulation.cpp:115-130 | on an interval whose sides exist and chords do not, the replay adds L-2 edges, keeps the old ones, and adds only chords of the interval |
| Triangulation.ChordlessIsPossible | src/pmp/algorithms/triangulation.cpp:139-149 | with no chord already joined, no triangle is vetoed, so every interval has a possible optimum |
| Triangulation.FaceCount | src/pmp/algorithms/triangulation.cpp:45-137 | a polygon of n corners with edges on its sides and none on its chords becomes n-2 triangles: n-3 new edges, all chords |
| Triangulation.CornersManifold | src/pmp/algorithms/triangulation.cpp:51-62 | true iff every corner's vertex is manifold |
| Triangulation.TriangulateAsWritten | src/pmp/algorithms/triangulation.cpp:45-137 | as written: a non-manifold corner raises invalid input, three corners or fewer change nothing, an impossible optimum leaves the replay reading split -1, otherwise the replay's edges are inserted |
| Triangulation.Triangulate | src/pmp/algorithms/triangulation.cpp:45-137 | a non-manifold corner raises invalid input; a face of three corners or fewer, or with no possible triangulation, is left as it is; otherwise the replay's edges are inserted |
| Triangulation.DoubleDiagonalQuad | src/pmp/algorithms/triangulation.cpp:90-123 | a quad with both diagonals already edges has an impossible optimum and split -1 at its whole interval |

## Left out

- FaceAddition.AddFace: the next/prev face loop, the relinked patch boundary and the frame of untouched links are proved only when every edge of the face is new (`NoneFound`). With found halfedges, the contract gives targets, faces, reuse of the found halfedges and array sizes.
- FaceAddition.AddFace: the search for a free gap (`GapFrom`, behind `PatchLinks`) gives up with TopologyError after as many turns as there are halfedges. The source's do-while at src/pmp/surface_mesh.cpp:297-305 would loop forever on such an input. So `Rejected` also covers inputs on which the source hangs. The layered addFace (LayeredSurfaceMesh.AddFace) is modelled the same way.
- EulerOperators.InsertVertex, FaceAddition.AddFace, HalfedgeMesh.SurfaceMesh.DeleteFace, HalfedgeMesh.SurfaceMesh.AdjustAll: `adjust_outgoing_halfedge` (src/pmp/surface_mesh.cpp:177-194) always circulates. The model (`EulerOperators.Adjust`, `FaceAddition.AdjustCorners`, `HalfedgeMesh.SurfaceMesh.AdjustAll` through `AdjustedFrom`) adjusts only when the clockwise rotation of the vertex closes within the halfedge count. Otherwise it leaves the anchor as it was, where the source would loop forever.
- HalfedgeMesh.SurfaceMesh.Valid: the mesh invariants the operations preserve are sizes, ranges and counters (`Valid`, `InRange`, `Counted`). Next/prev consistency ("every halfedge has exactly one next and one prev") and closure (live elements refer only to live elements) are not invariants of the model. No Euler operator is proved to keep a consistent mesh. The in-range results of garbage collection assume closure as a premise.
- MeshGarbage.GarbageCollection: the pruning and re-keying of `unique_vertices_set_` (src/pmp/surface_mesh.cpp:1147-1155, src/pmp/surface_mesh.cpp:1181-1193) is not modelled.
- `add_vertex_unique` and the `unique_vertices_set_` it keeps (src/pmp/surface_mesh.cpp:204-219) are not modelled, because they need positions compared as floating point.
- User-defined properties are not carried inside the mesh classes. Only the connectivity records are. The property container is modelled on its own (`Properties`).
- Float priorities, squared areas and DP weights are integers. The largest float is a named constant, or the `Infinite` weight in `Triangulation`.
- Geometric predicates are inputs to the model: edge length, normal deviation, aspect ratio, Hausdorff error, texture seams, `is_too_long`/`is_too_short`, and the remesher's smoothing and projection.
- Circulators and internal ring walks return after at most as many steps as there are halfedges. On corrupt connectivity the source would loop forever instead.
- File I/O (read, write) and `edgeLength` of the layered EdgeSet are left out: they are I/O and floating point.
- The SurfaceMesh copy constructor, `operator=` and `assign` (src/pmp/surface_mesh.cpp:25-104), `reserve` and `free_memory` are left out. They copy or reallocate arrays and have no connectivity logic of their own.
- The vertex iterator of PointSet (src/pmp/PointSet.h:96-139) is the same skip-deleted walk as `HalfedgeMesh.HandleIterator`. It is not modelled separately.
- FaceSplitting.SplitFace: allocation is checked before anything is written, where the source would leave a partial split behind. A face loop that does not close gives TopologyError, where the source loops forever.
- EdgeSplitting.SplitEdge: allocation is checked before anything is written, where the source would leave a partial split behind.
- EdgeSets.EdgeSet.DeleteVertex: requires the rotation around v to close. The source would loop forever otherwise.
- The layered `deleteVertex` of the face layer (src/pmp/SurfaceMesh.cpp:975-992) is not modelled. The deletion of vertices is modelled for the current kernel (`HalfedgeMesh.SurfaceMesh.DeleteVertex`) and for the edge set (`EdgeSets.EdgeSet.DeleteVertex`).
- LayeredSurfaceMesh.AddFace: at the index limit, the source's newEdge and newFace return invalid handles and the source goes on writing through them. The model stops there and returns the invalid face, keeping the edges already made.
- The layered `garbageCollection` (src/pmp/GeometryObject.h:181-186) also runs when nothing is deleted. It works in stages: point set, then edge set, then the face stage (src/pmp/SurfaceMesh.cpp:1079-1157). The point-set and edge-set stages are `PointSets` and `EdgeSets`. The face stage is the same two-pointer loop and remapping as `MeshGarbage` and has no separate member.
- Triangulation: the mesh surgery of `insert_edge` (src/pmp/algorithms/triangulation.cpp:176-204, the walk to the second corner and `SurfaceMesh::insert_edge`) is represented by adding the corner pair to the set of joined pairs. The insertion itself is `FaceSplitting.InsertEdge`.
- Decimation: `priority`, the quadric and normal-cone updates, and `preprocess_collapse`/`postprocess_collapse` are floating point and are left out. The collapse the driver performs is abstracted into the inputs `ok`, `cands` and `ring`. The closing `garbage_collection` (src/pmp/algorithms/decimation.cpp:674) and the removal of the three scratch properties after it are not part of the model of the driver; garbage collection itself is `MeshGarbage.GarbageCollection`.
- Remeshing.SplitOne: takes `n_edges()` to be the size of the edge properties, which holds only while no edge is deleted. With deleted edges not yet collected, the source's `Edge(n_edges() - 2)` or `Edge(n_edges() - 3)` (src/pmp/algorithms/remeshing.cpp:723-724) names a slot further back, and the flag the source sets there is not modelled.
- HalfedgeMesh.SurfaceMesh.DeleteEdge: that the edge itself ends up deleted is proved only where each incident face's loop runs through the edge and carries the face, and where, for two different faces, stepping back from a halfedge without a face stays without a face once the first loop is gone (`EdgeInLoops`). These are not invariants of the model, so on other inputs the contract promises only that the incident faces are deleted.

## Findings

| source | as written | input that shows it | evidently intended | confidence | as-written member | corrected member |
|---|---|---|---|---|---|---|
| src/pmp/algorithms/decimation.cpp:1208-1213 | `vrv1 = prev_halfedge(v0vr)` with `v0vr = next_halfedge(v1v0)`, so vrv1 is v1v0 itself and vr is v1 | any interior edge whose right face is a triangle: vrv1 == v1v0 instead of the triangle's third halfedge | `vrv1 = next_halfedge(v0vr)`, `vr = to_vertex(v0vr)`, the apex of fr | not executed | Decimation.AsWrittenMissesRightWing (on Decimation.CollapseDataAsWritten) | Decimation.CollapseDataWings (on Decimation.CollapseDataOf) |
| src/pmp/EdgeSet.h:616 | `edge(h)` shifts the signed index, so a halfedge of 2^31 or more maps to an edge of 0xC000_0000 or more | halfedge 0x8000_0000 gives edge 0xC000_0000 rather than 0x4000_0000 | the unsigned halving `h >> 1` | not executed | EdgeSets.EdgeOfAsWrittenLeavesEdge (on EdgeSets.EdgeOfAsWritten) | Handles.EdgeOf, with EdgeSets.EdgeOfAsWrittenBelowHalfRange and Handles.EdgeHalfedgeRoundTrip |
| src/pmp/EdgeSet.cpp:252-291 | at the end of a polyline o2 is h0, so the last `setNextHalfedge` overwrites h0 → h1 | inserting a vertex into a single segment: next(h0) becomes o1, and h1's successor does not start at h1's target | the new edge turns back at the end: next(h1) == o1 | not executed | EdgeSets.InsertVertexAsWrittenBreaksEnd (on EdgeSets.InsertedVertexAsWritten) | EdgeSets.InsertedVertexSplits (on EdgeSets.InsertedVertex) |
| src/pmp/PointSet.h:231-234 | `isValid(v)` compares signed 32-bit values, so `(int)verticesSize()` is negative from 2^31 vertices on | a point set of 2^31 + 1 vertices: vertex 0 is reported invalid | the unsigned bound check `v < verticesSize()` | not executed | PointSets.AsWrittenRejectsExistingVertex (on PointSets.IsValidAsWritten) | PointSets.PointSet.IsValidMeaning (on PointSets.PointSet.IsValid) |
| src/pmp/algorithms/triangulation.cpp:90-125 | when every split of an interval has the vetoed weight, `imin` stays -1 and the replay calls `insert_edge(start, -1)`, indexing the corner arrays at -1 | a quad face whose two diagonals are both mesh edges | leave the face as it is when no triangulation is possible | not executed | Triangulation.DoubleDiagonalQuad (on Triangulation.TriangulateAsWritten) | Triangulation.Triangulate |
