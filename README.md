# Destruct: a verified model of the mesh-fracturing kernel

This project models the kernel of the Destruct plugin. Destruct breaks a
triangle mesh into fragments by cutting it with a sequence of planes. One
cut has three stages:

- A triangle pass classifies every triangle by the sides of its three
  corners. A triangle on one side is copied to that half. A straddling
  triangle is cut into one triangle on its lone corner's side and two on
  the other side. Each cut edge gets one new vertex, shared by both halves
  and reused when a neighbouring triangle crosses the same edge.
- The new cut links of the upper side are turned into closed outlines
  (`EdgesToLoops`): walk chains, clear the ones already closed, stitch the
  others end to end, drop the cleared ones and remove repeated positions.
- Every outline is projected onto the plane and triangulated by ear
  clipping. The resulting filler caps the upper half, and the same filler
  with its winding reversed caps the lower half.

`Fracture` applies one cut per plane to every fragment and keeps the halves
that still hold a triangle. `RemoveLooseVertices` then drops the vertices
no triangle uses.

The model is split into modules that follow the source:

- `Loops` (loop.dfy): the doubly linked `Loop` class, as a Dafny class over
  two maps, with its abstract chain `Nodes`.
- `Meshes` (mesh.dfy): `SplitResult` and the error values.
- `Edges` (edges.dfy): `EdgeComparer`.
- `Planar` (planar.dfy): `Sign` and `PointInTriangle`.
- `Triangles` (triangles.dfy): `RevertTriangles` and `RemoveLooseVertices`.
- `EarClipping` (earclip.dfy): the cap triangulator.
- `EdgeLoops` (edgeloops.dfy): `EdgesToLoops`.
- `Split` (split.dfy): `SplitMeshAlongPlane`.
- `Fracturing` (fracture.dfy): `Fracture`.

Vertex positions have an abstract type `V`. The floating-point geometry
enters as function parameters:

- the side of a point;
- the cut point of a segment;
- the projection onto the plane;
- equality of positions;
- the two 2D tests of the ear clipper.

`Planar.Exact` instantiates the 2D tests with exact-real versions of
`Sign` and `PointInTriangle`. The .NET exceptions the kernel can raise are
modelled as `Failure` results:

- a duplicate `Dictionary.Add` (`DuplicateKey`);
- a missing key (`KeyNotFound`);
- a list index out of range (`IndexOutOfRange`).

Two situations the model does not follow to their end are also
`Failure` results:

- `Stalled`: the ear clipper runs out of its step budget, where the
  source can loop forever;
- `UnopenedCycle`: a stitch closed a loop into a cycle (`first == last`),
  and the repeat pass does not open it again because the first vertex does
  not compare equal to itself. The loop would then be a cycle with no ends.

## Model

| member | source | states |
|---|---|---|
| Edges.Key | Plugins/Destruct/Destruct.cs:665-671 | the key of an edge is the same pair of indices with the smaller first, and it is equal to the edge under the comparer |
| Edges.EdgeEqualsEquivalence | Plugins/Destruct/Destruct.cs:667-671 | the comparer's equality is reflexive, symmetric and transitive |
| Edges.EdgeHashAgrees | Plugins/Destruct/Destruct.cs:673-677 | edges the comparer calls equal have the same hash (the sum of the indices) |
| Edges.KeyCharacterises | Plugins/Destruct/Destruct.cs:665-678 | two edges are equal under the comparer exactly when their keys are equal, so the dictionary of cut edges is a map keyed by `Key` |
| Planar.CrossZIsSign | Plugins/Destruct/Destruct.cs:537-540 | the ear clipper's corner cross product at `index` is `Sign(prev, next, index)` |
| Planar.SignSymmetry | Plugins/Destruct/Destruct.cs:644-647 | `Sign` is unchanged by rotating its three points and negated by swapping two of them |
| Planar.PointInTriangleWinding | Plugins/Destruct/Destruct.cs:649-662 | the containment test gives the same answer for either winding and any rotation of the triangle |
| Planar.CornersInside | Plugins/Destruct/Destruct.cs:649-662 | each corner of a triangle counts as inside it (the test is closed) |
| Loops.Loop.constructor | Plugins/Destruct/Destruct.cs:44-50 | a new loop has empty maps, both ends at -1, and is the valid empty chain |
| Loops.Loop.FromLinks | Plugins/Destruct/Destruct.cs:52-58 | the maps and ends are taken as given, and the loop is valid over a chain exactly when the maps link that chain |
| Loops.Loop.Next | Plugins/Destruct/Destruct.cs:60-64 | the successor of a node is the next node of the chain, and `last` wraps around to `first` |
| Loops.Loop.Prev | Plugins/Destruct/Destruct.cs:66-70 | the predecessor of a node is the previous node of the chain, and `first` wraps around to `last` |
| Loops.Loop.AddLink | Plugins/Destruct/Destruct.cs:72-78 | the link is added to both maps; `last` moves to the end only if the end has no outgoing link, and `first` to the start only if the start has no incoming link; on an empty loop the chain becomes [start, end], and a link out of `last` to a new node appends that node |
| Loops.Loop.SetLast | Plugins/Destruct/Destruct.cs:80-86 | the last node of the chain is replaced by the new one, which its predecessor now links to; the loop stays valid and `first` is unchanged |
| Loops.Loop.RemoveLink | Plugins/Destruct/Destruct.cs:88-109 | the node leaves the chain and its neighbours become adjacent, with an end that is removed moving to its neighbour; the loop stays valid |
| Loops.Loop.ToList | Plugins/Destruct/Destruct.cs:111-122 | the list is the chain from `first` to `last`, or [-1] for an empty loop |
| Loops.Loop.Clear | Plugins/Destruct/Destruct.cs:124-130 | the loop becomes the valid empty chain with both ends at -1 |
| Loops.CycleCloses | Plugins/Destruct/Destruct.cs:60-70 | on a non-empty valid loop, `Next(last) == first` and `Prev(first) == last` |
| Loops.NextPrevInverse | Plugins/Destruct/Destruct.cs:60-70 | `Next` and `Prev` undo each other on every node of a valid loop |
| Loops.LinksInverse | Plugins/Destruct/Destruct.cs:72-78 | in a valid loop the forward and backward maps are mutual inverses |
| Loops.LinkCount | Plugins/Destruct/Destruct.cs:533 | a valid loop has one forward link per node except the last, which is what the ear clipper's loop condition counts |
| Triangles.RevertedShape | Plugins/Destruct/Destruct.cs:406-412 | reversal keeps the length and the third entry of every triple, and exchanges the first two |
| Triangles.RevertedInvolution | Plugins/Destruct/Destruct.cs:406-412 | reversing twice gives back the original list |
| Triangles.RevertedIndices | Plugins/Destruct/Destruct.cs:406-412 | reversal refers to the same vertices, so indices in range stay in range |
| Triangles.RevertTriangles | Plugins/Destruct/Destruct.cs:406-412 | the array afterwards is the reversal of its old contents |
| Triangles.KeptAt | Plugins/Destruct/Destruct.cs:621-628 | a used vertex lands at the position equal to the number of used vertices before it |
| Triangles.KeptOnlyUsed | Plugins/Destruct/Destruct.cs:619-628 | every kept vertex is a vertex some triangle uses |
| Triangles.KeptAll | Plugins/Destruct/Destruct.cs:619-628 | when every vertex is used, the vertex list is unchanged |
| Triangles.KeepUsed | Plugins/Destruct/Destruct.cs:616-628 | the new list is the used vertices in their order, and each used vertex's recorded position is its place in that list |
| Triangles.RemoveLooseVertices | Plugins/Destruct/Destruct.cs:614-636 | the vertices become the used ones in order, and every triangle entry is renumbered to name the same vertex as before, in range |
| Triangles.RemoveLooseVerticesAll | Plugins/Destruct/Destruct.cs:638-642 | every fragment of the list is cleaned as `RemoveLooseVertices` describes |
| EarClipping.IsEarMeans | Plugins/Destruct/Destruct.cs:544-554 | the scan's verdict holds exactly when no node of the polygon other than the corner's three lies in the triangle (next, index, prev) |
| EarClipping.ClipStep | Plugins/Destruct/Destruct.cs:535-585 | one step removes exactly one node or none, and the next candidate is a node of the polygon left |
| EarClipping.StepShape | Plugins/Destruct/Destruct.cs:542-572 | a step emits nothing or one convex triple (index, next, prev) of polygon nodes, and it emits exactly when it removes a node with a positive corner |
| EarClipping.StepKeeps | Plugins/Destruct/Destruct.cs:533-586 | one step keeps the loop's invariant: convex output triples of original nodes, at least two nodes left, and at most three output entries per node removed |
| EarClipping.AllConvexWhole | Plugins/Destruct/Destruct.cs:557-559 | the output is whole triples of indices into the projected points |
| EarClipping.ExactClockwise | Plugins/Destruct/Destruct.cs:537-559 | with the exact tests every emitted triangle (index, next, prev) has a negative `Sign`: the cap is wound clockwise in the plane's coordinates |
| EarClipping.ScanEar | Plugins/Destruct/Destruct.cs:544-554 | the scan from the node after `next` to `prev` answers exactly whether the corner is an ear |
| EarClipping.ClipAt | Plugins/Destruct/Destruct.cs:535-585 | one pass at the candidate does exactly what `ClipStep` describes to the loop and the output, and returns the successor as the next candidate |
| EarClipping.EarClippingTriangulation | Plugins/Destruct/Destruct.cs:524-589 | the output is convex (index, next, prev) triples of the loop's nodes, at most three entries per node removed; the loop stays valid with at least two nodes, and the clipping finishes exactly when at most two are left |
| EdgeLoops.WalkChain | Plugins/Destruct/Destruct.cs:420-440 | one walk starts at a key of the adjacency and visits vertices along its links; exactly the links out of the visited vertices are consumed (`Without`); the chain built is `Traced` from the visited vertices (each one appended, or replacing the end when both lie at one position), and a self-link is the walk [k, k]; it fails only on a duplicate key |
| EdgeLoops.Follow | Plugins/Destruct/Destruct.cs:426-440 | the trail from the chain's end follows links of the adjacency, exactly the links out of it are consumed, and the chain is `Traced` from the path so far continued by the trail |
| EdgeLoops.TracedStep | Plugins/Destruct/Destruct.cs:428-436 | walking one more link grows the traced chain by exactly one `Grow` step: the new vertex is appended, or replaces the end when both lie at one position |
| EdgeLoops.TracedWithin | Plugins/Destruct/Destruct.cs:426-440 | a traced chain holds only vertices its walk visited |
| EdgeLoops.WalkDrawn | Plugins/Destruct/Destruct.cs:420-440 | a walk that starts at a key and follows links visits only vertices that start or end a link of the adjacency |
| EdgeLoops.Extend | Plugins/Destruct/Destruct.cs:428-436 | a link out of `last` either replaces `last` (same position) or extends the chain by one node |
| EdgeLoops.WalkAll | Plugins/Destruct/Destruct.cs:416-448 | the walking phase empties the adjacency; every key is consumed by exactly one walk, which visits it, and every link a walk follows is one it consumed (`Owned`); each chain is `Traced` from its walk; the chains are distinct, fresh and valid with at least two nodes; it fails only on a duplicate key or on an index out of range (a self-link, whose loop keeps its ends at -1) |
| EdgeLoops.OwnedStep | Plugins/Destruct/Destruct.cs:416-440 | a further walk takes ownership of exactly the keys it consumed, so the consumed keys stay shared out among the walks |
| EdgeLoops.ClearIfClosed | Plugins/Destruct/Destruct.cs:448-455 | a loop is cleared exactly when its two ends lie at the same position |
| EdgeLoops.ClearClosed | Plugins/Destruct/Destruct.cs:445-456 | the unevaluated loops are exactly the ones whose ends differ in position, and they are untouched; every other loop is cleared |
| EdgeLoops.StitchLinks | Plugins/Destruct/Destruct.cs:478-490 | two chains without shared link keys that do not close onto each other stitch into one valid chain, and the seam link starts and ends at free nodes |
| EdgeLoops.JoinInto | Plugins/Destruct/Destruct.cs:478-490 | after the links are copied and the seam is joined, the loop holds what `StitchedInto` says: the stitched chain, or, when the far ends of the two chains are one node (`first == last`), that cycle opened before its first node, with `closed` saying which |
| EdgeLoops.LinkInto | Plugins/Destruct/Destruct.cs:478-490 | the link maps become the union of both loops' maps plus the seam link, unless the seam is a shared node; the end of the kept loop that the seam replaced moves to the far end of the other chain |
| EdgeLoops.CloseLinks | Plugins/Destruct/Destruct.cs:478-490 | when the far ends of two chains are one node, the stitched links run round a cycle through the first node, and without the link into it they link the `Opened` chain |
| EdgeLoops.CloseInFront | Plugins/Destruct/Destruct.cs:481-484 | the same cycle when the other chain goes in front of the kept one |
| EdgeLoops.OpenedNodes | Plugins/Destruct/Destruct.cs:478-490 | the opened cycle has at least two nodes and holds every node of both chains and no other |
| EdgeLoops.JoinedNodes | Plugins/Destruct/Destruct.cs:478-490 | any stitch, closing or not, gives a chain of at least two nodes holding every node of both chains and no other |
| EdgeLoops.Stitch | Plugins/Destruct/Destruct.cs:478-492 | the stitch succeeds exactly when the two loops share no link key, and fails otherwise as a duplicate key; it then clears the consumed loop and leaves in the kept one the chain `StitchedInto` describes, closed into a cycle exactly when the far ends of the chains are one node |
| EdgeLoops.StitchedNodes | Plugins/Destruct/Destruct.cs:478-490 | the stitched chain holds every node of both chains and no other |
| EdgeLoops.FindMatch | Plugins/Destruct/Destruct.cs:463-473 | the search returns an unevaluated loop that meets loop `i`, or reports that none does; the end of a loop closed into a cycle is its first node, as both ends are there |
| EdgeLoops.StitchAt | Plugins/Destruct/Destruct.cs:478-493 | after a stitch in the list, loop `i` holds exactly the nodes of both loops and loop `j` is empty; the only failure is a duplicate key |
| EdgeLoops.Absorb | Plugins/Destruct/Destruct.cs:460-506 | loop `i` ends up with exactly its own old nodes and those of the loops it absorbed, the absorbed loops are emptied and every other loop is untouched (`Absorbed`); no loop left unevaluated meets loop `i`; a further match after a stitch closed loop `i` fails as a duplicate key |
| EdgeLoops.AbsorbedStep | Plugins/Destruct/Destruct.cs:478-493 | stitching one more untouched loop onto loop `i` extends what `Absorbed` says by that loop |
| EdgeLoops.StitchAll | Plugins/Destruct/Destruct.cs:458-507 | the stitching phase keeps every loop valid, leaves the loops it does not evaluate untouched and every evaluated loop empty or with at least two nodes; no node is lost or made up: every node of an evaluated loop was before in some evaluated loop, and every node such a loop held before is afterwards in one |
| EdgeLoops.Conserved | Plugins/Destruct/Destruct.cs:458-507 | once every original node is held by some evaluated loop and no evaluated loop holds a node from outside, the nodes of the evaluated loops are, as a set, those they held before |
| EdgeLoops.Remaining | Plugins/Destruct/Destruct.cs:509 | exactly the loops whose `first` is not -1 are kept |
| EdgeLoops.RemainingDistinct | Plugins/Destruct/Destruct.cs:509 | removing loops from a list of distinct loops keeps them distinct |
| EdgeLoops.RemainingFamily | Plugins/Destruct/Destruct.cs:509 | the loops kept are valid and none of them is empty |
| EdgeLoops.RemainingNodes | Plugins/Destruct/Destruct.cs:509 | the chains of the loops kept are exactly the non-empty chains, in order |
| EdgeLoops.DropRepeats | Plugins/Destruct/Destruct.cs:511-518 | the pass terminates; on success the loop is valid and non-empty and its chain is a subsequence of the old chain (`Picks`); a chain with no node at its predecessor's position succeeds and is left unchanged, if it was closed into a cycle only when its first vertex equals itself; the cycle fails as `UnopenedCycle` exactly when that equality fails; the other failure is a missing key |
| EdgeLoops.RemovePrev | Plugins/Destruct/Destruct.cs:516 | the chain becomes the old chain with the predecessor's position erased, keeps the current node, and stays a subsequence of the chain the pass started from |
| EdgeLoops.DropRepeatsAll | Plugins/Destruct/Destruct.cs:511-519 | every loop stays valid and non-empty and becomes a subsequence of its own old chain (`Thinned`), kept whole where it is `Kept`; when every loop is `Kept`, the pass succeeds and changes nothing |
| EdgeLoops.ThinnedAll | Plugins/Destruct/Destruct.cs:511-519 | the state after the last loop is what `Thinned` says of the whole list |
| EdgeLoops.EdgesToLoops | Plugins/Destruct/Destruct.cs:414-522 | on success the adjacency is drained and the result is distinct fresh valid non-empty loops whose chains are the `OutlineOf` the adjacency: walks that share out every key trace the walked chains, which are `Gathered` into the stitched chains, whose non-empty ones are `Thinned` into the result; every node starts or ends a link of the adjacency; the failures are the collection errors of its phases and `UnopenedCycle` |
| EdgeLoops.Outlines | Plugins/Destruct/Destruct.cs:445-519 | the walked chains are `Gathered` into the stitched ones, whose non-empty chains are `Thinned` into those of the result, a list of loops drawn from the walked ones |
| EdgeLoops.ClearAndStitch | Plugins/Destruct/Destruct.cs:445-507 | the closed chains end empty, every chain ends empty or with two nodes or more, and the chains left hold exactly the nodes of the walked chains that were not closed (`Gathered`); the only failure is a duplicate key |
| EdgeLoops.GatheredFrom | Plugins/Destruct/Destruct.cs:445-507 | the clearing phase followed by the stitching phase, each as its own contract states, gathers the walked chains |
| EdgeLoops.KeepAndDrop | Plugins/Destruct/Destruct.cs:509-519 | the result is exactly the loops that were not cleared, in order, and their chains are `Thinned` from the non-empty chains |
| Split.SideCode | Plugins/Destruct/Destruct.cs:218-221 | the code is below 8 and bit `j` is set exactly when corner `j` is above |
| Split.SideCodeExtremes | Plugins/Destruct/Destruct.cs:223-235 | the code is 0 exactly when all corners are below and 7 exactly when all are above |
| Split.LoneCorner | Plugins/Destruct/Destruct.cs:255-256 | the lone corner is 0, 1 or 2 |
| Split.LoneCornerIsAlone | Plugins/Destruct/Destruct.cs:254-262 | for a straddling code, the lone corner differs in side from the two others, which agree, and its bit of the code is its side |
| Split.InitialInv | Plugins/Destruct/Destruct.cs:189-191 | both halves start as the mesh's vertices with no triangles, which satisfies the pass invariant |
| Split.CutEdge | Plugins/Destruct/Destruct.cs:265-280 | an edge cut before, in either direction, reuses its recorded vertex and changes nothing; otherwise the cut point is appended to both halves at one shared index and recorded |
| Split.CutEdgeReuse | Plugins/Destruct/Destruct.cs:264-298 | cutting the same undirected edge again, from either end, returns the same vertex and appends nothing |
| Split.RotatedLone | Plugins/Destruct/Destruct.cs:254-262 | for a straddling triangle the rotation is one of the triangle's own rotations, its first corner is alone on its side, and the code's bit for it is its side |
| Split.EmitKeeps | Plugins/Destruct/Destruct.cs:300-333 | appending triples of valid indices and links between cut points keeps the pass invariant |
| Split.CutEdges | Plugins/Destruct/Destruct.cs:264-298 | both edges out of the lone corner end up recorded, each with one shared new vertex, and only vertices and records change |
| Split.EmitStraddled | Plugins/Destruct/Destruct.cs:300-333 | the triples and links emitted are those `Straddled` describes |
| Split.CutStraddling | Plugins/Destruct/Destruct.cs:264-333 | the lone side gains (lone, c01, c02) and the other side (next, c02, c01) and (prev, c02, next); each side's outline gains one link, in opposite directions; a repeated link start fails as a duplicate key |
| Split.CutTriangle | Plugins/Destruct/Destruct.cs:201-338 | a triangle wholly on one side is appended unchanged to that half (code 0 to the lower half, code 7 to the upper) and nothing else changes; a straddling one is rotated so that its lone corner comes first and is cut as `Straddled` describes |
| Split.CutAt | Plugins/Destruct/Destruct.cs:199-201 | one turn of the pass fails with an index out of range exactly when the triple at its position is missing or names no vertex; otherwise it cuts that triangle as `TriangleCut` says and adds at least one triple |
| Split.SplitTriangles | Plugins/Destruct/Destruct.cs:199-340 | the pass succeeds only on whole triples of valid indices; it keeps the invariant (lockstep vertex lists, well-formed halves, cut points recorded once), puts at least one triple into the halves per input triangle, and its trace of halves goes from the initial halves to the result with each step the cut of the next triangle, as `CutTriangle` does it (`TriangleCut`) |
| Split.CappedMeans | Plugins/Destruct/Destruct.cs:347-357 | capping appends one vertex copy and one triangle entry per filler entry, keeps the half well-formed, and each new entry names a copy of the vertex the filler names |
| Split.AppendCap | Plugins/Destruct/Destruct.cs:347-351 | the loop over the filler produces exactly the capped half |
| Split.CapOne | Plugins/Destruct/Destruct.cs:346-357 | the filler is convex whole triples of the loop's nodes; the upper half is capped with it and the lower half with its reversal |
| Split.CapAll | Plugins/Destruct/Destruct.cs:344-358 | the stages of the halves go from the cut halves to the result, and each next stage is the one before capped with the next loop's filler on the upper side and its reversal on the lower side, the filler being convex whole triples of that loop's own nodes (`LoopCapped`, as `CapOne` does it); both halves only grow, stay well-formed and keep equal vertex counts |
| Split.SplitMeshAlongPlane | Plugins/Destruct/Destruct.cs:186-361 | a cut succeeds only on a well-formed mesh; the cut is the one `CutBy` records: the trace of the triangle pass from the initial halves, the loops as the `OutlineOf` the upper side's cut links after the last triangle, and the stages of capping from the cut halves to the result, each loop capping both sides (`LoopCapped`); both halves are well-formed, extend the mesh's vertex list, and together hold at least as many triangle entries as the mesh |
| Fracturing.KeptHalves | Plugins/Destruct/Destruct.cs:176-178 | the result is exactly the halves of the cut that hold a triangle, upper half first (`WithTriangles`); the cut is the one `CutBy` records for the fragment, and its halves are well-formed and extend the fragment's vertex list (`CutFrom`) |
| Fracturing.WithTriangles | Plugins/Destruct/Destruct.cs:176-178 | one entry per half that holds a triangle, only such halves, the upper half first and the lower half last |
| Fracturing.AllKept | Plugins/Destruct/Destruct.cs:173-181 | one plane's list has at most two entries per fragment, each holding a triangle |
| Fracturing.AllKeptOrigins | Plugins/Destruct/Destruct.cs:173-181 | every entry of one plane's list is a kept half of some cut, and the cuts they come from never go back in the list |
| Fracturing.FractureStep | Plugins/Destruct/Destruct.cs:173-181 | the new list is the kept halves of the fragments' cuts, in fragment order (`AllKept`), each cut being the one `CutBy` records for its fragment and this plane (`FragmentsCut`); it at most doubles the fragments; each new fragment holds a triangle, is well-formed, and extends the vertex list of the fragment it was cut from |
| Fracturing.CutsGrow | Plugins/Destruct/Destruct.cs:173-181 | the cut of one more fragment extends the cuts of the fragments before it |
| Fracturing.KeptFromFragments | Plugins/Destruct/Destruct.cs:173-181 | every kept half is well-formed and extends the vertex list of the fragment it was cut from |
| Fracturing.Fracture | Plugins/Destruct/Destruct.cs:157-184 | the stages go from the mesh alone to the result, each next stage being the kept halves of the cuts of the one before by that step's plane, each cut as `CutBy` records it (`Staged`); with no plane the result is the mesh itself, unchecked; otherwise every fragment holds a triangle and is well-formed; every fragment extends the mesh's vertex list, and there are at most 2^n fragments for n planes |
| Fracturing.StagedGrows | Plugins/Destruct/Destruct.cs:163-181 | one more plane's cuts, and the list they give, extend the stages |
| Fracturing.PrefixKept | Plugins/Destruct/Destruct.cs:173-181 | a vertex list every fragment starts with is one every fragment cut from them starts with |

## Left out

- The Unity glue is not part of this model: `Destruct`, `InstantiateObjectsFromSplitResults` and `CreateGameObjectFromMeshData`. It covers mesh access, scaling by the transform and game objects.
- The random planes of `Fracture` are a parameter: a list of planes, one per step of the granularity. `Random` is not modelled.
- Floating-point geometry is a set of parameters: `Plane.GetSide`, `LinePlaneIntersection`, the projection of `Vector3ontoPlane`, and `Vector3` equality. No property of that arithmetic (rounding, NaN) is modelled.
- Split.Projected: projects every vertex, where the source fills the entries off the loop with NaN. The ear clipper reads only the loop's nodes, so it sees the same values.
- `Sign` and `PointInTriangle` are exact over reals; the source computes in single-precision floats.
- The DEBUG counter of the ear clipper (an exception after too many passes without a removal) is not modelled. Instead the triangulation takes a step budget, and `SplitMeshAlongPlane` fails with `Stalled` when a cap does not finish within it. Without the budget the source can loop forever.
- EarClipping.EarClippingTriangulation: states properties of its output rather than the exact output list. The output is convex triples of the loop's nodes with at most three entries per node removed. Each pass is exactly specified by `ClipAt`/`ClipStep`.
- The `fill` flag of `SplitMeshAlongPlane` is not modelled (the source never reads it); the cut always caps.
- The `newPoints` list is not modelled: it is built but never read.
- The lower side's cut links are built and kept in the model, as in the source, but not turned into loops: the source caps the lower half with the upper side's filler reversed.
- EdgeLoops.Stitch: when a stitch closes a chain into a cycle whose two ends are one node, the source goes on with `first == last` and a complete cycle of links. The model holds that cycle opened just before its first node and marks the loop as closed. The search for the next partner then uses the first node as both ends. A further partner fails as a duplicate key, as in the source. The repeat pass on a closed loop starts at the first node, as the source's does. When that node's vertex compares equal to itself, the pass removes the link into it and opens the cycle where the model holds it open, then stops after that one node. Otherwise the model fails with `UnopenedCycle` where the source would return a cycle with no ends.
- EdgeLoops.DropRepeats: states that the chain left is a subsequence of the old one and that a chain without repeated neighbours is left unchanged. It does not state that the result has no two neighbours at one position, because the pass does not guarantee it. When its first step removes `first`, the node it stands on becomes `first`. The end test compares with the successor of that new `first`, which is where the pass has just moved. So the pass stops after checking the predecessors of that one node.
- EdgeLoops.EdgesToLoops: requires every key and value of the adjacency to be a vertex index, which the triangle pass guarantees for its cut links.
- `SplitResult` is a value: the copies the source makes of its lists are implicit, and no two fragments share a list.
- `Dictionary` and `HashSet` enumeration order is an arbitrary choice. The walk takes some remaining link, and the stitch search some matching unevaluated loop.
- The model stops at the first failure it meets, as the source stops at its first exception.
- A self-link `k -> k` in the adjacency leaves a loop with both ends at -1. The source then fails indexing the vertex list with -1, reported as `IndexOutOfRange`.
- Triangles.RevertTriangles: requires a length that does not leave remainder 1 when divided by 3. The source fails with an index out of range on such a list, and its one caller passes whole triples.
- Triangles.RemoveLooseVertices: requires every triangle entry to index the vertex list. The source fails on an entry out of range. After at least one plane every fragment `Fracture` returns is well-formed; with no plane it returns the input mesh as given, and an entry out of range there is a source failure the model does not follow.
- The `Loop` methods require what the source's dictionary operations need to succeed. `AddLink` requires that neither key is present. `SetLast` requires a valid loop of at least two nodes and a new last node not already in it. `RemoveLink` requires a valid loop of at least two nodes that holds the node. The algorithms check these before calling, and report `DuplicateKey` or `KeyNotFound` where the source would throw.
- Integer overflow is not modelled: vertex counts and the hash sum in `EdgeComparer` are unbounded integers.
