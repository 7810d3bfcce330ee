# Spatial_Rhino7 toolpath core, modelled in Dafny

This project models five Grasshopper components of Spatial_Rhino7. They order,
weight, merge and reorder the line segments of a spatial 3D-printing
toolpath, and they build the cuboid mesh of a conformal voxel lattice.

- **Weighting and merging (GraphSorting002.cs).** The weighting code first
  registers every line under its two end points and finds each line's
  neighbours. Each line then gets a height-based sort weight with an
  adjustment for horizontal, vertical and angled lines. Ties are refined
  by nudging the neighbours of tied vertical lines. `CombineCurves` merges
  chained segments into one segment, then deletes short segments that
  another segment overlaps.
- **Point graph (GraphSorting.cs).** An undirected point graph built from
  lines, and the placeholder line weighting `AddWeightToLines`.
- **Longest trail (ContinuousToolpathMethods.cs).** `GraphLongestTrail`
  builds a graph from two-point polylines. An exhaustive depth-first search
  with a timeout then finds the longest trail.
- **Bracing (N_Bracing.cs).** `CurveReorderer` pulls angled bracing curves
  in behind the vertical curves they meet.
- **Voxels (conformalVoxel.cs).** The point grid between two surfaces, and
  `GenerateConformalVoxels`, which lists every cuboid as six quadrilateral
  faces of point indices.

Points are integer coordinates in hundredths of a model unit. Weights are
integers in thousandths, so the source's 0.05 nudge is 50. Floating-point
geometry tests become exact comparisons on the grid, or parameters where the
test cannot be stated on it.

`Line` is a struct, and several loops call `line.Flip()` on their `foreach`
variable (GraphSorting002.cs:119, GraphSorting.cs:110 and 204). That variable
is a read-only local, not a copy, so the call reverses the variable itself
while the list element stays as it was. The model follows this: a falling
line is weighed, compared and used as a key in its upward direction
(`Geometry.Upward`), while neighbour lookups still see the lines as given.

Modules:

- `Geometry`: points, segments and their classification.
- `Sequences`: list helpers.
- `Connectivity`: the point-to-lines map and line neighbours.
- `Weighting`: `AssignWeightsForSorting` and `RefineWeights`.
- `Combine`: `CombineCurves`.
- `PointGraph`: GraphSorting.cs.
- `LongestTrail`: ContinuousToolpathMethods.cs.
- `Bracing`: N_Bracing.cs.
- `Voxel`: conformalVoxel.cs.
- `Wrappers`: `Option` and `Result`. An exception thrown by the source is an `Err`.

## Model

All source paths are under `Spatial_Rhino7/Spatial_Printing_Components/`, written out in full below.

| member | source | states |
|---|---|---|
| Geometry.FlipKeepsClass | Spatial_Rhino7/Spatial_Printing_Components/GraphSorting002.cs:126-156 | Whether a segment counts as horizontal, vertical or angled, and its length, do not depend on which way it is stored |
| Geometry.DegenerateIsHorizontal | Spatial_Rhino7/Spatial_Printing_Components/GraphSorting002.cs:126-133 | A segment whose two ends coincide is classed horizontal, never angled, because the horizontal test is made first |
| Geometry.Upward | Spatial_Rhino7/Spatial_Printing_Components/GraphSorting002.cs:118-121 | The segment is turned to run upwards: a falling segment is reversed, and any other is left as it is |
| Connectivity.AddLine | Spatial_Rhino7/Spatial_Printing_Components/GraphSorting002.cs:89-98 | Registering one line adds its two end points as keys, and appends the line under a point once for each of its ends there; all other lists are untouched |
| Connectivity.BuildPointConnections | Spatial_Rhino7/Spatial_Printing_Components/GraphSorting002.cs:85-101 | The keys are exactly the end points of the input lines; under each point every line appears once per end it has at that point, duplicates counted |
| Connectivity.Without | Spatial_Rhino7/Spatial_Printing_Components/GraphSorting002.cs:72-73 | Filtering a list by `l != line` removes every copy of that line and keeps every other line with its multiplicity |
| Connectivity.FindConnectedLines | Spatial_Rhino7/Spatial_Printing_Components/GraphSorting002.cs:61-83 | One entry per distinct input line; its start (end) neighbours hold each other input line as often as it occurs in the input times its number of ends at the line's start (end) point, and never the line itself |
| Connectivity.NeighboursTouch | Spatial_Rhino7/Spatial_Printing_Components/GraphSorting002.cs:61-83 | A line is a start (end) neighbour of `l` exactly when it is another input line with an end at `l`'s start (end) point |
| Weighting.ListedUnder | Spatial_Rhino7/Spatial_Printing_Components/GraphSorting002.cs:85-101 | A line is listed under a point exactly when it is an input line with an end at that point |
| Weighting.ConnectedMeans | Spatial_Rhino7/Spatial_Printing_Components/GraphSorting002.cs:242-288 | The map-based "connected to an angled / vertical line" tests hold exactly when some other input line with an end at the point is angled / vertical |
| Weighting.InitialWeights | Spatial_Rhino7/Spatial_Printing_Components/GraphSorting002.cs:113-156 | One weight per input line, keyed by the line turned upwards, so the base is its top height. A horizontal line weighs its height plus 0.9. A vertical line gets -0.5 for an angled line at its top and +0.5 for one at its foot. An angled line gets +0.05 for a vertical line at its top and -0.05 for one at its foot |
| Weighting.InitialWeightsIgnoreDirection | Spatial_Rhino7/Spatial_Printing_Components/GraphSorting002.cs:113-156 | Turning the input lines upwards beforehand changes no weight and no key |
| Weighting.AngledAtUpwards | Spatial_Rhino7/Spatial_Printing_Components/GraphSorting002.cs:242-264 | For a vertical line, an angled neighbour at a point exists whichever way the input lines run |
| Weighting.VerticalAtUpwards | Spatial_Rhino7/Spatial_Printing_Components/GraphSorting002.cs:266-288 | For an angled line, a vertical neighbour at a point exists whichever way the input lines run |
| Weighting.Nudge | Spatial_Rhino7/Spatial_Printing_Components/GraphSorting002.cs:186-208 | One neighbour loop leaves the key set alone. It moves each neighbour by 0.05 per occurrence in the list, against the loop's direction. It moves the vertical line itself by 0.05 once when the list is not empty |
| Weighting.AdjustVertical | Spatial_Rhino7/Spatial_Printing_Components/GraphSorting002.cs:183-210 | The two neighbour loops of a vertical line change every weight by exactly that line's effect and add or remove no key |
| Weighting.ApplyConnections | Spatial_Rhino7/Spatial_Printing_Components/GraphSorting002.cs:179-211 | Walking a group's lines changes every weight by the sum of the individual lines' effects |
| Weighting.GroupOf | Spatial_Rhino7/Spatial_Printing_Components/GraphSorting002.cs:171-175 | A `GroupBy` group holds exactly the lines of that weight, each once |
| Weighting.TiedIffGroup | Spatial_Rhino7/Spatial_Printing_Components/GraphSorting002.cs:171-175 | A line's group has more than one member exactly when another line shares its weight |
| Weighting.GroupEffectOutside | Spatial_Rhino7/Spatial_Printing_Components/GraphSorting002.cs:177-211 | Neighbours are looked up within the group only, so refining a group never moves a line outside it |
| Weighting.TiedGroupsEffect | Spatial_Rhino7/Spatial_Printing_Components/GraphSorting002.cs:171-212 | Across all tied groups, a line is moved only by its own group, and not at all when untied |
| Weighting.ApplyGroups | Spatial_Rhino7/Spatial_Printing_Components/GraphSorting002.cs:173-212 | Processing the groups in turn changes every weight by the sum of the groups' effects on it and keeps the key set |
| Weighting.RefineLevel | Spatial_Rhino7/Spatial_Printing_Components/GraphSorting002.cs:167-212 | One refinement level keeps the key set, leaves every untied line's weight as it was, and moves a tied line by the effect of its own group only |
| Weighting.RefineWeights | Spatial_Rhino7/Spatial_Printing_Components/GraphSorting002.cs:165-214 | Refinement keeps the key set, and at the recursion limit returns the weights unchanged |
| Weighting.AssignWeightsForSorting | Spatial_Rhino7/Spatial_Printing_Components/GraphSorting002.cs:105-164 | Fails exactly on an empty list of lines. Otherwise it weighs every input line turned upwards and nothing else, and every key runs upwards |
| Weighting.AssignIgnoresDirection | Spatial_Rhino7/Spatial_Printing_Components/GraphSorting002.cs:105-164 | The weighting of the lines turned upwards beforehand is the same as that of the lines as given |
| Combine.HorizontalCount | Spatial_Rhino7/Spatial_Printing_Components/GraphSorting002.cs:320-353 | The count is zero exactly when no line starting or ending at the point is horizontal |
| Combine.HorizontalPtIntTest | Spatial_Rhino7/Spatial_Printing_Components/GraphSorting002.cs:320-362 | True exactly when no line with an end at the point is horizontal |
| Combine.FindPartner | Spatial_Rhino7/Spatial_Printing_Components/GraphSorting002.cs:439-484 | The inner loop finds the first unmerged index that joins A and that all earlier candidates fail; when it finds none, no candidate joins; it throws only when the weights are shorter than the curves |
| Combine.MergePass | Spatial_Rhino7/Spatial_Printing_Components/GraphSorting002.cs:424-491 | Every unmerged index yields exactly one record, in increasing order. A join pairs two distinct indices that pass the merge test, and neither is used again. The records follow the greedy rule: a line is kept exactly when no unmerged line joins it, and otherwise joins the first that does |
| Combine.GreedyUnique | Spatial_Rhino7/Spatial_Printing_Components/GraphSorting002.cs:424-491 | The greedy rule leaves no choice: at most one list of records follows it |
| Combine.MergePassFails | Spatial_Rhino7/Spatial_Printing_Components/GraphSorting002.cs:424-491 | The merge pass throws exactly when there are curves left to visit and the weight list is shorter than the curve list |
| Combine.Emitted | Spatial_Rhino7/Spatial_Printing_Components/GraphSorting002.cs:439-491 | A kept curve is output upward-turned with its weight. A joined pair becomes one segment from A's start to B's end, shorter than 80, weighted as B plus 0.13 when B is vertical |
| Combine.MergeCurves | Spatial_Rhino7/Spatial_Printing_Components/GraphSorting002.cs:416-491 | The merge pass fails exactly when weights are missing. Otherwise its entries are, in order, the lines and weights emitted by the records of the greedy pass over all indices |
| Combine.Overlap | Spatial_Rhino7/Spatial_Printing_Components/GraphSorting002.cs:521-613 | A step deletes B only when A covers it and B is shorter than 40. It deletes A only when A is shorter than 40. Equal segments and horizontal B are never touched |
| Combine.DegenerateKept | Spatial_Rhino7/Spatial_Printing_Components/GraphSorting002.cs:525-539 | A segment B whose start and end coincide is never deleted and never causes a deletion: the horizontal test skips it before the "same start and end point" branch |
| Combine.OverlapPassAsWritten | Spatial_Rhino7/Spatial_Printing_Components/GraphSorting002.cs:496-623 | The pass as written only ever deletes entries and keeps each weight with its segment; the debug list only grows |
| Combine.RemoveOverlaps | Spatial_Rhino7/Spatial_Printing_Components/GraphSorting002.cs:496-623 | The corrected overlap pass deletes only segments shorter than 40, keeps weights with their segments, and leaves no pair calling for a deletion; debug lines come from the input |
| Combine.CombineCurves | Spatial_Rhino7/Spatial_Printing_Components/GraphSorting002.cs:416-626 | With the corrected overlap pass (see ## Findings); the source as written is Combine.CombineCurvesAsWritten. Fails exactly when weights are missing; otherwise returns the merged lists less some short segments, with no overlapping pair left |
| Combine.CombineCurvesAsWritten | Spatial_Rhino7/Spatial_Printing_Components/GraphSorting002.cs:416-626 | As written, the result holds only entries of the merged lists and fails whenever weights are missing |
| Combine.StaleIndexDropsCovered | Spatial_Rhino7/Spatial_Printing_Components/GraphSorting002.cs:496-623 | For any four segments where the first is dropped against the second and against the fourth, and the fourth keeps the third, the pass as written removes the first two segments, whatever the second's length, and leaves the third and fourth |
| Combine.StaleIndexDropsLongLine | Spatial_Rhino7/Spatial_Printing_Components/GraphSorting002.cs:616-620 | On a concrete input the pass as written deletes a vertical segment 50 long, which is not short |
| PointGraph.AddNode | Spatial_Rhino7/Spatial_Printing_Components/GraphSorting.cs:59-65 | A new node starts with no neighbours; an existing node and all others are left as they were |
| PointGraph.AddEdge | Spatial_Rhino7/Spatial_Printing_Components/GraphSorting.cs:68-74 | Both ends become nodes and each gains the other as neighbour; no other adjacency changes |
| PointGraph.CreateGraphFromLines | Spatial_Rhino7/Spatial_Printing_Components/GraphSorting.cs:77-85 | The nodes are the previous nodes plus every end point of the lines |
| PointGraph.CreatedAdjacency | Spatial_Rhino7/Spatial_Printing_Components/GraphSorting.cs:77-85 | In the built graph, b neighbours a exactly when it did before or some line joins them in either direction |
| PointGraph.CreatedSymmetric | Spatial_Rhino7/Spatial_Printing_Components/GraphSorting.cs:68-85 | Built from a symmetric graph, the graph is symmetric: adjacency runs both ways and every neighbour is a node |
| PointGraph.AngledUnderTopCount | Spatial_Rhino7/Spatial_Printing_Components/GraphSorting.cs:171-228 | The counter is zero exactly when no line is a sloped, non-vertical, no-higher line that, turned upwards, ends where the input line ends |
| PointGraph.VerticalNoAngleAtTop | Spatial_Rhino7/Spatial_Printing_Components/GraphSorting.cs:171-228 | The bonus is 0.07 exactly when no such angled line tops out at the line's end, and 0 otherwise |
| PointGraph.AddWeightToLines | Spatial_Rhino7/Spatial_Printing_Components/GraphSorting.cs:96-145 | Fails exactly on an empty list. Otherwise it weighs each input line turned upwards, at its average height less 32.481, plus 0 when horizontal, 0.13 when angled, and 0.15 or 0.22 when vertical |
| PointGraph.VerticalWeight | Spatial_Rhino7/Spatial_Printing_Components/GraphSorting.cs:121-141 | A vertical line gets 0.15, plus 0.07 exactly when no angled line lower on average ends at its end point |
| PointGraph.ReversedWeight | Spatial_Rhino7/Spatial_Printing_Components/GraphSorting.cs:113-141 | Reversing a non-vertical line does not change its weight |
| PointGraph.UnderTopUpward | Spatial_Rhino7/Spatial_Printing_Components/GraphSorting.cs:188-216 | Whether a line counts against a vertical line does not depend on the direction it is given in |
| PointGraph.NoAngleIgnoresDirection | Spatial_Rhino7/Spatial_Printing_Components/GraphSorting.cs:171-228 | The 0.07 bonus is the same when the other lines are turned upwards beforehand |
| PointGraph.AddWeightIgnoresDirection | Spatial_Rhino7/Spatial_Printing_Components/GraphSorting.cs:96-145 | The weighting of the lines turned upwards beforehand is the same as that of the lines as given |
| LongestTrail.AddVertex | Spatial_Rhino7/Spatial_Printing_Components/ContinuousToolpathMethods.cs:86-87 | Adding a vertex keeps the vertex list free of repeats and adds just that point |
| LongestTrail.BuildGraph | Spatial_Rhino7/Spatial_Printing_Components/ContinuousToolpathMethods.cs:75-102 | The edges are exactly the two-point polylines among the curves. The vertices are their end points, each once. Every edge is listed under both its end points |
| LongestTrail.DFS | Spatial_Rhino7/Spatial_Printing_Components/ContinuousToolpathMethods.cs:134-158 | A search that finishes keeps the best trail or replaces it by a strictly longer one, at least as long as the current trail |
| LongestTrail.DFSSound | Spatial_Rhino7/Spatial_Printing_Components/ContinuousToolpathMethods.cs:134-158 | What the search keeps is always a path through the adjacency lists that repeats no edge |
| LongestTrail.DFSLongest | Spatial_Rhino7/Spatial_Printing_Components/ContinuousToolpathMethods.cs:134-158 | A finished search from a vertex beats every extension of the current trail along unvisited edges |
| LongestTrail.InternalLongest | Spatial_Rhino7/Spatial_Printing_Components/ContinuousToolpathMethods.cs:123-133 | The vertex loop, when it finishes, is at least as long as every path from every vertex still to visit |
| LongestTrail.PathIsTrail | Spatial_Rhino7/Spatial_Printing_Components/ContinuousToolpathMethods.cs:138-147 | A path through the adjacency lists is exactly a walk along the edge list that repeats no edge and avoids the visited ones |
| LongestTrail.FindLongestTrail | Spatial_Rhino7/Spatial_Printing_Components/ContinuousToolpathMethods.cs:105-122 | A cancelled search returns no trail |
| LongestTrail.TrailFound | Spatial_Rhino7/Spatial_Printing_Components/ContinuousToolpathMethods.cs:105-158 | The result is empty or a trail from one of the ends of its first edge |
| LongestTrail.TrailLongest | Spatial_Rhino7/Spatial_Printing_Components/ContinuousToolpathMethods.cs:105-158 | When the search is not cancelled, no trail from any point is longer than the result |
| LongestTrail.TrailBound | Spatial_Rhino7/Spatial_Printing_Components/ContinuousToolpathMethods.cs:138-151 | A trail is no longer than the number of distinct edges |
| Bracing.Reverse | Spatial_Rhino7/Spatial_Printing_Components/N_Bracing.cs:97 | Reversing swaps the start and end and changes nothing else about the curve |
| Bracing.Top | Spatial_Rhino7/Spatial_Printing_Components/N_Bracing.cs:83 | The top point is an end of the curve and at least as high as both ends |
| Bracing.FirstFrom | Spatial_Rhino7/Spatial_Printing_Components/N_Bracing.cs:62-76 | The inner loop stops at the first later curve that passes the test, and finds none only when no later curve does |
| Bracing.Move | Spatial_Rhino7/Spatial_Printing_Components/N_Bracing.cs:72-73 | Removing at j and inserting at k moves that curve back to k. The curves between shift up one place in order, the others stay where they were, and every curve is kept |
| Bracing.VerticalStep | Spatial_Rhino7/Spatial_Printing_Components/N_Bracing.cs:58-77 | At a vertical curve with an angled curve after it touching its end, the first such curve moves right behind it, and the curves between shift up in order. Otherwise nothing moves |
| Bracing.AngledStep | Spatial_Rhino7/Spatial_Printing_Components/N_Bracing.cs:80-103 | At an angled curve with a vertical curve after it touching its top, the first such curve moves into its place. The angled curve follows it, reversed, the curves between shift up in order, and the place is looked at again. Otherwise nothing moves |
| Bracing.Step | Spatial_Rhino7/Spatial_Printing_Components/N_Bracing.cs:56-106 | One iteration keeps every curve up to reversal, leaves the curves before the index alone, and either stays or advances one place |
| Bracing.Reorder | Spatial_Rhino7/Spatial_Printing_Components/N_Bracing.cs:51-108 | Reordering returns the same curves, some reversed, in some order |
| Bracing.CountPermutation | Spatial_Rhino7/Spatial_Printing_Components/N_Bracing.cs:72-73 | Rearranging the curves does not change how many of them are vertical and point down |
| Bracing.StepLowers | Spatial_Rhino7/Spatial_Printing_Components/N_Bracing.cs:56-106 | With tests that ignore direction for verticality and stop calling a downward vertical curve angled once it is reversed, every iteration lowers the potential: two per place still to pass, one per downward vertical curve, one while the current curve is not vertical |
| Bracing.FinishesFrom | Spatial_Rhino7/Spatial_Printing_Components/N_Bracing.cs:51-108 | From any place, fuel at least the potential is enough for the loop to reach the end of the list |
| Bracing.ReorderFinishes | Spatial_Rhino7/Spatial_Printing_Components/N_Bracing.cs:51-127 | With the source's tests, the whole pass ends within three iterations per curve |
| Bracing.NoVerticalUnchanged | Spatial_Rhino7/Spatial_Printing_Components/N_Bracing.cs:51-108 | With no vertical curve left, the pass finishes and returns the list as it was |
| Voxel.Column | Spatial_Rhino7/Spatial_Printing_Components/conformalVoxel.cs:170-191 | One column holds the top point, the wDivisions - 1 blended points and the bottom point, in that order |
| Voxel.PointGrid | Spatial_Rhino7/Spatial_Printing_Components/conformalVoxel.cs:152-193 | The grid holds (U + 1)(V + 1) columns of points, u outermost |
| Voxel.GridHolds | Spatial_Rhino7/Spatial_Printing_Components/conformalVoxel.cs:152-193 | Every sample (u, v, layer) sits in range at index (u (V + 1) + v) Height + layer |
| Voxel.GridLength | Spatial_Rhino7/Spatial_Printing_Components/conformalVoxel.cs:152-193 | The grid has (U + 1)((V + 1) Height) points |
| Voxel.Faces | Spatial_Rhino7/Spatial_Printing_Components/conformalVoxel.cs:87-101 | A cuboid lists 24 integers: the six faces in order, each as its four corner indices |
| Voxel.FacesAreSquares | Spatial_Rhino7/Spatial_Printing_Components/conformalVoxel.cs:87-92 | Every face runs round a square of the cube |
| Voxel.FaceCornersDistinct | Spatial_Rhino7/Spatial_Printing_Components/conformalVoxel.cs:87-92 | Each face names four different corners |
| Voxel.EveryCornerOnThreeFaces | Spatial_Rhino7/Spatial_Printing_Components/conformalVoxel.cs:87-92 | Every corner of the cube lies on exactly three faces |
| Voxel.GenerateConformalVoxels | Spatial_Rhino7/Spatial_Printing_Components/conformalVoxel.cs:55-106 | No branch when a division count is not positive. Otherwise there is one branch per cell, w outermost and u innermost, each with the cell's path and 24 integers |
| Voxel.AsWrittenLattice | Spatial_Rhino7/Spatial_Printing_Components/conformalVoxel.cs:77-84 | The corners as written lay points out w outermost and u fastest, in blocks of (U + 1) by (V + 1) |
| Voxel.CornersIncrease | Spatial_Rhino7/Spatial_Printing_Components/conformalVoxel.cs:77-84 | The eight corners as written strictly increase |
| Voxel.AsWrittenInRange | Spatial_Rhino7/Spatial_Printing_Components/conformalVoxel.cs:77-84 | Every corner as written is a valid index into the point grid |
| Voxel.LastCornerIsLastPoint | Spatial_Rhino7/Spatial_Printing_Components/conformalVoxel.cs:77-84 | The top corner of the last cell as written is the last point of the grid |
| Voxel.BaseCornerInjective | Spatial_Rhino7/Spatial_Printing_Components/conformalVoxel.cs:77 | Different cells have different base corners |
| Voxel.AsWrittenTransposed | Spatial_Rhino7/Spatial_Printing_Components/conformalVoxel.cs:77-84 | With as many u as w divisions, a corner as written names the grid sample with u and w exchanged |
| Voxel.CornersAsWrittenMisplaced | Spatial_Rhino7/Spatial_Printing_Components/conformalVoxel.cs:77-84 | Cell (w, v, u) = (0, 0, 1) gets corner p0 = 1, a point of column (0, 0), while its own corner is a different point, the top of column (1, 0) |
| Voxel.CellCornersAreCellSamples | Spatial_Rhino7/Spatial_Printing_Components/conformalVoxel.cs:77-84 | With the grid's own layout, corner k of a cell is the grid sample at that corner of the cell |
| Voxel.FacesNameCellSamples | Spatial_Rhino7/Spatial_Printing_Components/conformalVoxel.cs:87-101 | In the corrected tree every face entry is the grid sample at the corner it names |

## Left out

- Floating point. Coordinates are integers in hundredths and weights integers in thousandths. Rounding to two decimals, the 0.01 and 1e-6 tolerances and `Math.Round` become exact comparisons.
- `VectorsEqual` (GraphSorting002.cs:364-382, called at :455 and :587) and the closest-point test at 20% and 80% of a segment (GraphSorting002.cs:521-613) are parameters (`sameDir`, `covers`). They need unit vectors and projections in floating point.
- The `IsVertical`/`IsAngled` tests of N_Bracing.cs use tangents and an angle threshold. They are parameters of the reordering.
- The timeout of `FindLongestTrail` is a fuel budget spent once per search step. Clocks are not modelled, and the "Operation was canceled due to timeout." line written to the Rhino console on cancellation (ContinuousToolpathMethods.cs:118) is dropped.
- Bracing.Reorder: runs on fuel, because the vertical and angled tests are parameters, and with arbitrary tests the loop can revisit a place forever (with both tests always true, two vertical curves sharing a top swap without end). With too little fuel the result is flagged as unfinished. Bracing.ReorderFinishes shows that with tests that behave as the source's tangent tests do under reversal, 3·|cs| iterations always suffice.
- 32-bit integer overflow of the C# index arithmetic in conformalVoxel.cs. Integers are unbounded here.
- Curves in N_Bracing.cs are shared reference objects reversed in place. Here a curve is a value carrying a reversal flag.
- Surface evaluation, domain mapping, the surface reversal and the blending of conformalVoxel.cs's grid. A grid point is named by the sample it stands for.
- `SolveInstance` of every component apart from the grid loop of conformalVoxel.cs (:152-193), which Voxel.PointGrid models; Grasshopper input/output; the output data trees apart from the cuboid tree of conformalVoxel.cs:58-101, which is a sequence of Voxel.Branch; and the final sort of GraphSorting002.cs:658-697.
- The "same start and same end point" branch in the overlap pass (GraphSorting002.cs:533-539) is not modelled separately. It can only be reached by a horizontal B, which the earlier test has already skipped (Combine.DegenerateKept).
- The `pointConnections` argument of `RefineWeights` is unused by the source and is left out.
- `RemoveShortLine` and `IsNearEndpoint` are helpers that the modelled operations never call. `ArePointsEqual` rounds to two decimals and becomes exact point equality: the self-skip at GraphSorting002.cs:521 is the `a == b` test of Combine.Overlap, and the uses at :561-598 lie inside the `covers` parameter. `GetLineVector` is only reached through `VectorsEqual` (:367-368), so it lies inside `sameDir`.
- Weighting.RefineWeights: states only that the key set is kept and that nothing changes at the limit. The per-level effect is stated by Weighting.RefineLevel.
- Dictionary enumeration order is not specified by .NET. It is an explicit `order` argument.
- The backtracking restore of `visitedEdges` and `currentTrail` in `DFS` is implicit: both are values passed down.
- Null lists, which make the source throw, have no counterpart.
- N_Bracing.cs:97: the comment says the vertical curve is reversed, but the code reverses the angled curve at the current index. The model follows the code.

## Findings

| source | as written | input that shows it | evidently intended | confidence | as-written member | corrected member |
|---|---|---|---|---|---|---|
| Spatial_Rhino7/Spatial_Printing_Components/GraphSorting002.cs:496-623 | The overlap pass reads A once, keeps deleting "index i" after earlier deletions have shifted the list, and never adjusts `i` or `j` | Vertical segments on one axis from z 10 to 20, 0 to 50 and 0 to 60, with a horizontal segment between them: the 50-unit segment is deleted though only segments shorter than 40 may be | Only segments shorter than 40 are ever deleted, and each deletion hits the segment the test was about | not executed | Combine.StaleIndexDropsLongLine | Combine.RemoveOverlaps |
| Spatial_Rhino7/Spatial_Printing_Components/conformalVoxel.cs:77-84 | Corner indices are laid out w outermost and u fastest, in blocks of (U + 1)(V + 1) | U = 2, V = W = 1, cell (0, 0, 1): p0 is point 1, the second point of column (0, 0), but the grid (lines 152-193) keeps the cell's corner at point 4 | Corner indices follow the grid's layout, u outermost with the column's layers fastest. The correction keeps p1 one step along u, as the offsets of lines 78-84 do; the diagram at lines 67-75 draws p0-p1 as a vertical edge, which reads p1 as the layer step instead. Both readings give the same cube with its corners named differently | not executed | Voxel.CornersAsWrittenMisplaced | Voxel.CellCornersAreCellSamples |
