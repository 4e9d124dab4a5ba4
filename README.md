# DesirePathSim in Dafny

DesirePathSim grows a small town on a tile grid and lets its villagers walk
through it. A Voronoi partition of the grid, subdivided at random over two
levels, lays out the streets. The world generator then stamps patterns and
patches onto the grid: crossings become roundabouts, and ponds, paved areas,
buildings with their entrances, and trees fill the blocks. Each villager picks
two building entrances and asks an A* pathfinder for a route between them. It
walks the route tile by tile. Every grass tile it steps on collects "desire
path" stress, which makes the tile cheaper to cross, and a saturated tile next
to a street turns into paving. The stress decays over time. A shadow bitmap,
made by dilating, eroding, shifting and masking the buildings and trees,
darkens the ground. The command line sets the simulation's options.

The model keeps the grid logic and proves what each operation does to the grid:

| module | file | models |
|---|---|---|
| `Util` | util.dfy | src/Util.hpp: bytes, optional values, `absDiff` |
| `TileTypes` | tile_type.dfy | src/TileType.hpp: the tile kinds and their sentinels |
| `Maps` | map.dfy | src/Map.hpp: the grid, `find` and the rotations |
| `WorldMaps` | world_map.dfy | src/WorldMap.hpp: the base traversal cost of a tile kind |
| `UpdateRects` | update_rect.dfy | src/UpdateRect.hpp: the dirty rectangle of a frame |
| `DesirePaths` | desire_paths.dfy | src/DesirePaths.cpp: stress, cost and decay |
| `BitmapTransform` | bitmap.dfy | src/Bitmap.cpp: erode, dilate, border, shift, invert and mask |
| `Voronoi` | voronoi.dfy | src/Voronoi.hpp: centroids, labelling, subdivision |
| `Regions` | regions.dfy | what `WorldGen::floodFill` fills: the 4-connected region of a seed |
| `WorldGens` | world_gen.dfy | src/WorldGen.cpp: flood fill, pattern search, patches, roundabouts, ponds, paved areas, buildings, trees |
| `Pathfinding` | pathfinding.dfy | src/Pathfinding.hpp: the node pool, the open list and `getPath` |
| `Villagers` | villager.dfy | src/Villager.cpp: the villager's states, `tick`, `reset` and its heuristic |
| `DesirePathSims` | desire_path_sim.dfy | src/DesirePathSim.cpp: the Voronoi levels, the base-cost map, the shadow bitmap, the path request hand-off |
| `CommandLine` | cli.dfy | src/main.cpp and src/Options.hpp: `std::stoi` and the `-name=value` arguments |

Map<T> is a value type in the source, so it is a datatype here. Objects whose
fields change in place are classes: `UpdateRect`, `WorldGen`, `Pathfinder`,
`Villager` and `DesirePathSim`. Loops stay loops, and each loop method is
proved against a grid predicate, a function, or a ghost fold of the step
relation its body applies. The round trips, invariants and
uniqueness facts are lemmas about those.

## Model

| member | source | states |
|---|---|---|
| `Maps.Map.Set` | src/Map.hpp:91-95 | writing through `at(x, y)` changes cell (x, y) to the new value, keeps the dimensions and leaves every other cell as it was |
| `Maps.FlatLayout` | src/Map.hpp:44-95 | the row-major vector has width * height elements and `at(x, y)` is its element y * width + x |
| `Maps.Create` | src/Map.hpp:43-50 | the sized constructor gives a width by height map whose every cell is `fill` |
| `Maps.FromRows` | src/Map.hpp:52-83 | the initializer-list constructor, for rows of equal length, has one row per list, the common row length as width, and cell (x, y) = rows[y][x] |
| `Maps.Rotated90CW` | src/Map.hpp:109-123 | the result has the dimensions swapped and holds old cell (x, y) at (height-1-y, x) |
| `Maps.Rotated90CCW` | src/Map.hpp:125-139 | the result has the dimensions swapped and holds old cell (x, y) at (y, width-1-x) |
| `Maps.Rotated180` | src/Map.hpp:141-155 | the corrected half turn: same dimensions, old cell (x, y) at (width-1-x, height-1-y) |
| `Maps.RotateCWThenCCW` | src/Map.hpp:109-139 | a clockwise turn followed by a counter-clockwise turn gives back the original map, dimensions and cells |
| `Maps.RotateCCWThenCW` | src/Map.hpp:109-139 | a counter-clockwise turn followed by a clockwise turn gives back the original map |
| `Maps.Rotate180Twice` | src/Map.hpp:141-155 | two (corrected) half turns are the identity |
| `Maps.Rotated180IndexAsWritten` | src/Map.hpp:144-150 | the vector position the as-written `rotated180` writes to is always a `size_t` value (below 2^64), computed on the swapped dimensions with wrap-around |
| `Maps.Rotated180AsWrittenSquare` | src/Map.hpp:141-155 | on a square map the as-written position is the intended (n-1-y) * n + (n-1-x) |
| `Maps.Rotated180AsWrittenOutOfRange` | src/Map.hpp:144-150 | on a 1-wide, 2-high map the as-written loop writes cell (0, 1) at position 2^64 - 1, outside the two-element vector |
| `Maps.Find` | src/Map.hpp:157-193 | none when the start is out of range; otherwise the first cell holding the value in row-major order at or after the start, then (with wrap) the first before it, or none; a returned cell always holds the value |
| `Maps.FindSpecUnique` | src/Map.hpp:157-193 | find's answer is a function of its arguments: two answers meeting its specification are equal |
| `Maps.FindWrapFindsAnyOccurrence` | src/Map.hpp:180-192 | with an in-range start, a wrapping find returns a cell iff the value occurs anywhere in the map |
| `Maps.FindWrapSingleOccurrence` | src/Map.hpp:157-193 | when at most one cell holds the value, a wrapping find gives the same answer from every in-range start |
| `UpdateRects.EmptyIsZero` | src/UpdateRect.hpp:44-47 | `empty()` holds exactly for the all-zero rectangle |
| `UpdateRects.AddToEmpty` | src/UpdateRect.hpp:49-65 | adding a cell to an empty rectangle makes it cover that cell and no other |
| `UpdateRects.AddToNonEmpty` | src/UpdateRect.hpp:49-57 | adding to a non-empty rectangle covers the new cell, keeps every cell covered before and moves no side inwards |
| `UpdateRects.AddIsTight` | src/UpdateRect.hpp:49-57 | each side of the grown rectangle is the old side or the new cell's coordinate (it is the smallest such box) |
| `UpdateRects.AddOriginThenPoint` | src/UpdateRect.hpp:44-65 | because the box covering only (0, 0) reads as empty, `add(0, 0)` then `add(x, y)` leaves exactly (x, y) covered and forgets (0, 0) |
| `UpdateRects.UpdateRect.constructor` | src/UpdateRect.hpp:8-13 | the default rectangle is all zero |
| `UpdateRects.UpdateRect.FromSides` | src/UpdateRect.hpp:27-34 | the four-argument constructor stores the four sides |
| `UpdateRects.UpdateRect.Reset` | src/UpdateRect.hpp:36-42 | `reset()` sets all four sides to zero |
| `UpdateRects.UpdateRect.Add` | src/UpdateRect.hpp:49-65 | `add(x, y)` leaves the rectangle the add rule describes (see the lemmas above) |
| `UpdateRects.UpdateRect.Width` | src/UpdateRect.hpp:67-70 | the width is positive exactly when left <= right, and then spans left to right inclusive |
| `UpdateRects.UpdateRect.Height` | src/UpdateRect.hpp:72-75 | the height is positive exactly when top <= bottom, and then spans top to bottom inclusive |
| `TileTypes.TileType.Value` | src/TileType.hpp:6-19 | every enumerator's value is a terrain value 0..5 or a sentinel value 253..255 |
| `TileTypes.ValueInjective` | src/TileType.hpp:6-19 | distinct enumerators have distinct values, and the sentinels are exactly the values from 253 up |
| `WorldMaps.BaseCostForValue` | src/WorldMap.hpp:11-23 | grass costs its random draw, street 10, entrance 12, water 100, and cost 0 (not walkable) is given exactly to buildings, trees and the sentinels |
| `WorldMaps.IsBaseCostCharacterised` | src/WorldMap.hpp:11-23 | the costs a kind can get: any of 14..16 for grass, one fixed cost for every other kind |
| `Util.AbsDiff` | src/Util.hpp:4-8 | the result is the non-negative distance between the two values and is zero exactly when they are equal |
| `DesirePaths.Clamp` | src/DesirePaths.cpp:8 | std::clamp to 0..255: a value in range is kept, below it gives 0, above it 255 |
| `DesirePaths.ToByte` | src/DesirePaths.cpp:17 | the store into a std::uint8_t cost cell keeps the value modulo 256, and a value in 0..255 unchanged |
| `DesirePaths.Discount` | src/DesirePaths.cpp:14-15 | the cost discount a stress level earns (stress / 64) is 0..3, 0 exactly below 64 and 3 exactly from 192 up |
| `DesirePaths.StressAfter` | src/DesirePaths.cpp:7-8 | the new stress is the sum clamped to [0, 255]: the sum in range, 255 or 0 beyond it, never below the old stress for a positive adjustment nor above it for a negative one |
| `DesirePaths.CostAfter` | src/DesirePaths.cpp:7-18 | the cost moves by the change of discount (stress / 64), which lies in [-3, 3], modulo 256, and stays when the discount does not change |
| `DesirePaths.CostStep` | src/DesirePaths.cpp:5-21 | one adjustment moves the cost cell by the change of discount, which lies in -3..3, modulo 256 |
| `DesirePaths.AdjustDesirePathStress` | src/DesirePaths.cpp:5-21 | returns the stress clamped to 0..255; when it is unchanged neither grid changes, otherwise exactly cell (x, y) of both grids changes, to the new stress and to the cost corrected by the change of discount |
| `DesirePaths.Telescoping` | src/DesirePaths.cpp:5-21 | over any sequence of adjustments of one cell the cost has moved by initial discount minus final discount (modulo 256): stress changes never leak cost |
| `DesirePaths.DecayStress` | src/DesirePaths.cpp:29 | a decay step clears stress 0 or 1 and otherwise takes 2 off |
| `DesirePaths.DecayDesirePaths` | src/DesirePaths.cpp:23-32 | every stress cell is decayed by 2 exactly once (clamped at 0), each cost cell under it is corrected by that cell's change of discount, and cost cells outside the stress grid are untouched |
| `BitmapTransform.Neighbour` | src/Bitmap.cpp:17-61 | a neighbour outside the bitmap contributes 0; a non-zero contribution comes from an in-range cell |
| `BitmapTransform.AddWrapping` | src/Bitmap.cpp:15-61 | `sum += v` on a `std::uint8_t` keeps the running sum equal to the true total modulo 256 |
| `BitmapTransform.AddColumn` | src/Bitmap.cpp:17-51 | the left or right column of the neighbourhood (with its diagonals when asked) adds its cells to the wrapping sum |
| `BitmapTransform.NeighbourSum` | src/Bitmap.cpp:15-61 | the neighbour sum the three transforms compute, in the source's order, is the sum of the 4 (or 8) in-range neighbours modulo 256 |
| `BitmapTransform.ErodeCell` | src/Bitmap.cpp:5-82 | the eroded cell is 0 or 1, and 1 only where the bitmap had a 1 |
| `BitmapTransform.DilateCell` | src/Bitmap.cpp:84-161 | the dilated cell is 0 or 1, and 1 wherever the bitmap was non-zero |
| `BitmapTransform.BorderCell` | src/Bitmap.cpp:163-240 | the border cell is 0 or 1, and 1 only where the bitmap had a 0 |
| `BitmapTransform.ShiftCell` | src/Bitmap.cpp:242-264 | a cell whose source lies off the bitmap takes the fill; a zero shift keeps every cell |
| `BitmapTransform.MaskCell` | src/Bitmap.cpp:281-313 | masking keeps a cell or clears it, and keeps every cell left of or above the mask |
| `BitmapTransform.ErodeMeaning` | src/Bitmap.cpp:5-82 | on a 0/1 bitmap erode keeps a 1 exactly where all 4 (or 8) neighbours exist and are 1, so every edge cell becomes 0 |
| `BitmapTransform.DilateMeaning` | src/Bitmap.cpp:84-161 | on a 0/1 bitmap dilate sets a cell exactly where it or some neighbour is set |
| `BitmapTransform.BorderMeaning` | src/Bitmap.cpp:163-240 | on a 0/1 bitmap border marks exactly the 0 cells with some set neighbour |
| `BitmapTransform.ErodeDilateOrder` | src/Bitmap.cpp:5-240 | on a 0/1 bitmap erode(b) <= b <= dilate(b) cell by cell, and border(b) is dilate(b) minus b |
| `BitmapTransform.Erode` | src/Bitmap.cpp:5-82 | the output has the input's size, is 0/1, and holds 1 exactly at a 1 cell whose wrapping neighbour sum is 4 (8 with diagonals) |
| `BitmapTransform.Dilate` | src/Bitmap.cpp:84-161 | the output has the input's size, is 0/1, and holds 0 exactly at a 0 cell whose wrapping neighbour sum is 0 |
| `BitmapTransform.Border` | src/Bitmap.cpp:163-240 | the output has the input's size, is 0/1, and holds 1 exactly at a 0 cell whose wrapping neighbour sum is non-zero |
| `BitmapTransform.Shift` | src/Bitmap.cpp:242-264 | the output has the input's size; each cell moved by (deltaX, deltaY) that lands inside keeps its value, and every cell nothing lands on holds the fill |
| `BitmapTransform.ShiftBack` | src/Bitmap.cpp:242-264 | shifting by (dx, dy) then by (-dx, -dy) gives back every cell whose shifted position lies inside the bitmap |
| `BitmapTransform.Invert` | src/Bitmap.cpp:266-279 | the output is 0/1, 1 exactly where the input is 0; on a 0/1 bitmap it is 1 - b |
| `BitmapTransform.Mask` | src/Bitmap.cpp:281-313 | each output cell is 0 where the overlapping mask cell is 1 and the bitmap's cell otherwise; no cell gets a value other than 0 or its own |
| `BitmapTransform.MaskAligned` | src/Bitmap.cpp:281-313 | with no offset and equal sizes, mask clears exactly the cells where the mask is 1 |
| `Voronoi.DistanceChebyshev` | src/Voronoi.hpp:43-46 | the Chebyshev distance is the larger of the two axis distances |
| `Voronoi.ChebyshevIsMetric` | src/Voronoi.hpp:43-46 | the Chebyshev distance is symmetric, zero exactly between equal points, and obeys the triangle inequality |
| `Voronoi.Distances` | src/Voronoi.hpp:100-104 | the distances the index search compares, one per centroid, in list order |
| `Voronoi.ShortestDistanceIndexUnique` | src/Voronoi.hpp:94-114 | the nearest-centroid answer is unique, and is an index into the list when the list is not empty |
| `Voronoi.ShortestDistanceCentroidIndex` | src/Voronoi.hpp:94-114 | the running minimum returns the first index of a smallest distance (strictly below the float maximum), or 0 when there is none or the list is empty |
| `Voronoi.Uniform` | src/Voronoi.hpp:71-72 | a uniform draw over [lo, lo + size - 1] lies in that range |
| `Voronoi.GenerateCentroids` | src/Voronoi.hpp:53-92 | an accepted batch has `count` centroids, each inside the area, each satisfying the predicate and each at least (width + height) / (count * 1.5) from every earlier one; no batch only when every draw was used up |
| `Voronoi.Widen` | src/Voronoi.hpp:139-159 | taking in a region cell makes the box contain that cell |
| `Voronoi.ScanStep` | src/Voronoi.hpp:135-162 | one cell of the scan keeps the box the bounding box of the region cells scanned so far |
| `Voronoi.ScanRowDone` | src/Voronoi.hpp:135-137 | finishing a row of the scan moves the scanned prefix to the start of the next row |
| `Voronoi.BoundingBox` | src/Voronoi.hpp:130-162 | for a region with cells, the result is its smallest bounding box (every side touches a region cell); for a region without cells it stays (SIZE_MAX, SIZE_MAX, 0, 0) |
| `Voronoi.ScanDone` | src/Voronoi.hpp:130-162 | after the whole map is scanned the box is the region's bounding box, or nothing was found when the region has no cell |
| `Voronoi.EmptyRegionBoxWraps` | src/Voronoi.hpp:164-165 | for a region without cells the `size_t` inner width wraps to 2 and the box's left edge converts to the int -1 |
| `Voronoi.InnerMap` | src/Voronoi.hpp:175-181 | every cell of the inner map holds the index of the new centroid nearest to the matching outer cell |
| `Voronoi.CombineInnerWithOuter` | src/Voronoi.hpp:184-196 | inside the box, each region cell takes its inner label plus the new start index; every other cell keeps its id |
| `Voronoi.SubdivisionLabelAt` | src/Voronoi.hpp:175-196 | a relabelled region cell carries the new start index plus its nearest new centroid, one of the new ids |
| `Voronoi.SubdivisionLabels` | src/Voronoi.hpp:175-196 | every region cell is relabelled that way, and with at least one new centroid each label lies among the new ids |
| `Voronoi.RegionPredicateOwns` | src/Voronoi.hpp:170-173 | the predicate handed to generateCentroids accepts exactly the box cells owned by the region |
| `Voronoi.AppendedCentroidsOwned` | src/Voronoi.hpp:169-201 | appending the drawn centroids keeps the old list as prefix, and every appended centroid sits on a cell of the region |
| `Voronoi.SubdivisionFromParts` | src/Voronoi.hpp:116-202 | the bounding box, the centroids drawn inside the region, the inner map and the combine step together make a subdivision |
| `Voronoi.SubdivisionUsesNewIds` | src/Voronoi.hpp:184-196 | after a subdivision with at least one new centroid, the region's cells carry only new ids |
| `Voronoi.NewLabelInRange` | src/Voronoi.hpp:174-194 | a label drawn from at least one new centroid names one of them |
| `Voronoi.SubdivisionRetiresId` | src/Voronoi.hpp:184-196 | when the subdivided id names an existing centroid, no cell keeps it |
| `Voronoi.Subdivide` | src/Voronoi.hpp:116-202 | for a region with at least one cell, a successful subdivide appends `countToAdd` centroids on cells of the region, keeps every cell outside the region, and labels each region cell with its nearest new centroid; no result only when the draws ran out |
| `Regions.Filled` | src/WorldGen.cpp:70-99 | the map a flood fill leaves: same size, the seed's 4-connected region set to the fill value, every other cell as it was |
| `Regions.SeedInRegion` | src/WorldGen.cpp:72-87 | the seed belongs to its own region |
| `Regions.RegionHoldsSeedValue` | src/WorldGen.cpp:85 | every cell of the region lies on the map and holds the seed's value |
| `Regions.ConnectedStep` | src/WorldGen.cpp:89-92 | one orthogonal step onto a cell holding the value keeps a cell connected to the seed |
| `Regions.RegionClosed` | src/WorldGen.cpp:85-92 | a neighbour of a region cell that holds the seed's value is in the region |
| `Regions.PathPrefixConnected` | src/WorldGen.cpp:80-96 | every cell along a walk from the seed is connected to the seed |
| `Regions.ClosedSetContainsRegion` | src/WorldGen.cpp:80-96 | any set holding the seed and closed under steps onto cells with the seed's value contains the whole region |
| `Regions.RegionKeptByFill` | src/WorldGen.cpp:70-99 | a cell of the region is in the seed's region of the filled map |
| `Regions.RegionNotGrownByFill` | src/WorldGen.cpp:70-99 | when no cell holding the fill value borders the region, the filled map's region holds no cell outside the original region |
| `Regions.RegionAlongPath` | src/WorldGen.cpp:80-96 | a walk from the seed whose every step stays in the region ends in the region |
| `Regions.RegionNotGrownStep` | src/WorldGen.cpp:89-92 | with no bordering fill cell, a step from the region onto a filled cell stays in the region |
| `Regions.FilledRegionUnchanged` | src/WorldGen.cpp:70-99 | after filling with a value that does not border the region, the seed holds the fill value and its region is the same set of cells |
| `Regions.Refill` | src/WorldGen.cpp:202-214 | filling the same seed again after such a fill recolours exactly the original region |
| `Regions.FillWithSameValue` | src/WorldGen.cpp:70-99 | filling a region with its own value changes nothing |
| `Regions.FillRevert` | src/WorldGen.cpp:202-214 | the revert of placePonds and placeFullPavedAreas restores the map exactly, provided no cell holding the fill value borders the region |
| `Regions.FillRevertNeedsSeparation` | src/WorldGen.cpp:202-214 | without that proviso the revert can fail: on the one-row map [f, v, v] filling (1, 0) with f and back with v also turns the original f cell into v |
| `WorldGens.PatchAtMatchAllowed` | src/WorldGen.cpp:55-67 | a patch that fits its pattern, applied where the pattern matches, changes cells only in the ways the fit allows |
| `WorldGens.IsPartitionBoundary` | src/WorldGen.cpp:107-179 | the neighbour tests of placeStreetsFromVoronoiMap, in the source's order, answer true exactly when some in-range 8-neighbour carries another partition id |
| `WorldGens.BoundaryOnBothSides` | src/WorldGen.cpp:101-182 | two 8-adjacent cells with different ids are both on the boundary, so both become street and two regions never touch directly |
| `WorldGens.ApartMeansNotNextTo` | src/WorldGen.cpp:202-214 | while no grass cell borders water, no water borders a grass region, which the pond revert needs |
| `WorldGens.PondKeepsApart` | src/WorldGen.cpp:202 | turning a whole grass region into water keeps every grass cell away from water |
| `WorldGens.FilledSeed` | src/WorldGen.cpp:70-99 | after a flood fill the seed holds the fill value |
| `WorldGens.GrassRegionWasGrass` | src/WorldGen.cpp:195-202 | after changes that only turned grass into f, every cell of a grass seed's region is grass and was grass at the start |
| `WorldGens.FillGrassAllowed` | src/WorldGen.cpp:236-242 | flooding a grass region with f, after changes that only turned grass into f, still only turns grass into f |
| `WorldGens.FillGrassChanged` | src/WorldGen.cpp:236-242 | that flood adds exactly the region, disjoint from the cells changed before, to the changed cells |
| `WorldGens.FillGrassRegion` | src/WorldGen.cpp:202-209 | that flood keeps the changes allowed and grows the number of changed cells by the region's size, the count floodFill returns |
| `WorldGens.PondAccepted` | src/WorldGen.cpp:204-210 | keeping a pond keeps grass and water apart, changes only grass into water, and adds the pond's cells to the water count |
| `WorldGens.PondRejected` | src/WorldGen.cpp:213-214 | dropping a pond (flooding the seed back with grass) restores the map as it was before the attempt |
| `WorldGens.NoTemporaryNotNextTo` | src/WorldGen.cpp:236 | on a map without the Temporary marker, no Temporary cell borders any region |
| `WorldGens.PavedAccepted` | src/WorldGen.cpp:236-245 | keeping a paved area (Temporary, then Street) leaves no Temporary cell, changes only grass into street, and adds the region to the count |
| `WorldGens.PavedRejected` | src/WorldGen.cpp:249-250 | dropping a paved area restores the map as it was before the attempt |
| `WorldGens.AttemptCount` | src/WorldGen.cpp:204-210 | an attempt adds either nothing or the whole region to the kept count, and a count within the fill limit stays within it |
| `WorldGens.GrassFound` | src/WorldGen.cpp:195 | the cell find(Grass, start, wrap) answers, when there is one, holds grass |
| `WorldGens.GrassFoundIs` | src/WorldGen.cpp:195 | any answer that find may give is GrassFound, so the folds follow what find returns |
| `WorldGens.PondAttempt` | src/WorldGen.cpp:202-214 | one attempt of placePonds leaves a valid world of the same size |
| `WorldGens.PondsRun` | src/WorldGen.cpp:190-215 | the attempts of placePonds from the i-th start on leave a valid world of the same size |
| `WorldGens.PondsRunTurn` | src/WorldGen.cpp:192-214 | one turn of placePonds leaves a valid world of the same size |
| `WorldGens.PondsRunStep` | src/WorldGen.cpp:195-214 | when start i finds grass at s, the run from i is the run from i + 1 after the attempt at s |
| `WorldGens.PondsRunEnds` | src/WorldGen.cpp:190 | after the last start the run changes nothing |
| `WorldGens.PondsRunWithinLimit` | src/WorldGen.cpp:204-210 | when the kept water starts within the fill limit, it is within it after every attempt |
| `WorldGens.PondAttemptKept` | src/WorldGen.cpp:202-214 | one attempt keeps grass and water apart, only grass turned into water, and the kept count equal to the changed cells |
| `WorldGens.PondsRunKept` | src/WorldGen.cpp:190-215 | the whole run keeps the same three facts |
| `WorldGens.PondsRunOutcome` | src/WorldGen.cpp:184-216 | a run from no water ends within the fill limit, and with those three facts when grass and water started apart |
| `WorldGens.PavedAttempt` | src/WorldGen.cpp:236-250 | one attempt of placeFullPavedAreas leaves a valid world of the same size |
| `WorldGens.PavedRun` | src/WorldGen.cpp:224-251 | the attempts of placeFullPavedAreas from the i-th start on leave a valid world of the same size |
| `WorldGens.PavedRunTurn` | src/WorldGen.cpp:226-250 | one turn of placeFullPavedAreas leaves a valid world of the same size |
| `WorldGens.PavedRunStep` | src/WorldGen.cpp:229-250 | when start i finds grass at s, the run from i is the run from i + 1 after the attempt at s |
| `WorldGens.PavedRunEnds` | src/WorldGen.cpp:224 | after the last start the run changes nothing |
| `WorldGens.PavedRunWithinLimit` | src/WorldGen.cpp:238-244 | when the kept street starts within the fill limit, it is within it after every attempt |
| `WorldGens.PavedAttemptKept` | src/WorldGen.cpp:236-250 | one attempt leaves no Temporary cell, only grass turned into street, and the kept count equal to the changed cells |
| `WorldGens.PavedRunKept` | src/WorldGen.cpp:224-251 | the whole run keeps the same three facts |
| `WorldGens.PavedRunOutcome` | src/WorldGen.cpp:218-252 | a run from no street ends within the fill limit, and with those three facts when no Temporary marker was present |
| `WorldGens.AllowedChain` | src/WorldGen.cpp:481-503 | allowed changes compose over successive patches when the relation is transitive |
| `WorldGens.PatchStepAllowed` | src/WorldGen.cpp:494-499 | one fitting patch applied at a match, after earlier allowed changes, leaves only allowed changes |
| `WorldGens.FirstMatch` | src/WorldGen.cpp:15-53 | findPattern's scan as a value: a found origin leaves room for the pattern on the map and is not before the start in row-major order |
| `WorldGens.FirstMatchSpec` | src/WorldGen.cpp:15-53 | FirstMatch is a match, no origin from the start up to it matches, and it is none only when no origin from the start on matches |
| `WorldGens.FirstMatchMatches` | src/WorldGen.cpp:21-41 | the origin FirstMatch finds is a match |
| `WorldGens.FirstMatchIs` | src/WorldGen.cpp:15-53 | any answer meeting findPattern's contract equals FirstMatch, so the search has one answer |
| `WorldGens.RowMatchesIff` | src/WorldGen.cpp:27-37 | the column scan of one pattern row from column px on matches iff every non-PatternAny cell there equals the world cell under it |
| `WorldGens.RowsMatchIff` | src/WorldGen.cpp:21-41 | the row-by-row scan from row py on matches iff every pattern cell of those rows matches, so from row 0 it is MatchesAt |
| `WorldGens.Patched` | src/WorldGen.cpp:55-67 | the world after applyPatch: same dimensions, each cell under a non-PatchKeep patch cell takes it, every other cell is unchanged |
| `WorldGens.PatchedRows` | src/WorldGen.cpp:57-66 | the first count rows of that world, each of world width, cell by cell the patched cell |
| `WorldGens.PatchedRow` | src/WorldGen.cpp:59-65 | the first count cells of one row of that world |
| `WorldGens.ScaledPercent` | src/WorldGen.cpp:494 | a draw of m_rngScaledPercent lies in 1 .. 100 * 1000 |
| `WorldGens.PickIndex` | src/WorldGen.cpp:496 | the uniform pick of a patch variation is an index of the list |
| `WorldGens.StampRun` | src/WorldGen.cpp:481-504 | the stamp loop as a fold over findPattern's matches: it keeps the dimensions and uses up draws, never handing one back |
| `WorldGens.StampRunStep` | src/WorldGen.cpp:489-503 | one turn of a stamp loop: at the first match from the cursor, a scaled percent at most the rate applies the picked (or only) variation, and the search resumes right of the match with the draws after those used |
| `WorldGens.StampRunTurn` | src/WorldGen.cpp:489-503 | the world and draw count one applyPatches turn leaves, with the cursor right of the match, carry the same remaining run |
| `WorldGens.StampRunAllowed` | src/WorldGen.cpp:481-504 | a whole stamp loop changes cells only in the ways its patches' fit allows |
| `WorldGens.StampRunIdle` | src/WorldGen.cpp:489-503 | with a rate below 1 no draw is low enough and the stamp loop leaves the world unchanged |
| `WorldGens.CatalogueRun` | src/WorldGen.cpp:506-511 | one catalogue pass as a fold of stamp loops from the last pattern down to the first, each at the scaled rate: dimensions kept, draws used up in order |
| `WorldGens.CatalogueRunStep` | src/WorldGen.cpp:506-511 | a pass over patterns 0..index is the stamp loop of patterns[index] followed by the pass over patterns 0..index-1 |
| `WorldGens.CatalogueRunAllowed` | src/WorldGen.cpp:506-511 | a catalogue pass changes cells only in allowed ways |
| `WorldGens.CatalogueRunIdle` | src/WorldGen.cpp:508 | when fillRate * 1000 is below the number of patterns the scaled rate is at most 0 and the pass changes nothing |
| `WorldGens.TurnedCatalogue` | src/WorldGen.cpp:513-526 | every pattern and every patch variation turned a quarter clockwise, list lengths kept |
| `WorldGens.TurnedCatalogueStampable` | src/WorldGen.cpp:513-526 | the turned catalogue can still be stamped: each variation has its pattern's (swapped) size |
| `WorldGens.TurnedCatalogueIs` | src/WorldGen.cpp:513-526 | any catalogue of quarter turns of a catalogue is its TurnedCatalogue, which makes the rotation loops' result unique |
| `WorldGens.TurnedCatalogueFits` | src/WorldGen.cpp:513-526 | the turned catalogue's variations still fit their patterns |
| `WorldGens.BuildingsRun` | src/WorldGen.cpp:503-577 | placeBuildings as a fold of catalogue passes with a quarter turn of the catalogue after each: dimensions kept, draws used up in order |
| `WorldGens.BuildingsRunStep` | src/WorldGen.cpp:503-577 | passes + 1 passes are one catalogue pass followed by passes passes of the turned catalogue, which can still be stamped |
| `WorldGens.BuildingsRunAllowed` | src/WorldGen.cpp:503-577 | all passes change cells only in the ways the catalogue allows |
| `WorldGens.BuildingsRunIdle` | src/WorldGen.cpp:508 | when fillRate * 1000 is below the number of patterns no pass changes anything |
| `WorldGens.RoundaboutsARun` | src/WorldGen.cpp:753-766 | placeRoundaboutsA's loop as a fold: every crossing found from the cursor gets the roundabout patch, the search resuming right of it |
| `WorldGens.RoundaboutsARunStep` | src/WorldGen.cpp:759-765 | one turn of that loop: the first crossing from the cursor gets the roundabout and the search resumes 8 cells to its right |
| `WorldGens.RoundaboutsARunFirst` | src/WorldGen.cpp:697-766 | the first crossing found lies on the map and its 8x8 window becomes the ring of the picture above placeRoundaboutsA before the loop goes on |
| `WorldGens.RoundaboutsARunAllowed` | src/WorldGen.cpp:753-766 | the whole loop only exchanges grass and street |
| `WorldGens.RoundaboutBPlaced` | src/WorldGen.cpp:782-813 | the world after placeRoundaboutsB's placeRoundabout: same dimensions, the edge and centre groups written, every other cell unchanged |
| `WorldGens.RoundaboutsBRun` | src/WorldGen.cpp:821-838 | one placeRoundaboutsB loop as a fold: every street block found from the cursor gets a roundabout, the search resuming 8 cells right of it |
| `WorldGens.RoundaboutsBRunStep` | src/WorldGen.cpp:823-829 | one turn of that loop: the first block from the cursor gets the roundabout and the search resumes at its column + 8 |
| `WorldGens.RoundaboutsBRunFirst` | src/WorldGen.cpp:768-839 | the first 4x5 or 5x4 block found lies on the map, and when its 6x6 surround does too, that surround becomes the ring of the picture above placeRoundaboutsB before the loop goes on |
| `WorldGens.RoundaboutsBRunAllowed` | src/WorldGen.cpp:821-838 | the whole loop only writes street or grass |
| `WorldGens.WorldGen.ApplyPatchRow` | src/WorldGen.cpp:59-65 | the inner loop of applyPatch sets row patchY of the window to the patched cells and leaves every other cell as it was |
| `WorldGens.WorldGen.ApplyPatchesStep` | src/WorldGen.cpp:489-503 | one turn of applyPatches: found iff findPattern finds FirstMatch; not found changes nothing; found with a draw at most the rate applies the variation picked by the next draw and uses two draws, otherwise one draw and no change |
| `WorldGens.GrassToTransitive` | src/WorldGen.cpp:580-695 | "grass becomes f" is transitive when f is not grass |
| `WorldGens.PatchFitsRotated` | src/WorldGen.cpp:513-526 | turning a pattern and its patch the same quarter turn keeps the patch fitting the pattern |
| `WorldGens.TruncDiv` | src/WorldGen.cpp:508 | C++ int division: for non-negative operands the quotient is the floor, and a dividend below the divisor gives at most 0 |
| `WorldGens.ScaledBuildingRate` | src/WorldGen.cpp:508 | the per-pattern scaled fill rate is at most 0 when fillRate * 1000 is below the number of patterns |
| `WorldGens.RotatedCatalogue` | src/WorldGen.cpp:513-526 | every pattern and every patch variation is turned a quarter turn clockwise, and the catalogue still fits the world |
| `WorldGens.RotatedAll` | src/WorldGen.cpp:515-518 | every map of the list is turned a quarter turn clockwise |
| `WorldGens.RotatedVariations` | src/WorldGen.cpp:520-526 | every patch variation is turned a quarter turn clockwise, and each pattern keeps its number of variations |
| `WorldGens.CatalogueRotated` | src/WorldGen.cpp:513-526 | a catalogue turned a quarter turn still fits the world and its patches still fit their patterns |
| `WorldGens.CrownPatch` | src/WorldGen.cpp:610-620 | the crown patch is size by size, Tree on each row's crown columns and PatchKeep everywhere else |
| `WorldGens.CrownFits` | src/WorldGen.cpp:598-620 | a crown on the all-grass pattern only turns grass into trees |
| `WorldGens.CrossingStreetPattern` | src/WorldGen.cpp:713-722 | the 8x8 crossing pattern is street on columns 3-4 and rows 3-4, grass elsewhere |
| `WorldGens.RoundaboutAPatch` | src/WorldGen.cpp:724-751 | the sixteen writes of placeRoundabout as an 8x8 patch: street in the four corner groups, grass in the centre, nothing else |
| `WorldGens.RoundaboutAFits` | src/WorldGen.cpp:713-751 | the roundabout writes only on the crossing's grass and street, and grass-or-street exchange is transitive |
| `WorldGens.RoundaboutAPicture` | src/WorldGen.cpp:699-708 | placing the roundabout on a crossing turns the 8x8 window into the ring of the picture above placeRoundaboutsA: street exactly on the diamond ring, grass elsewhere |
| `WorldGens.RoundaboutAPictureAt` | src/WorldGen.cpp:699-751 | the picture, one cell of the window at a time |
| `WorldGens.RingOverCrossing` | src/WorldGen.cpp:699-751 | offset by offset, the ring is the patch's street where it writes and the crossing's street where it does not |
| `WorldGens.Set3Written` | src/WorldGen.cpp:726-744 | three writes of one value set exactly a three-cell corner group |
| `WorldGens.Set4Written` | src/WorldGen.cpp:746-750 | four writes of one value set exactly a four-cell group |
| `WorldGens.RoundaboutAGroups` | src/WorldGen.cpp:724-751 | the five groups of writes together apply the roundabout patch |
| `WorldGens.SetOnMap` | src/WorldGen.cpp:784-806 | the corrected edge write: it sets (x, y) when it lies on the map and changes nothing otherwise |
| `WorldGens.Set4OnMapWritten` | src/WorldGen.cpp:784-806 | four guarded writes set exactly the on-map cells of an edge group |
| `WorldGens.RoundaboutBGroups` | src/WorldGen.cpp:782-813 | the five groups of (corrected) writes give street on the on-map edge cells around the block and grass on its centre |
| `WorldGens.RoundaboutBPicture` | src/WorldGen.cpp:770-777 | on a street block with a free cell on every side, the 6x6 window becomes the picture above placeRoundaboutsB: a street ring around a 2x2 grass centre, corners kept |
| `WorldGens.RoundaboutBStepAllowed` | src/WorldGen.cpp:821-838 | one placement keeps every change a write of street or grass |
| `WorldGens.AtIndexAsWritten` | src/WorldGen.cpp:784-806 | the vector position `at(x, y)` addresses for `size_t` coordinates is always below 2^64 |
| `WorldGens.AtIndexOnMap` | src/WorldGen.cpp:784-806 | for a cell on the map that position is its row-major index, so the guarded writes agree with the as-written writes wherever those stay on the map |
| `WorldGens.RoundaboutBTopEdgeOutOfRange` | src/WorldGen.cpp:779-823 | on an all-street 6x6 world the first block is found at (0, 0) and the top-edge write at (0, -1) addresses element 2^64 - 6 of a 36-element vector |
| `WorldGens.GrassTopRow` | src/WorldGen.cpp:779 | the 6x6 example world: grass top row, street below |
| `WorldGens.RoundaboutBLeftEdgeWraps` | src/WorldGen.cpp:796-823 | on that world the first block is at (0, 1) and the left-edge write at (-1, 1) lands on the grass cell (5, 0), outside the ring |
| `WorldGens.NoBlockInGrassTopRow` | src/WorldGen.cpp:779 | no 4x5 street block starts on the grass top row |
| `WorldGens.WorldGen.constructor` | src/WorldGen.cpp:5-13 | the generator edits the world map it was built on |
| `WorldGens.WorldGen.FloodFill` | src/WorldGen.cpp:70-99 | the stack-driven fill leaves the seed's 4-connected region set to the fill value, every other cell unchanged, and returns the region's size |
| `WorldGens.WorldGen.MatchesWindow` | src/WorldGen.cpp:21-41 | the inner loops of findPattern report a match exactly when every non-PatternAny cell equals the world cell under it |
| `WorldGens.WorldGen.FindPattern` | src/WorldGen.cpp:15-53 | returns the first matching origin at or after the start in row-major order, or false when no origin there matches |
| `WorldGens.WorldGen.ApplyPatch` | src/WorldGen.cpp:55-67 | every non-PatchKeep patch cell overwrites the world cell under it and nothing else changes |
| `WorldGens.WorldGen.PlaceStreetsFromVoronoiMap` | src/WorldGen.cpp:101-182 | exactly the cells on a partition boundary become street; all other cells keep their tile |
| `WorldGens.WorldGen.PlacePonds` | src/WorldGen.cpp:184-216 | the final world and kept water count are those of `PondsRun` from the initial world over the hundred starts. The kept water stays within the fill limit. When grass and water start apart they stay apart, only grass turns into water, and the kept count is the number of changed cells |
| `WorldGens.WorldGen.PlaceFullPavedAreas` | src/WorldGen.cpp:218-252 | the final world and kept street count are those of `PavedRun` from the initial world over the hundred starts. The kept street stays within the fill limit. When no Temporary marker is present at the start none is left, only grass turns into street, and the count is the number of changed cells |
| `WorldGens.WorldGen.PondTurn` | src/WorldGen.cpp:192-214 | one turn of the loop either finds no grass, and the world and count are the run's result, or moves the run from start i to start i + 1; after the last start the world and count are the run's result |
| `WorldGens.WorldGen.TryPond` | src/WorldGen.cpp:202-214 | flooding the grass region at (x, y) with water, and back with grass unless both limits hold, yields PondAttempt's world and count |
| `WorldGens.WorldGen.PavedTurn` | src/WorldGen.cpp:226-250 | the same for placeFullPavedAreas and PavedRun |
| `WorldGens.WorldGen.TryPaved` | src/WorldGen.cpp:236-250 | flooding with Temporary, then with Street when both limits hold or back with grass otherwise, yields PavedAttempt's world and count |
| `WorldGens.WorldGen.ApplyPatches` | src/WorldGen.cpp:481-504 | the new world and next draw are exactly StampRun from the start (every match in turn, a draw against the rate, a picked variation applied); only allowed changes, and none at a rate below 1 |
| `WorldGens.WorldGen.ApplyCatalogue` | src/WorldGen.cpp:506-511 | the new world and next draw are exactly CatalogueRun over the whole catalogue, last pattern first; only allowed changes, and none when the scaled rate truncates to 0 |
| `WorldGens.WorldGen.PlaceBuildings` | src/WorldGen.cpp:481-577 | the new world and next draw are exactly BuildingsRun with four passes and a quarter turn of the catalogue between passes; only the changes the catalogue allows, and none when the fill rate truncates to 0 |
| `WorldGens.WorldGen.PlaceTrees` | src/WorldGen.cpp:622-640 | the new world and next draw are exactly StampRun of the one crown patch at rate fillRate * 1000; only grass turns into trees, and nothing changes for a fill rate below 1 |
| `WorldGens.WorldGen.PlaceLargeTrees` | src/WorldGen.cpp:580-641 | exactly StampRun of the round 9x9 crown over 9x9 grass squares; only grass turns into trees, none for a fill rate below 1 |
| `WorldGens.WorldGen.PlaceSmallTrees` | src/WorldGen.cpp:643-695 | exactly StampRun of the small 6x6 crown over 6x6 grass squares; only grass turns into trees, none for a fill rate below 1 |
| `WorldGens.WorldGen.PlaceRoundaboutA` | src/WorldGen.cpp:724-751 | the sixteen writes apply the roundabout patch at (x, y) |
| `WorldGens.WorldGen.PlaceRoundaboutATopLeft` | src/WorldGen.cpp:726-729 | sets the top-left corner group to street and nothing else |
| `WorldGens.WorldGen.PlaceRoundaboutATopRight` | src/WorldGen.cpp:731-734 | sets the top-right corner group to street and nothing else |
| `WorldGens.WorldGen.PlaceRoundaboutABottomLeft` | src/WorldGen.cpp:736-739 | sets the bottom-left corner group to street and nothing else |
| `WorldGens.WorldGen.PlaceRoundaboutABottomRight` | src/WorldGen.cpp:741-744 | sets the bottom-right corner group to street and nothing else |
| `WorldGens.WorldGen.PlaceRoundaboutACenter` | src/WorldGen.cpp:746-750 | sets the four centre cells to grass and nothing else |
| `WorldGens.WorldGen.PlaceRoundaboutsA` | src/WorldGen.cpp:697-766 | the new world is exactly RoundaboutsARun from (0, 0), so each crossing found becomes the ring picture (RoundaboutsARunFirst); only grass and street are exchanged |
| `WorldGens.WorldGen.PlaceRoundaboutB` | src/WorldGen.cpp:782-813 | the twenty (corrected) writes give street on the on-map edge cells around the block and grass on its centre |
| `WorldGens.WorldGen.PlaceRoundaboutBTopEdge` | src/WorldGen.cpp:784-788 | sets the on-map cells of the top edge group to street and nothing else |
| `WorldGens.WorldGen.PlaceRoundaboutBBottomEdge` | src/WorldGen.cpp:790-794 | sets the on-map cells of the bottom edge group to street and nothing else |
| `WorldGens.WorldGen.PlaceRoundaboutBLeftEdge` | src/WorldGen.cpp:796-800 | sets the on-map cells of the left edge group to street and nothing else |
| `WorldGens.WorldGen.PlaceRoundaboutBRightEdge` | src/WorldGen.cpp:802-806 | sets the on-map cells of the right edge group to street and nothing else |
| `WorldGens.WorldGen.PlaceRoundaboutBCenter` | src/WorldGen.cpp:808-812 | sets the four centre cells of the block to grass and nothing else |
| `WorldGens.WorldGen.PlaceRoundaboutsB` | src/WorldGen.cpp:768-839 | the new world is exactly RoundaboutsBRun over 4x5 blocks and then over 5x4 blocks, each from (0, 0), so each block found gets the ring (RoundaboutsBRunFirst); only street and grass are written |
| `WorldGens.WorldGen.ReplaceAll` | src/WorldGen.cpp:254-266 | every cell holding `what` now holds `with`, every other cell is unchanged |
| `WorldGens.Neighbours4` | src/WorldGen.cpp:89-92 | the pushes of floodFill are exactly the on-map orthogonal neighbours of the cell |
| `WorldGens.FillStart` | src/WorldGen.cpp:72-78 | the fill loop's invariant holds with only the seed on the stack |
| `WorldGens.FillStepRecolour` | src/WorldGen.cpp:82-95 | popping a cell that still holds the replaced value recolours a region cell not recoloured before, and the invariant holds after its neighbours are pushed |
| `WorldGens.RecolourCells` | src/WorldGen.cpp:87 | recolouring the popped cell adds it to the recoloured cells and changes no other cell |
| `WorldGens.RecolourStack` | src/WorldGen.cpp:89-92 | every stacked cell holding the replaced value stays in the region after the pushes |
| `WorldGens.RecolourClosure` | src/WorldGen.cpp:89-92 | every same-valued neighbour of a recoloured cell is recoloured or still on the stack |
| `WorldGens.FillPop` | src/WorldGen.cpp:80-96 | one pass of the loop keeps the invariant and either recolours one more cell or shrinks the stack |
| `WorldGens.FillStepCount` | src/WorldGen.cpp:94 | the count grows by one with each recoloured cell and never exceeds the number of cells |
| `WorldGens.FillStepSkip` | src/WorldGen.cpp:82-85 | popping a cell that no longer holds the replaced value changes nothing but the stack |
| `WorldGens.FillDone` | src/WorldGen.cpp:80-98 | with the stack empty, the recoloured cells are exactly the seed's region |
| `WorldGens.FillDoneMap` | src/WorldGen.cpp:70-99 | the recoloured cells being the region, the map is the filled map |
| `Pathfinding.DefaultHeuristic` | src/Pathfinding.hpp:51-59 | the result fits in 32 bits and, when both coordinate differences do, it is the larger of the two (the Chebyshev distance) |
| `Pathfinding.DefaultHeuristicConsistent` | src/Pathfinding.hpp:51-59 | the Chebyshev heuristic is zero exactly at the goal and drops by at most one per 8-neighbour step, so with step costs of at least one it never overestimates |
| `Pathfinding.Reversed` | src/Pathfinding.hpp:270 | std::reverse: same length, element i is element n-1-i of the input |
| `Pathfinding.AppendIsInsert` | src/Pathfinding.hpp:161-179 | push_back at the end is the same list as an insert at position size() |
| `Pathfinding.PlaceOpened` | src/Pathfinding.hpp:161-179 | both branches (push_back at the end, insert in the middle) give the list with the node inserted at the insertion point, and the node stores that point as its index |
| `Pathfinding.StartKeeps` | src/Pathfinding.hpp:103-106 | on an idle pool, opening the start node at index 0 with the list [start] establishes the search invariant, every other cell still unopened |
| `Pathfinding.SetKeepsCoordinates` | src/Pathfinding.hpp:139-148 | writing a node that keeps its cell's coordinates and f = g + h keeps both properties for the whole pool |
| `Pathfinding.SetKeepsListed` | src/Pathfinding.hpp:150-179 | writing a reached node whose index lies in the grown list keeps every list entry reached and every touched node listed |
| `Pathfinding.SetKeepsRooted` | src/Pathfinding.hpp:139-186 | writing a parent on every reached node other than the start keeps the start as the only root |
| `Pathfinding.ParentKeepsLinked` | src/Pathfinding.hpp:139-186 | giving a not-yet-closed node the closed current node as parent, across a traversable 8-step, keeps every parent link leading to an earlier-closed node |
| `Pathfinding.CloseKeepsLinked` | src/Pathfinding.hpp:120-121 | closing current, with the next rank if it was not closed yet, keeps the parent links ordered by closing time |
| `Pathfinding.CloseKeepsBudget` | src/Pathfinding.hpp:120-121 | closing a node changes no g, so the termination budget still holds |
| `Pathfinding.OpenKeepsBudget` | src/Pathfinding.hpp:137-150 | a node opened for the first time was in the unopened set and leaves it, the budget still holding |
| `Pathfinding.RelaxKeepsBudget` | src/Pathfinding.hpp:184-189 | a strict improvement of g through current uses up the pair (current, adjacent), which could not improve it again |
| `Pathfinding.CloseKeeps` | src/Pathfinding.hpp:116-121 | taking an entry of the list and closing its node keeps the whole search invariant |
| `Pathfinding.OpenKeeps` | src/Pathfinding.hpp:137-179 | opening a new neighbour with current as parent keeps the search invariant and removes it from the unopened set |
| `Pathfinding.RelaxKeeps` | src/Pathfinding.hpp:181-189 | relaxing an open neighbour through current keeps the search invariant and uses up the pair (current, neighbour) |
| `Pathfinding.ReindexKeeps` | src/Pathfinding.hpp:193-208 | inserting a second entry for an open node and storing its new index keeps the search invariant |
| `Pathfinding.ReindexKeepsLinked` | src/Pathfinding.hpp:205-207 | changing only the stored index keeps the parent links |
| `Pathfinding.ReindexKeepsBudget` | src/Pathfinding.hpp:205-207 | changing only the stored index keeps the termination budget |
| `Pathfinding.Cleared` | src/Pathfinding.hpp:290-296 | a cleared node has no parent and neither flag, and keeps its coordinates and scores |
| `Pathfinding.ClearStep` | src/Pathfinding.hpp:290-296 | clearing one more listed node extends the cleared prefix by that node |
| `Pathfinding.ClearedIsIdle` | src/Pathfinding.hpp:288-298 | since every touched node is in the open list, clearing the listed nodes leaves no node touched, with f = g + h kept |
| `Pathfinding.Pathfinder.constructor` | src/Pathfinding.hpp:70-84 | width x height nodes, each knowing its own coordinates, none touched, the open list empty |
| `Pathfinding.Pathfinder.GetPath` | src/Pathfinding.hpp:87-280 | the result is empty or leads from the start to the end in 8-neighbour steps canTraverse allows; start == end gives [start]; the search terminates; afterwards the pool is idle again |
| `Pathfinding.Pathfinder.OpenStart` | src/Pathfinding.hpp:103-106 | the start node is open at index 0 and the list is [start], establishing the search invariant |
| `Pathfinding.Pathfinder.CloseNode` | src/Pathfinding.hpp:116-121 | only the taken node changes: not open, closed; the invariant and the termination measure are kept |
| `Pathfinding.Pathfinder.Expand` | src/Pathfinding.hpp:213-251 | the eight neighbour calls keep the invariant, never raise the measure and never shrink the list |
| `Pathfinding.Pathfinder.ExpandRow` | src/Pathfinding.hpp:213-241 | the three calls for the row above or below keep the invariant and the closed current and start nodes |
| `Pathfinding.Pathfinder.HandleAdjacent` | src/Pathfinding.hpp:129-211 | only the neighbour's node may change, and only when it was not closed; the invariant is kept and the measure does not grow |
| `Pathfinding.Pathfinder.OpenAdjacent` | src/Pathfinding.hpp:137-179 | a new neighbour gets current as parent, g = tempG, h from the heuristic, f = g + h, and an entry at its stored index at or after the cursor |
| `Pathfinding.Pathfinder.InsertOpened` | src/Pathfinding.hpp:161-179 | the list is the old one with the neighbour inserted at the insertion point, and only the neighbour's node changes |
| `Pathfinding.Pathfinder.RelaxAdjacent` | src/Pathfinding.hpp:181-209 | an open neighbour with a better g gets current as parent and the lower g with f = g + h; only its node changes |
| `Pathfinding.Pathfinder.InsertEntry` | src/Pathfinding.hpp:202-208 | the list gains a second entry for the node at the insertion index, which becomes its stored index |
| `Pathfinding.Pathfinder.ReconstructPath` | src/Pathfinding.hpp:254-270 | following parents from the closed end node reaches the start, and the reversed chain is a valid path from start to end |
| `Pathfinding.Pathfinder.ClearOpenList` | src/Pathfinding.hpp:288-299 | exactly the nodes the open list points to lose parent and flags, nothing else changes, and the list is empty |
| `Pathfinding.Pathfinder.UpperBound` | src/Pathfinding.hpp:153-159 | a position in [first, size]; on a range sorted by f, every entry before it has f at most the key and every entry from it on has a larger f |
| `Pathfinding.Pathfinder.ScanDown` | src/Pathfinding.hpp:193-200 | stops below the stored index: every entry it passed has a larger f, and a stop at or after the cursor is at an entry with f at most the new f; -1 stands for the wrap below 0 |
| `Villagers.IsBlocked` | src/Villager.cpp:227-239 | a kind is blocked exactly when it is water or has no base cost: street, entrance and grass are free |
| `Villagers.CanTraverseOn` | src/Villager.cpp:241-251 | a move is allowed exactly when every cell of the square it spans other than the start is free (and the target, even onto the start): the target alone for a straight move, the target and both corners for a diagonal |
| `Villagers.BlockedKinds` | src/Villager.cpp:227-239 | a kind is blocked exactly when it has no base cost or is water: street, entrance and grass are walkable, water is not |
| `Villagers.DiagonalNeedsBothCorners` | src/Villager.cpp:241-251 | a diagonal step is allowed exactly when the target and both corner cells it cuts past are free |
| `Villagers.StepCost` | src/Villager.cpp:253-260 | a step onto a tile of base cost c costs between 10c and 14c, exactly 10c when the move is straight or c is zero |
| `Villagers.StepCostRange` | src/Villager.cpp:253-260 | a step onto a tile of base cost c costs between 10c and 14c, 10c exactly for a straight step (or c = 0), and the 32-bit casts leave it unchanged |
| `Villagers.OctileHeuristic` | src/Villager.cpp:262-273 | the size_t expression, kept modulo 2^32 by the casts, is below 2^32 and zero at the goal |
| `Villagers.OctileValue` | src/Villager.cpp:262-273 | on grid-sized differences the size_t wrap of d2 - 2d cancels and the heuristic is the octile distance 10 max + 4 min |
| `Villagers.OctileConsistent` | src/Villager.cpp:262-273 | the heuristic is zero at the goal and never drops by more than the cost of a step onto a tile of cost at least one, so A* with it is admissible |
| `Villagers.CallbackPathWalkable` | src/Villager.cpp:241-275 | a path getPath returns for the canTraverse closure lies on the world, starts at the spawn, ends at the destination and takes only allowed 8-steps |
| `Villagers.RowAround` | src/Villager.cpp:118-160 | the cells listed for one row are exactly the on-grid cells of that row within one column of x, each once |
| `Villagers.Neighbors` | src/Villager.cpp:118-160 | the list holds exactly the on-grid 8-neighbours of the tile, each once, at most eight |
| `Villagers.NeighborsMember` | src/Villager.cpp:118-160 | the neighbour list holds exactly the on-grid 8-neighbours of the tile |
| `Villagers.NeighborsRing` | src/Villager.cpp:118-160 | the neighbour list has no duplicates, stays on the grid and never holds the tile itself |
| `Villagers.StreetAmongNeighbors` | src/Villager.cpp:164-177 | scanning the neighbour list finds a street or entrance exactly when some 8-neighbour is one |
| `Villagers.AddedGrassCovers` | src/Villager.cpp:180-190 | after the paving loop the update rectangle covers every grass neighbour and everything it covered before, (0, 0) excepted |
| `Villagers.MoveRectCoversChanges` | src/Villager.cpp:99-191 | every tile whose kind moveOntoTile changes lies in the update rectangle, (0, 0) excepted |
| `Villagers.PavingNeedsStreetNearby` | src/Villager.cpp:112-178 | the tile changes kind exactly when it is grass, paving is on, its stress saturates at 255 and a street or entrance is next to it; it then becomes street with stress 0 and cost 10 |
| `Villagers.StressRises` | src/Villager.cpp:114 | on grass that stays grass the stress rises by the draw, saturating at 255 |
| `Villagers.PavedTileIsInert` | src/Villager.cpp:112 | once a tile has been paved, stepping onto it again changes nothing |
| `Villagers.MovedFrom` | src/Villager.cpp:112-191 | the stress bump followed, when paved, by the paving of the tile and its grass ring gives the grids moveOntoTile specifies |
| `Villagers.PaveStep` | src/Villager.cpp:183-189 | one round of the paving loop paves the neighbour exactly when it is grass and leaves every other cell alone |
| `Villagers.PaveStart` | src/Villager.cpp:173 | paving the tile itself starts the paving progress with no neighbour visited |
| `Villagers.Villager.constructor` | src/Villager.hpp:77-86 | a new villager awaits a path, with an empty path and index 0 |
| `Villagers.Villager.SetState` | src/Villager.hpp:50-53 | only the state changes; the stored state keeps the class invariant |
| `Villagers.Villager.PaveTile` | src/Villager.cpp:280-302 | a street is left alone; any other tile becomes street with base cost 10 and stress 0, and the update rectangle grows by it |
| `Villagers.Villager.MoveOntoTile` | src/Villager.cpp:99-192 | off grass nothing changes; on grass the stress is bumped and, when the paving condition holds, the tile and its grass ring become street; the rectangle grows by exactly the paved tiles |
| `Villagers.Villager.StreetNearby` | src/Villager.cpp:164-177 | true exactly when some listed neighbour is a street or an entrance |
| `Villagers.Villager.PaveWithRing` | src/Villager.cpp:173-190 | the tile and every grass neighbour become street and nothing else changes; the rectangle grows by them in list order |
| `Villagers.Villager.PaveNeighbor` | src/Villager.cpp:183-189 | one neighbour is paved exactly when it is grass, and the rectangle grows by it then |
| `Villagers.Villager.Tick` | src/Villager.cpp:8-97 | awaiting, enqueued or between tiles nothing changes; a provided path spawns at its first tile and starts moving; reaching a tile steps onto it and either continues or, at the last tile, clears the path and awaits a new one; the grids and the rectangle change by TickStep on the fields it had before |
| `Villagers.SteppedOnto` | src/Villager.cpp:35-75 | for a consistent villager, tick steps onto a tile exactly when its path was just provided (the first tile) or it is moving and reaches the next one (index + 1), always a tile of its path |
| `Villagers.MovedOntoUnique` | src/Villager.cpp:99-192 | moveOntoTile is deterministic: two outcomes of the same step from the same grids are equal |
| `Villagers.Villager.Reset` | src/Villager.cpp:194-278 | the spawn is what the wrapping entrance search from the first draw yields; the destination comes from the first later draw whose search yields a cell other than the spawn, every draw before it having yielded the spawn; the villager is AwaitingPath exactly when no draw gave such a cell or getPath returned an empty path, and otherwise holds getPath's route: at least two cells from spawn to destination, both entrances, through allowed steps |
| `Villagers.SearchYieldsFind` | src/Villager.cpp:206-209 | the cell Find gives (or the (0, 0) fallback) is what every answer of the wrapping entrance search from that draw yields, so findRandomBuildingEntrance is a function of its draw |
| `Villagers.EntranceSearchesAgree` | src/Villager.cpp:206-220 | with at most one entrance, every entrance search yields the spawn point, so the do-while destination loop never ends |
| `Villagers.WalledIn` | src/Villager.cpp:275-277 | a valid 3 x 1 world of two entrances separated by a building |
| `Villagers.WalledInGetsNoPath` | src/Villager.cpp:275-277 | in that world every result getPath may return for the two entrances is empty, yet reset stores PathProvided |
| `Villagers.NoStepOutOfWalledIn` | src/Villager.cpp:241-251 | canTraverse allows no step out of the left entrance of that world |
| `Villagers.ResetPhaseAsWritten` | src/Villager.cpp:275-277 | reset as written stores PathProvided at index 0 with whatever getPath returned, which is a consistent villager exactly when that path has at least two cells |
| `Villagers.ResetAsWrittenBreaksTick` | src/Villager.cpp:275-277 | reset as written, between the two entrances of the walled-in world, stores PathProvided with a path of fewer than two cells, a villager that is not consistent |
| `DesirePathSims.Level0` | src/DesirePathSim.cpp:28-39 | when the draws suffice, count centroids and a map of the world's size in which every cell carries the index of its nearest centroid (the lowest on a tie), an index below count; no result only when the draws ran out |
| `DesirePathSims.FindFromOrigin` | src/DesirePathSim.cpp:47 | a non-wrapping find from (0, 0) succeeds exactly when the region owns some cell |
| `DesirePathSims.StepRelabelled` | src/DesirePathSim.cpp:43-65 | one subdivide within a level changes only cells of the level's ids, and only to ids appended after the level began |
| `DesirePathSims.StepRetired` | src/DesirePathSim.cpp:43-65 | subdividing id leaves no cell labelled id, and ids retired earlier in the level stay retired |
| `DesirePathSims.StepKept` | src/DesirePathSim.cpp:43-65 | subdividing a chosen id leaves every region whose draw did not choose it untouched |
| `DesirePathSims.SubdivideLevel` | src/DesirePathSim.cpp:43-65 | the centroid list only grows; each chosen region that owns cells no longer labels any cell and its cells carry new ids; unchosen regions keep every cell; when no draw chooses, the map and list are unchanged; no result only when the draws ran out |
| `DesirePathSims.LevelKeepsLabelsBelow` | src/DesirePathSim.cpp:43-65 | a level that adds at least one centroid per subdivide keeps every label an index into the centroid list |
| `DesirePathSims.BuildVoronoi` | src/DesirePathSim.cpp:28-65 | level 0 labels every cell with its nearest of count centroids; level 1 is a SubdivideLevel outcome over ids [0, count) and level 2 one over [count, count + count * count), each subdivide adding count regions; the final labels all index the centroid list, which has at least count entries; no result only when the draws ran out |
| `DesirePathSims.Level2VisitsEmptyRegion` | src/DesirePathSim.cpp:43-65 | when no level-1 draw chooses a subdivision, level 1 keeps every label below count, so id count, the first one level 2 visits, owns no cell |
| `DesirePathSims.DilatedSeed` | src/DesirePathSim.cpp:709 | dilating the seed marks exactly the on-grid cells that are a building or tree or have one as an orthogonal neighbour |
| `DesirePathSims.DilatedMarksNear` | src/DesirePathSim.cpp:709 | the dilated seed, read as neighbours anywhere, marks the cells near an object and nothing else |
| `DesirePathSims.ClosedSeed` | src/DesirePathSim.cpp:710 | eroding the dilated seed keeps a cell exactly when it is off the edge and it and its four neighbours are near an object |
| `DesirePathSims.ErodedMarksClosed` | src/DesirePathSim.cpp:710 | the eroded bitmap marks exactly the closed cells |
| `DesirePathSims.ShadowCell` | src/DesirePathSim.cpp:711-712 | shifting by (1, 1) with fill 0 and masking with the seed gives each cell its shadow value |
| `DesirePathSims.ObjectCastsShadow` | src/DesirePathSim.cpp:694-712 | a building or tree away from the edge shades the tile diagonally below-right of it unless that tile is an object too |
| `DesirePathSims.ShadowNeedsObject` | src/DesirePathSim.cpp:694-712 | a shaded tile is no object, lies at least two cells from the top and left edges, and has an object within one orthogonal step of its up-left neighbour |
| `DesirePathSims.SeedShadow` | src/DesirePathSim.cpp:694-707 | the seed is 1 exactly on buildings and trees and 0 elsewhere |
| `DesirePathSims.CastShadow` | src/DesirePathSim.cpp:709-712 | every cell of the result is the shadow the seed casts |
| `DesirePathSims.NextState` | src/DesirePathSim.cpp:427-436 | after the loop a villager is never AwaitingPath; it is EnqueuedForPath exactly when it was enqueued or its tick left it waiting |
| `DesirePathSims.PushedMembers` | src/DesirePathSim.cpp:431-435 | a villager is pushed exactly when its tick leaves it waiting for a path |
| `DesirePathSims.PushedOnlyFrom` | src/DesirePathSim.cpp:427-436 | only villagers already visited are pushed |
| `DesirePathSims.PushedDistinct` | src/DesirePathSim.cpp:427-436 | no villager is pushed twice in one frame |
| `DesirePathSims.OnWorldSameSize` | src/DesirePathSim.cpp:429 | whether a path lies on the world depends on the world's size only |
| `DesirePathSims.VillagersOnSameSize` | src/DesirePathSim.cpp:429 | ticks that keep the world's size keep every villager's path on the world |
| `DesirePathSims.PushedAreEnqueued` | src/DesirePathSim.cpp:427-436 | the villagers pushed are exactly those now EnqueuedForPath that were not enqueued before the tick |
| `DesirePathSims.NextPhase` | src/DesirePathSim.cpp:429-435 | the fields after a villager's turn: its next state, consistent when they were, the same path or (at the path's end) none, and, when it moves on, the index of the tile it stepped onto |
| `DesirePathSims.TickOne` | src/DesirePathSim.cpp:429-435 | the villager's tick and hand-off: its fields become NextPhase, it is handed off exactly when the tick left it waiting, and the grids change by its TickStep |
| `DesirePathSims.TickAndHandOff` | src/DesirePathSim.cpp:429-435 | villager i gets its next fields (NextPhase) and, if left waiting, is pushed; the grids and the rectangle change by its TickStep; no other villager changes |
| `DesirePathSims.TickVillagers` | src/DesirePathSim.cpp:422-437 | every villager gets its next fields (state, index and path) in order; the grids and the rectangle end where the fold of the villagers' TickSteps ends, starting from the grids given; the queue grows by exactly the villagers left waiting, in order |
| `DesirePathSims.TickTraceSnoc` | src/DesirePathSim.cpp:427-436 | one more villager's TickStep extends the fold |
| `DesirePathSims.TickStepUnique` | src/Villager.cpp:8-97 | a villager's tick is deterministic: its fields and the grids before it fix the grids and the rectangle after it |
| `DesirePathSims.TickTraceUnique` | src/DesirePathSim.cpp:422-437 | the fold is a function of its start: two folds over the same villagers and grids end in the same grids and rectangle |
| `DesirePathSims.TickTraceIdle` | src/DesirePathSim.cpp:422-437 | a frame in which no villager steps onto a tile leaves the grids and the rectangle unchanged |
| `DesirePathSims.EnqueueAll` | src/DesirePathSim.cpp:124-136 | every villager is marked EnqueuedForPath with its path kept, and the queue grows by all of them in order |
| `DesirePathSims.DesirePathSim.UpdateBaseCostMap` | src/DesirePathSim.cpp:681-690 | every cell gets the base cost of its tile (grass with its draw), every cost is one the tile kind allows, and the other grids are unchanged |
| `DesirePathSims.DesirePathSim.UpdateShadowBitmap` | src/DesirePathSim.cpp:692-713 | the bitmap becomes the shadow the buildings and trees cast, the other grids unchanged |
| `CommandLine.SkipSpaces` | src/main.cpp:12 | the result is a suffix of the input that does not start with white space |
| `CommandLine.DigitRun` | src/main.cpp:12 | the count of leading characters that are all digits, followed by a non-digit or the end |
| `CommandLine.ReadDigits` | src/main.cpp:12 | no number exactly when the text after the sign does not start with a digit |
| `CommandLine.Stoi` | src/main.cpp:12 | a value std::stoi returns always fits in int |
| `CommandLine.ReadSigned` | src/main.cpp:12 | after the white space, a read value fits in int; digits out of range give no value |
| `CommandLine.Decimal` | src/main.cpp:12 | a decimal rendering is a non-empty run of digits |
| `CommandLine.Render` | src/main.cpp:12 | a rendered int is non-empty and starts with neither white space nor '+' |
| `CommandLine.DecimalValue` | src/main.cpp:12 | reading the digits of n gives back n |
| `CommandLine.DigitRunAppend` | src/main.cpp:12 | the digit run of digits followed by a non-digit is exactly the digits |
| `CommandLine.ReadDigitsDecimal` | src/main.cpp:12 | digits of n followed by a non-digit read n |
| `CommandLine.ReadSignedNegative` | src/main.cpp:12 | '-' followed by the digits of m reads -m when that fits in int and fails otherwise |
| `CommandLine.ReadSignedUnsigned` | src/main.cpp:12 | unsigned digits of m read m when it fits in int and fail otherwise |
| `CommandLine.StoiRender` | src/main.cpp:12 | stoi reads back any int written in decimal, whatever non-digit text follows, and fails for every value outside int |
| `CommandLine.StoiSkipsSpace` | src/main.cpp:12 | leading white space does not change what stoi reads |
| `CommandLine.TryReadArgInt` | src/main.cpp:7-19 | no value exactly when arg does not start with -name=; an error, with the source's message, exactly when it does and the rest does not read; otherwise the int stoi reads from the rest |
| `CommandLine.TryReadArgBool` | src/main.cpp:21-29 | the same outcomes as tryReadArgInt, with the value read as value != 0 |
| `CommandLine.ReadArgExamples` | src/main.cpp:7-29 | -name=v reads v, and as a flag reads v != 0 |
| `CommandLine.PrefixesExclusive` | src/main.cpp:41-59 | two names without '=' whose prefixes both start an argument are equal, so the chain's order never decides which option an argument sets |
| `CommandLine.DefaultsValid` | src/Options.hpp:6-34 | the defaults give every field a value of its kind |
| `CommandLine.Convert` | src/main.cpp:41-59 | an int field takes the value, a size_t field the value modulo 2^64, a float field the value, a bool field value != 0 |
| `CommandLine.WithField` | src/main.cpp:41-59 | the field of the branch gets the value and every other field is unchanged |
| `CommandLine.FirstMatch` | src/main.cpp:41-59 | the first flag from k on whose prefix starts arg, none exactly when no later flag matches |
| `CommandLine.Branch` | src/main.cpp:41-59 | a branch applies exactly when its prefix starts arg, and then gives the parse error or the options with its field set to the converted read |
| `CommandLine.ParseError` | src/main.cpp:16-19 | the message starts with the 24 characters `Error parsing argument "`, ends with a quote and is 25 characters longer than the argument (characters, which are the source's bytes for ASCII arguments) |
| `CommandLine.ParseErrorNamesArgument` | src/main.cpp:16-19 | two arguments with the same parse error message are the same argument |
| `CommandLine.Dispatch` | src/main.cpp:41-59 | the chain keeps one field per flag and fails only with the parse error of the argument itself |
| `CommandLine.DispatchFirstMatch` | src/main.cpp:41-59 | the if-else chain is decided by the first flag whose prefix matches, and leaves the options unchanged when none does |
| `CommandLine.ApplyArg` | src/main.cpp:39-59 | an argument no flag names leaves the options alone; otherwise the first named flag's branch decides |
| `CommandLine.ApplyArgs` | src/main.cpp:37-60 | a successful fold keeps one value per flag |
| `CommandLine.ApplyArgsSnoc` | src/main.cpp:37-60 | one more argument is one more step of the loop, unless an earlier one has thrown |
| `CommandLine.ApplyArgsStops` | src/main.cpp:35-66 | after an argument throws, later arguments are not read |
| `CommandLine.ApplyArgValid` | src/main.cpp:41-59 | an argument that reads keeps every field of its flag's kind |
| `CommandLine.ApplyArgsValid` | src/main.cpp:37-60 | a command line that reads keeps every field of its flag's kind |
| `CommandLine.ParseCommandLine` | src/main.cpp:31-68 | the loop's result is the fold of the chain over argv[1..] from the defaults, and on success every field has its kind |
| `CommandLine.LastNaming` | src/main.cpp:37-60 | the last argument naming the flag, none exactly when no argument names it |
| `CommandLine.LastArgumentWins` | src/main.cpp:37-60 | on success each field holds the converted value of the last argument naming its flag, or its earlier value when none does |
| `CommandLine.FirstBad` | src/main.cpp:37-60 | the first argument that names a flag with a value stoi cannot read |
| `CommandLine.ParseFailsOnBadArg` | src/main.cpp:35-66 | a command line fails exactly when some argument is bad, and the message names the first bad one |

## Left out

- Rendering, textures, colours, the camera, the window loop, frame and decay timers, and src/Version.hpp have no counterpart here.
- The pathfinding worker thread, the mutex of src/Queue.hpp, futures, the stop flag and the atomics are left out. The request queue is the sequence of villagers pushed so far.
- The villager's pixel position, `Vector2` arithmetic, speed and frame delta are left out. A tick is told whether the next tile has been reached.
- Random numbers are parameters. Ponds and paved areas take one start cell per attempt. The stamp loops (patterns, patches, buildings, trees) take a `nat -> nat` draw function and a cursor. The grass cost takes a draw per cell, and the Voronoi levels take their percent draws. The separate generator streams of the source are not distinguished.
- Voronoi.GenerateCentroids: the source's rejection loop has no bound. The model consumes a finite sequence of draws and reports failure when they run out, so it does not claim that a batch is always found.
- Villagers.Villager.Reset: the destination loop likewise consumes a finite sequence of draws. When they run out without a destination, the villager goes back to AwaitingPath (see Findings).
- Voronoi distances are floating point in the source. Here a distance is any total function to the reals, so Minkowski and Euclidean rounding is not modelled. The `float` option fields hold the integer they were assigned from, so rounding above 2^24 is not modelled either.
- Fill and area limits are compared as exact rational percentages, not as `float`.
- CommandLine.ParseError: strings are sequences of characters, so the message length counts characters where std::string counts bytes. The two agree only on ASCII arguments.
- BitmapTransform.Mask: requires the mask to reach at least the bitmap's right and bottom edges. Otherwise the source's inclusive overlap bound reads one column or row past the mask.
- WorldGens.WorldGen.FloodFill: requires the fill value to differ from the seed's value. The source's fill never ends otherwise.
- WorldGens.WorldGen.FindPattern: requires the pattern to be no larger than the world, where the source's unsigned subtraction would wrap.
- WorldGens.WorldGen.PlaceBuildings: the catalogue of building patterns and patch variations is a parameter. Its construction in src/WorldGen.cpp:300-479 is not modelled, only the placement loop that consumes it.
- UpdateRects.UpdateRect.Width: returns an int. The `size_t` wrap of `right - left + 1` is not modelled, and `UpdateRects.UpdateRect.Height` is the same.
- CommandLine.Stoi: reads base-10 digits after C-locale white space. A value outside `int` is an error, and the source's separate `long` overflow is not distinguished.
- `CostMap.hpp` is not part of this model. The cost map is taken to be `Map<std::uint8_t>`.
- Pathfinding.Pathfinder.GetPath: no claim of sortedness of the open list or optimality of the path. The relaxation branch inserts a second entry for a node and may insert it before the cursor. What is proved is that a returned path is a walk of traversable steps from start to goal, that the search ends, and that the pool is clean afterwards. The upper-bound search is only characterised on sorted ranges.
- Pathfinding.Pathfinder.GetPath: does not promise a path when one exists. An empty result is allowed for every input, so completeness of the search is not stated.
- Pathfinding.Pathfinder.GetPath: f, g and h are unbounded integers. The source keeps them in `std::int32_t` fields (src/Pathfinding.hpp:26-28) and adds a traversal cost to g at src/Pathfinding.hpp:135, which would wrap on a route whose summed cost exceeds 2^31 - 1; that overflow is not modelled.

## Findings

| source | as written | input that shows it | evidently intended | confidence | as-written member | corrected member |
|---|---|---|---|---|---|---|
| src/Map.hpp:141-155 | `rotated180` allocates its result as `Map{m_height, m_width}` and writes cell (x, y) of a w-wide, h-high map at element `(w-1-y) * h + (h-1-x)` of it | a 1-wide, 2-high map: cell (0, 1) is written at `size_t` position 2^64 - 1 | a half turn keeps the width and the height: the result is `Map{m_width, m_height}` | high, not executed | `Maps.Rotated180IndexAsWritten` | `Maps.Rotated180` |
| src/WorldGen.cpp:782-813 | placeRoundaboutsB writes the edge cells at x - 1, y - 1, x + 4 and y + 4 with no bounds check | an all-street 6x6 world: the first block is at (0, 0) and the top edge writes row -1, outside the vector; on a world with a grass top row the left edge at (-1, 1) lands on (5, 0) | only cells on the map are written | high, not executed | `WorldGens.AtIndexAsWritten` | `WorldGens.WorldGen.PlaceRoundaboutB` |
| src/DesirePathSim.cpp:56-65 | the level-2 loop visits ids count to count + count * count even when level 1 subdivided fewer regions | `-subdiv_prob_1=0`: no level-1 region is subdivided, and id count owns no cell, so subdivide's bounding box wraps (src/Voronoi.hpp:164-165) | only ids that own a region are subdivided | medium, not executed | `DesirePathSims.Level2VisitsEmptyRegion` | `DesirePathSims.SubdivideLevel` |
| src/Villager.cpp:206-220 | the destination do-while repeats while the search returns the spawn point | a world with at most one building entrance: every search returns the spawn, so reset never returns | reset gives up, or the generator guarantees two entrances | medium, not executed | `Villagers.EntranceSearchesAgree` | `Villagers.Villager.Reset` |
| src/Villager.cpp:266-277 | reset stores PathProvided whatever `getPath` returned | the 3x1 world entrance, building, entrance: no walk joins the entrances, so the path is empty and tick's assert `m_path.size() >= 2` fails | a villager without a path goes back to AwaitingPath | medium, not executed | `Villagers.ResetAsWrittenBreaksTick` | `Villagers.Villager.Reset` |
