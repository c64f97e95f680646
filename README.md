# Terrain generator core, modelled in Dafny

This project models the procedural core of the Unity `TerrainGenerator`
(`Assets/Scripts/Terrain/TerrainGenerator.cs`) and proves properties of it:

- **The classification pass of `Generate`.** A row-major sweep turns each
  cell's fractal sample into:
  - a texture scale stored in `mapData`;
  - a preview colour, written transposed;
  - four alphamap layer weights (grass, stone and two mixes);
  - four detail-layer densities.
- **`GetCoordinates`.** A raster scan of the cells inside a border inset
  whose value is above a threshold. It optionally adds a fixed jitter. It
  uses either the caller's stride, or a stride adapted to a target count
  from a first counting pass.
- **`GetCoordinatesInBorder`.** A walk round the four sides of a square
  inset from the map edge, keeping the cells whose value is below a
  threshold.
- **`GetCoordinatesInBorderNested`.** For each row, a border walk at a
  growing offset, then evenly spaced picks from it, shifted by a seed.
- **`GetSpawnData`.** The table with the keys `spawn`, `trees`, `gold` and
  `animals`, built from the three samplers above.

Modules:

- `Numerics`: C# integer and cast semantics (truncating `/` and `%`, `(int)`
  of a float, `(int)` of a `uint`).
- `Terrain`: cells, positions, the two exceptions, and `Result`.
- `Classifier`: the per-cell functions.
- `Generation`: the array sweep.
- `GridSampler`, `BorderRing`, `NestedRings` and `SpawnPlanner`: the four
  sampling routines.

Each routine has two halves:

- a recursive specification function (`RasterScan`/`Coordinates`,
  `Select`/`Ring`/`BorderCells`, `Nested`, `SpawnPlan`), with lemmas about
  what it returns;
- a method that follows the C# loops and is proved to return exactly that
  function.

The C# exceptions are part of the result:

- `IndexOutOfRange` is reading `mapData` outside the grid.
- `ArgumentOutOfRange` is indexing a `List` outside `[0, Count)`.

Conventions:

- The alphamap is square. Unity has one `alphamapResolution` for width and
  height, and the loops mix `sizeX` and `sizeY` as if they were equal.
- Floats are exact reals. The thresholds are the decimal values of the C#
  literals.
- A returned position is the grid cell plus the integer jitter added in
  world space. The grid-to-world mapping belongs to the host.

The model follows the code on these points:

- The border walk visits every boundary cell of the inset square exactly
  once. Corners are not visited twice, and a square shrunk to one point
  is not visited at all.
- The counting pass steps by the caller's `step`, like the selection pass with no target.
- A nested row whose ring is empty throws when it asks for picks, because
  `% 0` gives NaN and the index is not valid.
- A negative nested seed can make a pick index negative, which throws.
  For gold this happens with a `uint` seed of 2^31 or more, which the cast
  to `int` makes negative.
- `Generate` fails when a non-empty map has fewer than four alphamap
  layers. The field's default of 1 layer is such a case.

`GetCoordinates` requires `step >= 1`. The only call site (line 221)
passes the default step 1. On a non-empty inset region a smaller step goes
wrong in the source itself:

- with `step == 0` its loops never advance;
- with a negative step, `x` falls below 0 and `mapData[x, y]` throws
  `IndexOutOfRange`.

On an empty region the source returns an empty list for any step.

`GetCoordinates` computes the corrected stride of the "## Findings" row
rather than line 140's. So where the source hangs, with fewer qualifying
cells than the target on a non-empty region, the model returns the
stride-1 scan.

## Model

| member | source | states |
|---|---|---|
| Numerics.TruncDiv | Assets/Scripts/Terrain/TerrainGenerator.cs:198 | The C# integer quotient truncates toward zero: the remainder `a - q*b` lies in `[0, b)` for `a >= 0` and in `(-b, 0]` for `a < 0`. |
| Numerics.TruncMod | Assets/Scripts/Terrain/TerrainGenerator.cs:199 | The C# remainder takes the sign of the dividend, lies strictly within `b` of zero, is congruent to `a` modulo `b`, and is zero exactly when `b` divides `a`. |
| Numerics.TruncReal | Assets/Scripts/Terrain/TerrainGenerator.cs:165 | `(int)` of a float truncates toward zero: floor for non-negative values, ceiling for negative ones. |
| Numerics.UIntToInt | Assets/Scripts/Terrain/TerrainGenerator.cs:223 | `(int)` of a `uint` seed is the 32-bit `int` congruent to it modulo 2^32, and equals the seed below 2^31. |
| Classifier.Hex | Assets/Scripts/Terrain/TerrainGenerator.cs:272-280 | Each preview band is painted with a seven-character HTML colour string starting with `#`. |
| Classifier.KeepPositive | Assets/Scripts/Terrain/TerrainGenerator.cs:61-66 | The clamp lands in [0, 1], is the identity on [0, 1], and gives 0 exactly for inputs at most 0 and 1 exactly for inputs at least 1. |
| Classifier.KeepPositiveMonotone | Assets/Scripts/Terrain/TerrainGenerator.cs:61-66 | Clamping preserves order. |
| Classifier.BandOf | Assets/Scripts/Terrain/TerrainGenerator.cs:271-280 | Each preview band holds exactly on its interval of the texture scale (above 0.89, (0.7, 0.89], below 0.2, [0.2, 0.7]). The `< 0.1` band is never chosen. |
| Classifier.GrassWeight | Assets/Scripts/Terrain/TerrainGenerator.cs:283-286 | The grass weight lies in [0, 1], is positive exactly above 0.75, and is full exactly from 1.0. |
| Classifier.StoneWeight | Assets/Scripts/Terrain/TerrainGenerator.cs:288-293 | The stone weight lies in [0, 1], is positive exactly below 0.25, and is full exactly at 0 and below. |
| Classifier.WeightsMonotone | Assets/Scripts/Terrain/TerrainGenerator.cs:283-293 | A higher texture scale never lowers the grass weight and never raises the stone weight. |
| Classifier.LayerWeights | Assets/Scripts/Terrain/TerrainGenerator.cs:283-296 | There are four weights. Layers 1 and 3 are grass and stone, and never both non-zero. Layers 0 and 2 stay within [-0.5, 1] and [-1, 1]. On [0.25, 0.75] the four sum to 1. |
| Classifier.LayerWeightsNotClamped | Assets/Scripts/Terrain/TerrainGenerator.cs:295-296 | The mixed layers are not renormalised: layer 2 reaches -1 and layer 0 reaches -0.5, and on full grass the weights sum to 0. |
| Classifier.DetailBands | Assets/Scripts/Terrain/TerrainGenerator.cs:298-313 | Gives each detail layer's final value with both directions of every band: layer 0 is never written, layer 3 is 1 exactly above 0.9, layer 2 is 2 exactly above 0.7, layer 1 is 2 on (0.5, 0.7] and 1 on (0.15, 0.5], and layers 1 and 2 are never both set. |
| Generation.Generate | Assets/Scripts/Terrain/TerrainGenerator.cs:244-315 | Gives the shapes of the fresh grids. The pass succeeds exactly when the map is empty or has at least four layers. It then stores `noise + 1` in every cell, the band of it at the transposed pixel, the four layer weights (higher layers stay 0) and the detail bands. |
| Generation.ClassifyRow | Assets/Scripts/Terrain/TerrainGenerator.cs:258-314 | One pass of the outer loop extends "every cell of the rows before `y` is classified, the rest untouched" to row `y`. |
| Generation.ClassifyCell | Assets/Scripts/Terrain/TerrainGenerator.cs:266-313 | The body for one cell writes that cell's scale, band, four layer weights and (from zero) detail bands, and changes no other cell of any grid. |
| GridSampler.Placed | Assets/Scripts/Terrain/TerrainGenerator.cs:149-153 | A selected cell keeps its grid coordinates, and it gets no jitter without a random offset. |
| GridSampler.PlacedJitter | Assets/Scripts/Terrain/TerrainGenerator.cs:150-151 | The jitter `(5 - x % 10, 5 - y % 10)` has each part in [-4, 5]. |
| GridSampler.RowScan | Assets/Scripts/Terrain/TerrainGenerator.cs:145-155 | Defines what one pass of the inner selection loop adds: the placed cells `(x, y), (x + stride, y), ...` below `hi` whose value exceeds `minValue`. Its properties are the three `RowScan` lemmas. |
| GridSampler.RasterScan | Assets/Scripts/Terrain/TerrainGenerator.cs:143-156 | Defines the selection loops' result: the row scans of rows `y, y + stride, ...` below `hi`, in order. Its properties are the three `RasterScan` lemmas. |
| GridSampler.RowScanSound | Assets/Scripts/Terrain/TerrainGenerator.cs:145-155 | Every cell a row scan returns is in the row, below the bound, on the stride lattice, above the threshold, and placed with the jitter rule. |
| GridSampler.RowScanComplete | Assets/Scripts/Terrain/TerrainGenerator.cs:145-155 | A row scan returns every lattice cell of the row above the threshold. |
| GridSampler.RowScanOrdered | Assets/Scripts/Terrain/TerrainGenerator.cs:145-155 | A row scan returns its cells left to right. |
| GridSampler.RasterScanSound | Assets/Scripts/Terrain/TerrainGenerator.cs:143-156 | Every cell of a raster scan is inside the region, on the two-dimensional stride lattice, above the threshold, and placed. |
| GridSampler.RasterScanComplete | Assets/Scripts/Terrain/TerrainGenerator.cs:143-156 | A raster scan returns every lattice cell of the region above the threshold. |
| GridSampler.RasterScanOrdered | Assets/Scripts/Terrain/TerrainGenerator.cs:143-156 | A raster scan's cells are strictly increasing in raster order, so none repeats. |
| GridSampler.BorderInset | Assets/Scripts/Terrain/TerrainGenerator.cs:128-130 | The inset is 0 for a non-positive border fraction, and otherwise the truncation of `sizeX * offsetFromBorder * 2`. |
| GridSampler.CeilSqrt | Assets/Scripts/Terrain/TerrainGenerator.cs:140 | `ceil(sqrt(n))` is the least `k` with `k*k >= n`. |
| GridSampler.StrideAsWritten | Assets/Scripts/Terrain/TerrainGenerator.cs:140 | The as-written stride is the least `s` with `s*s` at least the integer quotient `countPositions / destCount`. |
| GridSampler.StrideAsWrittenStalls | Assets/Scripts/Terrain/TerrainGenerator.cs:134-143 | With fewer qualifying cells than `destCount`, the as-written stride is 0. |
| GridSampler.Stride | Assets/Scripts/Terrain/TerrainGenerator.cs:133-141 | The corrected stride is at least 1. It is the caller's step without a target, and with a target the least positive `s` whose square reaches the quotient. It agrees with the as-written stride whenever that is positive, which includes whenever `countPositions >= destCount`. |
| GridSampler.CoordinatesStride | Assets/Scripts/Terrain/TerrainGenerator.cs:132-141 | The selection stride for the grid and arguments (from the counting pass when a target is given) is at least 1. |
| GridSampler.Coordinates | Assets/Scripts/Terrain/TerrainGenerator.cs:122-158 | Defines `GetCoordinates`'s result: the raster scan of the inset region at the selection stride. Its properties are the three `Coordinates` lemmas. |
| GridSampler.CoordinatesSound | Assets/Scripts/Terrain/TerrainGenerator.cs:122-158 | Every returned position is a cell inside the inset region, on the stride lattice anchored at the inset corner, above `minValue`, and placed with the jitter `(5 - x % 10, 5 - y % 10)` exactly when a random offset is asked for. |
| GridSampler.CoordinatesComplete | Assets/Scripts/Terrain/TerrainGenerator.cs:122-158 | Every lattice cell inside the inset region above `minValue` is returned. |
| GridSampler.CoordinatesOrdered | Assets/Scripts/Terrain/TerrainGenerator.cs:122-158 | The result is in strictly increasing raster order. |
| GridSampler.CountPositions | Assets/Scripts/Terrain/TerrainGenerator.cs:136-139 | The counting loops return the number of qualifying lattice cells at the caller's step, which is the length of a selection at that step. |
| GridSampler.CountRow | Assets/Scripts/Terrain/TerrainGenerator.cs:137-139 | The inner counting loop adds the number of qualifying cells of its row. |
| GridSampler.SelectPositions | Assets/Scripts/Terrain/TerrainGenerator.cs:143-156 | The selection loops return the raster scan of the inset region at the chosen stride. |
| GridSampler.SelectRow | Assets/Scripts/Terrain/TerrainGenerator.cs:145-155 | The inner selection loop appends the row scan of its row. |
| GridSampler.GetCoordinates | Assets/Scripts/Terrain/TerrainGenerator.cs:122-158 | The method returns `Coordinates`, whose soundness, completeness and order the three lemmas above state. It uses the corrected stride of the "## Findings" row, so where line 140's stride is 0 and the source hangs, it returns the stride-1 scan. |
| BorderRing.RingCell | Assets/Scripts/Terrain/TerrainGenerator.cs:167-181 | Defines the `k`-th cell the four loops visit: up `x = offset`, along `y = n - offset`, down `x = n - offset`, then back along `y = offset`. |
| BorderRing.Ring | Assets/Scripts/Terrain/TerrainGenerator.cs:167-181 | The walk has `4(n - 2*offset)` cells, or none, in the visiting order of the four loops, and every cell lies on the boundary of the inset square. |
| BorderRing.RingCovers | Assets/Scripts/Terrain/TerrainGenerator.cs:167-181 | Every boundary cell of a non-empty inset square is visited. |
| BorderRing.RingDistinct | Assets/Scripts/Terrain/TerrainGenerator.cs:167-181 | No cell is visited twice, corners included. |
| BorderRing.RingClosedPath | Assets/Scripts/Terrain/TerrainGenerator.cs:167-181 | The walk starts at `(offset, offset)`, each cell neighbours the next, and the last neighbours the first. |
| BorderRing.RingInside | Assets/Scripts/Terrain/TerrainGenerator.cs:165-181 | With an offset of at least 1, or an empty walk, every visited cell can be read. |
| BorderRing.Select | Assets/Scripts/Terrain/TerrainGenerator.cs:167-181 | Defines the filtering each loop body does: the unshifted positions of the walked cells that can be read and whose value is below `maxValue`, in visiting order. `SelectCorrect` states its properties. |
| BorderRing.SelectCorrect | Assets/Scripts/Terrain/TerrainGenerator.cs:167-181 | Filtering keeps at most one position per cell. Each kept position is an unshifted, readable cell of the walk below the threshold, and none such is missed. |
| BorderRing.BorderCells | Assets/Scripts/Terrain/TerrainGenerator.cs:160-184 | Defines `GetCoordinatesInBorder`'s result: `IndexOutOfRange` when the loops would read outside the grid, otherwise the filtered walk. `BorderCellsCorrect` states its properties. |
| BorderRing.BorderCellsFails | Assets/Scripts/Terrain/TerrainGenerator.cs:165-173 | With a non-empty walk and an offset below 1, the walk throws `IndexOutOfRange`. |
| BorderRing.BorderCellsSucceeds | Assets/Scripts/Terrain/TerrainGenerator.cs:165-183 | Otherwise the walk returns the filtered ring in visiting order. |
| BorderRing.BorderCellsCorrect | Assets/Scripts/Terrain/TerrainGenerator.cs:160-184 | The walk throws exactly when it is non-empty with an offset below 1. Otherwise it returns at most `4(n - 2*offset)` positions, each an unshifted boundary cell below `maxValue`, and every such cell of a non-degenerate square. |
| BorderRing.GetCoordinatesInBorder | Assets/Scripts/Terrain/TerrainGenerator.cs:160-184 | The method returns `BorderCells`, raising `IndexOutOfRange` when and only when the walk reads outside the grid. |
| BorderRing.FirstSide | Assets/Scripts/Terrain/TerrainGenerator.cs:167-169 | The first loop reads out of bounds exactly when it runs with a negative offset. Otherwise it returns the selection of the first side. |
| BorderRing.SecondSide | Assets/Scripts/Terrain/TerrainGenerator.cs:171-173 | The second loop reads out of bounds exactly when it runs with offset 0 (row `sizeY`). Otherwise it extends the selection to two sides. |
| BorderRing.ThirdSide | Assets/Scripts/Terrain/TerrainGenerator.cs:175-177 | The third loop extends the selection to three sides without an out-of-bounds read. |
| BorderRing.FourthSide | Assets/Scripts/Terrain/TerrainGenerator.cs:179-181 | The fourth loop completes the selection of the whole walk. |
| BorderRing.ThirdSideCell | Assets/Scripts/Terrain/TerrainGenerator.cs:175-177 | The cell the third loop reads is the matching cell of the walk and lies inside the grid. |
| BorderRing.FourthSideCell | Assets/Scripts/Terrain/TerrainGenerator.cs:179-181 | The cell the fourth loop reads is the matching cell of the walk and lies inside the grid. |
| BorderRing.VisitCell | Assets/Scripts/Terrain/TerrainGenerator.cs:168-169 | One loop body extends the selection of the walked prefix by its cell. |
| NestedRings.RowOffset | Assets/Scripts/Terrain/TerrainGenerator.cs:191 | For every row from 0 to `rows`, the offset fraction `0.49 / rows * row * 0.8` lies in [0, 0.392]: no ring is set in from the edge by more than 39.2% of the map size. |
| NestedRings.PickIndex | Assets/Scripts/Terrain/TerrainGenerator.cs:198-199 | A pick index is a valid position of the ring, congruent to `randValue + ((count-1)/limit)*i`. It is valid exactly when the ring is non-empty and the sum is non-negative or divisible by the count. Otherwise `ArgumentOutOfRange` is raised. |
| NestedRings.PickIndexSafe | Assets/Scripts/Terrain/TerrainGenerator.cs:198-199 | A non-negative seed on a non-empty ring never throws. |
| NestedRings.PickIndexExample | Assets/Scripts/Terrain/TerrainGenerator.cs:198-199 | Seed 0, a ring of five and two picks give indices 2 and 4. |
| NestedRings.RowPicks | Assets/Scripts/Terrain/TerrainGenerator.cs:196-202 | Defines the first `upTo` passes of the pick loop: the ring positions at the pick indices, or the first pick's `ArgumentOutOfRange`. `RowPicksCorrect` states its properties. |
| NestedRings.NestedRow | Assets/Scripts/Terrain/TerrainGenerator.cs:191-202 | Defines one pass of the row loop: the ring's exception, or `countOnRow - 2*row` picks from the ring, or none when that is not positive. |
| NestedRings.RowPicksCorrect | Assets/Scripts/Terrain/TerrainGenerator.cs:196-202 | A row's picks succeed exactly when every pick index is valid. They are then `upTo` positions of the ring. |
| NestedRings.RowPicksFailStays | Assets/Scripts/Terrain/TerrainGenerator.cs:196-202 | Once a pick throws, the row throws the same exception. |
| NestedRings.NestedPickCount | Assets/Scripts/Terrain/TerrainGenerator.cs:195-196 | Defines the number of picks of rows `1..upTo`: the sum of `max(0, countOnRow - 2*row)`. `NestedPickCountClosed` gives its closed form. |
| NestedRings.NestedPickCountClosed | Assets/Scripts/Terrain/TerrainGenerator.cs:195 | When every row asks for picks, there are `rows*countOnRow - rows*(rows+1)` of them. |
| NestedRings.Nested | Assets/Scripts/Terrain/TerrainGenerator.cs:186-205 | Defines `GetCoordinatesInBorderNested`'s result over rows `1..upTo`: the rows' picks concatenated, or the first row exception. `NestedCorrect` and `NestedFailStays` state its properties. |
| NestedRings.NestedCorrect | Assets/Scripts/Terrain/TerrainGenerator.cs:186-205 | A successful nested walk returns exactly `NestedPickCount` positions, each an unshifted readable cell below 0.7. |
| NestedRings.NestedFailStays | Assets/Scripts/Terrain/TerrainGenerator.cs:189-203 | Once a row throws, the whole walk throws the same exception. |
| NestedRings.NestedNext | Assets/Scripts/Terrain/TerrainGenerator.cs:190-202 | One more row either throws the ring's exception or adds that row's picks from its ring. |
| NestedRings.GetCoordinatesInBorderNested | Assets/Scripts/Terrain/TerrainGenerator.cs:186-205 | The method returns `Nested` over rows `1..rows`. |
| NestedRings.AddRow | Assets/Scripts/Terrain/TerrainGenerator.cs:190-202 | One pass of the row loop turns the result of the rows before into the result of row `row`. |
| NestedRings.AddRowPicks | Assets/Scripts/Terrain/TerrainGenerator.cs:195-202 | The pick loop appends the row's `limit` picks, throws the first pick exception, or adds nothing for a non-positive limit. |
| SpawnPlanner.SpawnIndex | Assets/Scripts/Terrain/TerrainGenerator.cs:217 | Defines the `i`-th spawn index `((Count - 1) / spawnCount) * i` with C#'s truncating division. `SpawnIndexInRange` bounds it. |
| SpawnPlanner.SpawnIndexInRange | Assets/Scripts/Terrain/TerrainGenerator.cs:217 | On a non-empty walk every spawn index `((count-1)/spawnCount)*i`, for `1 <= i <= spawnCount`, is a position of the walk. |
| SpawnPlanner.SpawnPicks | Assets/Scripts/Terrain/TerrainGenerator.cs:215-219 | Defines the first `upTo` passes of the spawn loop: the walk positions at the spawn indices, or `ArgumentOutOfRange` for the first bad index. |
| SpawnPlanner.Spawns | Assets/Scripts/Terrain/TerrainGenerator.cs:214-219 | Defines the spawn list: `spawnCount` picks, or none when that is not positive. `SpawnsCorrect` states its properties. |
| SpawnPlanner.SpawnPicksCorrect | Assets/Scripts/Terrain/TerrainGenerator.cs:215-219 | The spawn picks throw (`ArgumentOutOfRange`) exactly on an empty walk. Otherwise pick `i` is the walk position at the spawn index `i`. |
| SpawnPlanner.SpawnPicksFailStays | Assets/Scripts/Terrain/TerrainGenerator.cs:215-219 | Once a spawn pick throws, the loop throws the same exception. |
| SpawnPlanner.SpawnsCorrect | Assets/Scripts/Terrain/TerrainGenerator.cs:214-219 | The spawn loop fails exactly when spawns are asked for from an empty walk. It otherwise yields `max(0, spawnCount)` positions of the walk. |
| SpawnPlanner.SpawnPlan | Assets/Scripts/Terrain/TerrainGenerator.cs:207-228 | Defines the table: the spawn walk at offset 0.15 below 0.3 and its picks, the adaptive tree scan above 0.9, and the gold and animal nested walks with the seed and half the seed, with the first exception propagated. |
| SpawnPlanner.SpawnPlanSucceeds | Assets/Scripts/Terrain/TerrainGenerator.cs:207-228 | The table is built exactly when the spawn walk, its picks and both nested walks succeed. |
| SpawnPlanner.SpawnPlanTable | Assets/Scripts/Terrain/TerrainGenerator.cs:207-228 | A built table has exactly the four keys. Its spawn points are `max(0, spawnCount)` walk cells below 0.3. Its trees are the adaptive scan at 0.9. It holds `NestedPickCount` gold and animal positions, each below 0.7. |
| SpawnPlanner.PickSpawns | Assets/Scripts/Terrain/TerrainGenerator.cs:214-219 | The spawn loop returns `Spawns`. |
| SpawnPlanner.GetSpawnData | Assets/Scripts/Terrain/TerrainGenerator.cs:207-228 | The method returns `SpawnPlan`, with the seed cast to `int` for gold and half the seed for animals. Its trees use the corrected stride of `GetCoordinates`, so where the source hangs on too few tree cells the model returns them all. |

## Left out

- Unity host calls are not modelled: `Terrain.activeTerrain`, `SetAlphamaps`, `SetDetailLayer`, `SetDetailResolution`, the terrain size and resolution (lines 233-240, 316-319), and `Texture2D.Apply`. The model takes the alphamap size as a parameter and returns the grids the pass would upload.
- The fractal (`GetFractal`, lines 49-59) and its sampling at normalised coordinates (lines 250-266) are a parameter `noise(x, y)`, because the noise library is foreign code.
- `Generate`'s seed assignment and resolution arithmetic (lines 232, 235) are left out: the resulting size is the model's input.
- `Start` and `Update` (lines 35-47) are Unity lifecycle hooks, not part of the core.
- `ParseHEX` (lines 68-73) is a Unity colour parser. The bands keep their HTML strings (`Classifier.Hex`).
- `CalculateTerrainToPosition` and `CalculatePositionToTerrain` (lines 75-89) are the grid-to-world mapping, which depends on the host's terrain size. Positions stay in grid cells plus jitter.
- `SetTextureOnTerrain`, `RemoveGrassOnTerrain`, `DoubleLerp` and `ColorLerp` (lines 91-120, 322-344) are terrain editing and colour helpers outside the generation core.
- `Debug.Log` (line 247) is logging only.
- float32 rounding is not modelled: all float arithmetic is exact over reals, including the thresholds, `0.49f / rows * row * 0.8f` and `sizeX * 0.15f`.
- NestedRings.PickIndex: the float sum `randValue + step * i` is exact, so float32 rounding of seeds beyond 2^24 is not modelled. `(int)` of the NaN from `% 0` is taken to be an invalid index.
- GridSampler.GetCoordinates: computes the corrected stride, not the stride of line 140. Where the source hangs, with fewer qualifying cells than `destCount` on a non-empty region, the model returns the stride-1 scan; see "## Findings". It also requires `step >= 1`, leaving out the source's hang at step 0 and its `IndexOutOfRange` at a negative step. The only caller passes step 1.
- Generation.Generate: when it throws it leaves the grids unspecified, so the writes to the first cell before the exception are not described.
- SpawnPlanner.GetSpawnData: the C# adds the spawn points to the list already stored in the dictionary. The model stores the finished list, which is the same final table, but the in-place update is not captured.
- Rectangular alphamaps are not modelled: the loops swap `sizeX` and `sizeY` in ways that only agree on a square grid.

## Findings

| source | as written | input that shows it | evidently intended | confidence | as-written member | corrected member |
|---|---|---|---|---|---|---|
| Assets/Scripts/Terrain/TerrainGenerator.cs:140 | `newStep = (int)Math.Ceiling(Math.Sqrt(countPositions / destCount))` takes the integer quotient first, so the stride is 0 whenever fewer cells qualify than `destCount`; the selection loop `y += newStep` then never advances | `GetSpawnData` with `maxTrees` larger than the number of cells above 0.9, e.g. `destCount = 5` with 4 qualifying cells | a stride of at least 1, which returns every qualifying cell when too few qualify | high (not executed) | GridSampler.StrideAsWrittenStalls | GridSampler.Stride |
