# Hex colouring canvas — a verified model of its core

This project models the logic at the heart of a hex-grid colouring canvas:
users paint single cells, flood-fill regions of one colour, and can fill the
grid with a Voronoi pattern. Three source files are modelled, in four Dafny
modules (`src/App.tsx` is split in two):

- `HexUtils` (`hex_utils.dfy`) — the coordinate engine. It converts offset
  storage cells (row, col) to cube coordinates (q, r, s) and back, with
  q = col − ⌊row/2⌋. It also snaps a fractional cube triple to a whole hex
  (`roundToHex`). `Math.floor(row / 2)` is Dafny's `row / 2`, which floors for
  the divisor 2, negative rows included. `Math.round(x)` is `(x + 0.5).Floor`
  over `real`: the nearest integer, with halves rounded up. `roundToHex` is
  proved to return a nearest hex for a point with q + r + s = 0, as
  `pointToCube` produces: no whole hex is closer in cube space. The
  module also declares `Color`, the colour string that the other modules
  share.
- `PatternUtils` (`pattern_utils.dfy`) — the cube-Manhattan hex distance and
  the Voronoi generator. `Math.random` is replaced by a supplied sequence of
  draws in [0, 1), read three per seed (row, column, colour) in loop order.
  The seed loop, the colouring loops and the nearest-seed search are methods
  with loops, proved against specification functions and predicates. The
  colouring methods also return, as ghost output, the index of the nearest
  seed of each cell, and state the cell's colour in terms of it.
- `Flood` (`flood.dfy`) and `HexColorApp` (`app.dfy`) — the editor from
  `src/App.tsx`. `Flood` holds the parity-dependent six-neighbour rule, a
  reference definition of the fill and the breadth-first `FloodFill` method.
  `FloodFill` works on a copy of the grid and a `seq` queue, and is proved to
  produce exactly that reference result. `HexColorApp.App` is a class with the
  component's state fields (`grid`, `selectedColor`, `currentMode`,
  `isDrawing`); its event handlers are methods that replace those fields.

The fill's reference definition is `Flood.Filled`. A cell is recoloured when
a path leads to it from the start cell. Every cell on that path must be in
bounds and hold the target colour, and each step must follow the neighbour
rule. All other cells keep their colour. The loop's termination measure is
the lexicographic pair (number of target-coloured cells in the working grid,
queue length).

`roundToHex` corrects q only when q's rounding error is strictly larger than
both other errors. Otherwise it corrects r when r's error is strictly larger
than s's, and otherwise s. So on ties the *last* tied axis is corrected
(s before r before q). `CorrectedAxisHasLargestError` states exactly this.
Some descriptions of this algorithm say ties prefer q; the model follows the
code.

## Model

| member | source | states |
|---|---|---|
| `HexUtils.HalfFloor` | src/utils/hexUtils.ts:16 | `Math.floor(row / 2)`: the h with 2h ≤ row < 2h + 2, for negative rows too |
| `HexUtils.GridToCube` | src/utils/hexUtils.ts:14-21 | the cube triple sums to zero, its r is the row, and col = q + ⌊row/2⌋ |
| `HexUtils.CubeToGrid` | src/utils/hexUtils.ts:24-29 | the row is r and col = q + ⌊r/2⌋ |
| `HexUtils.GridCubeRoundTrip` | src/utils/hexUtils.ts:14-29 | cubeToGrid(gridToCube(row, col)) == (row, col) for every integer row and col |
| `HexUtils.CubeGridRoundTrip` | src/utils/hexUtils.ts:14-29 | gridToCube(cubeToGrid(q, r)) == (q, r, −q−r) |
| `HexUtils.GridToCubeInjective` | src/utils/hexUtils.ts:14-21 | two cells have equal cube coordinates iff they are the same cell |
| `HexUtils.JsRound` | src/utils/hexUtils.ts:53-55 | `Math.round`: n − ½ ≤ x < n + ½ (nearest integer, halves up) |
| `HexUtils.JsRoundOfInt` | src/utils/hexUtils.ts:53-55 | `Math.round` leaves integers unchanged |
| `HexUtils.RoundingError` | src/utils/hexUtils.ts:57-59 | each rounding error lies in [0, ½] |
| `HexUtils.CorrectedAxis` | src/utils/hexUtils.ts:62-68 | the axis whose component is recomputed: Q only when q's error is strictly larger than both others; R only when r's error is at least q's and strictly larger than s's; S only when s's error is at least both others |
| `HexUtils.CorrectedAxisHasLargestError` | src/utils/hexUtils.ts:61-68 | the recomputed component has the largest error, and among tied largest errors it is the last in the order q, r, s |
| `HexUtils.RoundToHex` | src/utils/hexUtils.ts:52-71 | the output sums to zero, and the two components not recomputed equal `Math.round` of their inputs |
| `HexUtils.RoundToHexFixedPoint` | src/utils/hexUtils.ts:52-71 | an integer triple with q + r + s = 0 is returned unchanged |
| `HexUtils.RoundToHexNear` | src/utils/hexUtils.ts:52-71 | for q + r + s = 0 the componentwise roundings sum to −1, 0 or 1; when they sum to 0 they are returned as is; every output component is within 1 of its input |
| `HexUtils.ShiftCost` | src/utils/hexUtils.ts:53-55 | moving a rounded component d whole steps never brings it closer to its input; a step down costs at least 1 − 2e more and a step up at least 1 + 2e more, where e is its rounding error |
| `HexUtils.OverRoundedCost` | src/utils/hexUtils.ts:53-68 | when the errors sum to 1, any whole move of the rounded triple back to sum zero costs at least 1 − 2·(largest error) |
| `HexUtils.UnderRoundedCost` | src/utils/hexUtils.ts:53-68 | when the errors sum to −1, any whole move back to sum zero costs at least 1 + 2·(most negative error) |
| `HexUtils.RoundToHexNearestOver` | src/utils/hexUtils.ts:52-71 | when the roundings sum to 1, the result is at least as close to the input as every whole hex |
| `HexUtils.RoundToHexNearestUnder` | src/utils/hexUtils.ts:52-71 | when the roundings sum to −1, the result is at least as close to the input as every whole hex |
| `HexUtils.RoundToHexNearest` | src/utils/hexUtils.ts:51-71 | rounds "to the nearest hex": for q + r + s = 0, the squared cube-space distance from the input to the result is at most that to any whole hex (a, b, c) with a + b + c = 0 |
| `PatternUtils.CubeDeltaSum` | src/utils/patternUtils.ts:84 | three differences summing to zero have absolute sum equal to twice the largest, so the sum is even |
| `PatternUtils.HexDistance` | src/utils/patternUtils.ts:72-85 | the distance is a natural number whose double is the cube-Manhattan sum, so the division by 2 is exact |
| `PatternUtils.HexDistanceIsMaxDelta` | src/utils/patternUtils.ts:72-85 | the distance equals the largest absolute cube difference |
| `PatternUtils.HexDistanceZeroIff` | src/utils/patternUtils.ts:72-85 | the distance is 0 iff both cells are the same |
| `PatternUtils.HexDistanceSymmetric` | src/utils/patternUtils.ts:72-85 | the distance is symmetric in its two cells |
| `PatternUtils.HexDistanceTriangle` | src/utils/patternUtils.ts:72-85 | the distance obeys the triangle inequality |
| `PatternUtils.RegionCount` | src/utils/patternUtils.ts:24 | `Math.min(numRegions, colors.length)`: at most both, and equal to one of them |
| `PatternUtils.SeedCount` | src/utils/patternUtils.ts:24-27 | the seed loop runs min(numRegions, colors.length) times for non-negative numRegions, never more than there are colours |
| `PatternUtils.DrawIndex` | src/utils/patternUtils.ts:28-31 | `Math.floor(draw * n)` is a valid index in [0, n) for a draw in [0, 1) and n > 0 |
| `PatternUtils.SeedFromDraws` | src/utils/patternUtils.ts:28-36 | a seed built from its three draws has row in [0, gridSizeY), col in [0, gridSizeX) and a colour taken from `colors` |
| `PatternUtils.SeedsFromDraws` | src/utils/patternUtils.ts:21-37 | the seed list has SeedCount entries, each in bounds and coloured from `colors` |
| `PatternUtils.GenerateSeeds` | src/utils/patternUtils.ts:26-37 | the seed loop builds exactly the seed list of `SeedsFromDraws` |
| `PatternUtils.NearestSeedUnique` | src/utils/patternUtils.ts:44-56 | at most one seed is the earliest nearest seed of a cell |
| `PatternUtils.ClosestSeed` | src/utils/patternUtils.ts:44-56 | the search returns a seed at minimal hex distance, with every earlier seed strictly farther (ties go to the lowest index, by the strict `<`) |
| `PatternUtils.ColourRow` | src/utils/patternUtils.ts:43-60 | one row of gridSizeX cells, each the colour of a seed that is its earliest nearest seed |
| `PatternUtils.ColourBySeeds` | src/utils/patternUtils.ts:39-65 | the grid has gridSizeY rows of gridSizeX cells, and each cell has the colour of its earliest nearest seed; a non-empty grid needs a seed, because seed 0 is read for every cell |
| `PatternUtils.GenerateVoronoiPattern` | src/utils/patternUtils.ts:11-66 | numRegions defaults to 5; gridSizeY × gridSizeX result; each cell coloured by its earliest nearest seed among the seeds drawn; every cell's colour is one of `colors` |
| `Flood.Neighbours` | src/App.tsx:133-151 | six distinct neighbours, none the cell itself: even rows step to (r−1,c), (r−1,c+1), (r,c±1), (r+1,c), (r+1,c+1); odd rows to (r−1,c−1), (r−1,c), (r,c±1), (r+1,c−1), (r+1,c) |
| `Flood.AdjacentSymmetric` | src/App.tsx:133-151 | the neighbour rule is symmetric |
| `Flood.NeighboursOfEvenRow` | src/App.tsx:135-142 | (2,2) has neighbours {(1,2),(1,3),(2,1),(2,3),(3,2),(3,3)} |
| `Flood.Filled` | src/App.tsx:100-156 | the reference result of a fill has the grid's dimensions |
| `Flood.RegionHasTarget` | src/App.tsx:116-127 | every cell of a fill region, and its start cell, is in bounds and of the target colour |
| `Flood.RegionStep` | src/App.tsx:129-151 | an in-bounds target-coloured neighbour of a region cell is in the region |
| `Flood.RegionWithinClosedSet` | src/App.tsx:113-152 | the region lies inside every set that holds the start cell and is closed under target-coloured in-bounds neighbours |
| `Flood.PathInClosedSet` | src/App.tsx:129-151 | every cell of a fill path lies in each set that holds its first cell and is closed under target-coloured in-bounds neighbour steps |
| `Flood.FilledChangesOnlyTarget` | src/App.tsx:121-127 | a fill changes no cell whose colour differs from the target, and a changed cell ends with the replacement colour |
| `Flood.FilledSameColourIsNoop` | src/App.tsx:102-104 | filling with target == replacement leaves the grid as it is |
| `Flood.FilledFromForeignStartIsNoop` | src/App.tsx:116-124 | a start cell out of bounds or not of the target colour fills nothing |
| `Flood.UniformGrid` | src/App.tsx:34-41 | a height × width grid whose every cell has the given colour |
| `Flood.UniformRowReachable` | src/App.tsx:139-140 | in a one-colour grid, every cell of the start row is in the region |
| `Flood.UniformGridReachable` | src/App.tsx:133-151 | in a one-colour grid, every in-bounds cell is in the region |
| `Flood.FillUniformGrid` | src/App.tsx:100-156 | a fill anywhere in a one-colour grid recolours the whole grid |
| `Flood.FillThreeByThreeExample` | src/App.tsx:100-156 | a 3 × 3 all-"#EEEEEE" grid filled at (1,1) with "#FF0000" becomes all "#FF0000" |
| `Flood.FillStopsAtBarrier` | src/App.tsx:100-156 | in ["#EEEEEE","#000000","#EEEEEE"], filling cell 0 leaves cell 2 unchanged |
| `Flood.CountInRowRecolour` | src/App.tsx:126-127 | recolouring one target cell of a row lowers its count of target cells by one |
| `Flood.CountInGridRecolour` | src/App.tsx:126-127 | recolouring one target cell lowers the grid's count of target cells by one (the termination measure) |
| `Flood.DrainedQueueCoversRegion` | src/App.tsx:113-152 | once the queue is empty, every cell of the region has been recoloured |
| `Flood.FillInvariantInit` | src/App.tsx:107-110 | the copied grid with queue [start] satisfies the loop invariant |
| `Flood.FillInvariantSkip` | src/App.tsx:116-124 | dropping an out-of-bounds or non-target entry keeps the invariant |
| `Flood.FillInvariantVisit` | src/App.tsx:126-151 | recolouring a dequeued cell and enqueuing its six neighbours keeps the invariant and lowers the target count |
| `Flood.FillInvariantDrained` | src/App.tsx:113-155 | with an empty queue the working grid equals the reference fill |
| `Flood.FloodFill` | src/App.tsx:100-156 | the BFS returns exactly `Filled`: the region of the start cell recoloured, every other cell unchanged, the input untouched |
| `HexColorApp.CellColour` | src/App.tsx:193 | a loaded string cell is kept as that colour |
| `HexColorApp.IsGridShape` | src/App.tsx:188-192 | a value passes only as an array of `size` rows, each an array of length `size`; the cells are not inspected |
| `HexColorApp.JsonOfGrid` | src/App.tsx:179 | the stored form of the grid: an array with one entry per row |
| `HexColorApp.SavedGridRoundTrip` | src/App.tsx:177-193 | a GRID_SIZE-shaped grid, once stored, passes the shape check and loads back as the same grid |
| `HexColorApp.ShapeIgnoresCells` | src/App.tsx:188-192 | replacing any cell of a value that passes the shape check, with any value at all, still passes |
| `HexColorApp.GridOfJson` | src/App.tsx:188-193 | a loaded value of the right shape becomes a GRID_SIZE × GRID_SIZE grid holding its string cells |
| `HexColorApp.NewGrid` | src/App.tsx:34-41 | the row-building loop yields a height × width grid of one colour |
| `HexColorApp.App.constructor` | src/App.tsx:34-50 | initial state: GRID_SIZE × GRID_SIZE grid of `DEFAULT_COLOR`, first palette colour, PAINT mode, not drawing |
| `HexColorApp.App.FloodFill` | src/App.tsx:100-156 | target == replacement leaves the grid as it was; otherwise the grid becomes the reference fill |
| `HexColorApp.App.HandleCellClick` | src/App.tsx:53-80 | out of bounds: nothing changes; PAINT: exactly grid[row][col] becomes `selectedColor`; FILL: fill from the cell's own colour, then PAINT mode |
| `HexColorApp.App.HandleCellHover` | src/App.tsx:83-87 | paints only while drawing in PAINT mode, and never changes the mode |
| `HexColorApp.App.HandleMouseDown` | src/App.tsx:90-92 | drawing starts |
| `HexColorApp.App.HandleMouseUp` | src/App.tsx:95-97 | drawing stops |
| `HexColorApp.App.HandleFillClick` | src/App.tsx:159-165 | the mode becomes FILL |
| `HexColorApp.App.SelectColor` | src/App.tsx:44 | the selected colour becomes the chosen one |
| `HexColorApp.App.HandleClearGrid` | src/App.tsx:168-175 | the grid becomes GRID_SIZE × GRID_SIZE of `DEFAULT_COLOR` |
| `HexColorApp.App.LoadSavedGrid` | src/App.tsx:183-199 | a parsed value is taken only if it is GRID_SIZE arrays of length GRID_SIZE; otherwise the grid is unchanged |

## Left out

- `getLocalSVGCoords` (src/utils/hexUtils.ts:32-41): this is DOM matrix inversion, a call into the browser.
- `pointToCube` (src/utils/hexUtils.ts:44-49): it uses floating-point `Math.sqrt(3)`.
- `getHexPoints` (src/utils/hexUtils.ts:74-86): it uses `Math.cos`/`Math.sin` and string formatting.
- All numbers are exact: integers are unbounded and `real` is exact. IEEE-754 rounding of the source's doubles is not modelled.
- `Math.random` (src/utils/patternUtils.ts:28-31) becomes the `draws` parameter. The generator requires its draws in [0, 1), as `Math.random` promises, and requires enough of them.
- `SeedFromDraws`: the comment at src/utils/patternUtils.ts:30 says the seed colour excludes white and the default colour. The code at line 31 draws from the whole palette. The comment and the code disagree, and the model follows the code.
- `GenerateVoronoiPattern`: `numRegions` is taken to be a whole number; it keeps the source's default of 5. In the source a fractional value runs the seed loop ⌈min(numRegions, colors.length)⌉ times (2.5 gives 3 seeds), which is not modelled. The draws parameter comes before `numRegions` so that the default can be left out.
- `GenerateVoronoiPattern`: grid sizes are natural numbers. The source also accepts negative sizes, which give an empty grid there.
- `GenerateVoronoiPattern`: a non-empty grid requires at least one seed, so numRegions > 0 and a non-empty palette. The source reads `seedPoints[0]` there anyway, and with no seeds it throws a TypeError, which is not modelled.
- The rendering components (src/components/*.tsx) are not part of this model: they are SVG drawing and event plumbing.
- The localStorage write and read and `JSON.parse` (src/App.tsx:177-199) are left out, as are `useEffect` timing and the window `mouseup` listener (src/App.tsx:203-213). `LoadSavedGrid` takes the read-and-parse outcome as a parameter. The window listener behaves like `HandleMouseUp`. Storing and reading back is modelled as the stored `Json` value itself: `JSON.parse` of `JSON.stringify` of an array of strings gives that array back.
- `LoadSavedGrid`: the source's shape check does not look at the cells, so a cell that is not a string is accepted. A grid cell here is a string, so such a cell becomes "".
- The `alert` and `console.warn`/`console.error` side effects (src/App.tsx:56, 78, 161, 196) are left out.
- `HandleCellClick`: the source's `default` branch for an unknown mode cannot be reached, because `DrawMode` has only PAINT and FILL.
- `FloodFill`: the working copy is a `seq` value updated one cell at a time, not a mutable 2-D array. Copy-then-mutate and replace-wholesale agree for the caller, but aliasing is not modelled.
- The fill's neighbour rule and `gridToCube` use opposite row-offset conventions. For example, (0,0)→(1,1) is a fill step, yet its hex distance is 2. No relation between the two is stated.
