/** Pattern generation on the hex grid: the cube-Manhattan hex distance and
    the Voronoi painter, which scatters coloured seeds and gives every cell
    the colour of its nearest seed. The random numbers the painter draws are
    a parameter: a sequence of reals in [0, 1), consumed three per seed. */
module PatternUtils {
  import opened HexUtils

  function IntAbs(x: int): (a: nat)
    ensures a == x || a == -x
  {
    if x < 0 then -x else x
  }

  function Max3(a: nat, b: nat, c: nat): (m: nat)
    ensures m >= a && m >= b && m >= c
    ensures m == a || m == b || m == c
  {
    if a >= b && a >= c then a else if b >= c then b else c
  }

  /** |dq| + |dr| + |ds| is twice the largest of the three, since the three
      differences sum to zero. */
  lemma CubeDeltaSum(dq: int, dr: int, ds: int)
    requires dq + dr + ds == 0
    ensures IntAbs(dq) + IntAbs(dr) + IntAbs(ds) == 2 * Max3(IntAbs(dq), IntAbs(dr), IntAbs(ds))
  {
  }

  /** Sum of the absolute cube differences of two storage cells. */
  function CubeManhattan(row1: int, col1: int, row2: int, col2: int): nat
  {
    var a, b := GridToCube(row1, col1), GridToCube(row2, col2);
    IntAbs(a.q - b.q) + IntAbs(a.r - b.r) + IntAbs(a.s - b.s)
  }

  /** The hex distance of two storage cells: half their cube-Manhattan
      distance. The halving is exact, so the source's real-valued division
      by 2 always yields a whole number. */
  function HexDistance(row1: int, col1: int, row2: int, col2: int): (d: nat)
    ensures 2 * d == CubeManhattan(row1, col1, row2, col2)
  {
    var a, b := GridToCube(row1, col1), GridToCube(row2, col2);
    CubeDeltaSum(a.q - b.q, a.r - b.r, a.s - b.s);
    CubeManhattan(row1, col1, row2, col2) / 2
  }

  /** The hex distance is the largest absolute cube difference. */
  lemma HexDistanceIsMaxDelta(row1: int, col1: int, row2: int, col2: int)
    ensures var a, b := GridToCube(row1, col1), GridToCube(row2, col2);
            HexDistance(row1, col1, row2, col2) == Max3(IntAbs(a.q - b.q), IntAbs(a.r - b.r), IntAbs(a.s - b.s))
  {
    var a, b := GridToCube(row1, col1), GridToCube(row2, col2);
    CubeDeltaSum(a.q - b.q, a.r - b.r, a.s - b.s);
  }

  /** The distance is zero exactly on the same cell. */
  lemma HexDistanceZeroIff(row1: int, col1: int, row2: int, col2: int)
    ensures HexDistance(row1, col1, row2, col2) == 0 <==> row1 == row2 && col1 == col2
  {
    GridToCubeInjective(row1, col1, row2, col2);
  }

  lemma HexDistanceSymmetric(row1: int, col1: int, row2: int, col2: int)
    ensures HexDistance(row1, col1, row2, col2) == HexDistance(row2, col2, row1, col1)
  {
  }

  lemma HexDistanceTriangle(row1: int, col1: int, row2: int, col2: int, row3: int, col3: int)
    ensures HexDistance(row1, col1, row3, col3)
            <= HexDistance(row1, col1, row2, col2) + HexDistance(row2, col2, row3, col3)
  {
  }

  /** One Voronoi seed: a storage cell and the colour of its region. */
  datatype Seed = Seed(row: int, col: int, color: Color)

  /** Math.min(numRegions, colors.length). */
  function RegionCount(numRegions: int, colors: seq<Color>): (n: int)
    ensures n <= numRegions && n <= |colors|
    ensures n == numRegions || n == |colors|
  {
    if numRegions < |colors| then numRegions else |colors|
  }

  /** How many seeds the loop creates: none when the region count is not
      positive. */
  function SeedCount(numRegions: int, colors: seq<Color>): (n: nat)
    ensures n <= |colors|
    ensures numRegions >= 0 ==> n == RegionCount(numRegions, colors)
  {
    if RegionCount(numRegions, colors) < 0 then 0 else RegionCount(numRegions, colors)
  }

  predicate ValidDraws(draws: seq<real>)
  {
    forall i :: 0 <= i < |draws| ==> 0.0 <= draws[i] < 1.0
  }

  /** Math.floor(draw * n): a uniform index into 0 .. n-1 for a draw in [0, 1). */
  function DrawIndex(draw: real, n: nat): (k: int)
    ensures 0.0 <= draw < 1.0 && n > 0 ==> 0 <= k < n
    ensures 0.0 <= draw < 1.0 && n == 0 ==> k == 0
  {
    assert 0.0 <= draw < 1.0 ==> 0.0 <= draw * n as real <= n as real;
    assert 0.0 <= draw < 1.0 && n > 0 ==> draw * n as real < n as real;
    (draw * n as real).Floor
  }

  /** The i-th seed, built from draws 3i (row), 3i+1 (column) and 3i+2 (colour). */
  function SeedFromDraws(gridSizeY: nat, gridSizeX: nat, colors: seq<Color>, draws: seq<real>, i: nat): (seed: Seed)
    requires |colors| > 0 && ValidDraws(draws) && 3 * i + 2 < |draws|
    ensures seed.color in colors
    ensures gridSizeY > 0 ==> 0 <= seed.row < gridSizeY
    ensures gridSizeX > 0 ==> 0 <= seed.col < gridSizeX
  {
    Seed(DrawIndex(draws[3 * i], gridSizeY),
         DrawIndex(draws[3 * i + 1], gridSizeX),
         colors[DrawIndex(draws[3 * i + 2], |colors|)])
  }

  /** The seed list the generator builds from its draws. */
  function SeedsFromDraws(gridSizeY: nat, gridSizeX: nat, colors: seq<Color>, numRegions: int, draws: seq<real>): (seeds: seq<Seed>)
    requires ValidDraws(draws) && |draws| >= 3 * SeedCount(numRegions, colors)
    ensures |seeds| == SeedCount(numRegions, colors)
    ensures forall i :: 0 <= i < |seeds| ==> seeds[i].color in colors
    ensures gridSizeY > 0 ==> forall i :: 0 <= i < |seeds| ==> 0 <= seeds[i].row < gridSizeY
    ensures gridSizeX > 0 ==> forall i :: 0 <= i < |seeds| ==> 0 <= seeds[i].col < gridSizeX
  {
    seq(SeedCount(numRegions, colors), i requires 0 <= i < SeedCount(numRegions, colors) =>
      SeedFromDraws(gridSizeY, gridSizeX, colors, draws, i))
  }

  /** The seed loop of the generator. */
  method GenerateSeeds(gridSizeY: nat, gridSizeX: nat, colors: seq<Color>, numRegions: int, draws: seq<real>)
    returns (seeds: seq<Seed>)
    requires ValidDraws(draws) && |draws| >= 3 * SeedCount(numRegions, colors)
    ensures seeds == SeedsFromDraws(gridSizeY, gridSizeX, colors, numRegions, draws)
  {
    var actualRegions := RegionCount(numRegions, colors);
    seeds := [];
    var i := 0;
    while i < actualRegions
      invariant 0 <= i && (i <= actualRegions || i == 0)
      invariant i <= SeedCount(numRegions, colors)
      invariant |seeds| == i
      invariant forall j :: 0 <= j < i ==> seeds[j] == SeedFromDraws(gridSizeY, gridSizeX, colors, draws, j)
    {
      var row := DrawIndex(draws[3 * i], gridSizeY);
      var col := DrawIndex(draws[3 * i + 1], gridSizeX);
      var colorIndex := DrawIndex(draws[3 * i + 2], |colors|);
      seeds := seeds + [Seed(row, col, colors[colorIndex])];
      i := i + 1;
    }
  }

  function SeedDistance(seeds: seq<Seed>, row: int, col: int, k: int): nat
    requires 0 <= k < |seeds|
  {
    HexDistance(row, col, seeds[k].row, seeds[k].col)
  }

  /** Seed k is a nearest seed of (row, col) by hex distance, and every
      earlier seed is strictly farther: ties go to the lowest index. */
  predicate IsNearestSeed(seeds: seq<Seed>, row: int, col: int, k: int)
  {
    && 0 <= k < |seeds|
    && (forall j :: 0 <= j < |seeds| ==> SeedDistance(seeds, row, col, k) <= SeedDistance(seeds, row, col, j))
    && (forall j :: 0 <= j < k ==> SeedDistance(seeds, row, col, k) < SeedDistance(seeds, row, col, j))
  }

  /** At most one seed is the nearest in that sense. */
  lemma NearestSeedUnique(seeds: seq<Seed>, row: int, col: int, k1: int, k2: int)
    requires IsNearestSeed(seeds, row, col, k1) && IsNearestSeed(seeds, row, col, k2)
    ensures k1 == k2
  {
    assert SeedDistance(seeds, row, col, k1) == SeedDistance(seeds, row, col, k2);
  }

  /** The inner search of the generator: a strict `<` keeps the earliest seed
      among those at minimal distance. */
  method ClosestSeed(seeds: seq<Seed>, row: int, col: int) returns (k: nat)
    requires |seeds| > 0
    ensures IsNearestSeed(seeds, row, col, k)
  {
    k := 0;
    var minDistance := HexDistance(row, col, seeds[0].row, seeds[0].col);
    var i := 1;
    while i < |seeds|
      invariant 1 <= i <= |seeds| && k < i
      invariant minDistance == SeedDistance(seeds, row, col, k)
      invariant forall j :: 0 <= j < i ==> minDistance <= SeedDistance(seeds, row, col, j)
      invariant forall j :: 0 <= j < k ==> minDistance < SeedDistance(seeds, row, col, j)
    {
      var distance := HexDistance(row, col, seeds[i].row, seeds[i].col);
      if distance < minDistance {
        minDistance := distance;
        k := i;
      }
      i := i + 1;
    }
  }

  /** One row of the colouring pass: each of its gridSizeX cells takes the
      colour of its nearest seed, whose index is recorded in `nearest`. */
  method ColourRow(row: int, gridSizeX: nat, seeds: seq<Seed>) returns (gridRow: seq<Color>, ghost nearest: seq<int>)
    requires gridSizeX > 0 ==> |seeds| > 0
    ensures |gridRow| == gridSizeX && |nearest| == gridSizeX
    ensures forall col :: 0 <= col < gridSizeX ==>
              IsNearestSeed(seeds, row, col, nearest[col]) && gridRow[col] == seeds[nearest[col]].color
  {
    gridRow, nearest := [], [];
    var col := 0;
    while col < gridSizeX
      invariant 0 <= col <= gridSizeX && |gridRow| == col && |nearest| == col
      invariant forall c :: 0 <= c < col ==>
                  IsNearestSeed(seeds, row, c, nearest[c]) && gridRow[c] == seeds[nearest[c]].color
    {
      var closest := ClosestSeed(seeds, row, col);
      gridRow, nearest := gridRow + [seeds[closest].color], nearest + [closest];
      col := col + 1;
    }
  }

  /** The colouring pass: every cell of the gridSizeY x gridSizeX grid takes
      the colour of its nearest seed, whose index is recorded in `nearest`.
      Seed 0 is read for every cell, so a grid with at least one cell needs
      at least one seed. */
  method ColourBySeeds(gridSizeY: nat, gridSizeX: nat, seeds: seq<Seed>)
    returns (grid: seq<seq<Color>>, ghost nearest: seq<seq<int>>)
    requires gridSizeY > 0 && gridSizeX > 0 ==> |seeds| > 0
    ensures |grid| == gridSizeY && |nearest| == gridSizeY
    ensures forall row :: 0 <= row < gridSizeY ==> |grid[row]| == gridSizeX && |nearest[row]| == gridSizeX
    ensures forall row, col :: 0 <= row < gridSizeY && 0 <= col < gridSizeX ==>
              IsNearestSeed(seeds, row, col, nearest[row][col]) && grid[row][col] == seeds[nearest[row][col]].color
  {
    grid, nearest := [], [];
    var row := 0;
    while row < gridSizeY
      invariant 0 <= row <= gridSizeY && |grid| == row && |nearest| == row
      invariant forall r :: 0 <= r < row ==> |grid[r]| == gridSizeX && |nearest[r]| == gridSizeX
      invariant forall r, c :: 0 <= r < row && 0 <= c < gridSizeX ==>
                  IsNearestSeed(seeds, r, c, nearest[r][c]) && grid[r][c] == seeds[nearest[r][c]].color
    {
      var gridRow, rowNearest := ColourRow(row, gridSizeX, seeds);
      grid, nearest := grid + [gridRow], nearest + [rowNearest];
      row := row + 1;
    }
  }

  /** generateVoronoiPattern with its random draws supplied (they come
      before numRegions, which keeps its default of 5): each cell takes the
      colour of its nearest seed among the seeds drawn, whose index is
      recorded in `nearest`, and so a colour of the palette. */
  method GenerateVoronoiPattern(gridSizeY: nat, gridSizeX: nat, colors: seq<Color>, draws: seq<real>,
                                numRegions: int := 5)
    returns (grid: seq<seq<Color>>, ghost nearest: seq<seq<int>>)
    requires ValidDraws(draws) && |draws| >= 3 * SeedCount(numRegions, colors)
    requires gridSizeY > 0 && gridSizeX > 0 ==> numRegions > 0 && |colors| > 0
    ensures |grid| == gridSizeY && |nearest| == gridSizeY
    ensures forall row :: 0 <= row < gridSizeY ==> |grid[row]| == gridSizeX && |nearest[row]| == gridSizeX
    ensures forall row, col :: 0 <= row < gridSizeY && 0 <= col < gridSizeX ==>
              var seeds := SeedsFromDraws(gridSizeY, gridSizeX, colors, numRegions, draws);
              IsNearestSeed(seeds, row, col, nearest[row][col]) && grid[row][col] == seeds[nearest[row][col]].color
    ensures forall row, col :: 0 <= row < gridSizeY && 0 <= col < gridSizeX ==> grid[row][col] in colors
  {
    var seeds := GenerateSeeds(gridSizeY, gridSizeX, colors, numRegions, draws);
    grid, nearest := ColourBySeeds(gridSizeY, gridSizeX, seeds);
  }
}
