/** The editor's grid and its breadth-first flood fill. A grid is a list of
    rows of colour strings; a cell's six neighbours depend on the parity of
    its row. The fill recolours, in a working copy, every cell that can be
    reached from the start cell through in-bounds cells of the target
    colour. */
module Flood {
  import opened HexUtils

  /** Rows of colours. A cell is addressed by a GridCoord, which may lie
      outside the grid. */
  type Grid = seq<seq<Color>>

  /** `g` has `height` rows, each of `width` cells. */
  predicate IsGrid(g: Grid, height: nat, width: nat)
  {
    |g| == height && forall i :: 0 <= i < |g| ==> |g[i]| == width
  }

  predicate InBounds(height: nat, width: nat, c: GridCoord)
  {
    0 <= c.row < height && 0 <= c.col < width
  }

  /** The cell exists in `g` and holds colour `t`. */
  predicate HasColour(g: Grid, c: GridCoord, t: Color)
  {
    0 <= c.row < |g| && 0 <= c.col < |g[c.row]| && g[c.row][c.col] == t
  }

  /** The six neighbours the fill enqueues, in its order. An even row pairs
      with columns c and c+1 of the rows above and below, an odd row with
      columns c-1 and c. */
  function Neighbours(c: GridCoord): (ns: seq<GridCoord>)
    ensures |ns| == 6
    ensures forall i :: 0 <= i < 6 ==> ns[i] != c
    ensures forall i, j :: 0 <= i < j < 6 ==> ns[i] != ns[j]
  {
    var r, k := c.row, c.col;
    if r % 2 == 0 then
      [GridCoord(r - 1, k), GridCoord(r - 1, k + 1), GridCoord(r, k - 1),
       GridCoord(r, k + 1), GridCoord(r + 1, k), GridCoord(r + 1, k + 1)]
    else
      [GridCoord(r - 1, k - 1), GridCoord(r - 1, k), GridCoord(r, k - 1),
       GridCoord(r, k + 1), GridCoord(r + 1, k - 1), GridCoord(r + 1, k)]
  }

  predicate Adjacent(a: GridCoord, b: GridCoord)
  {
    b in Neighbours(a)
  }

  /** The neighbour rule is symmetric, so fill regions are undirected. */
  lemma AdjacentSymmetric(a: GridCoord, b: GridCoord)
    requires Adjacent(a, b)
    ensures Adjacent(b, a)
  {
  }

  /** The example of an even row: (2, 2) touches (1,2), (1,3), (2,1), (2,3),
      (3,2) and (3,3). */
  lemma NeighboursOfEvenRow()
    ensures (set n | n in Neighbours(GridCoord(2, 2)))
            == {GridCoord(1, 2), GridCoord(1, 3), GridCoord(2, 1), GridCoord(2, 3), GridCoord(3, 2), GridCoord(3, 3)}
  {
  }

  /** A path the fill can follow: every cell in bounds and of colour
      `target`, each next cell a neighbour of the one before. */
  ghost predicate IsFillPath(g: Grid, height: nat, width: nat, target: Color, path: seq<GridCoord>)
  {
    && |path| > 0
    && (forall i :: 0 <= i < |path| ==> InBounds(height, width, path[i]) && HasColour(g, path[i], target))
    && (forall i :: 0 < i < |path| ==> StepAt(path, i))
  }

  /** The i-th cell of the path is a neighbour of the one before it. */
  ghost predicate StepAt(path: seq<GridCoord>, i: int)
    requires 0 < i < |path|
  {
    Adjacent(path[i - 1], path[i])
  }

  /** `c` lies in the region of `target`-coloured cells connected to `start`. */
  ghost predicate InRegion(g: Grid, height: nat, width: nat, target: Color, start: GridCoord, c: GridCoord)
  {
    exists path :: IsFillPath(g, height, width, target, path) && path[0] == start && path[|path| - 1] == c
  }

  /** The grid a fill from `start` should produce: the region of `target`
      around `start` recoloured to `replacement`, every other cell as it was. */
  ghost function Filled(g: Grid, height: nat, width: nat, start: GridCoord, target: Color, replacement: Color): (r: Grid)
    requires IsGrid(g, height, width)
    ensures IsGrid(r, height, width)
  {
    seq(height, i requires 0 <= i < height =>
      seq(width, j requires 0 <= j < width =>
        if InRegion(g, height, width, target, start, GridCoord(i, j)) then replacement else g[i][j]))
  }

  lemma RegionHasTarget(g: Grid, height: nat, width: nat, target: Color, start: GridCoord, c: GridCoord)
    requires InRegion(g, height, width, target, start, c)
    ensures InBounds(height, width, c) && HasColour(g, c, target)
    ensures InBounds(height, width, start) && HasColour(g, start, target)
  {
    var path :| IsFillPath(g, height, width, target, path) && path[0] == start && path[|path| - 1] == c;
    assert path[|path| - 1] == c;
  }

  /** One step along a neighbour of target colour stays in the region. */
  lemma RegionStep(g: Grid, height: nat, width: nat, target: Color, start: GridCoord, a: GridCoord, b: GridCoord)
    requires InRegion(g, height, width, target, start, a)
    requires Adjacent(a, b) && InBounds(height, width, b) && HasColour(g, b, target)
    ensures InRegion(g, height, width, target, start, b)
  {
    var path :| IsFillPath(g, height, width, target, path) && path[0] == start && path[|path| - 1] == a;
    var path' := path + [b];
    forall i | 0 < i < |path'|
      ensures StepAt(path', i)
    {
      if i < |path| {
        assert StepAt(path, i);
      }
    }
    assert IsFillPath(g, height, width, target, path');
    assert path'[0] == start && path'[|path'| - 1] == b;
  }

  /** The fill only ever writes the replacement colour, and only over cells
      of the target colour. */
  lemma FilledChangesOnlyTarget(g: Grid, height: nat, width: nat, start: GridCoord, target: Color, replacement: Color, i: int, j: int)
    requires IsGrid(g, height, width) && 0 <= i < height && 0 <= j < width
    ensures var r := Filled(g, height, width, start, target, replacement);
            r[i][j] == g[i][j] || (g[i][j] == target && r[i][j] == replacement)
  {
    if InRegion(g, height, width, target, start, GridCoord(i, j)) {
      RegionHasTarget(g, height, width, target, start, GridCoord(i, j));
    }
  }

  /** Filling with the colour the region already has changes nothing. */
  lemma FilledSameColourIsNoop(g: Grid, height: nat, width: nat, start: GridCoord, target: Color)
    requires IsGrid(g, height, width)
    ensures Filled(g, height, width, start, target, target) == g
  {
    var r := Filled(g, height, width, start, target, target);
    forall i | 0 <= i < height
      ensures r[i] == g[i]
    {
      forall j | 0 <= j < width
        ensures r[i][j] == g[i][j]
      {
        FilledChangesOnlyTarget(g, height, width, start, target, target, i, j);
      }
    }
  }

  /** A start cell outside the grid, or not of the target colour, fills
      nothing. */
  lemma FilledFromForeignStartIsNoop(g: Grid, height: nat, width: nat, start: GridCoord, target: Color, replacement: Color)
    requires IsGrid(g, height, width)
    requires !InBounds(height, width, start) || !HasColour(g, start, target)
    ensures Filled(g, height, width, start, target, replacement) == g
  {
    var r := Filled(g, height, width, start, target, replacement);
    forall i | 0 <= i < height
      ensures r[i] == g[i]
    {
      forall j | 0 <= j < width
        ensures r[i][j] == g[i][j]
      {
        if InRegion(g, height, width, target, start, GridCoord(i, j)) {
          RegionHasTarget(g, height, width, target, start, GridCoord(i, j));
          assert false;
        }
      }
    }
  }

  /** A height x width grid with every cell of colour `colour`. */
  function UniformGrid(height: nat, width: nat, colour: Color): (g: Grid)
    ensures IsGrid(g, height, width)
    ensures forall i, j :: 0 <= i < height && 0 <= j < width ==> g[i][j] == colour
  {
    seq(height, _ => seq(width, _ => colour))
  }

  /** In a one-colour grid, walking along the start cell's row reaches every
      column of that row. */
  lemma {:induction false} UniformRowReachable(height: nat, width: nat, t: Color, start: GridCoord, j: int)
    requires InBounds(height, width, start) && 0 <= j < width
    ensures InRegion(UniformGrid(height, width, t), height, width, t, start, GridCoord(start.row, j))
    decreases if j < start.col then start.col - j else j - start.col
  {
    var g := UniformGrid(height, width, t);
    if j == start.col {
      assert IsFillPath(g, height, width, t, [start]);
    } else {
      var prev := if j < start.col then j + 1 else j - 1;
      UniformRowReachable(height, width, t, start, prev);
      assert Neighbours(GridCoord(start.row, prev))[if j < start.col then 2 else 3] == GridCoord(start.row, j);
      RegionStep(g, height, width, t, start, GridCoord(start.row, prev), GridCoord(start.row, j));
    }
  }

  /** ... and then walking straight up or down a column reaches every cell:
      (r-1, c) and (r+1, c) are neighbours of (r, c) in either parity. */
  lemma {:induction false} UniformGridReachable(height: nat, width: nat, t: Color, start: GridCoord, c: GridCoord)
    requires InBounds(height, width, start) && InBounds(height, width, c)
    ensures InRegion(UniformGrid(height, width, t), height, width, t, start, c)
    decreases if c.row < start.row then start.row - c.row else c.row - start.row
  {
    var g := UniformGrid(height, width, t);
    if c.row == start.row {
      UniformRowReachable(height, width, t, start, c.col);
    } else {
      var prev := GridCoord(if c.row < start.row then c.row + 1 else c.row - 1, c.col);
      UniformGridReachable(height, width, t, start, prev);
      if c.row < start.row {
        assert Neighbours(prev)[if prev.row % 2 == 0 then 0 else 1] == c;
      } else {
        assert Neighbours(prev)[if prev.row % 2 == 0 then 4 else 5] == c;
      }
      RegionStep(g, height, width, t, start, prev, c);
    }
  }

  /** A fill started anywhere in a one-colour grid recolours the whole grid. */
  lemma FillUniformGrid(height: nat, width: nat, t: Color, start: GridCoord, replacement: Color)
    requires InBounds(height, width, start)
    ensures Filled(UniformGrid(height, width, t), height, width, start, t, replacement)
            == UniformGrid(height, width, replacement)
  {
    var g := UniformGrid(height, width, t);
    var r := Filled(g, height, width, start, t, replacement);
    forall i, j | 0 <= i < height && 0 <= j < width
      ensures r[i][j] == UniformGrid(height, width, replacement)[i][j]
    {
      FilledAt(g, height, width, start, t, replacement, i, j);
      UniformGridReachable(height, width, t, start, GridCoord(i, j));
    }
    GridExtensionality(r, UniformGrid(height, width, replacement), height, width);
  }

  /** The 3 x 3 scenario: a grid all "#EEEEEE" filled at (1, 1) with
      "#FF0000" becomes all "#FF0000". */
  lemma FillThreeByThreeExample()
    ensures Filled(UniformGrid(3, 3, "#EEEEEE"), 3, 3, GridCoord(1, 1), "#EEEEEE", "#FF0000")
            == [["#FF0000", "#FF0000", "#FF0000"], ["#FF0000", "#FF0000", "#FF0000"], ["#FF0000", "#FF0000", "#FF0000"]]
  {
    FillUniformGrid(3, 3, "#EEEEEE", GridCoord(1, 1), "#FF0000");
    var red := [["#FF0000", "#FF0000", "#FF0000"], ["#FF0000", "#FF0000", "#FF0000"], ["#FF0000", "#FF0000", "#FF0000"]];
    GridExtensionality(UniformGrid(3, 3, "#FF0000"), red, 3, 3);
  }

  /** Two cells of one colour that a barrier of another colour separates:
      filling one of them leaves the other as it was. */
  lemma FillStopsAtBarrier()
    ensures Filled([["#EEEEEE", "#000000", "#EEEEEE"]], 1, 3, GridCoord(0, 0), "#EEEEEE", "#FF0000")
            == [["#FF0000", "#000000", "#EEEEEE"]]
  {
    var g := [["#EEEEEE", "#000000", "#EEEEEE"]];
    var r := Filled(g, 1, 3, GridCoord(0, 0), "#EEEEEE", "#FF0000");
    forall j | 0 <= j < 3
      ensures r[0][j] == [["#FF0000", "#000000", "#EEEEEE"]][0][j]
    {
      FilledAt(g, 1, 3, GridCoord(0, 0), "#EEEEEE", "#FF0000", 0, j);
      BarrierRegion(j);
    }
    GridExtensionality(r, [["#FF0000", "#000000", "#EEEEEE"]], 1, 3);
  }

  /** In the barrier example the region of (0, 0) is that cell alone. */
  lemma BarrierRegion(j: int)
    requires 0 <= j < 3
    ensures InRegion([["#EEEEEE", "#000000", "#EEEEEE"]], 1, 3, "#EEEEEE", GridCoord(0, 0), GridCoord(0, j)) <==> j == 0
  {
    var g := [["#EEEEEE", "#000000", "#EEEEEE"]];
    if j == 0 {
      assert IsFillPath(g, 1, 3, "#EEEEEE", [GridCoord(0, 0)]);
    } else if InRegion(g, 1, 3, "#EEEEEE", GridCoord(0, 0), GridCoord(0, j)) {
      BarrierClosed();
      RegionWithinClosedSet(g, 1, 3, "#EEEEEE", GridCoord(0, 0), {GridCoord(0, 0)}, GridCoord(0, j));
    }
  }

  lemma BarrierClosed()
    ensures forall p, n :: p in {GridCoord(0, 0)} && n in Neighbours(p) && InBounds(1, 3, n)
              ==> n in {GridCoord(0, 0)} || !HasColour([["#EEEEEE", "#000000", "#EEEEEE"]], n, "#EEEEEE")
  {
    var g := [["#EEEEEE", "#000000", "#EEEEEE"]];
    assert g[0][1] != "#EEEEEE";
    forall p, n | p in {GridCoord(0, 0)} && n in Neighbours(p) && InBounds(1, 3, n)
      ensures n in {GridCoord(0, 0)} || !HasColour(g, n, "#EEEEEE")
    {
      assert Neighbours(p) == [GridCoord(-1, 0), GridCoord(-1, 1), GridCoord(0, -1),
                               GridCoord(0, 1), GridCoord(1, 0), GridCoord(1, 1)];
      assert n == GridCoord(0, 1);
    }
  }

  /** The region of `start` lies inside every set that holds `start` and is
      closed under stepping to in-bounds neighbours of the target colour:
      the region is the smallest such set. */
  lemma {:induction false} RegionWithinClosedSet(g: Grid, height: nat, width: nat, target: Color, start: GridCoord,
                                                 closed: set<GridCoord>, c: GridCoord)
    requires start in closed
    requires forall p, n :: p in closed && n in Neighbours(p) && InBounds(height, width, n)
               ==> n in closed || !HasColour(g, n, target)
    requires InRegion(g, height, width, target, start, c)
    ensures c in closed
  {
    var path :| IsFillPath(g, height, width, target, path) && path[0] == start && path[|path| - 1] == c;
    var i := 1;
    while i < |path|
      invariant 1 <= i <= |path|
      invariant forall m :: 0 <= m < i ==> path[m] in closed
    {
      assert StepAt(path, i);
      assert InBounds(height, width, path[i]) && HasColour(g, path[i], target);
      i := i + 1;
    }
  }

  /** Number of cells of colour `t` in one row. */
  function CountInRow(row: seq<Color>, t: Color): (n: nat)
    ensures n <= |row|
  {
    if row == [] then 0 else (if row[0] == t then 1 else 0) + CountInRow(row[1..], t)
  }

  /** Number of cells of colour `t` in the grid. */
  function CountInGrid(g: Grid, t: Color): nat
  {
    if g == [] then 0 else CountInRow(g[0], t) + CountInGrid(g[1..], t)
  }

  lemma {:induction false} CountInRowRecolour(row: seq<Color>, j: nat, t: Color, x: Color)
    requires j < |row| && row[j] == t && x != t
    ensures CountInRow(row[j := x], t) == CountInRow(row, t) - 1
  {
    if j > 0 {
      assert row[j := x][1..] == row[1..][j - 1 := x];
      CountInRowRecolour(row[1..], j - 1, t, x);
    } else {
      assert row[j := x][1..] == row[1..];
    }
  }

  /** Recolouring one `t` cell to another colour lowers the count of `t` by one. */
  lemma {:induction false} CountInGridRecolour(g: Grid, i: nat, j: nat, t: Color, x: Color)
    requires i < |g| && j < |g[i]| && g[i][j] == t && x != t
    ensures CountInGrid(g[i := g[i][j := x]], t) == CountInGrid(g, t) - 1
  {
    if i > 0 {
      assert g[i := g[i][j := x]][1..] == g[1..][i - 1 := g[i][j := x]];
      CountInGridRecolour(g[1..], i - 1, j, t, x);
    } else {
      assert g[i := g[i][j := x]][1..] == g[1..];
      CountInRowRecolour(g[0], j, t, x);
    }
  }

  /** The working copy differs from the input exactly on the recoloured
      cells `done`, which were of the target colour and now hold the
      replacement. */
  ghost predicate WorkMatches(grid: Grid, work: Grid, height: nat, width: nat, target: Color, replacement: Color,
                              done: set<GridCoord>)
  {
    && IsGrid(grid, height, width)
    && IsGrid(work, height, width)
    && (forall d :: d in done ==>
          InBounds(height, width, d) && grid[d.row][d.col] == target && work[d.row][d.col] == replacement)
    && (forall d :: InBounds(height, width, d) && d !in done ==> work[d.row][d.col] == grid[d.row][d.col])
  }

  /** Every recoloured cell belongs to the region of the start cell. */
  ghost predicate DoneInRegion(grid: Grid, height: nat, width: nat, target: Color, start: GridCoord, done: set<GridCoord>)
  {
    forall d :: d in done ==> InRegion(grid, height, width, target, start, d)
  }

  /** Every cell that may still need recolouring is waiting in the queue:
      the start cell, and each in-bounds neighbour of a recoloured cell,
      while they hold the target colour. */
  ghost predicate FrontierQueued(work: Grid, height: nat, width: nat, start: GridCoord, target: Color,
                                 queue: seq<GridCoord>, done: set<GridCoord>)
  {
    && (InBounds(height, width, start) && HasColour(work, start, target) ==> start in queue)
    && (forall p, n :: p in done && n in Neighbours(p) && InBounds(height, width, n) && HasColour(work, n, target)
          ==> n in queue)
  }

  /** The queue holds only the start cell and neighbours of recoloured cells. */
  ghost predicate QueueFromDone(start: GridCoord, queue: seq<GridCoord>, done: set<GridCoord>)
  {
    forall k :: 0 <= k < |queue| ==> queue[k] == start || exists p :: p in done && Adjacent(p, queue[k])
  }

  /** The fill loop's invariant, over the input grid, the working copy, the
      queue and the (ghost) set of cells recoloured so far. */
  ghost predicate FillInvariant(grid: Grid, work: Grid, height: nat, width: nat, start: GridCoord, target: Color,
                                replacement: Color, queue: seq<GridCoord>, done: set<GridCoord>)
  {
    && target != replacement
    && WorkMatches(grid, work, height, width, target, replacement, done)
    && DoneInRegion(grid, height, width, target, start, done)
    && FrontierQueued(work, height, width, start, target, queue, done)
    && QueueFromDone(start, queue, done)
  }

  /** What the fill loop knows when its queue has run dry: nothing is left
      to recolour, so every cell of the region has been recoloured. */
  lemma {:induction false} DrainedQueueCoversRegion(grid: Grid, work: Grid, height: nat, width: nat, start: GridCoord,
                                                    target: Color, replacement: Color, done: set<GridCoord>, c: GridCoord)
    requires target != replacement
    requires WorkMatches(grid, work, height, width, target, replacement, done)
    requires FrontierQueued(work, height, width, start, target, [], done)
    requires InRegion(grid, height, width, target, start, c)
    ensures c in done
  {
    var path :| IsFillPath(grid, height, width, target, path) && path[0] == start && path[|path| - 1] == c;
    assert InBounds(height, width, path[0]) && HasColour(grid, path[0], target);
    DrainedStart(grid, work, height, width, start, target, replacement, done);
    forall p, d | p in done && Adjacent(p, d) && InBounds(height, width, d) && HasColour(grid, d, target)
      ensures d in done
    {
      DrainedStep(grid, work, height, width, start, target, replacement, done, p, d);
    }
    PathInClosedSet(grid, height, width, target, done, path, |path| - 1);
  }

  /** Each cell of a fill path lies in every set that holds the path's
      first cell and is closed under target-coloured in-bounds neighbours. */
  lemma {:induction false} PathInClosedSet(grid: Grid, height: nat, width: nat, target: Color, closed: set<GridCoord>,
                                           path: seq<GridCoord>, i: nat)
    requires IsFillPath(grid, height, width, target, path) && i < |path|
    requires path[0] in closed
    requires forall p, d :: p in closed && Adjacent(p, d) && InBounds(height, width, d) && HasColour(grid, d, target)
               ==> d in closed
    ensures path[i] in closed
  {
    if i > 0 {
      PathInClosedSet(grid, height, width, target, closed, path, i - 1);
      assert StepAt(path, i);
    }
  }

  lemma DrainedStart(grid: Grid, work: Grid, height: nat, width: nat, start: GridCoord,
                     target: Color, replacement: Color, done: set<GridCoord>)
    requires WorkMatches(grid, work, height, width, target, replacement, done)
    requires FrontierQueued(work, height, width, start, target, [], done)
    requires InBounds(height, width, start) && HasColour(grid, start, target)
    ensures start in done
  {
    RecolouredUnlessTarget(grid, work, height, width, target, replacement, done, start);
  }

  lemma DrainedStep(grid: Grid, work: Grid, height: nat, width: nat, start: GridCoord,
                    target: Color, replacement: Color, done: set<GridCoord>, p: GridCoord, d: GridCoord)
    requires WorkMatches(grid, work, height, width, target, replacement, done)
    requires FrontierQueued(work, height, width, start, target, [], done)
    requires p in done && Adjacent(p, d) && InBounds(height, width, d) && HasColour(grid, d, target)
    ensures d in done
  {
    assert !HasColour(work, d, target);
    RecolouredUnlessTarget(grid, work, height, width, target, replacement, done, d);
  }

  /** A cell that held the target colour and no longer does was recoloured. */
  lemma RecolouredUnlessTarget(grid: Grid, work: Grid, height: nat, width: nat, target: Color, replacement: Color,
                               done: set<GridCoord>, d: GridCoord)
    requires WorkMatches(grid, work, height, width, target, replacement, done)
    requires InBounds(height, width, d) && HasColour(grid, d, target) && !HasColour(work, d, target)
    ensures d in done
  {
  }

  lemma FillInvariantInit(grid: Grid, height: nat, width: nat, start: GridCoord, target: Color, replacement: Color)
    requires IsGrid(grid, height, width) && target != replacement
    ensures FillInvariant(grid, grid, height, width, start, target, replacement, [start], {})
  {
  }

  /** Dropping a queued cell that is out of bounds or not of the target
      colour keeps the invariant. */
  lemma FillInvariantSkip(grid: Grid, work: Grid, height: nat, width: nat, start: GridCoord, target: Color,
                          replacement: Color, queue: seq<GridCoord>, done: set<GridCoord>)
    requires FillInvariant(grid, work, height, width, start, target, replacement, queue, done)
    requires queue != [] && !(InBounds(height, width, queue[0]) && HasColour(work, queue[0], target))
    ensures FillInvariant(grid, work, height, width, start, target, replacement, queue[1..], done)
  {
    var c := queue[0];
    forall p, n | p in done && n in Neighbours(p) && InBounds(height, width, n) && HasColour(work, n, target)
      ensures n in queue[1..]
    {
      assert n in queue && n != c;
    }
    forall k | 0 <= k < |queue| - 1
      ensures queue[1..][k] == start || exists p :: p in done && Adjacent(p, queue[1..][k])
    {
      assert queue[1..][k] == queue[k + 1];
    }
  }

  lemma VisitKeepsWork(grid: Grid, work: Grid, height: nat, width: nat, target: Color, replacement: Color,
                       done: set<GridCoord>, c: GridCoord)
    requires WorkMatches(grid, work, height, width, target, replacement, done)
    requires target != replacement && InBounds(height, width, c) && HasColour(work, c, target)
    ensures c !in done
    ensures WorkMatches(grid, work[c.row := work[c.row][c.col := replacement]], height, width, target, replacement,
                        done + {c})
  {
  }

  lemma VisitKeepsRegion(grid: Grid, height: nat, width: nat, target: Color, start: GridCoord,
                         queue: seq<GridCoord>, done: set<GridCoord>)
    requires DoneInRegion(grid, height, width, target, start, done) && QueueFromDone(start, queue, done)
    requires queue != [] && InBounds(height, width, queue[0]) && HasColour(grid, queue[0], target)
    ensures DoneInRegion(grid, height, width, target, start, done + {queue[0]})
  {
    var c := queue[0];
    if c != start {
      var p :| p in done && Adjacent(p, c);
      RegionStep(grid, height, width, target, start, p, c);
    } else {
      assert IsFillPath(grid, height, width, target, [start]);
    }
  }

  lemma VisitKeepsFrontier(work: Grid, height: nat, width: nat, start: GridCoord, target: Color, replacement: Color,
                           queue: seq<GridCoord>, done: set<GridCoord>)
    requires IsGrid(work, height, width) && target != replacement
    requires FrontierQueued(work, height, width, start, target, queue, done)
    requires queue != [] && InBounds(height, width, queue[0])
    ensures var c := queue[0];
            FrontierQueued(work[c.row := work[c.row][c.col := replacement]], height, width, start, target,
                           queue[1..] + Neighbours(c), done + {c})
  {
    var c := queue[0];
    var work' := work[c.row := work[c.row][c.col := replacement]];
    var queue' := queue[1..] + Neighbours(c);
    assert forall d :: HasColour(work', d, target) ==> d != c && HasColour(work, d, target);
    forall p, n | p in done + {c} && n in Neighbours(p) && InBounds(height, width, n) && HasColour(work', n, target)
      ensures n in queue'
    {
      if p == c {
        assert n in queue'[|queue| - 1..];
      } else {
        assert n in queue && n != c;
        assert n in queue[1..];
      }
    }
    if InBounds(height, width, start) && HasColour(work', start, target) {
      assert start in queue && start != c;
      assert start in queue[1..];
    }
  }

  lemma VisitKeepsQueue(start: GridCoord, queue: seq<GridCoord>, done: set<GridCoord>)
    requires QueueFromDone(start, queue, done) && queue != []
    ensures QueueFromDone(start, queue[1..] + Neighbours(queue[0]), done + {queue[0]})
  {
    var c := queue[0];
    var queue' := queue[1..] + Neighbours(c);
    forall k | 0 <= k < |queue'|
      ensures queue'[k] == start || exists p :: p in done + {c} && Adjacent(p, queue'[k])
    {
      if k < |queue| - 1 {
        assert queue'[k] == queue[k + 1];
      } else {
        assert Adjacent(c, queue'[k]);
      }
    }
  }

  /** Recolouring a dequeued in-bounds target cell and enqueuing its six
      neighbours keeps the invariant and lowers the count of target cells. */
  lemma FillInvariantVisit(grid: Grid, work: Grid, height: nat, width: nat, start: GridCoord, target: Color,
                           replacement: Color, queue: seq<GridCoord>, done: set<GridCoord>)
    requires FillInvariant(grid, work, height, width, start, target, replacement, queue, done)
    requires queue != [] && InBounds(height, width, queue[0]) && HasColour(work, queue[0], target)
    ensures var c := queue[0];
            FillInvariant(grid, work[c.row := work[c.row][c.col := replacement]], height, width, start, target,
                          replacement, queue[1..] + Neighbours(c), done + {c})
    ensures var c := queue[0];
            CountInGrid(work[c.row := work[c.row][c.col := replacement]], target) < CountInGrid(work, target)
  {
    var c := queue[0];
    VisitKeepsWork(grid, work, height, width, target, replacement, done, c);
    assert HasColour(grid, c, target);
    VisitKeepsRegion(grid, height, width, target, start, queue, done);
    VisitKeepsFrontier(work, height, width, start, target, replacement, queue, done);
    VisitKeepsQueue(start, queue, done);
    CountInGridRecolour(work, c.row, c.col, target, replacement);
  }

  /** One cell of `Filled`. */
  lemma FilledAt(g: Grid, height: nat, width: nat, start: GridCoord, target: Color, replacement: Color, i: int, j: int)
    requires IsGrid(g, height, width) && 0 <= i < height && 0 <= j < width
    ensures Filled(g, height, width, start, target, replacement)[i][j]
            == if InRegion(g, height, width, target, start, GridCoord(i, j)) then replacement else g[i][j]
  {
  }

  /** Two grids of the same shape that agree on every cell are equal. */
  lemma GridExtensionality(a: Grid, b: Grid, height: nat, width: nat)
    requires IsGrid(a, height, width) && IsGrid(b, height, width)
    requires forall i, j :: 0 <= i < height && 0 <= j < width ==> a[i][j] == b[i][j]
    ensures a == b
  {
    forall i | 0 <= i < height
      ensures a[i] == b[i]
    {
      assert |a[i]| == |b[i]| == width;
    }
  }

  /** When the queue is empty the working grid is exactly `Filled`. */
  lemma FillInvariantDrained(grid: Grid, work: Grid, height: nat, width: nat, start: GridCoord, target: Color,
                             replacement: Color, done: set<GridCoord>)
    requires FillInvariant(grid, work, height, width, start, target, replacement, [], done)
    ensures work == Filled(grid, height, width, start, target, replacement)
  {
    var r := Filled(grid, height, width, start, target, replacement);
    forall i, j | 0 <= i < height && 0 <= j < width
      ensures work[i][j] == r[i][j]
    {
      FilledAt(grid, height, width, start, target, replacement, i, j);
      var c := GridCoord(i, j);
      if c in done {
        assert InRegion(grid, height, width, target, start, c);
      } else if InRegion(grid, height, width, target, start, c) {
        DrainedQueueCoversRegion(grid, work, height, width, start, target, replacement, done, c);
      }
    }
    GridExtensionality(work, r, height, width);
  }

  /** floodFill: breadth-first over a queue of cells, recolouring a cell
      when it is dequeued in bounds with the target colour and then enqueuing
      its six neighbours. The input grid is left as it is; the result is
      exactly `Filled`. */
  method FloodFill(grid: Grid, height: nat, width: nat, start: GridCoord, target: Color, replacement: Color)
    returns (result: Grid)
    requires IsGrid(grid, height, width)
    ensures result == Filled(grid, height, width, start, target, replacement)
  {
    if target == replacement {
      FilledSameColourIsNoop(grid, height, width, start, target);
      return grid;
    }
    var work := grid;
    var queue := [start];
    ghost var done: set<GridCoord> := {};
    FillInvariantInit(grid, height, width, start, target, replacement);
    while |queue| > 0
      invariant FillInvariant(grid, work, height, width, start, target, replacement, queue, done)
      decreases CountInGrid(work, target), |queue|
    {
      var c := queue[0];
      if !InBounds(height, width, c) || work[c.row][c.col] != target {
        assert !(InBounds(height, width, c) && HasColour(work, c, target));
        FillInvariantSkip(grid, work, height, width, start, target, replacement, queue, done);
        queue := queue[1..];
        continue;
      }
      FillInvariantVisit(grid, work, height, width, start, target, replacement, queue, done);
      queue := queue[1..];
      work := work[c.row := work[c.row][c.col := replacement]];
      done := done + {c};
      queue := queue + Neighbours(c);
    }
    FillInvariantDrained(grid, work, height, width, start, target, replacement, done);
    result := work;
  }
}
