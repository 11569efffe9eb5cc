/** The editor itself: a GRID_SIZE x GRID_SIZE grid of colours, the selected
    palette colour, the drawing mode (paint single cells or flood fill) and
    whether the pointer is held down. Each handler replaces the grid
    wholesale with a new value. */
module HexColorApp {
  import opened HexUtils
  import opened Flood

  const GRID_SIZE: nat := 10
  const DEFAULT_COLOR: Color := "#EEEEEE"

  /** The palette; the last four entries are white, two greys and black. */
  const COLORS: seq<Color> := [
    "#FF6B6B", "#FFD93D", "#6BCB77", "#4D96FF", "#9B5DE5", "#F15BB5", "#00BBF9",
    "#FF9E00", "#8AC926", "#FFFFFF", "#AAAAAA", "#555555", "#000000"
  ]

  datatype DrawMode = Paint | Fill

  /** A value produced by JSON parsing: arrays, strings, and everything else. */
  datatype Json = JArray(items: seq<Json>) | JString(str: string) | JOther

  /** What reading the saved grid back from storage yields. */
  datatype SavedGrid = NothingSaved | Unparsable | Parsed(value: Json)

  /** The check on a loaded value: an array of `size` rows, each an array of
      length `size`. The cells themselves are not inspected. */
  predicate IsGridShape(v: Json, size: nat)
    ensures IsGridShape(v, size) ==> v.JArray? && |v.items| == size
  {
    && v.JArray?
    && |v.items| == size
    && forall i :: 0 <= i < |v.items| ==> v.items[i].JArray? && |v.items[i].items| == size
  }

  /** A loaded cell as a colour; a cell that is not a string becomes "". */
  function CellColour(v: Json): (c: Color)
    ensures v.JString? ==> c == v.str
  {
    if v.JString? then v.str else ""
  }

  /** The grid a loaded value of the right shape stands for. */
  function GridOfJson(v: Json, size: nat): (g: Grid)
    requires IsGridShape(v, size)
    ensures IsGrid(g, size, size)
    ensures forall i, j :: 0 <= i < size && 0 <= j < size && v.items[i].items[j].JString?
              ==> g[i][j] == v.items[i].items[j].str
  {
    seq(size, i requires 0 <= i < size =>
      seq(size, j requires 0 <= j < size => CellColour(v.items[i].items[j])))
  }

  /** The grid as the save effect stores it: an array of rows, each an
      array of colour strings. */
  function JsonOfGrid(g: Grid): (v: Json)
    ensures v.JArray? && |v.items| == |g|
  {
    JArray(seq(|g|, i requires 0 <= i < |g| =>
      JArray(seq(|g[i]|, j requires 0 <= j < |g[i]| => JString(g[i][j])))))
  }

  /** A saved grid passes the shape check and loads back as itself. */
  lemma SavedGridRoundTrip(g: Grid, size: nat)
    requires IsGrid(g, size, size)
    ensures IsGridShape(JsonOfGrid(g), size)
    ensures GridOfJson(JsonOfGrid(g), size) == g
  {
    var v := JsonOfGrid(g);
    assert IsGridShape(v, size);
    var back := GridOfJson(v, size);
    forall i | 0 <= i < size
      ensures back[i] == g[i]
    {
      assert v.items[i] == JArray(seq(|g[i]|, j requires 0 <= j < |g[i]| => JString(g[i][j])));
    }
  }

  /** The shape check never looks at a cell: replacing one keeps the value
      of the right shape. */
  lemma ShapeIgnoresCells(v: Json, size: nat, i: nat, j: nat, cell: Json)
    requires IsGridShape(v, size) && i < size && j < size
    ensures IsGridShape(JArray(v.items[i := JArray(v.items[i].items[j := cell])]), size)
  {
  }

  /** The rows-of-default-colour loop shared by the initial state and Clear. */
  method NewGrid(height: nat, width: nat, colour: Color) returns (g: Grid)
    ensures g == UniformGrid(height, width, colour)
  {
    g := [];
    for i := 0 to height
      invariant |g| == i
      invariant forall k :: 0 <= k < i ==> g[k] == seq(width, _ => colour)
    {
      var row := seq(width, _ => colour);
      g := g + [row];
    }
  }

  class App {
    var grid: Grid
    var selectedColor: Color
    var currentMode: DrawMode
    var isDrawing: bool

    ghost predicate Valid()
      reads this
    {
      IsGrid(grid, GRID_SIZE, GRID_SIZE)
    }

    ghost predicate InGrid(row: int, col: int)
    {
      InBounds(GRID_SIZE, GRID_SIZE, GridCoord(row, col))
    }

    /** The initial state: an all-default grid, the first palette colour,
        paint mode, pointer up. */
    constructor ()
      ensures Valid()
      ensures grid == UniformGrid(GRID_SIZE, GRID_SIZE, DEFAULT_COLOR)
      ensures selectedColor == COLORS[0] && currentMode == Paint && !isDrawing
    {
      var g := NewGrid(GRID_SIZE, GRID_SIZE, DEFAULT_COLOR);
      grid := g;
      selectedColor := COLORS[0];
      currentMode := Paint;
      isDrawing := false;
    }

    /** Flood fill from (startRow, startCol): nothing happens when the target
        already is the replacement; otherwise the grid becomes the filled
        copy. */
    method FloodFill(startRow: int, startCol: int, targetColor: Color, replacementColor: Color)
      requires Valid()
      modifies this`grid
      ensures Valid()
      ensures targetColor == replacementColor ==> grid == old(grid)
      ensures grid == Filled(old(grid), GRID_SIZE, GRID_SIZE, GridCoord(startRow, startCol), targetColor, replacementColor)
    {
      if targetColor == replacementColor {
        FilledSameColourIsNoop(grid, GRID_SIZE, GRID_SIZE, GridCoord(startRow, startCol), targetColor);
      }
      var newGrid := Flood.FloodFill(grid, GRID_SIZE, GRID_SIZE, GridCoord(startRow, startCol), targetColor, replacementColor);
      grid := newGrid;
    }

    /** A click: ignored outside the grid; in paint mode it recolours the one
        cell; in fill mode it fills from the cell's own colour and returns
        to paint mode. */
    method HandleCellClick(row: int, col: int)
      requires Valid()
      modifies this`grid, this`currentMode
      ensures Valid()
      ensures !InGrid(row, col) ==> grid == old(grid) && currentMode == old(currentMode)
      ensures InGrid(row, col) && old(currentMode) == Paint ==>
                grid == old(grid)[row := old(grid)[row][col := selectedColor]] && currentMode == Paint
      ensures InGrid(row, col) && old(currentMode) == Fill ==>
                grid == Filled(old(grid), GRID_SIZE, GRID_SIZE, GridCoord(row, col), old(grid)[row][col], selectedColor)
                && currentMode == Paint
    {
      if row < 0 || row >= GRID_SIZE || col < 0 || col >= GRID_SIZE {
        return;
      }
      match currentMode
      case Paint =>
        var newGrid := grid[row := grid[row][col := selectedColor]];
        grid := newGrid;
      case Fill =>
        var targetColor := grid[row][col];
        FloodFill(row, col, targetColor, selectedColor);
        currentMode := Paint;
    }

    /** Moving over a cell paints it only while the pointer is down in paint
        mode; hovering never changes the mode. */
    method HandleCellHover(row: int, col: int)
      requires Valid()
      modifies this`grid, this`currentMode
      ensures Valid()
      ensures currentMode == old(currentMode)
      ensures !(isDrawing && currentMode == Paint) ==> grid == old(grid)
      ensures isDrawing && currentMode == Paint && InGrid(row, col) ==>
                grid == old(grid)[row := old(grid)[row][col := selectedColor]]
      ensures !InGrid(row, col) ==> grid == old(grid)
    {
      if isDrawing && currentMode == Paint {
        HandleCellClick(row, col);
      }
    }

    method HandleMouseDown()
      modifies this`isDrawing
      ensures isDrawing
    {
      isDrawing := true;
    }

    /** Pointer released, over the grid or anywhere in the window. */
    method HandleMouseUp()
      modifies this`isDrawing
      ensures !isDrawing
    {
      isDrawing := false;
    }

    /** The flood-fill button arms fill mode for the next click. */
    method HandleFillClick()
      modifies this`currentMode
      ensures currentMode == Fill
    {
      currentMode := Fill;
    }

    /** Choosing a palette colour. */
    method SelectColor(c: Color)
      modifies this`selectedColor
      ensures selectedColor == c
    {
      selectedColor := c;
    }

    method HandleClearGrid()
      modifies this`grid
      ensures Valid()
      ensures grid == UniformGrid(GRID_SIZE, GRID_SIZE, DEFAULT_COLOR)
    {
      var newGrid := NewGrid(GRID_SIZE, GRID_SIZE, DEFAULT_COLOR);
      grid := newGrid;
    }

    /** The shape check applied to a value read back from storage and
        parsed: the value replaces the grid only when it parsed and has the
        grid's shape; otherwise the current grid stays. */
    method LoadSavedGrid(saved: SavedGrid)
      requires Valid()
      modifies this`grid
      ensures Valid()
      ensures saved.Parsed? && IsGridShape(saved.value, GRID_SIZE) ==> grid == GridOfJson(saved.value, GRID_SIZE)
      ensures !(saved.Parsed? && IsGridShape(saved.value, GRID_SIZE)) ==> grid == old(grid)
    {
      if saved.Parsed? && IsGridShape(saved.value, GRID_SIZE) {
        grid := GridOfJson(saved.value, GRID_SIZE);
      }
    }
  }
}
