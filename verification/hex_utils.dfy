/** Coordinate engine of the hex canvas: offset (row, col) storage cells,
    cube coordinates (q, r, s) and the snapping of a fractional cube triple
    to a whole hex. Rows are offset by half a cell, so that
    q = col - floor(row / 2), r = row and s = -q - r. */
module HexUtils {

  /** A cube coordinate; an exact hex cell has q + r + s == 0. */
  datatype CubeCoord = CubeCoord(q: int, r: int, s: int)

  /** A colour, as a CSS hex string such as "#EEEEEE"; every grid cell
      holds one. */
  type Color = string

  /** A storage position: row index and column index. */
  datatype GridCoord = GridCoord(row: int, col: int)

  /** The whole hex returned by RoundToHex. */
  datatype RoundedHex = RoundedHex(rq: int, rr: int, rs: int)

  /** The three cube axes, in the order RoundToHex compares their errors. */
  datatype Axis = Q | R | S

  /** JavaScript's Math.floor(row / 2). Dafny's `/` is Euclidean, which is
      floor division for the positive divisor 2, negative rows included. */
  function HalfFloor(row: int): (h: int)
    ensures 2 * h <= row < 2 * h + 2
  {
    row / 2
  }

  /** Offset storage cell to cube coordinates. */
  function GridToCube(row: int, col: int): (c: CubeCoord)
    ensures c.q + c.r + c.s == 0
    ensures c.r == row
    ensures 2 * c.q + row - 1 <= 2 * col <= 2 * c.q + row
  {
    var q := col - HalfFloor(row);
    CubeCoord(q, row, -q - row)
  }

  /** Cube coordinates (the s component is implied) back to a storage cell. */
  function CubeToGrid(q: int, r: int): (g: GridCoord)
    ensures g.row == r
    ensures 2 * q + r - 1 <= 2 * g.col <= 2 * q + r
  {
    GridCoord(r, q + HalfFloor(r))
  }

  /** Converting a cell to cube coordinates and back gives the cell again. */
  lemma GridCubeRoundTrip(row: int, col: int)
    ensures CubeToGrid(GridToCube(row, col).q, GridToCube(row, col).r) == GridCoord(row, col)
  {
  }

  /** Converting cube coordinates to a cell and back gives q and r again,
      with s == -q - r. */
  lemma CubeGridRoundTrip(q: int, r: int)
    ensures GridToCube(CubeToGrid(q, r).row, CubeToGrid(q, r).col) == CubeCoord(q, r, -q - r)
  {
  }

  /** Distinct storage cells have distinct cube coordinates. */
  lemma GridToCubeInjective(row1: int, col1: int, row2: int, col2: int)
    ensures GridToCube(row1, col1) == GridToCube(row2, col2) <==> row1 == row2 && col1 == col2
  {
    if GridToCube(row1, col1) == GridToCube(row2, col2) {
      GridCubeRoundTrip(row1, col1);
      GridCubeRoundTrip(row2, col2);
    }
  }

  function Abs(x: real): (a: real)
    ensures a >= 0.0 && (a == x || a == -x)
  {
    if x < 0.0 then -x else x
  }

  /** JavaScript's Math.round: the nearest integer, halves rounded up. */
  function JsRound(x: real): (n: int)
    ensures n as real - 0.5 <= x < n as real + 0.5
  {
    (x + 0.5).Floor
  }

  /** The rounding error of one component. */
  function RoundingError(x: real): (e: real)
    ensures 0.0 <= e <= 0.5
  {
    Abs(JsRound(x) as real - x)
  }

  /** The component RoundToHex recomputes from the other two: q only when
      its error is strictly larger than both others, otherwise r when its
      error is strictly larger than s's, otherwise s. Read the other way:
      q's error is the strict maximum, r's is at least q's and above s's,
      or s's is at least both. */
  function CorrectedAxis(q: real, r: real, s: real): (a: Axis)
    ensures a == Q ==> RoundingError(q) > RoundingError(r) && RoundingError(q) > RoundingError(s)
    ensures a == R ==> RoundingError(r) >= RoundingError(q) && RoundingError(r) > RoundingError(s)
    ensures a == S ==> RoundingError(s) >= RoundingError(q) && RoundingError(s) >= RoundingError(r)
  {
    var qDiff, rDiff, sDiff := RoundingError(q), RoundingError(r), RoundingError(s);
    if qDiff > rDiff && qDiff > sDiff then Q
    else if rDiff > sDiff then R
    else S
  }

  function AxisIndex(a: Axis): nat
  {
    match a
    case Q => 0
    case R => 1
    case S => 2
  }

  function AxisError(q: real, r: real, s: real, a: Axis): real
  {
    match a
    case Q => RoundingError(q)
    case R => RoundingError(r)
    case S => RoundingError(s)
  }

  /** The corrected component is the one with the largest rounding error;
      among tied largest errors it is the last axis in the order q, r, s. */
  lemma CorrectedAxisHasLargestError(q: real, r: real, s: real, b: Axis)
    ensures AxisError(q, r, s, b) <= AxisError(q, r, s, CorrectedAxis(q, r, s))
    ensures AxisError(q, r, s, b) == AxisError(q, r, s, CorrectedAxis(q, r, s))
            ==> AxisIndex(b) <= AxisIndex(CorrectedAxis(q, r, s))
  {
  }

  /** Snap a fractional cube triple to a whole hex: round each component,
      then recompute the one with the largest rounding error from the other
      two. */
  function RoundToHex(q: real, r: real, s: real): (h: RoundedHex)
    ensures h.rq + h.rr + h.rs == 0
    ensures CorrectedAxis(q, r, s) != Q ==> h.rq == JsRound(q)
    ensures CorrectedAxis(q, r, s) != R ==> h.rr == JsRound(r)
    ensures CorrectedAxis(q, r, s) != S ==> h.rs == JsRound(s)
  {
    var rq, rr, rs := JsRound(q), JsRound(r), JsRound(s);
    match CorrectedAxis(q, r, s)
    case Q => RoundedHex(-rr - rs, rr, rs)
    case R => RoundedHex(rq, -rq - rs, rs)
    case S => RoundedHex(rq, rr, -rq - rr)
  }

  /** Math.round leaves integers unchanged. */
  lemma JsRoundOfInt(n: int)
    ensures JsRound(n as real) == n
  {
  }

  /** An exact hex is a fixed point of RoundToHex. */
  lemma RoundToHexFixedPoint(q: int, r: int, s: int)
    requires q + r + s == 0
    ensures RoundToHex(q as real, r as real, s as real) == RoundedHex(q, r, s)
  {
    JsRoundOfInt(q);
    JsRoundOfInt(r);
    JsRoundOfInt(s);
  }

  /** On a point of the plane q + r + s == 0, the componentwise roundings
      already sum to -1, 0 or 1; when they sum to 0 RoundToHex returns them
      unchanged, and in every case each output component lies within 1 of
      its input. */
  lemma RoundToHexNear(q: real, r: real, s: real)
    requires q + r + s == 0.0
    ensures -1 <= JsRound(q) + JsRound(r) + JsRound(s) <= 1
    ensures JsRound(q) + JsRound(r) + JsRound(s) == 0
            ==> RoundToHex(q, r, s) == RoundedHex(JsRound(q), JsRound(r), JsRound(s))
    ensures Abs(RoundToHex(q, r, s).rq as real - q) <= 1.0
    ensures Abs(RoundToHex(q, r, s).rr as real - r) <= 1.0
    ensures Abs(RoundToHex(q, r, s).rs as real - s) <= 1.0
  {
    var rq, rr, rs := JsRound(q), JsRound(r), JsRound(s);
    assert (rq + rr + rs) as real - 1.5 <= q + r + s < (rq + rr + rs) as real + 1.5;
  }

  function Sq(x: real): real
  {
    x * x
  }

  /** The squared Euclidean distance, in cube space, from the point (q, r, s)
      to the whole hex (a, b, c). */
  function SquaredDistance(q: real, r: real, s: real, a: int, b: int, c: int): (d: real)
    ensures d >= 0.0
  {
    Sq(a as real - q) + Sq(b as real - r) + Sq(c as real - s)
  }

  /** One axis: moving a rounded value by d whole steps, where e is its
      rounding error, never brings it closer; a step down costs at least
      1 - 2e more and a step up at least 1 + 2e more. */
  lemma ShiftCost(e: real, d: int)
    requires -0.5 <= e <= 0.5
    ensures Sq(e + d as real) >= Sq(e)
    ensures d <= -1 ==> Sq(e + d as real) >= Sq(e) + 1.0 - 2.0 * e
    ensures d >= 1 ==> Sq(e + d as real) >= Sq(e) + 1.0 + 2.0 * e
  {
    var x := d as real;
    assert Sq(e + x) == Sq(e) + 2.0 * e * x + x * x;
    if d <= -1 {
      assert x * x + x == x * (x + 1.0);
      assert x * (x + 1.0) >= 0.0;
      assert 2.0 * e * (x + 1.0) >= x + 1.0 by {
        assert (1.0 - 2.0 * e) * (x + 1.0) <= 0.0;
      }
    } else if d >= 1 {
      assert x * x - x == x * (x - 1.0);
      assert x * (x - 1.0) >= 0.0;
      assert 2.0 * e * (x - 1.0) >= -(x - 1.0) by {
        ProductNonNegative(1.0 + 2.0 * e, x - 1.0);
      }
    }
  }

  lemma ProductNonNegative(x: real, y: real)
    requires x >= 0.0 && y >= 0.0
    ensures x * y >= 0.0
  {
  }

  /** Rounding errors that sum to 1 (all three roundings came out high): any
      whole-number move of the rounded triple that brings its sum back to
      zero costs at least 1 - 2 emax, where emax is the largest error. */
  lemma OverRoundedCost(eq: real, er: real, es: real, emax: real, dq: int, dr: int, ds: int)
    requires 0.0 <= eq <= 0.5 && 0.0 <= er <= 0.5 && 0.0 <= es <= 0.5
    requires eq <= emax && er <= emax && es <= emax
    requires dq + dr + ds == -1
    ensures Sq(eq + dq as real) + Sq(er + dr as real) + Sq(es + ds as real)
            >= Sq(eq) + Sq(er) + Sq(es) + 1.0 - 2.0 * emax
  {
    ShiftCost(eq, dq);
    ShiftCost(er, dr);
    ShiftCost(es, ds);
  }

  /** The mirror case: errors summing to -1 (all three roundings came out
      low), and a move that raises the sum by one costs at least
      1 + 2 emin, where emin is the most negative error. */
  lemma UnderRoundedCost(eq: real, er: real, es: real, emin: real, dq: int, dr: int, ds: int)
    requires -0.5 <= eq <= 0.0 && -0.5 <= er <= 0.0 && -0.5 <= es <= 0.0
    requires emin <= eq && emin <= er && emin <= es
    requires dq + dr + ds == 1
    ensures Sq(eq + dq as real) + Sq(er + dr as real) + Sq(es + ds as real)
            >= Sq(eq) + Sq(er) + Sq(es) + 1.0 + 2.0 * emin
  {
    ShiftCost(eq, dq);
    ShiftCost(er, dr);
    ShiftCost(es, ds);
  }

  /** RoundToHex when the roundings sum to 1: lowering the component with
      the largest error by one is as close as any whole hex gets. */
  lemma RoundToHexNearestOver(q: real, r: real, s: real, a: int, b: int, c: int)
    requires q + r + s == 0.0 && a + b + c == 0
    requires JsRound(q) + JsRound(r) + JsRound(s) == 1
    ensures var h := RoundToHex(q, r, s);
            SquaredDistance(q, r, s, h.rq, h.rr, h.rs) <= SquaredDistance(q, r, s, a, b, c)
  {
    var rq, rr, rs := JsRound(q), JsRound(r), JsRound(s);
    var eq, er, es := rq as real - q, rr as real - r, rs as real - s;
    assert RoundingError(q) == eq && RoundingError(r) == er && RoundingError(s) == es;
    var emax;
    match CorrectedAxis(q, r, s) {
    case Q =>
      CorrectedAxisHasLargestError(q, r, s, R);
      CorrectedAxisHasLargestError(q, r, s, S);
      emax := eq;
      assert SquaredDistance(q, r, s, rq - 1, rr, rs) == Sq(eq - 1.0) + Sq(er) + Sq(es);
    case R =>
      CorrectedAxisHasLargestError(q, r, s, Q);
      CorrectedAxisHasLargestError(q, r, s, S);
      emax := er;
      assert SquaredDistance(q, r, s, rq, rr - 1, rs) == Sq(eq) + Sq(er - 1.0) + Sq(es);
    case S =>
      CorrectedAxisHasLargestError(q, r, s, Q);
      CorrectedAxisHasLargestError(q, r, s, R);
      emax := es;
      assert SquaredDistance(q, r, s, rq, rr, rs - 1) == Sq(eq) + Sq(er) + Sq(es - 1.0);
    }
    assert Sq(emax - 1.0) == Sq(emax) + 1.0 - 2.0 * emax;
    OverRoundedCost(eq, er, es, emax, a - rq, b - rr, c - rs);
    assert SquaredDistance(q, r, s, a, b, c)
           == Sq(eq + (a - rq) as real) + Sq(er + (b - rr) as real) + Sq(es + (c - rs) as real);
  }

  /** RoundToHex when the roundings sum to -1: raising the component with
      the most negative error by one is as close as any whole hex gets. */
  lemma RoundToHexNearestUnder(q: real, r: real, s: real, a: int, b: int, c: int)
    requires q + r + s == 0.0 && a + b + c == 0
    requires JsRound(q) + JsRound(r) + JsRound(s) == -1
    ensures var h := RoundToHex(q, r, s);
            SquaredDistance(q, r, s, h.rq, h.rr, h.rs) <= SquaredDistance(q, r, s, a, b, c)
  {
    var rq, rr, rs := JsRound(q), JsRound(r), JsRound(s);
    var eq, er, es := rq as real - q, rr as real - r, rs as real - s;
    assert RoundingError(q) == -eq && RoundingError(r) == -er && RoundingError(s) == -es;
    var emin;
    match CorrectedAxis(q, r, s) {
    case Q =>
      CorrectedAxisHasLargestError(q, r, s, R);
      CorrectedAxisHasLargestError(q, r, s, S);
      emin := eq;
      assert SquaredDistance(q, r, s, rq + 1, rr, rs) == Sq(eq + 1.0) + Sq(er) + Sq(es);
    case R =>
      CorrectedAxisHasLargestError(q, r, s, Q);
      CorrectedAxisHasLargestError(q, r, s, S);
      emin := er;
      assert SquaredDistance(q, r, s, rq, rr + 1, rs) == Sq(eq) + Sq(er + 1.0) + Sq(es);
    case S =>
      CorrectedAxisHasLargestError(q, r, s, Q);
      CorrectedAxisHasLargestError(q, r, s, R);
      emin := es;
      assert SquaredDistance(q, r, s, rq, rr, rs + 1) == Sq(eq) + Sq(er) + Sq(es + 1.0);
    }
    assert Sq(emin + 1.0) == Sq(emin) + 1.0 + 2.0 * emin;
    UnderRoundedCost(eq, er, es, emin, a - rq, b - rr, c - rs);
    assert SquaredDistance(q, r, s, a, b, c)
           == Sq(eq + (a - rq) as real) + Sq(er + (b - rr) as real) + Sq(es + (c - rs) as real);
  }

  /** RoundToHex returns a nearest hex: for a point of the plane
      q + r + s == 0, no whole hex is closer in cube space than the result. */
  lemma RoundToHexNearest(q: real, r: real, s: real, a: int, b: int, c: int)
    requires q + r + s == 0.0 && a + b + c == 0
    ensures var h := RoundToHex(q, r, s);
            SquaredDistance(q, r, s, h.rq, h.rr, h.rs) <= SquaredDistance(q, r, s, a, b, c)
  {
    RoundToHexNear(q, r, s);
    var rq, rr, rs := JsRound(q), JsRound(r), JsRound(s);
    if rq + rr + rs == 1 {
      RoundToHexNearestOver(q, r, s, a, b, c);
    } else if rq + rr + rs == -1 {
      RoundToHexNearestUnder(q, r, s, a, b, c);
    } else {
      var eq, er, es := rq as real - q, rr as real - r, rs as real - s;
      ShiftCost(eq, a - rq);
      ShiftCost(er, b - rr);
      ShiftCost(es, c - rs);
      assert SquaredDistance(q, r, s, a, b, c)
             == Sq(eq + (a - rq) as real) + Sq(er + (b - rr) as real) + Sq(es + (c - rs) as real);
    }
  }
}
