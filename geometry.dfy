/**
 * Grid geometry shared by every actor: pixel points, grid cells, per-frame
 * speeds and facing directions, with the conversions between points and cells.
 *
 * The arena constants are those of View.kt. The helper types and operations
 * (Point, Cell, Speed, Direction, toCell, toPoint, plus, limitToArea,
 * stopIfInCell, isZero) are defined outside Game.kt, Man.kt and Hen.kt; they are
 * written here as the smallest definitions consistent with how Man.kt and Game.kt use
 * them, and are assumptions.
 */
module Geometry {

  // Sprite and arena dimensions (View.kt)
  const SPRITE_WIDTH: int := 24
  const SPRITE_HEIGHT: int := 16
  const GRID_WIDTH: int := 20
  const GRID_HEIGHT: int := 24
  const VIEW_FACTOR: int := 2
  const CELL_WIDTH: int := VIEW_FACTOR * SPRITE_WIDTH     // 48
  const CELL_HEIGHT: int := VIEW_FACTOR * SPRITE_HEIGHT   // 32

  // Limits of the board in pixels (Man.kt)
  const MAX_X: int := (GRID_WIDTH - 1) * CELL_WIDTH     // 912
  const MAX_Y: int := (GRID_HEIGHT - 1) * CELL_HEIGHT   // 736

  /** A pixel position; y grows downwards. */
  datatype Point = Point(x: int, y: int)

  /** A grid cell; identity is (row, col) equality. */
  datatype Cell = Cell(row: int, col: int)

  /** A signed pixel displacement per frame. */
  datatype Speed = Speed(dx: int, dy: int)

  datatype Direction = LEFT | RIGHT | UP | DOWN

  /**
   * Integer division as Kotlin's `/` computes it on Int: the quotient is
   * truncated toward zero (Dafny's own `/` is Euclidean and differs on
   * negative dividends).
   */
  function TruncDiv(a: int, b: int): (q: int)
    requires b > 0
    ensures 0 <= a ==> 0 <= a - q * b < b
    ensures a < 0 ==> -b < a - q * b <= 0
  {
    if a >= 0 then a / b else -((-a) / b)
  }

  /**
   * The cell holding a pixel: `toCell` (assumed). Row and column are Kotlin's
   * truncated quotients, so a non-negative coordinate lies inside its cell's
   * span, and a negative one in the span mirrored towards zero.
   */
  function ToCell(p: Point): (c: Cell)
    ensures 0 <= p.x ==> c.col * CELL_WIDTH <= p.x < c.col * CELL_WIDTH + CELL_WIDTH
    ensures 0 <= p.y ==> c.row * CELL_HEIGHT <= p.y < c.row * CELL_HEIGHT + CELL_HEIGHT
    ensures p.x < 0 ==> c.col * CELL_WIDTH - CELL_WIDTH < p.x <= c.col * CELL_WIDTH
    ensures p.y < 0 ==> c.row * CELL_HEIGHT - CELL_HEIGHT < p.y <= c.row * CELL_HEIGHT
  {
    Cell(TruncDiv(p.y, CELL_HEIGHT), TruncDiv(p.x, CELL_WIDTH))
  }

  /** The top-left pixel of a cell: `toPoint` (assumed), a cell-aligned point that converts back to the cell. */
  function ToPoint(c: Cell): (p: Point)
    ensures ToCell(p) == c && InCell(p)
  {
    Point(c.col * CELL_WIDTH, c.row * CELL_HEIGHT)
  }

  /**
   * `Point.plus(speed)` (assumed): the point displaced by one frame of speed;
   * it stays in place exactly when the speed is zero.
   */
  function Plus(p: Point, s: Speed): (r: Point)
    ensures r.x - p.x == s.dx && r.y - p.y == s.dy
    ensures r == p <==> IsZero(s)
  {
    Point(p.x + s.dx, p.y + s.dy)
  }

  function Clamp(v: int, lo: int, hi: int): (r: int)
    requires lo <= hi
    ensures lo <= r <= hi
    ensures lo <= v <= hi ==> r == v
    ensures v < lo ==> r == lo
    ensures hi < v ==> r == hi
  {
    if v < lo then lo else if hi < v then hi else v
  }

  /** True when a point lies inside [0, maxX] x [0, maxY]. */
  predicate Within(p: Point, maxX: int, maxY: int) {
    0 <= p.x <= maxX && 0 <= p.y <= maxY
  }

  /** True when a point lies on the board. */
  predicate InArea(p: Point) {
    Within(p, MAX_X, MAX_Y)
  }

  /** `Point.limitToArea(maxX, maxY)` (assumed): each axis clamped into [0, max]. */
  function LimitToArea(p: Point, maxX: int, maxY: int): (r: Point)
    requires 0 <= maxX && 0 <= maxY
    ensures Within(r, maxX, maxY)
    ensures Within(p, maxX, maxY) <==> r == p
    ensures r.x == Clamp(p.x, 0, maxX) && r.y == Clamp(p.y, 0, maxY)
  {
    Point(Clamp(p.x, 0, maxX), Clamp(p.y, 0, maxY))
  }

  /** True when a point is the top-left pixel of some cell. */
  predicate InCell(p: Point) {
    p.x % CELL_WIDTH == 0 && p.y % CELL_HEIGHT == 0
  }

  /** `Speed.isZero()` (assumed): the speed is the zero speed. */
  predicate IsZero(s: Speed)
    ensures IsZero(s) <==> s == Speed(0, 0)
  {
    s.dx == 0 && s.dy == 0
  }

  /**
   * `Speed.stopIfInCell(p)` (assumed): the speed is dropped to zero once the
   * position it is tested against sits exactly on a cell boundary.
   */
  function StopIfInCell(s: Speed, p: Point): (r: Speed)
    ensures InCell(p) ==> IsZero(r)
    ensures !InCell(p) ==> r == s
  {
    if InCell(p) then Speed(0, 0) else s
  }

  /** Converting a cell to its origin and back yields the same cell, for every cell. */
  lemma CellRoundTrip(c: Cell)
    ensures ToCell(ToPoint(c)) == c
    ensures InCell(ToPoint(c))
  {
  }

  /**
   * On the board, snapping a point to its cell origin leaves it where it is
   * exactly when the point is cell-aligned: this is what `stopIfInCell` tests.
   */
  lemma SnapFixesExactlyAligned(p: Point)
    requires 0 <= p.x && 0 <= p.y
    ensures ToPoint(ToCell(p)) == p <==> InCell(p)
  {
    var c := ToCell(p);
    assert c.col == p.x / 48 && c.row == p.y / 32;
  }

  /** The origin of the last grid cell is the board's far corner (MAX_X, MAX_Y), as Man.kt notes. */
  lemma LastCellOrigin()
    ensures ToPoint(Cell(GRID_HEIGHT - 1, GRID_WIDTH - 1)) == Point(MAX_X, MAX_Y)
  {
  }
}
