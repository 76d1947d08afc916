/**
 * The man: his state and the primitives that move him one frame at a time
 * (walking, climbing, falling, the jump arc), the tests of what cell he is
 * in, and the removal of a collected egg or food cell.
 *
 * Every primitive returns a fresh Man; nothing is updated in place.
 */
module ManActor {
  import opened Geometry

  // Speed of the man in pixels per frame, horizontally and vertically, and the
  // vertical deceleration per frame during a jump.
  const MOVE_SPEED: int := CELL_WIDTH / 6               // 8
  const CLIMBING_SPEED: int := CELL_HEIGHT / 4          // 8
  const AC_JUMP: int := CELL_HEIGHT / SPRITE_HEIGHT     // 2

  datatype Man = Man(pos: Point, faced: Direction, stateJump: bool, speed: Speed, jumpCycle: int)

  /** The man as placed at the start of a level, standing still in `cell`. */
  function CreateMan(cell: Cell): (m: Man)
    ensures ToCell(m.pos) == cell && InCell(m.pos)
    ensures m.faced == LEFT && !m.stateJump && IsZero(m.speed) && m.jumpCycle == 0
  {
    CellRoundTrip(cell);
    Man(ToPoint(cell), LEFT, false, Speed(0, 0), 0)
  }

  /**
   * One frame of walking: the position advances by the speed and is clamped to
   * the board; the speed stops once the unclamped target is cell-aligned.
   */
  function Move(m: Man): (r: Man)
    ensures InArea(r.pos)
    ensures r.pos.x == Clamp(m.pos.x + m.speed.dx, 0, MAX_X) && r.pos.y == Clamp(m.pos.y + m.speed.dy, 0, MAX_Y)
    ensures InArea(Plus(m.pos, m.speed)) ==> r.pos == Plus(m.pos, m.speed)
    ensures InCell(Plus(m.pos, m.speed)) ==> IsZero(r.speed)
    ensures !InCell(Plus(m.pos, m.speed)) ==> r.speed == m.speed
    ensures r.faced == m.faced && r.stateJump == m.stateJump && r.jumpCycle == 0
  {
    Man(LimitToArea(Plus(m.pos, m.speed), MAX_X, MAX_Y), m.faced, m.stateJump,
        StopIfInCell(m.speed, Plus(m.pos, m.speed)), 0)
  }

  /** One frame of climbing; written out separately in the source, it computes what Move does. */
  function MoveUpDown(m: Man): (r: Man)
    ensures r == Move(m)
  {
    Man(LimitToArea(Plus(m.pos, m.speed), MAX_X, MAX_Y), m.faced, m.stateJump,
        StopIfInCell(m.speed, Plus(m.pos, m.speed)), 0)
  }

  /**
   * One frame of falling: the man is displaced by (dx, CLIMBING_SPEED), but the
   * stored speed is not changed to the fall speed, and whether it stops is
   * decided on the position reached with the OLD speed.
   */
  function Gravity(m: Man): (r: Man)
    ensures InArea(r.pos)
    ensures r.pos == LimitToArea(Point(m.pos.x + m.speed.dx, m.pos.y + CLIMBING_SPEED), MAX_X, MAX_Y)
    ensures InCell(Plus(m.pos, m.speed)) ==> IsZero(r.speed)
    ensures !InCell(Plus(m.pos, m.speed)) ==> r.speed == m.speed
    ensures r.faced == m.faced && r.stateJump == m.stateJump && r.jumpCycle == 0
  {
    Man(LimitToArea(Plus(m.pos, Speed(m.speed.dx, CLIMBING_SPEED)), MAX_X, MAX_Y), m.faced, m.stateJump,
        StopIfInCell(m.speed, Plus(m.pos, m.speed)), 0)
  }

  predicate Horizontal(d: Direction) {
    d == LEFT || d == RIGHT
  }

  /**
   * One frame of the jump arc: the man rises by the current vertical speed
   * (y grows downwards), which then decreases by AC_JUMP; he advances
   * horizontally only while facing LEFT or RIGHT. The jump counter is left to
   * the caller.
   */
  function Jump(m: Man): (r: Man)
    ensures InArea(r.pos)
    ensures r.pos.y == Clamp(m.pos.y - m.speed.dy, 0, MAX_Y)
    ensures r.pos.x == Clamp(if Horizontal(m.faced) then m.pos.x + m.speed.dx else m.pos.x, 0, MAX_X)
    ensures r.speed == Speed(m.speed.dx, m.speed.dy - AC_JUMP)
    ensures r.stateJump && r.faced == m.faced && r.jumpCycle == m.jumpCycle
  {
    var newDy := m.speed.dy - AC_JUMP;
    var newY := m.pos.y - m.speed.dy;
    var newX := match m.faced
      case RIGHT => m.pos.x + m.speed.dx
      case LEFT => m.pos.x + m.speed.dx
      case _ => m.pos.x;
    Man(LimitToArea(Point(newX, newY), MAX_X, MAX_Y), m.faced, true, Speed(m.speed.dx, newDy), m.jumpCycle)
  }

  /** Kotlin's `cells.any { pos.toCell().col == it.col && pos.toCell().row == it.row + dRow }`. */
  predicate AnyAt(p: Point, cells: seq<Cell>, dRow: int) {
    exists i :: 0 <= i < |cells| && ToCell(p).col == cells[i].col && ToCell(p).row == cells[i].row + dRow
  }

  /** The man's cell is a stair cell. */
  predicate DetectIfIsStairs(m: Man, stairs: seq<Cell>)
    ensures DetectIfIsStairs(m, stairs) <==> ToCell(m.pos) in stairs
  {
    AnyAt(m.pos, stairs, 0)
  }

  /** The man stands on top of floor: there is a floor cell right below his cell. */
  predicate DetectIfIsFloor(m: Man, floor: seq<Cell>)
    ensures DetectIfIsFloor(m, floor) <==> Cell(ToCell(m.pos).row + 1, ToCell(m.pos).col) in floor
  {
    AnyAt(m.pos, floor, -1)
  }

  /** The man's cell is itself a floor cell. */
  predicate DetectIfIsInsideFloor(m: Man, floor: seq<Cell>)
    ensures DetectIfIsInsideFloor(m, floor) <==> ToCell(m.pos) in floor
  {
    AnyAt(m.pos, floor, 0)
  }

  /**
   * `detectIfisFloorOrStrair`, whose definition is not part of this model,
   * taken as standing on floor or being on stairs.
   */
  predicate DetectIfIsFloorOrStairs(m: Man, floor: seq<Cell>, stairs: seq<Cell>)
    ensures DetectIfIsFloorOrStairs(m, floor, stairs) <==>
              Cell(ToCell(m.pos).row + 1, ToCell(m.pos).col) in floor || ToCell(m.pos) in stairs
  {
    DetectIfIsFloor(m, floor) || DetectIfIsStairs(m, stairs)
  }

  /** The man's cell holds food. */
  predicate IsOnFood(m: Man, food: seq<Cell>)
    ensures IsOnFood(m, food) <==> ToCell(m.pos) in food
  {
    AnyAt(m.pos, food, 0)
  }

  /** The man's cell holds an egg. */
  predicate IsOnEggs(m: Man, eggs: seq<Cell>)
    ensures IsOnEggs(m, eggs) <==> ToCell(m.pos) in eggs
  {
    AnyAt(m.pos, eggs, 0)
  }

  /**
   * Kotlin's `list - element`: the list without the first occurrence of the
   * element, or the list itself when the element is absent.
   */
  function RemoveFirst(s: seq<Cell>, c: Cell): (r: seq<Cell>)
    ensures c in s ==> |r| == |s| - 1
    ensures c !in s ==> r == s
    ensures multiset(r) == multiset(s) - multiset{c}
  {
    if s == [] then []
    else if s[0] == c then
      assert s == [s[0]] + s[1..];
      s[1..]
    else
      assert s == [s[0]] + s[1..];
      [s[0]] + RemoveFirst(s[1..], c)
  }

  /** The food list once the food in the man's cell is eaten. */
  function RemoveFood(m: Man, food: seq<Cell>): (r: seq<Cell>)
    ensures IsOnFood(m, food) ==> |r| == |food| - 1
    ensures !IsOnFood(m, food) ==> r == food
    ensures multiset(r) == multiset(food) - multiset{ToCell(m.pos)}
  {
    RemoveFirst(food, ToCell(m.pos))
  }

  /** The egg list once the egg in the man's cell is collected. */
  function RemoveEggs(m: Man, eggs: seq<Cell>): (r: seq<Cell>)
    ensures IsOnEggs(m, eggs) ==> |r| == |eggs| - 1
    ensures !IsOnEggs(m, eggs) ==> r == eggs
    ensures multiset(r) == multiset(eggs) - multiset{ToCell(m.pos)}
  {
    RemoveFirst(eggs, ToCell(m.pos))
  }

  /**
   * Removal keeps the other elements in their order: the result is the list
   * cut at the first occurrence `i` of the removed cell.
   */
  lemma {:induction false} RemoveFirstKeepsOrder(s: seq<Cell>, c: Cell, i: nat)
    requires i < |s| && s[i] == c && c !in s[..i]
    ensures RemoveFirst(s, c) == s[..i] + s[i + 1..]
  {
    if i > 0 {
      var t := s[1..];
      CutAfterHead(s, i);
      assert s[0] in s[..i];
      RemoveFirstKeepsOrder(t, c, i - 1);
    }
  }

  lemma CutAfterHead(s: seq<Cell>, i: nat)
    requires 0 < i < |s|
    ensures s[1..][..i - 1] == s[1..i] && s[..i] == [s[0]] + s[1..i]
    ensures [s[0]] + (s[1..][..i - 1] + s[1..][i..]) == s[..i] + s[i + 1..]
  {
  }

  /** Removal never adds anything: every remaining cell was in the list. */
  lemma RemoveFirstSubset(s: seq<Cell>, c: Cell, d: Cell)
    requires d in RemoveFirst(s, c)
    ensures d in s
  {
    assert d in multiset(RemoveFirst(s, c));
  }

  /** Walking and climbing never leave the board, nor do falling and jumping. */
  lemma PrimitivesStayOnBoard(m: Man)
    ensures InArea(Move(m).pos) && InArea(MoveUpDown(m).pos)
    ensures InArea(Gravity(m).pos) && InArea(Jump(m).pos)
  {
  }

  /** `n` frames of walking or climbing. */
  function Moves(m: Man, n: nat): (r: Man)
    decreases n
    ensures n > 0 ==> r.jumpCycle == 0 && InArea(r.pos)
    ensures r.faced == m.faced && r.stateJump == m.stateJump
  {
    if n == 0 then m else Move(Moves(m, n - 1))
  }

  /** A speed of one walking or climbing step towards `d`. */
  function StepSpeed(d: Direction): (s: Speed)
    ensures Horizontal(d) <==> s.dy == 0
    ensures Horizontal(d) ==> s.dx == MOVE_SPEED || s.dx == -MOVE_SPEED
    ensures !Horizontal(d) ==> s.dx == 0 && (s.dy == CLIMBING_SPEED || s.dy == -CLIMBING_SPEED)
    ensures d == LEFT ==> s.dx < 0
    ensures d == RIGHT ==> s.dx > 0
    ensures d == UP ==> s.dy < 0
    ensures d == DOWN ==> s.dy > 0
  {
    match d
    case RIGHT => Speed(MOVE_SPEED, 0)
    case LEFT => Speed(-MOVE_SPEED, 0)
    case UP => Speed(0, -CLIMBING_SPEED)
    case DOWN => Speed(0, CLIMBING_SPEED)
  }

  /** The cell next to `c` in direction `d`. */
  function Neighbour(c: Cell, d: Direction): Cell {
    match d
    case RIGHT => Cell(c.row, c.col + 1)
    case LEFT => Cell(c.row, c.col - 1)
    case UP => Cell(c.row - 1, c.col)
    case DOWN => Cell(c.row + 1, c.col)
  }

  /** The number of frames one cell takes at StepSpeed(d). */
  function StepsPerCell(d: Direction): nat {
    if Horizontal(d) then CELL_WIDTH / MOVE_SPEED else CELL_HEIGHT / CLIMBING_SPEED
  }

  /** The point `k` steps of StepSpeed(d) away from `p`. */
  function Along(p: Point, d: Direction, k: int): Point {
    match d
    case RIGHT => Point(p.x + k * MOVE_SPEED, p.y)
    case LEFT => Point(p.x - k * MOVE_SPEED, p.y)
    case UP => Point(p.x, p.y - k * CLIMBING_SPEED)
    case DOWN => Point(p.x, p.y + k * CLIMBING_SPEED)
  }

  /** The pixel arithmetic of one step along a cell: where it lands and when it is aligned. */
  lemma StepAlong(p: Point, d: Direction, k: nat)
    requires InCell(p) && InArea(p) && InArea(ToPoint(Neighbour(ToCell(p), d)))
    requires 0 < k <= StepsPerCell(d)
    ensures Plus(Along(p, d, k - 1), StepSpeed(d)) == Along(p, d, k)
    ensures InArea(Along(p, d, k))
    ensures InCell(Along(p, d, k)) <==> k == StepsPerCell(d)
    ensures k == StepsPerCell(d) ==> Along(p, d, k) == ToPoint(Neighbour(ToCell(p), d))
  {
    var c := ToCell(p);
    SnapFixesExactlyAligned(p);
    assert p == ToPoint(c);
    assert StepsPerCell(d) == if Horizontal(d) then 6 else 4;
    if Horizontal(d) {
      StepAlongX(p, d, k, c);
    } else {
      StepAlongY(p, d, k, c);
    }
  }

  lemma StepAlongX(p: Point, d: Direction, k: nat, c: Cell)
    requires Horizontal(d) && p == ToPoint(c) && 0 < k <= 6
    requires InArea(p) && InArea(ToPoint(Neighbour(c, d)))
    ensures Plus(Along(p, d, k - 1), StepSpeed(d)) == Along(p, d, k)
    ensures InArea(Along(p, d, k))
    ensures InCell(Along(p, d, k)) <==> k == 6
    ensures k == 6 ==> Along(p, d, k) == ToPoint(Neighbour(c, d))
  {
    assert MOVE_SPEED == 8 && k * MOVE_SPEED == 8 * k;
    CellRoundTrip(c);
    StepAlongAxis(p.x, c.col, 48, k);
  }

  lemma StepAlongY(p: Point, d: Direction, k: nat, c: Cell)
    requires !Horizontal(d) && p == ToPoint(c) && 0 < k <= 4
    requires InArea(p) && InArea(ToPoint(Neighbour(c, d)))
    ensures Plus(Along(p, d, k - 1), StepSpeed(d)) == Along(p, d, k)
    ensures InArea(Along(p, d, k))
    ensures InCell(Along(p, d, k)) <==> k == 4
    ensures k == 4 ==> Along(p, d, k) == ToPoint(Neighbour(c, d))
  {
    assert CLIMBING_SPEED == 8 && k * CLIMBING_SPEED == 8 * k;
    CellRoundTrip(c);
    StepAlongAxis(p.y, c.row, 32, k);
  }

  /** One axis of StepAlong: steps of 8 pixels either way from a multiple of `w`. */
  lemma StepAlongAxis(v: int, n: int, w: int, k: int)
    requires (w == 48 || w == 32) && v == w * n && 0 < k <= w / 8
    ensures (v + 8 * k) % w == 0 <==> k == w / 8
    ensures (v - 8 * k) % w == 0 <==> k == w / 8
  {
    if k < w / 8 {
      ModOffset(w, n, 8 * k);
    } else {
      ModOffset(w, n + 1, 0);
    }
    ModOffset(w, n - 1, w - 8 * k);
  }

  /** The remainder of w * n + j by w is j, for the two cell sizes. */
  lemma ModOffset(w: int, n: int, j: int)
    requires (w == 48 || w == 32) && 0 <= j < w
    ensures (w * n + j) % w == j
  {
    if w == 48 {
      assert (48 * n + j) % 48 == j;
    } else {
      assert (32 * n + j) % 32 == j;
    }
  }

  /**
   * Grid movement emerges from pixel steps: a man at a cell origin moving at
   * StepSpeed(d) reaches the origin of the neighbouring cell after exactly
   * StepsPerCell(d) frames and stops there; before that he keeps his speed.
   */
  lemma {:induction false} MovesAcrossOneCell(m: Man, d: Direction, k: nat)
    requires InCell(m.pos) && m.speed == StepSpeed(d)
    requires InArea(m.pos) && InArea(ToPoint(Neighbour(ToCell(m.pos), d)))
    requires 0 < k <= StepsPerCell(d)
    ensures Moves(m, k).pos == Along(m.pos, d, k)
    ensures k < StepsPerCell(d) ==> Moves(m, k).speed == m.speed
    ensures k == StepsPerCell(d) ==> Moves(m, k).pos == ToPoint(Neighbour(ToCell(m.pos), d)) && IsZero(Moves(m, k).speed)
  {
    StepAlong(m.pos, d, k);
    if k > 1 {
      MovesAcrossOneCell(m, d, k - 1);
    } else {
      assert Along(m.pos, d, 0) == m.pos;
    }
  }
}
