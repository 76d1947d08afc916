/**
 * The game snapshot and its two transitions: `DoAction`, which applies a key
 * press to a game at rest, and `StepFrame`, the per-frame priority rules for
 * jumping, idling on stairs, falling, landing, collecting and walking.
 *
 * A game is never updated in place: each transition returns a new snapshot.
 */
module GameEngine {
  import opened Geometry
  import opened ManActor

  /** A key press; a frame without one is `None` (Kotlin's null action). */
  datatype Action = WALK_LEFT | WALK_RIGHT | UP_STAIRS | DOWN_STAIRS | JUMP

  datatype Option<T> = None | Some(value: T)

  datatype Game = Game(man: Man, floor: seq<Cell>, stairs: seq<Cell>, eggs: seq<Cell>, food: seq<Cell>)

  /** The number of frames of a jump arc. */
  const JUMP_FRAMES: int := 16

  /** The most pixels a jump arc rises: after half of its frames, 8 * 9. */
  const ARC_PEAK: int := (JUMP_FRAMES / 2) * (JUMP_FRAMES / 2 + 1)

  /** The man's jump counter is within the range a jump can give it. */
  predicate JumpCycleInRange(m: Man) {
    0 <= m.jumpCycle <= JUMP_FRAMES
  }

  /**
   * Applies a key press. Each action is ignored (the game is returned as it
   * is) unless its conditions hold. Both walking actions test the cell to the
   * RIGHT of the man for floor.
   */
  function DoAction(g: Game, action: Option<Action>): (r: Game)
    ensures action.None? ==> r == g
    ensures !IsZero(g.man.speed) ==> r == g
    ensures action == Some(WALK_LEFT) && g.man.pos.x == 0 ==> r == g
    ensures action == Some(WALK_RIGHT) && g.man.pos.x == MAX_X ==> r == g
    ensures r != g ==> !IsZero(r.man.speed)
    ensures r.man.pos == g.man.pos
    ensures r.floor == g.floor && r.stairs == g.stairs && r.eggs == g.eggs && r.food == g.food
    ensures JumpCycleInRange(g.man) ==> JumpCycleInRange(r.man)
  {
    var man := g.man;
    match action
    case None => g
    case Some(WALK_LEFT) =>
      if man.pos.x == 0 then g
      else if IsZero(man.speed)
              && !DetectIfIsInsideFloor(man.(pos := Point(man.pos.x + CELL_WIDTH, man.pos.y)), g.floor)
              && DetectIfIsFloorOrStairs(man, g.floor, g.stairs)
      then NewStateMove(g, LEFT, man) else g
    case Some(WALK_RIGHT) =>
      if man.pos.x == MAX_X then g
      else if IsZero(man.speed)
              && !DetectIfIsInsideFloor(man.(pos := Point(man.pos.x + CELL_WIDTH, man.pos.y)), g.floor)
              && DetectIfIsFloorOrStairs(man, g.floor, g.stairs)
      then NewStateMove(g, RIGHT, man) else g
    case Some(UP_STAIRS) =>
      if DetectIfIsStairs(man, g.stairs) && IsZero(man.speed)
         && DetectIfIsStairs(man.(pos := Point(man.pos.x, man.pos.y - CELL_HEIGHT * 2)), g.stairs)
      then NewStateMove(g, UP, man) else g
    case Some(DOWN_STAIRS) =>
      if DetectIfIsStairs(man, g.stairs) && !DetectIfIsFloor(man, g.floor) && IsZero(man.speed)
      then NewStateMove(g, DOWN, man) else g
    case Some(JUMP) =>
      if IsZero(man.speed) && !man.stateJump && DetectIfIsFloorOrStairs(man, g.floor, g.stairs)
      then NewStateJump(g, man.faced, man) else g
  }

  /**
   * Starts walking or climbing towards `direction`: the man gets a speed on
   * exactly one axis and faces that way; nothing else changes.
   */
  function NewStateMove(g: Game, direction: Direction, man: Man): (r: Game)
    ensures r.man.speed == StepSpeed(direction)
    ensures (r.man.speed.dx != 0) != (r.man.speed.dy != 0)
    ensures r.man == man.(speed := r.man.speed, faced := direction)
    ensures r.floor == g.floor && r.stairs == g.stairs && r.eggs == g.eggs && r.food == g.food
  {
    var updatedMan := match direction
      case RIGHT => man.(speed := Speed(MOVE_SPEED, 0))
      case LEFT => man.(speed := Speed(-MOVE_SPEED, 0))
      case UP => man.(speed := Speed(0, -CLIMBING_SPEED))
      case DOWN => man.(speed := Speed(0, CLIMBING_SPEED));
    g.(man := updatedMan.(faced := direction))
  }

  /**
   * Starts a jump towards `direction`: for LEFT and RIGHT the man is flagged
   * as jumping, given a full arc of JUMP_FRAMES frames, a horizontal walking
   * speed and an upward launch speed of half a cell; for UP and DOWN only his
   * facing is set.
   */
  function NewStateJump(g: Game, direction: Direction, man: Man): (r: Game)
    ensures Horizontal(direction) ==>
              r.man.stateJump && r.man.jumpCycle == JUMP_FRAMES &&
              r.man.speed == Speed(StepSpeed(direction).dx, CELL_HEIGHT / 2)
    ensures !Horizontal(direction) ==> r.man == man.(faced := direction)
    ensures r.man.pos == man.pos && r.man.faced == direction
    ensures r.floor == g.floor && r.stairs == g.stairs && r.eggs == g.eggs && r.food == g.food
  {
    var updatedMan := match direction
      case RIGHT => man.(stateJump := true, speed := Speed(MOVE_SPEED, CELL_HEIGHT / 2), jumpCycle := 16)
      case LEFT => man.(stateJump := true, speed := Speed(-MOVE_SPEED, CELL_HEIGHT / 2), jumpCycle := 16)
      case _ => man;
    g.(man := updatedMan.(faced := direction))
  }

  /**
   * The next frame. The rules are tried in order and the first that applies
   * decides: a jump in progress (collecting food, else an egg, on the way),
   * idling on stairs, falling, landing, collecting an egg, collecting food,
   * walking.
   */
  function StepFrame(g: Game): (r: Game)
    ensures r.floor == g.floor && r.stairs == g.stairs
    ensures r.eggs == g.eggs || r.eggs == RemoveEggs(g.man, g.eggs)
    ensures r.food == g.food || r.food == RemoveFood(g.man, g.food)
    ensures r.eggs == g.eggs || r.food == g.food
    ensures r.eggs != g.eggs ==> |r.eggs| == |g.eggs| - 1
    ensures r.food != g.food ==> |r.food| == |g.food| - 1
    ensures g.man.jumpCycle > 0 ==> r.man.jumpCycle == g.man.jumpCycle - 1 && r.man.stateJump
    ensures g.man.jumpCycle == 0 ==> r.man.jumpCycle == 0
    ensures InArea(g.man.pos) ==> InArea(r.man.pos)
  {
    var man := g.man;
    var (floor, stairs, eggs, food) := (g.floor, g.stairs, g.eggs, g.food);
    if man.jumpCycle > 0 && IsOnFood(man, food) then
      Game(Jump(man.(jumpCycle := man.jumpCycle - 1)), floor, stairs, eggs, RemoveFood(man, food))
    else if man.jumpCycle > 0 && IsOnEggs(man, eggs) then
      Game(Jump(man.(jumpCycle := man.jumpCycle - 1)), floor, stairs, RemoveEggs(man, eggs), food)
    else if man.jumpCycle > 0 then
      Game(Jump(man.(jumpCycle := man.jumpCycle - 1)), floor, stairs, eggs, food)
    else if DetectIfIsStairs(man, stairs) && IsZero(man.speed) && !man.stateJump then
      Game(MoveUpDown(man), floor, stairs, eggs, food)
    else if !DetectIfIsStairs(man, stairs) && !DetectIfIsFloor(man, floor) then
      Game(Gravity(man), floor, stairs, eggs, food)
    else if man.stateJump && !DetectIfIsStairs(man, stairs) then
      Game(man.(stateJump := false, speed := Speed(0, 0)), floor, stairs, eggs, food)
    else if IsOnEggs(man, eggs) then
      Game(Move(man), floor, stairs, RemoveEggs(man, eggs), food)
    else if IsOnFood(man, food) then
      Game(Move(man), floor, stairs, eggs, RemoveFood(man, food))
    else if !DetectIfIsStairs(man, stairs) && DetectIfIsFloor(man, floor) then
      Game(Move(man), floor, stairs, eggs, food)
    else
      Game(Move(man), floor, stairs, eggs, food)
  }

  /** Every egg and food cell of `r` was already one in `g`: collectibles are only taken away. */
  predicate OnlyCollected(g: Game, r: Game) {
    (forall c :: c in r.eggs ==> c in g.eggs) && (forall c :: c in r.food ==> c in g.food)
  }

  /** The man's counter is in the range a jump gives it and he is on the board. */
  predicate ManInRange(m: Man) {
    JumpCycleInRange(m) && InArea(m.pos)
  }

  /**
   * `n` consecutive frames. The level does not change; at most one
   * collectible is taken per frame, so at most `n` disappear in all; a man
   * whose counter is in range and who is on the board stays so.
   */
  function Frames(g: Game, n: nat): (r: Game)
    decreases n
    ensures r.floor == g.floor && r.stairs == g.stairs
    ensures |g.eggs| + |g.food| <= |r.eggs| + |r.food| + n
    ensures ManInRange(g.man) ==> ManInRange(r.man)
    ensures OnlyCollected(g, r)
  {
    if n == 0 then g
    else
      var p := Frames(g, n - 1);
      FrameOnlyCollects(p);
      FrameAddsNothing(p);
      OnlyCollectedTransitive(g, p, StepFrame(p));
      FrameKeepsManInRange(p);
      StepFrame(p)
  }

  // ---------------------------------------------------------------------------
  // Properties of DoAction

  /**
   * WALK_LEFT and WALK_RIGHT are gated by the same test (both look for floor in
   * the cell to the man's right): away from the borders, one is accepted
   * exactly when the other is.
   */
  lemma WalkLeftAndRightShareGuard(g: Game)
    requires 0 < g.man.pos.x < MAX_X
    ensures DoAction(g, Some(WALK_LEFT)) == g <==> DoAction(g, Some(WALK_RIGHT)) == g
  {
    if DoAction(g, Some(WALK_LEFT)) != g {
      assert !IsZero(DoAction(g, Some(WALK_RIGHT)).man.speed);
    }
    if DoAction(g, Some(WALK_RIGHT)) != g {
      assert !IsZero(DoAction(g, Some(WALK_LEFT)).man.speed);
    }
  }

  /** The cell right of the man holds floor, so he can walk neither right nor left. */
  lemma FloorOnTheRightBlocksBothWalks(g: Game)
    requires InArea(g.man.pos)
    requires Neighbour(ToCell(g.man.pos), RIGHT) in g.floor
    ensures DoAction(g, Some(WALK_LEFT)) == g && DoAction(g, Some(WALK_RIGHT)) == g
  {
    var p := g.man.pos;
    assert ToCell(Point(p.x + CELL_WIDTH, p.y)) == Neighbour(ToCell(p), RIGHT);
  }

  /** The man's cell, as the action guards see it. */
  function ManCell(g: Game): Cell {
    ToCell(g.man.pos)
  }

  /**
   * A walk is accepted exactly when the man is not at the border it walks
   * towards, is at rest, the cell to his RIGHT is not floor and he stands on
   * floor or stairs; he then heads that way at walking speed.
   */
  lemma WalkAccepted(g: Game, d: Direction)
    requires Horizontal(d) && InArea(g.man.pos)
    ensures var a := if d == LEFT then WALK_LEFT else WALK_RIGHT;
            DoAction(g, Some(a)) != g <==>
              g.man.pos.x != (if d == LEFT then 0 else MAX_X) && IsZero(g.man.speed)
              && Neighbour(ManCell(g), RIGHT) !in g.floor
              && (Neighbour(ManCell(g), DOWN) in g.floor || ManCell(g) in g.stairs)
    ensures var a := if d == LEFT then WALK_LEFT else WALK_RIGHT;
            DoAction(g, Some(a)) != g ==> DoAction(g, Some(a)).man == g.man.(speed := StepSpeed(d), faced := d)
  {
    var p := g.man.pos;
    assert ToCell(Point(p.x + CELL_WIDTH, p.y)) == Neighbour(ToCell(p), RIGHT);
  }

  /**
   * Climbing up is accepted exactly when the man, anywhere below the first two
   * rows, is on a stair cell, at rest, and the cell two rows above is a stair
   * cell too.
   */
  lemma ClimbUpAccepted(g: Game)
    requires InArea(g.man.pos) && g.man.pos.y >= 2 * CELL_HEIGHT
    ensures DoAction(g, Some(UP_STAIRS)) != g <==>
              ManCell(g) in g.stairs && IsZero(g.man.speed)
              && Cell(ManCell(g).row - 2, ManCell(g).col) in g.stairs
    ensures DoAction(g, Some(UP_STAIRS)) != g ==> DoAction(g, Some(UP_STAIRS)).man == g.man.(speed := StepSpeed(UP), faced := UP)
  {
    var p := g.man.pos;
    assert ToCell(Point(p.x, p.y - CELL_HEIGHT * 2)) == Cell(ToCell(p).row - 2, ToCell(p).col);
  }

  /**
   * Climbing down is accepted exactly when the man is on a stair cell, not on
   * top of floor, and at rest.
   */
  lemma ClimbDownAccepted(g: Game)
    ensures DoAction(g, Some(DOWN_STAIRS)) != g <==>
              ManCell(g) in g.stairs && Neighbour(ManCell(g), DOWN) !in g.floor && IsZero(g.man.speed)
    ensures DoAction(g, Some(DOWN_STAIRS)) != g ==> DoAction(g, Some(DOWN_STAIRS)).man == g.man.(speed := StepSpeed(DOWN), faced := DOWN)
  {
  }

  /**
   * A jump changes the game exactly when the man faces LEFT or RIGHT, is at
   * rest, not already jumping, and on floor or stairs.
   */
  lemma JumpAccepted(g: Game)
    ensures DoAction(g, Some(JUMP)) != g <==>
              Horizontal(g.man.faced) && IsZero(g.man.speed) && !g.man.stateJump
              && (Neighbour(ManCell(g), DOWN) in g.floor || ManCell(g) in g.stairs)
  {
  }

  /**
   * Near the top of the board, where the man's y is between one and two cell
   * heights, the probe two rows up has a negative y, which Kotlin's truncating
   * division puts in row 0: climbing up then only needs a stair cell one row
   * above him (with floored division it would be row -1).
   */
  lemma ClimbUpNearTop(g: Game)
    requires CELL_HEIGHT < g.man.pos.y < 2 * CELL_HEIGHT
    ensures ManCell(g).row == 1
    ensures DoAction(g, Some(UP_STAIRS)) != g <==>
              ManCell(g) in g.stairs && IsZero(g.man.speed) && Cell(0, ManCell(g).col) in g.stairs
  {
    var p := g.man.pos;
    assert ToCell(Point(p.x, p.y - CELL_HEIGHT * 2)) == Cell(0, ToCell(p).col);
  }

  /** A jump while facing UP or DOWN leaves the game exactly as it was. */
  lemma JumpFacingVerticallyIsNoOp(g: Game)
    requires !Horizontal(g.man.faced)
    ensures DoAction(g, Some(JUMP)) == g
  {
  }

  /** An accepted jump while facing LEFT or RIGHT starts a full arc from rest. */
  lemma {:induction false} JumpStartsArc(g: Game)
    requires Horizontal(g.man.faced)
    requires IsZero(g.man.speed) && !g.man.stateJump && DetectIfIsFloorOrStairs(g.man, g.floor, g.stairs)
    ensures DoAction(g, Some(JUMP)).man == g.man.(stateJump := true, jumpCycle := JUMP_FRAMES,
              speed := Speed(StepSpeed(g.man.faced).dx, CELL_HEIGHT / 2))
  {
    var r := DoAction(g, Some(JUMP));
    assert r == NewStateJump(g, g.man.faced, g.man);
  }

  // ---------------------------------------------------------------------------
  // Properties of StepFrame

  /**
   * A frame inside a jump arc takes one step of the arc, whatever else holds;
   * food under the man is then collected in preference to an egg.
   */
  lemma JumpFrame(g: Game)
    requires g.man.jumpCycle > 0
    ensures StepFrame(g).man == Jump(g.man.(jumpCycle := g.man.jumpCycle - 1))
    ensures IsOnFood(g.man, g.food) ==> StepFrame(g).food == RemoveFood(g.man, g.food) && StepFrame(g).eggs == g.eggs
    ensures !IsOnFood(g.man, g.food) ==> StepFrame(g).food == g.food && StepFrame(g).eggs == RemoveEggs(g.man, g.eggs)
  {
  }

  /**
   * Landing: once the arc is over, a man still flagged as jumping who is off
   * the stairs and on top of floor stops where he is.
   */
  lemma LandingFrame(g: Game)
    requires g.man.jumpCycle == 0 && g.man.stateJump
    requires !DetectIfIsStairs(g.man, g.stairs) && DetectIfIsFloor(g.man, g.floor)
    ensures StepFrame(g) == g.(man := g.man.(stateJump := false, speed := Speed(0, 0)))
  {
  }

  /**
   * Idling on stairs takes precedence over collecting: a man at rest on a stair
   * cell stays put even on an egg or food.
   */
  lemma IdleOnStairsFrame(g: Game)
    requires g.man.jumpCycle == 0 && !g.man.stateJump && IsZero(g.man.speed) && InArea(g.man.pos)
    requires DetectIfIsStairs(g.man, g.stairs)
    ensures StepFrame(g) == g
  {
  }

  /** Off the stairs and with no floor beneath, the man falls by CLIMBING_SPEED (up to the bottom edge). */
  lemma FallingFrame(g: Game)
    requires g.man.jumpCycle <= 0 && InArea(g.man.pos)
    requires !DetectIfIsStairs(g.man, g.stairs) && !DetectIfIsFloor(g.man, g.floor)
    ensures StepFrame(g) == g.(man := Gravity(g.man))
    ensures StepFrame(g).man.pos.y == Clamp(g.man.pos.y + CLIMBING_SPEED, 0, MAX_Y)
    ensures StepFrame(g).man.pos.y >= g.man.pos.y
    ensures StepFrame(g).eggs == g.eggs && StepFrame(g).food == g.food
  {
  }

  /**
   * On the ground (not jumping, on floor or stairs) an egg in the man's cell is
   * collected in preference to food, while he takes a walking step.
   */
  lemma GroundPickupPrefersEggs(g: Game)
    requires g.man.jumpCycle <= 0 && !g.man.stateJump
    requires DetectIfIsFloorOrStairs(g.man, g.floor, g.stairs)
    requires !IsZero(g.man.speed) || !DetectIfIsStairs(g.man, g.stairs)
    requires IsOnEggs(g.man, g.eggs)
    ensures StepFrame(g) == g.(man := Move(g.man), eggs := RemoveEggs(g.man, g.eggs))
  {
  }

  /**
   * On the ground, with no egg in the man's cell, food in his cell is eaten
   * while he takes a walking step.
   */
  lemma GroundPickupFood(g: Game)
    requires g.man.jumpCycle <= 0 && !g.man.stateJump
    requires DetectIfIsFloorOrStairs(g.man, g.floor, g.stairs)
    requires !IsZero(g.man.speed) || !DetectIfIsStairs(g.man, g.stairs)
    requires !IsOnEggs(g.man, g.eggs) && IsOnFood(g.man, g.food)
    ensures StepFrame(g) == g.(man := Move(g.man), food := RemoveFood(g.man, g.food))
  {
  }

  /**
   * A man still flagged as jumping once the arc is over is not stopped on a
   * stair cell: landing needs him off the stairs, so the frame is a walking
   * step with his current speed, vertical part included, and he stays
   * flagged as jumping.
   */
  lemma JumpingOnStairsKeepsMoving(g: Game)
    requires g.man.jumpCycle <= 0 && g.man.stateJump && DetectIfIsStairs(g.man, g.stairs)
    ensures StepFrame(g).man == Move(g.man) && StepFrame(g).man.stateJump
    ensures StepFrame(g).man.pos.y == Clamp(g.man.pos.y + g.man.speed.dy, 0, MAX_Y)
  {
  }

  /** The man's cell supports walking (floor below or stairs) and holds nothing to collect. */
  predicate Walkable(g: Game, c: Cell) {
    (Cell(c.row + 1, c.col) in g.floor || c in g.stairs) && c !in g.eggs && c !in g.food
  }

  /** On a walkable cell, out of any jump, a frame is one walking or climbing step. */
  lemma WalkFrame(g: Game)
    requires g.man.jumpCycle <= 0 && !g.man.stateJump && InArea(g.man.pos)
    requires Walkable(g, ToCell(g.man.pos))
    ensures StepFrame(g) == g.(man := Move(g.man))
  {
  }

  /** The cell the man occupies while crossing from `c` towards `d`. */
  function CrossingCell(c: Cell, d: Direction): Cell {
    if d == RIGHT || d == DOWN then c else Neighbour(c, d)
  }

  /**
   * Walking or climbing across one cell: from a cell origin at StepSpeed(d),
   * over walkable cells, the frames are exactly walking steps, and after
   * StepsPerCell(d) frames the man rests at the origin of the next cell.
   */
  lemma {:induction false} CrossOneCell(g: Game, d: Direction, k: nat)
    requires g.man.jumpCycle == 0 && !g.man.stateJump
    requires InCell(g.man.pos) && InArea(g.man.pos) && g.man.speed == StepSpeed(d)
    requires InArea(ToPoint(Neighbour(ToCell(g.man.pos), d)))
    requires Walkable(g, ToCell(g.man.pos)) && Walkable(g, CrossingCell(ToCell(g.man.pos), d))
    requires k <= StepsPerCell(d)
    ensures Frames(g, k) == g.(man := Moves(g.man, k))
    ensures k == StepsPerCell(d) ==>
              Frames(g, k).man.pos == ToPoint(Neighbour(ToCell(g.man.pos), d)) && IsZero(Frames(g, k).man.speed)
  {
    if k > 0 {
      CrossOneCell(g, d, k - 1);
      var h := Frames(g, k - 1);
      CrossStep(g, d, k, h);
      LastFrame(g, k, h);
      MovesAcrossOneCell(g.man, d, k);
    }
  }

  /** The `k`-th frame of a crossing is the `k`-th walking step. */
  lemma CrossStep(g: Game, d: Direction, k: nat, h: Game)
    requires g.man.jumpCycle == 0 && !g.man.stateJump
    requires InCell(g.man.pos) && InArea(g.man.pos) && g.man.speed == StepSpeed(d)
    requires InArea(ToPoint(Neighbour(ToCell(g.man.pos), d)))
    requires Walkable(g, ToCell(g.man.pos)) && Walkable(g, CrossingCell(ToCell(g.man.pos), d))
    requires 0 < k <= StepsPerCell(d) && h == g.(man := Moves(g.man, k - 1))
    ensures StepFrame(h) == g.(man := Moves(g.man, k))
  {
    if k - 1 > 0 {
      MovesAcrossOneCell(g.man, d, k - 1);
      CrossingCellOnTheWay(g.man.pos, d, k - 1);
    }
    WalkFrame(h);
  }

  /** Between two cell origins, the man is in the crossing cell. */
  lemma CrossingCellOnTheWay(p: Point, d: Direction, k: nat)
    requires InCell(p) && InArea(p) && InArea(ToPoint(Neighbour(ToCell(p), d)))
    requires 0 < k < StepsPerCell(d)
    ensures ToCell(Along(p, d, k)) == CrossingCell(ToCell(p), d)
  {
    assert MOVE_SPEED == 8 && CLIMBING_SPEED == 8;
    var col, row := p.x / 48, p.y / 32;
    assert p.x == 48 * col && p.y == 32 * row;
    assert ToCell(p) == Cell(row, col);
  }

  /**
   * End to end: an accepted WALK_RIGHT from a cell origin, over walkable cells,
   * brings the man to rest at the origin of the next cell after
   * CELL_WIDTH / MOVE_SPEED frames.
   */
  lemma WalkRightCrossesOneCell(g: Game)
    requires g.man.jumpCycle == 0 && !g.man.stateJump && InCell(g.man.pos) && InArea(g.man.pos)
    requires DoAction(g, Some(WALK_RIGHT)) != g
    requires Walkable(g, ToCell(g.man.pos))
    ensures Frames(DoAction(g, Some(WALK_RIGHT)), CELL_WIDTH / MOVE_SPEED).man.pos == ToPoint(Neighbour(ToCell(g.man.pos), RIGHT))
    ensures IsZero(Frames(DoAction(g, Some(WALK_RIGHT)), CELL_WIDTH / MOVE_SPEED).man.speed)
  {
    var a := DoAction(g, Some(WALK_RIGHT));
    assert a == NewStateMove(g, RIGHT, g.man);
    assert g.man.pos.x < MAX_X;
    SnapFixesExactlyAligned(g.man.pos);
    CrossOneCell(a, RIGHT, StepsPerCell(RIGHT));
  }

  // ---------------------------------------------------------------------------
  // Jump arc and invariants over many frames

  /**
   * The man `k` frames into a jump launched at half a cell per frame: the
   * height gained is the sum of the decreasing vertical speeds.
   */
  function ArcMan(m: Man, k: int): Man {
    m.(pos := Point(m.pos.x + k * m.speed.dx, m.pos.y - k * (JUMP_FRAMES + 1 - k)),
       speed := Speed(m.speed.dx, m.speed.dy - k * AC_JUMP),
       jumpCycle := m.jumpCycle - k)
  }

  lemma ArcHeight(k: int)
    requires 0 < k <= JUMP_FRAMES
    ensures 0 <= k * (JUMP_FRAMES + 1 - k) <= ARC_PEAK
    ensures (k - 1) * (JUMP_FRAMES + 1 - (k - 1)) + (CELL_HEIGHT / 2 - (k - 1) * AC_JUMP) == k * (JUMP_FRAMES + 1 - k)
  {
    if k <= 8 {
      assert (8 - k) * (9 - k) >= 0;
    } else {
      assert (k - 8) * (k - 9) >= 0;
    }
  }

  /**
   * A launch clear of the board's edges: full counter, upward speed of half
   * a cell, facing LEFT or RIGHT at walking speed, with room for the whole
   * climb overhead and for JUMP_FRAMES steps sideways.
   */
  predicate ClearLaunch(m: Man) {
    && m.stateJump && m.jumpCycle == JUMP_FRAMES && Horizontal(m.faced)
    && m.speed.dy == CELL_HEIGHT / 2
    && (m.speed.dx == MOVE_SPEED || m.speed.dx == -MOVE_SPEED)
    && InArea(m.pos) && m.pos.y >= ARC_PEAK
    && InArea(Point(m.pos.x + JUMP_FRAMES * m.speed.dx, m.pos.y))
  }

  /**
   * The jump arc: from a launch (full counter, upward speed of half a cell,
   * facing LEFT or RIGHT at walking speed) with room overhead and sideways,
   * every one of the JUMP_FRAMES frames is a step of the arc whatever the
   * cells hold.
   */
  lemma {:induction false} JumpArc(g: Game, k: nat)
    requires ClearLaunch(g.man)
    requires k <= JUMP_FRAMES
    ensures Frames(g, k).man == ArcMan(g.man, k)
  {
    if k == 0 {
      assert Frames(g, k) == g;
      assert ArcMan(g.man, 0) == g.man;
    } else {
      JumpArc(g, k - 1);
      var h := Frames(g, k - 1);
      ArcFrame(h, g.man, k);
      LastFrame(g, k, h);
    }
  }

  /** The last of `k` frames is a frame taken from the first `k - 1`. */
  lemma LastFrame(g: Game, k: nat, h: Game)
    requires k > 0 && h == Frames(g, k - 1)
    ensures Frames(g, k) == StepFrame(h)
  {
  }

  /** A frame taken `k - 1` frames into the arc leads `k` frames into it. */
  lemma ArcFrame(h: Game, m: Man, k: int)
    requires ClearLaunch(m)
    requires 0 < k <= JUMP_FRAMES && h.man == ArcMan(m, k - 1)
    ensures StepFrame(h).man == ArcMan(m, k)
  {
    JumpFrame(h);
    ArcStep(m, k);
  }

  /** One frame of the arc, in pixels. */
  lemma ArcStep(m: Man, k: int)
    requires ClearLaunch(m)
    requires 0 < k <= JUMP_FRAMES
    ensures Jump(ArcMan(m, k - 1).(jumpCycle := ArcMan(m, k - 1).jumpCycle - 1)) == ArcMan(m, k)
  {
    ArcHeight(k);
    var dx := m.speed.dx;
    assert AC_JUMP == 2;
    assert (k - 1) * dx + dx == k * dx;
    if dx == 8 {
      assert k * dx == 8 * k;
    } else {
      assert k * dx == -8 * k;
    }
    assert (k - 1) * AC_JUMP + AC_JUMP == k * AC_JUMP;
  }

  /**
   * Launch: an accepted jump facing LEFT or RIGHT, followed by the whole arc,
   * leaves the man JUMP_FRAMES walking steps sideways and half a cell up,
   * with the counter run out, still flagged as jumping and with vertical
   * speed -(CELL_HEIGHT / 2): the arc does not end the jump by itself. What
   * follows is decided by the frame rules: falling by CLIMBING_SPEED off the
   * stairs (FallingFrame), landing on floor (LandingFrame), or, on a stair
   * cell, walking steps with that speed (JumpingOnStairsKeepsMoving).
   */
  lemma JumpFromRest(g: Game, n: nat)
    requires n == JUMP_FRAMES
    requires Horizontal(g.man.faced) && InArea(g.man.pos) && g.man.pos.y >= ARC_PEAK
    requires IsZero(g.man.speed) && !g.man.stateJump && DetectIfIsFloorOrStairs(g.man, g.floor, g.stairs)
    requires InArea(Point(g.man.pos.x + n * StepSpeed(g.man.faced).dx, g.man.pos.y))
    ensures Frames(DoAction(g, Some(JUMP)), n).man ==
              g.man.(pos := Point(g.man.pos.x + n * StepSpeed(g.man.faced).dx, g.man.pos.y - CELL_HEIGHT / 2),
                     speed := Speed(StepSpeed(g.man.faced).dx, -(CELL_HEIGHT / 2)),
                     stateJump := true, jumpCycle := 0)
  {
    JumpStartsArc(g);
    LaunchedArc(g.man, DoAction(g, Some(JUMP)), n, StepSpeed(g.man.faced).dx);
  }

  /**
   * `m` is `k` frames into the arc launched by `m0`: the counter has dropped by
   * `k`, the facing is kept, the vertical speed has dropped by `k * AC_JUMP`,
   * and from the first frame on he is flagged as jumping (before it, as `m0` was).
   */
  predicate ArcCounted(m0: Man, m: Man, k: int) {
    m.jumpCycle == m0.jumpCycle - k && m.faced == m0.faced
    && m.speed == Speed(m0.speed.dx, m0.speed.dy - k * AC_JUMP)
    && m.stateJump == (k > 0 || m0.stateJump)
  }

  /**
   * Wherever the man jumps from, even where the arc is clamped at the board's
   * edges, the arc runs its course: `k` frames after a full counter the man is
   * `k` frames into it.
   */
  lemma {:induction false} ArcCounters(g: Game, k: nat)
    requires g.man.jumpCycle == JUMP_FRAMES && k <= JUMP_FRAMES
    ensures ArcCounted(g.man, Frames(g, k).man, k)
  {
    if k == 0 {
      assert Frames(g, k) == g;
    } else {
      ArcCounters(g, k - 1);
      var h := Frames(g, k - 1);
      ArcCountersStep(g.man, h, k);
      LastFrame(g, k, h);
    }
  }

  /** One frame of the arc keeps the counting. */
  lemma ArcCountersStep(m0: Man, h: Game, k: int)
    requires m0.jumpCycle == JUMP_FRAMES && 0 < k <= JUMP_FRAMES
    requires ArcCounted(m0, h.man, k - 1)
    ensures ArcCounted(m0, StepFrame(h).man, k)
  {
    JumpFrame(h);
    assert (k - 1) * AC_JUMP + AC_JUMP == k * AC_JUMP;
  }

  /**
   * Every accepted jump facing LEFT or RIGHT, even at the board's edges, ends
   * its arc of `n` = JUMP_FRAMES frames with the counter at 0, still flagged as
   * jumping, with the same facing and a vertical speed of -(CELL_HEIGHT / 2).
   */
  lemma JumpEndsFlagged(g: Game, n: nat)
    requires n == JUMP_FRAMES && Horizontal(g.man.faced)
    requires IsZero(g.man.speed) && !g.man.stateJump && DetectIfIsFloorOrStairs(g.man, g.floor, g.stairs)
    ensures var e := Frames(DoAction(g, Some(JUMP)), n).man;
            e.jumpCycle == 0 && e.stateJump && e.faced == g.man.faced
            && e.speed == Speed(StepSpeed(g.man.faced).dx, -(CELL_HEIGHT / 2))
  {
    JumpStartsArc(g);
    LaunchedArcCounters(g.man, DoAction(g, Some(JUMP)), n, StepSpeed(g.man.faced).dx);
  }

  /** The counters at the end of the arc of a jump launched by `m` at horizontal speed `dx`. */
  lemma LaunchedArcCounters(m: Man, a: Game, n: nat, dx: int)
    requires n == JUMP_FRAMES
    requires a.man == m.(stateJump := true, jumpCycle := JUMP_FRAMES, speed := Speed(dx, CELL_HEIGHT / 2))
    ensures var e := Frames(a, n).man;
            e.jumpCycle == 0 && e.stateJump && e.faced == m.faced && e.speed == Speed(dx, -(CELL_HEIGHT / 2))
  {
    ArcCounters(a, n);
    var e := Frames(a, n).man;
    assert ArcCounted(a.man, e, n);
    assert AC_JUMP == 2 && n * AC_JUMP == 32;
  }

  /** The whole arc of a jump launched by `m` at horizontal speed `dx`. */
  lemma LaunchedArc(m: Man, a: Game, n: int, dx: int)
    requires n == JUMP_FRAMES && Horizontal(m.faced) && InArea(m.pos) && m.pos.y >= ARC_PEAK
    requires dx == MOVE_SPEED || dx == -MOVE_SPEED
    requires InArea(Point(m.pos.x + n * dx, m.pos.y))
    requires a.man == m.(stateJump := true, jumpCycle := JUMP_FRAMES, speed := Speed(dx, CELL_HEIGHT / 2))
    ensures Frames(a, n).man ==
              m.(pos := Point(m.pos.x + n * dx, m.pos.y - CELL_HEIGHT / 2),
                 speed := Speed(dx, -(CELL_HEIGHT / 2)), stateJump := true, jumpCycle := 0)
  {
    JumpArc(a, n);
    ArcEnd(m, n, dx);
  }

  /**
   * After the last frame of the arc the counter is 0, the man is half a cell
   * above where he left, and his vertical speed is -(CELL_HEIGHT / 2).
   */
  lemma ArcEnd(m: Man, n: int, dx: int)
    requires n == JUMP_FRAMES
    ensures ArcMan(m.(stateJump := true, jumpCycle := JUMP_FRAMES, speed := Speed(dx, CELL_HEIGHT / 2)), n) ==
              m.(pos := Point(m.pos.x + n * dx, m.pos.y - CELL_HEIGHT / 2),
                 speed := Speed(dx, -(CELL_HEIGHT / 2)), stateJump := true, jumpCycle := 0)
  {
    assert JUMP_FRAMES + 1 - n == 1;
    assert n * 1 == 16;
    assert n * AC_JUMP == 32;
  }

  /** One frame keeps the man's counter in range and the man on the board. */
  lemma FrameKeepsManInRange(h: Game)
    ensures ManInRange(h.man) ==> ManInRange(StepFrame(h).man)
  {
    var r := StepFrame(h);
    assert h.man.jumpCycle > 0 ==> r.man.jumpCycle == h.man.jumpCycle - 1;
  }

  lemma OnlyCollectedTransitive(a: Game, b: Game, c: Game)
    requires OnlyCollected(a, b) && OnlyCollected(b, c)
    ensures OnlyCollected(a, c)
  {
  }

  /** One frame removes at most one collectible and adds none. */
  lemma FrameOnlyCollects(g: Game)
    ensures multiset(StepFrame(g).eggs) <= multiset(g.eggs)
    ensures multiset(StepFrame(g).food) <= multiset(g.food)
    ensures |g.eggs| + |g.food| <= |StepFrame(g).eggs| + |StepFrame(g).food| + 1
  {
    var r := StepFrame(g);
    assert r.eggs == g.eggs || multiset(r.eggs) == multiset(g.eggs) - multiset{ToCell(g.man.pos)};
    assert r.food == g.food || multiset(r.food) == multiset(g.food) - multiset{ToCell(g.man.pos)};
  }

  /** One frame adds no egg or food cell. */
  lemma FrameAddsNothing(g: Game)
    ensures OnlyCollected(g, StepFrame(g))
  {
    var r := StepFrame(g);
    FrameOnlyCollects(g);
    forall c | c in r.eggs ensures c in g.eggs { assert c in multiset(r.eggs); }
    forall c | c in r.food ensures c in g.food { assert c in multiset(r.food); }
  }
}
