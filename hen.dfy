/**
 * The hen: a second actor with the man's shape plus an animation counter,
 * created in a cell and moved one clamped step at a time. It does not
 * interact with the man or the collectibles.
 */
module HenActor {
  import opened Geometry

  datatype Hen = Hen(pos: Point, faced: Direction, stateJump: bool, speed: Speed, jumpCycle: int, animationCicle: int)

  /** The hen as placed at the start of a level, standing still in `cell`. */
  function CreateHen(cell: Cell): (h: Hen)
    ensures ToCell(h.pos) == cell && InCell(h.pos)
    ensures h.faced == LEFT && !h.stateJump && IsZero(h.speed) && h.jumpCycle == 0 && h.animationCicle == 0
  {
    CellRoundTrip(cell);
    Hen(ToPoint(cell), LEFT, false, Speed(0, 0), 0, 0)
  }

  /**
   * One step of the hen: the position advances by the speed and is clamped to
   * the board, the speed stops once the unclamped target is cell-aligned. The
   * source wraps this in a `while (true)` whose body returns on its first
   * iteration, so it is a single step.
   */
  function Move(h: Hen): (r: Hen)
    ensures InArea(r.pos)
    ensures r.pos.x == Clamp(h.pos.x + h.speed.dx, 0, MAX_X) && r.pos.y == Clamp(h.pos.y + h.speed.dy, 0, MAX_Y)
    ensures InArea(Plus(h.pos, h.speed)) ==> r.pos == Plus(h.pos, h.speed)
    ensures InCell(Plus(h.pos, h.speed)) ==> IsZero(r.speed)
    ensures !InCell(Plus(h.pos, h.speed)) ==> r.speed == h.speed
    ensures r.faced == h.faced && r.stateJump == h.stateJump && r.animationCicle == h.animationCicle
    ensures r.jumpCycle == 0
  {
    Hen(LimitToArea(Plus(h.pos, h.speed), MAX_X, MAX_Y), h.faced, h.stateJump,
        StopIfInCell(h.speed, Plus(h.pos, h.speed)), 0, h.animationCicle)
  }

  /** A hen at rest on the board stays where she is; only her jump counter is reset. */
  lemma StillHenStays(h: Hen)
    requires IsZero(h.speed) && InArea(h.pos)
    ensures Move(h) == h.(jumpCycle := 0)
  {
  }

  /** Moving twice from rest changes nothing further: a still hen is a fixed point of Move. */
  lemma StillHenIsFixedPoint(h: Hen)
    requires IsZero(h.speed)
    ensures IsZero(Move(h).speed)
    ensures Move(Move(h)) == Move(h)
  {
    var m := Move(h);
    assert IsZero(m.speed) && InArea(m.pos);
    StillHenStays(m);
  }
}
