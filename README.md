# Chuckie-Egg-style grid game: the frame-by-frame transition engine

This project is a Dafny model of the simulation core of a small Kotlin
platform game in the style of Chuckie Egg. A man walks, climbs stairs, falls
and jumps on a 20 x 24 grid of cells that are 48 x 32 pixels. He collects
eggs and food on the way. A hen is a second actor with its own one-step move.

The game is a snapshot (`GameEngine.Game`). It holds the man and four cell
lists: floor, stairs, eggs and food. Two transitions produce a new snapshot:

- `DoAction` applies a key press (or none). Every action is silently ignored
  unless its conditions hold.
- `StepFrame` advances one frame. It tries ten rules in a fixed priority
  order: jump arc (collecting food, else an egg), idling on stairs, falling,
  landing, collecting an egg, collecting food, and walking.

The source is pure: every function returns a fresh value. So the model is
datatypes, functions and lemmas in four modules:

- `Geometry`: points, cells, speeds, directions, the arena constants, and the
  conversions between pixels and cells.
- `ManActor`: the man and his primitives (`Man.kt`).
- `HenActor`: the hen (`Hen.kt`).
- `GameEngine`: the game, `DoAction`, `NewStateMove`, `NewStateJump` and
  `StepFrame` (`Game.kt`).

Integers are unbounded. Kotlin's `/` truncates toward zero, and it is written
out as `Geometry.TruncDiv`. The `UP_STAIRS` probe, two rows above the man, can
be negative near the top of the board, where the two kinds of division differ:
`GameEngine.ClimbUpNearTop` shows that there the probe lands only one row up.

Some helpers are defined outside Game.kt, Man.kt and Hen.kt, so they are
modelled as small assumed definitions:

- `Point`, `Cell`, `Speed`, `Direction` and `plus`.
- `toCell`: the pixel divided by the cell size.
- `toPoint`: the top-left pixel of the cell.
- `limitToArea`: clamps each axis into [0, max].
- `stopIfInCell`: gives zero speed when the tested point is cell-aligned,
  otherwise the speed unchanged.
- `isZero`.
- `detectIfisFloorOrStrair`: taken to be "on top of floor or on stairs".

`Game.kt` calls several predicates by names other than those `Man.kt` declares
(`detectIfisStairs`, `food`, `eggs`, `removeFood`, ...). Each is modelled once,
under the `Man.kt` definition.

The model follows the code, including these quirks:

- Both walking actions test the cell to the man's right for floor.
- A jump while facing UP or DOWN does nothing.
- At the end of a 16-frame arc the man is still flagged as jumping. Only the
  landing rule clears the flag, and it does not snap him to the grid.
- A collected cell is removed as Kotlin's `list - element` does: the first
  occurrence only.
- The game has no score, countdown or outcome.

## Model

| member | source | states |
|---|---|---|
| `Geometry.LimitToArea` | src/main/kotlin/Man.kt:32 | the result is inside [0, maxX] x [0, maxY]; it equals the input exactly when the input is already inside; each axis is clamped independently |
| `Geometry.ToCell` | src/main/kotlin/Man.kt:55 | row and column are Kotlin's truncated quotients by the cell size: a non-negative coordinate lies within its cell's span, a negative one within the span mirrored towards zero |
| `Geometry.ToPoint` | src/main/kotlin/Man.kt:24 | the cell's origin is cell-aligned and converts back to the same cell |
| `Geometry.Plus` | src/main/kotlin/Man.kt:32 | the point is displaced by exactly the speed, and stays in place iff the speed is zero |
| `Geometry.IsZero` | src/main/kotlin/Game.kt:49 | true iff the speed is (0, 0) |
| `Geometry.StopIfInCell` | src/main/kotlin/Man.kt:32 | the speed becomes zero when the tested point is cell-aligned, otherwise it is kept |
| `Geometry.TruncDiv` | src/main/kotlin/Game.kt:56 | Kotlin's integer division: the remainder has the sign of the dividend and is smaller than the divisor |
| `Geometry.CellRoundTrip` | src/main/kotlin/Man.kt:24 | for every cell, its top-left pixel converts back to the same cell and is cell-aligned |
| `Geometry.SnapFixesExactlyAligned` | src/main/kotlin/Man.kt:32 | on the board, snapping a point to its cell origin leaves it in place iff the point is cell-aligned |
| `Geometry.LastCellOrigin` | src/main/kotlin/Man.kt:9-12 | the origin of the last grid cell is (MAX_X, MAX_Y), as the comment on MAX_X and MAX_Y states |
| `ManActor.CreateMan` | src/main/kotlin/Man.kt:23-28 | the new man stands at the origin of the given cell, faces LEFT, is at rest, is not jumping, and has jump counter 0 |
| `ManActor.Move` | src/main/kotlin/Man.kt:31-33 | the new position is pos + speed clamped axis by axis into the board, so it is pos + speed when that is on the board; speed stops iff pos + speed is cell-aligned, else it is kept; facing and jump flag are kept; the jump counter becomes 0 |
| `ManActor.MoveUpDown` | src/main/kotlin/Man.kt:35-37 | climbing computes exactly what walking computes |
| `ManActor.Gravity` | src/main/kotlin/Man.kt:39-41 | the man moves by (dx, CLIMBING_SPEED), clamped to the board; the stored speed is never set to the fall speed; whether it stops is decided on pos + old speed; the jump counter becomes 0 |
| `ManActor.Jump` | src/main/kotlin/Man.kt:43-52 | y becomes y - dy, clamped; x advances by dx only when facing LEFT or RIGHT; dy drops by AC_JUMP; the man is flagged as jumping; the jump counter is kept |
| `ManActor.PrimitivesStayOnBoard` | src/main/kotlin/Man.kt:31-52 | walking, climbing, falling and jumping always leave the man on the board |
| `ManActor.DetectIfIsStairs` | src/main/kotlin/Man.kt:54-56 | true iff the man's cell is in the stairs list |
| `ManActor.DetectIfIsFloor` | src/main/kotlin/Man.kt:59-64 | true iff the cell directly below the man's cell is in the floor list |
| `ManActor.DetectIfIsInsideFloor` | src/main/kotlin/Man.kt:66-71 | true iff the man's cell is itself in the floor list |
| `ManActor.DetectIfIsFloorOrStairs` | src/main/kotlin/Game.kt:49 | (assumed definition) true iff there is floor below the man's cell or his cell is a stair |
| `ManActor.IsOnFood` | src/main/kotlin/Man.kt:74-76 | true iff the man's cell is in the food list |
| `ManActor.IsOnEggs` | src/main/kotlin/Man.kt:84-86 | true iff the man's cell is in the egg list |
| `ManActor.RemoveFirst` | src/main/kotlin/Man.kt:81 | `list - element`: one element shorter when the element is present, the same list when absent; as a multiset, exactly one copy of the element is removed |
| `ManActor.RemoveFood` | src/main/kotlin/Man.kt:78-82 | the length drops by exactly 1 iff the man is on food, and the list is returned unchanged otherwise; exactly one copy of the man's cell leaves the multiset |
| `ManActor.RemoveEggs` | src/main/kotlin/Man.kt:88-92 | the same as for food, for eggs |
| `ManActor.RemoveFirstKeepsOrder` | src/main/kotlin/Man.kt:78-92 | the result is the list cut out at the first occurrence of the removed cell, so all other elements keep their relative order |
| `ManActor.RemoveFirstSubset` | src/main/kotlin/Man.kt:78-92 | removal never adds an element |
| `ManActor.StepSpeed` | src/main/kotlin/Game.kt:71-76 | the speed of one walking or climbing step points in the given direction, on one axis only, with magnitude MOVE_SPEED sideways and CLIMBING_SPEED up or down |
| `ManActor.MovesAcrossOneCell` | src/main/kotlin/Man.kt:31-33 | from a cell origin at walking or climbing speed, the man keeps moving for 5 (or 3) frames and rests at the origin of the neighbouring cell after exactly CELL_WIDTH / MOVE_SPEED (or CELL_HEIGHT / CLIMBING_SPEED) frames |
| `HenActor.CreateHen` | src/main/kotlin/Hen.kt:5-12 | the new hen stands at the origin of the given cell, faces LEFT, is at rest, is not jumping, and has both counters 0 |
| `HenActor.Move` | src/main/kotlin/Hen.kt:15-20 | a single step: the position is pos + speed clamped axis by axis into the board, so it is pos + speed when that is on the board; speed stops iff pos + speed is cell-aligned, else it is kept; facing, jump flag and animation counter are kept; the jump counter becomes 0 |
| `HenActor.StillHenStays` | src/main/kotlin/Hen.kt:17 | a hen at rest on the board is unchanged by a move, except that her jump counter becomes 0 |
| `HenActor.StillHenIsFixedPoint` | src/main/kotlin/Hen.kt:15-20 | a hen at rest stays at rest, and moving her twice is the same as moving her once |
| `GameEngine.DoAction` | src/main/kotlin/Game.kt:45-67 | no action returns the game unchanged; so does any action while the man is moving, and walking into the left or right border; an action that changes the game leaves the man moving; the man's position and all four cell lists never change; a jump counter in [0, 16] stays in [0, 16] |
| `GameEngine.NewStateMove` | src/main/kotlin/Game.kt:69-80 | the speed is one step towards the direction, non-zero on exactly one axis; the man faces the direction; nothing else of the man or the game changes |
| `GameEngine.NewStateJump` | src/main/kotlin/Game.kt:82-93 | LEFT/RIGHT: flagged as jumping, counter 16, speed (+-MOVE_SPEED, CELL_HEIGHT/2); UP/DOWN: only the facing is set; the position and the cell lists never change |
| `GameEngine.StepFrame` | src/main/kotlin/Game.kt:101-132 | floor and stairs never change; eggs and food are each unchanged or lose the man's cell (one element); at most one of the two changes; a positive jump counter drops by exactly 1 and the man is then jumping; a zero counter stays 0; a man on the board stays on it |
| `GameEngine.WalkAccepted` | src/main/kotlin/Game.kt:48-54 | a walk is accepted iff: the man is not at that border, is at rest, the cell to his RIGHT is not floor, and he stands on floor or stairs; he then moves that way at walking speed |
| `GameEngine.WalkLeftAndRightShareGuard` | src/main/kotlin/Game.kt:48-54 | away from the borders, WALK_LEFT is accepted iff WALK_RIGHT is |
| `GameEngine.FloorOnTheRightBlocksBothWalks` | src/main/kotlin/Game.kt:49-53 | floor in the cell to the man's right blocks walking left as well as right |
| `GameEngine.ClimbUpAccepted` | src/main/kotlin/Game.kt:56 | anywhere on the board with y at least two cell heights (below the first two rows), climbing up is accepted iff the man is on a stair, at rest, and the cell two rows above is a stair; he then climbs up |
| `GameEngine.ClimbUpNearTop` | src/main/kotlin/Game.kt:56 | with y between one and two cell heights (row 1), the truncating probe two rows up lands in row 0, so climbing up is accepted iff the man is on a stair, at rest, and the cell one row above is a stair |
| `GameEngine.ClimbDownAccepted` | src/main/kotlin/Game.kt:58 | climbing down is accepted iff the man is on a stair, has no floor below, and is at rest; he then climbs down |
| `GameEngine.JumpAccepted` | src/main/kotlin/Game.kt:60-64 | a jump changes the game iff the man faces LEFT or RIGHT, is at rest, is not jumping, and stands on floor or stairs |
| `GameEngine.JumpFacingVerticallyIsNoOp` | src/main/kotlin/Game.kt:60-62 | a jump while facing UP or DOWN returns an equal game |
| `GameEngine.JumpStartsArc` | src/main/kotlin/Game.kt:60-62 | an accepted jump facing LEFT or RIGHT sets the jump flag, counter 16 and speed (+-MOVE_SPEED, CELL_HEIGHT/2), and changes nothing else of the man |
| `GameEngine.JumpFrame` | src/main/kotlin/Game.kt:104-110 | during an arc, the frame is a jump step with the counter decremented, whatever the cells hold; food under the man is collected in preference to an egg |
| `GameEngine.IdleOnStairsFrame` | src/main/kotlin/Game.kt:112-113 | a man at rest on a stair cell, out of any jump, leaves the game unchanged, even on an egg or food |
| `GameEngine.FallingFrame` | src/main/kotlin/Game.kt:115-116 | off stairs with no floor below, the frame is exactly one `Gravity` step of the man and nothing else changes: he falls by CLIMBING_SPEED, clamped at the bottom, and never rises; nothing is collected |
| `GameEngine.LandingFrame` | src/main/kotlin/Game.kt:118-119 | with the counter run out, still flagged as jumping, off stairs and on top of floor: the jump flag is cleared and the speed zeroed; the man does not move |
| `GameEngine.GroundPickupPrefersEggs` | src/main/kotlin/Game.kt:121-125 | on the ground, an egg in the man's cell is collected in preference to food, with one walking step |
| `GameEngine.GroundPickupFood` | src/main/kotlin/Game.kt:121-125 | on the ground with no egg in the man's cell, food in his cell is eaten, with one walking step |
| `GameEngine.JumpingOnStairsKeepsMoving` | src/main/kotlin/Game.kt:112-130 | a man still flagged as jumping after the arc, on a stair cell, is not landed: the frame is a walking step with his speed, vertical part included, and he stays flagged |
| `GameEngine.WalkFrame` | src/main/kotlin/Game.kt:112-130 | out of any jump, in a cell with floor below or stairs and nothing to collect, a frame is exactly one walking step |
| `GameEngine.CrossOneCell` | src/main/kotlin/Game.kt:112-130 | from a cell origin at step speed over walkable cells, each frame is a walking step, and after one cell's worth of frames the man rests at the next cell's origin |
| `GameEngine.WalkRightCrossesOneCell` | src/main/kotlin/Game.kt:52-54 | an accepted WALK_RIGHT from a cell origin over a walkable cell brings the man to rest at the next cell's origin after CELL_WIDTH / MOVE_SPEED frames |
| `GameEngine.JumpArc` | src/main/kotlin/Game.kt:104-110 | k frames into a launch clear of the board edges, the man is k walking steps sideways and k(17-k) pixels up; his vertical speed is lower by k * AC_JUMP and his counter by k |
| `GameEngine.ArcCounters` | src/main/kotlin/Game.kt:104-110 | k frames after a full counter, anywhere on the board, the counter is lower by k, the facing is kept, the vertical speed is lower by k * AC_JUMP and the man is flagged as jumping from the first frame on |
| `GameEngine.ArcCountersStep` | src/main/kotlin/Game.kt:104-110 | one more frame of a jump lowers the counter by one more and the vertical speed by one more AC_JUMP |
| `GameEngine.JumpEndsFlagged` | src/main/kotlin/Game.kt:60-62 | every accepted jump facing LEFT or RIGHT (facing UP or DOWN it changes nothing), wherever it starts, ends its 16 frames with counter 0, still flagged as jumping, facing the same way, at walking speed sideways and vertical speed -(CELL_HEIGHT/2) |
| `GameEngine.JumpFromRest` | src/main/kotlin/Game.kt:82-110 | from a launch clear of the board edges (at least 72 pixels of headroom, room for 16 sideways steps), an accepted jump followed by 16 frames leaves the man 16 walking steps sideways and half a cell up, with counter 0, still flagged as jumping, with vertical speed -(CELL_HEIGHT/2) |
| `GameEngine.Frames` | src/main/kotlin/Game.kt:101-132 | over n frames the floor and stairs do not change; at most n eggs and food cells disappear in all; every egg and food cell at the end was one at the start, so no cell is ever added; the jump counter stays in [0, 16] and the man stays on the board |
| `GameEngine.FrameOnlyCollects` | src/main/kotlin/Game.kt:103-131 | in one frame, eggs and food each lose at most the copies removed, as multisets, and together at most one element |
| `GameEngine.FrameAddsNothing` | src/main/kotlin/Game.kt:103-131 | in one frame, every egg and food cell afterwards was already one before |
| `GameEngine.FrameKeepsManInRange` | src/main/kotlin/Game.kt:103-131 | one frame keeps the jump counter in [0, 16] and the man on the board |

## Left out

- `loadGame` (Game.kt:26-35) reads a level file. Initial games are built directly from cell lists instead; `CreateMan` and `CreateHen` give the actors.
- View.kt is drawing and text output. Only its sprite, grid and cell-size constants are used.
- The `println` calls in `newStateMove` and `stepFrame` are diagnostic output only.
- Score, countdown and win/lose outcome are left out. The game snapshot has no such fields; only drawing code reads them.
- Hen and man never interact, and nothing in the game transitions uses the hen. Nothing in Game.kt, Man.kt or Hen.kt sets her speed, so no autonomous hen cycle is modelled.
- Kotlin's 32-bit `Int` wrap-around is not modelled. Positions are clamped to the board every frame and speeds are small constants, so no reachable value comes near the limit.
- `GameEngine.JumpFromRest`: the position after the arc is proved only for launches clear of the board edges; the counter, flag, facing and speed are proved for every accepted jump by `GameEngine.JumpEndsFlagged`.
- `GameEngine.JumpArc`: covers only arcs that stay clear of the board edges (at least 72 pixels of headroom, and room for 16 sideways steps). Clamped arcs are covered frame by frame by `JumpFrame` and `ManActor.Jump`.
- `GameEngine.WalkRightCrossesOneCell`: the end-to-end walk is proved for WALK_RIGHT only. Other directions follow from `CrossOneCell` with the accepting lemmas.
