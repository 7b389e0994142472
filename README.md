# Breakout engine in Dafny

A model of the game engine inside `main.js`, a single-ball Breakout game
played on a logical 800 x 500 world. The engine is one object whose fields
are the game's globals: score, lives, level index, game state
(Start / Playing / Paused / GameOver / Win), the brick grid with its
live-brick counter and layout, the ball and the paddle. The frame loop calls
`Update(dt)`. Each frame splits into 1 to 5 sub-steps. In every sub-step the
ball moves, bounces off the walls, may fall past the bottom (losing a life),
may bounce off the paddle (counting the hit and speeding up on every fifth),
strikes at most one brick of the 3x3 cells around it, and advances the level
once the grid is empty.

Modules, one per part of the engine:

- `Geometry`: the world size, `clamp` and the circle-against-rectangle test.
- `Bricks`: bricks, the grid, the live count, the grid layout
  (brick width, centring margin, cell index), the strike outcome and the
  neighbourhood scan as a specification function.
- `Levels`: the three level patterns and the brick each pattern cell becomes.
- `Pacing`: ball speed, sub-step count, the per-hit and per-level speed-ups.
- `Motion`: the ball, its move with wall bounces, and the brick-bounce
  decision table.
- `Breakout`: the class `Game` holding the mutable state, with one method per
  engine routine, and the functions that say what one sub-step does to the
  ball, the paddle and the grid (`Steered`, `PaddlePhase`, `BrickScan`,
  `StruckGrid`, `StruckPoints`, `StruckBall`). A `Snap` holds all engine
  fields at one instant; `Collided`, `LostBall` and `Stepped` relate the
  snapshot before a phase of a sub-step to the one after it, and `Update`
  returns the trace of snapshots of a frame. Methods are proved against
  these and the functions of the other modules. The invariant comes in two
  strengths: `WellFormed()` (state, lives, speed, paddle and grid shape
  agree, and every brick sits in its own cell of the layout) and `Valid()` (also: only a won game has an empty grid).
  `TogglePause`, `NextLevel`, `Collide`, `SubStep` and `Update` keep or
  establish `Valid()`, as do the constructor and `StartGame`. `LoseLife`,
  `PaddleBounce`, `HitPaddleAndBricks`, `HitBrick`, `StrikeBrick`,
  `ScanBricks` and `ScanRow` keep only `WellFormed()`: mid-sub-step the grid
  may be empty until the level check runs. `HandleInput`, `MoveBall`,
  `ResetBallAndPaddle`, `ResolveBallBrickBounce`, `WinGame` and `GameOver`
  neither need nor promise either; they touch one or two fields and state
  those exactly. `BuildBricks` establishes the grid part of the invariant;
  `BuildGrid`, `BuildCells` and `BuildRow` state the grid they lay out.

The code chooses a brick's colour by its strength (second palette entry for a
strong brick, first otherwise). The model follows the code, not a colour per
row. There is one ball; the file has no power-ups, multi-ball or high score,
and neither does the model.

## Model

| member | source | states |
|---|---|---|
| `Geometry.Clamp` | main.js:118-120 | inside the range the value is kept; below it the low bound is returned, above it the high bound; for an empty range the low bound wins |
| `Geometry.ClampIsNearest` | main.js:134-135 | the clamped coordinate is the nearest point of the interval to the value |
| `Geometry.NearPointCollides` | main.js:133-139 | if some point of the rectangle is within the radius of the centre, the collision test succeeds |
| `Geometry.CollideHasNearPoint` | main.js:133-139 | if the collision test succeeds, the clamped point lies in the rectangle and within the radius |
| `Geometry.SeparatedMisses` | main.js:133-139 | a circle lying wholly left of, right of, above or below the rectangle never collides with it |
| `Geometry.RectCircleCollide` | main.js:133-139 | a circle whose centre lies in the rectangle always collides with it (the exact condition is stated by NearPointCollides and CollideHasNearPoint) |
| `Bricks.CountLiveUpdate` | main.js:393-401 | replacing one grid cell changes the live count by exactly the difference of the two cells' weights |
| `Bricks.CountLiveZero` | main.js:411-415 | the live count is zero exactly when every cell of the grid is empty, so the counter test detects a cleared level |
| `Bricks.BrickWidth` | main.js:161-162 | the brick width is never below the 24-unit minimum |
| `Bricks.BrickWidthFills` | main.js:155-162 | the bricks fill exactly the space between the two margins, or are 24 wide and overflow it |
| `Bricks.CentredLeft` | main.js:167-168 | the recomputed margin is never below 16 |
| `Bricks.CentredLeftCentres` | main.js:167-168 | the margin is half the leftover width rounded down, or else 16, and 16 only when that half is below 17, so the larger of the two is taken |
| `Bricks.MarginIsFixedPoint` | main.js:155-168 | when minimum-width bricks fit, re-centring returns the margin used to size the bricks and the grid is exactly centred |
| `Bricks.CellIndex` | main.js:380-381 | the index returned is the cell whose span of one pitch contains the coordinate |
| `Bricks.StrikeKeepsGrid` | main.js:393-401 | striking a brick keeps the grid well formed; a damaged brick keeps the count, a removed one lowers it by one; every other cell is unchanged |
| `Bricks.Strike` | main.js:393-401 | a struck brick leaves its cell empty exactly when it was on its last hit point; otherwise the same brick, same rectangle, one hit point weaker |
| `Bricks.StrikeKeepsPlaced` | main.js:393-401 | striking a brick keeps every brick of the grid in its own cell |
| `Bricks.StrikePoints` | main.js:393-401 | a strike scores 10 exactly when it removes the brick and 5 exactly when the brick stays |
| `Bricks.ScanFrom` | main.js:383-409 | from a given cell on, the scan returns the first struck cell of the 3x3 block in row-major order, and misses only if no later cell is struck |
| `Bricks.Scan` | main.js:383-409 | a hit is an in-range live brick of the block that the ball touches, with no struck cell before it; a miss means no cell of the block is struck |
| `Breakout.StruckGridCount` | main.js:393-415 | the brick pass keeps the grid well formed and lowers the live count by one exactly when it removes a brick; so a pass clears a grid holding bricks only by removing its last brick on its last hit point |
| `Breakout.BrickScan` | main.js:379-409 | a hit of the brick pass names an in-range cell holding a live brick that the ball touches |
| `Breakout.BrickScanNearBall` | main.js:379-386 | the brick the pass strikes lies within one row and one column of the cell holding the ball's centre |
| `Bricks.FarCellClear` | main.js:380-386 | along one axis, a ball centred in cell i and no wider than a pitch ends before the start of any cell two or more past i and starts after the end of the brick of any cell two or more before i |
| `Breakout.OutsideBlockMisses` | main.js:379-386 | on a grid whose bricks sit in their cells, the ball touches no brick outside the 3x3 block around its cell |
| `Breakout.BrickScanFindsFirst` | main.js:379-409 | on such a grid, scanning the block loses nothing: the pass misses exactly when the ball touches no brick anywhere in the grid, and a hit is the first touched brick of the whole grid in row-major order |
| `Bricks.SkipRow` | main.js:384 | a neighbourhood row outside the grid contributes nothing to the scan |
| `Levels.BuiltCell` | main.js:172-194 | a 0 pattern cell is empty; any other becomes a live brick with 2 hit points for a 2 and 1 otherwise, of the computed width and fixed height, coloured from the level palette |
| `Levels.LevelsPlayable` | main.js:72-115 | every level has at least one column, a palette, and a pattern of exactly rows x cols cells |
| `Levels.BuiltRowsWellFormed` | main.js:170-195 | built rows hold only live bricks of 1 or 2 hit points, each in its own cell of the layout |
| `Levels.NonEmptyCellCounts` | main.js:170-195 | a non-zero pattern cell inside the grid makes the level's brick count positive |
| `Levels.LevelHoldsBricks` | main.js:72-115 | every level starts with at least one brick, so no level is cleared on arrival |
| `Levels.MarginStaysPut` | main.js:155-168 | from the initial margin of 35, every level is laid out with margin 35 again |
| `Pacing.Steps` | main.js:324-325 | the sub-step count is the smallest count from 1 to 5 whose steps each cover at most 450 units of speed |
| `Pacing.HitSpeed` | main.js:371-374 | a paddle hit changes the speed only when the new hit count is a multiple of 5, then by +20 up to the 900 cap, and never past it |
| `Pacing.SpeedStaysCapped` | main.js:371-374 | over any number of paddle hits the speed never drops and never passes the cap |
| `Pacing.SpeedAfterHitsSplit` | main.js:371-374 | a + b paddle hits have the same effect as a hits followed by b hits |
| `Pacing.FifthHitSpeedsUp` | main.js:371-374 | from a count that is a multiple of 5, four hits leave the speed alone and the fifth adds 20, capped |
| `Pacing.SpeedAfterRounds` | main.js:371-374 | from a fresh counter, 5m paddle hits raise the speed by 20m, capped at 900 |
| `Motion.AfterMove` | main.js:331-345 | after a move the ball is inside the side walls and below the top; a crossed wall turns that velocity component inward; an uncrossed one leaves it alone |
| `Motion.BounceOffBrick` | main.js:276-305 | exactly one velocity component is reversed: the vertical one on a vertical approach (also at a corner) and on an unrecognised one, the horizontal one on a purely sideways approach |
| `Breakout.TogglePauseTwice` | main.js:252-259 | pause changes the state exactly in Playing and Paused, and toggling twice restores any state |
| `Breakout.Toggled` | main.js:252-259 | the toggled state is Playing or Paused exactly when the old one was: pausing never starts or ends a game |
| `Breakout.Steered` | main.js:419-433 | the steered paddle stays on its line inside the world; an active pointer inside reach puts its centre under the pointer; with no pointer, no key or both keeps it in place, left alone never moves it right and right alone never left |
| `Breakout.PaddleBounced` | main.js:360-377 | the bounced ball keeps its x, sits above the paddle top, has one more paddle hit, a speed between the old one and the cap, and the old speed unless the new hit count is a multiple of 5 |
| `Breakout.PaddlePhase` | main.js:359-377 | the paddle hit is counted exactly when the ball touches the paddle; x is never changed |
| `Breakout.LaidOutUnique` | main.js:152-196 | a grid laid out for a level from a given margin is unique: two such grids and counters are equal |
| `Breakout.CollidedDetermined` | main.js:359-415 | the collision phase (`Collided`) fixes its outcome: two outcomes from the same state agree on the stop and on every field, next level's grid included |
| `Breakout.SteppedDetermined` | main.js:328-416 | a sub-step (`Stepped`) fixes its outcome: two outcomes from the same in-play state agree on the stop and on every field |
| `Breakout.Game.constructor` | main.js:40-68 | the session loads valid, in Start, with 3 lives, score 0, base speed, the paddle at x = 350 on its line (main.js:43), a step length of 0.016 (main.js:309), level 1 laid out at margin 35 (every cell the built cell of its pattern value, the counter equal to the live count) and the ball on the paddle, so at (400, 451), as the build and reset at main.js:576-577 leave it |
| `Breakout.Game.BuildBricks` | main.js:152-196 | the current level is laid out: every cell is the built cell of its pattern value, the grid is well formed, and the counter is positive and equals the live count |
| `Breakout.Game.BuildGrid` | main.js:153-195 | the counter ends equal to the number of non-zero pattern cells, and the grid is laid out as BuildBricks states |
| `Breakout.Game.BuildCells` | main.js:168-195 | the grid has the level's rows, each of the level's columns, every cell the built cell of its pattern value, only live bricks of 1 or 2 hit points each in its own cell, and the counter equals both its live count and the level's number of non-zero cells |
| `Breakout.Game.BuildRow` | main.js:171-194 | one row: every cell the built cell of its pattern value, and the number placed equals the row's live count and its number of non-zero pattern cells |
| `Breakout.Game.ResetBallAndPaddle` | main.js:199-206 | the paddle is clamped back onto its line, and the ball sits centred above it heading straight up at unchanged speed |
| `Breakout.Game.StartGame` | main.js:216-226 | from any state: Playing, score 0, 3 lives, level 1 laid out from the previous margin, base speed, hit counter 0, paddle clamped back onto its line, ball on the paddle, invariant established |
| `Breakout.Game.NextLevel` | main.js:228-240 | the level index rises by one and score, lives and paddle are kept; past the last level the state is Win and the grid, its layout, the counter and the ball are unchanged; otherwise speed + 10 capped with the hit counter kept, the next level laid out, the ball on the paddle, Playing |
| `Breakout.Game.WinGame` | main.js:242-245 | the state becomes Win |
| `Breakout.Game.GameOver` | main.js:247-250 | the state becomes GameOver |
| `Breakout.Game.TogglePause` | main.js:252-259 | the new state is the toggled old state, and the invariant is kept |
| `Breakout.Game.HandleInput` | main.js:419-433 | the paddle becomes `Steered` of the old one: inside the world on its line; an active pointer centres it under the pointer; otherwise the keys move it by 600 x dt; no key and no pointer leaves it in place |
| `Breakout.Game.LoseLife` | main.js:348-357 | one life is lost and the paddle is kept; with lives left the ball is back on the paddle with its speed and hit counter, and play goes on; otherwise the state is GameOver and the ball is left where it fell |
| `Breakout.Game.MoveBall` | main.js:331-345 | the ball is moved and bounced off the walls as AfterMove specifies |
| `Breakout.Game.PaddleBounce` | main.js:360-377 | the ball becomes `PaddleBounced` of the old one: lifted above the paddle, the hit counter up by one, the speed follows HitSpeed, and the velocity is the aim direction for the landing point scaled by the speed |
| `Breakout.Game.ResolveBallBrickBounce` | main.js:276-305 | the new ball is the BounceOffBrick of the old one |
| `Breakout.Game.HitBrick` | main.js:392-403 | the state afterwards is the old grid with the struck cell replaced by its strike outcome, the score raised by the strike's points, the counter lowered only for a removed brick, and the ball bounced off the struck brick; the invariant is kept |
| `Breakout.Game.StrikeBrick` | main.js:392-401 | a brick with more than one hit point loses one and stays, +5; otherwise its cell empties, the counter drops by one, +10; no other cell changes; the returned brick has the struck brick's rectangle |
| `Breakout.Game.ScanBricks` | main.js:379-409 | on a Scan miss nothing changes; on a hit exactly that cell is struck as HitBrick states and the ball bounces; so at most one brick is touched. Equivalently grid, score and ball become `StruckGrid`, `StruckPoints` and `StruckBall` of the `BrickScan` hit |
| `Breakout.Game.ScanRow` | main.js:385-407 | over one in-grid row of the block: with no strike nothing changes and the scan result equals the scan from the next row; with a strike, exactly the scan's first struck cell is hit |
| `Breakout.Game.SubStep` | main.js:328-416 | the sub-step is `Stepped` from the old state: move and wall bounce (AfterMove); a ball strictly past the bottom is lost (`LostBall`: one life less, respawn on the paddle or GameOver with the ball where it fell, grid and layout kept) and the frame stops; otherwise the collision phase (`Collided`) from the moved ball. The invariant is kept, score and speed never drop, and SteppedDetermined shows the outcome is unique |
| `Breakout.Game.Collide` | main.js:359-415 | the phase is `Collided` from the old state: the ball is `PaddleBounced` exactly when it touches the paddle, else unchanged; the brick pass (`BrickScan`) runs from that ball and its points are scored; the frame stops exactly when the pass leaves no live brick. Without a stop, grid and ball are those the pass leaves and the layout is kept; with one the level index rises by one: Win with that grid, layout and ball after the last level, otherwise the next level laid out from the old margin and the ball on the paddle, 10 faster (capped). No life is lost; paddle and step length are kept |
| `Breakout.Game.HitPaddleAndBricks` | main.js:359-409 | the ball after the paddle phase is `PaddlePhase` of the old ball, and grid, score and ball are then `StruckGrid`, `StruckPoints` and `StruckBall` of the scan from that ball; score and speed never drop |
| `Breakout.Game.Update` | main.js:318-417 | the paddle is `Steered` by the input in every state; outside Playing nothing else changes and no sub-step runs. In Playing the trace runs from the steered state to the final one through 1 to Steps(speed) states, each the `Stepped` outcome of the one before with step dt / Steps(speed); only the last sub-step may stop, and fewer than Steps(speed) run only when it stopped, after a lost life or a level advance. A frame costs at most one life, gains at most one level, never lowers score or speed, Playing becomes only GameOver or Win, and the invariant is kept |

## Left out

- Rendering (`draw`, `darkenColor`), canvas sizing (`resizeCanvasCSS`) and the pause-button text (`updatePauseButton`): they only display state.
- The DOM event handlers (main.js:509-556) and `getCanvasRelativeX`. The held keys become the booleans `left` and `right` of `HandleInput`, and the pointer becomes `pointerActive` and `pointerX`. The handlers only start a game from Start, GameOver or Win and only pause from Playing or Paused; `StartGame` and `TogglePause` are modelled as callable in any state, as the functions themselves are.
- The frame driver (`loop`, `requestAnimationFrame`, `performance.now`): `dt` is a parameter of `Update`, between 0 and 0.033.
- The paddle bounce direction: `Math.sin`, `Math.cos` and `vecNormalize` are replaced by a parameter `aim` that maps the landing point to a direction.
- Breakout.Game.PaddleBounce: does not state that the direction is a unit vector within 75 degrees of vertical, because that needs trigonometry.
- `vecNormalize` is not modelled at all, and neither is the `resetBallAndPaddle(false)` branch that uses it: no caller passes `false`.
- Floating point: positions, velocities and sizes are exact reals, so rounding in the layout and in the collision test is not modelled. Ball speed is an integer, which it always is in the source.
- The `alive = false` write on a removed brick (main.js:397) goes to a brick no longer in the grid. Only the bounce reads that brick, and the bounce reads only its rectangle, so the write has no visible effect.
- The default palette used when a level has none (main.js:184): every level defines a palette.
- Breakout.Game.BuildBricks: states that the counter equals the grid's live count and is positive, but not that it equals the level's count of non-zero cells. That equality is stated on `BuildGrid`, whose level is a parameter; stating it for a known level makes the prover evaluate the whole pattern.
- Levels.LevelHoldsBricks: states only that each level has at least one brick, not the exact brick count per level.
