/**
  The game engine: one object holding the session (score, lives, level,
  state), the brick grid with its live-brick counter and layout, the ball
  and the paddle, with the operations the frame loop and the input handlers
  invoke on it.
*/
module Breakout {
  import opened Geometry
  import opened Bricks
  import opened Levels
  import opened Pacing
  import opened Motion

  datatype GameState = Start | Playing | Paused | GameOver | Win

  /** The paddle's top-left corner; its size is fixed. */
  datatype Paddle = Paddle(x: real, y: real)

  const PADDLE_W: real := 100.0
  const PADDLE_H: real := 16.0
  /** Keyboard paddle speed, in units per second. */
  const PADDLE_SPEED: real := 600.0
  const PADDLE_Y: real := HEIGHT - 40.0
  const START_LIVES: int := 3
  /** The frame driver never hands `Update` a longer frame than this. */
  const MAX_DT: real := 0.033

  /** What the pause control does to the state: Playing and Paused swap, other states stay. */
  function Toggled(s: GameState): (t: GameState)
    ensures (t == Playing || t == Paused) <==> (s == Playing || s == Paused)
  {
    match s
    case Playing => Paused
    case Paused => Playing
    case _ => s
  }

  /**
    The pause control changes the state exactly when a game is running or
    paused, and pressing it twice always gives back the state it started from.
  */
  lemma TogglePauseTwice(s: GameState)
    ensures Toggled(s) != s <==> s == Playing || s == Paused
    ensures Toggled(Toggled(s)) == s
  {
  }

  /**
    The paddle after one frame of input: the keys move it at PADDLE_SPEED
    (both or neither cancel out), an active pointer instead centres it under
    the pointer, and either way it is clamped inside the world.
  */
  function Steered(p: Paddle, dt: real, left: bool, right: bool, pointerActive: bool, pointerX: real): (q: Paddle)
    ensures q.y == p.y && 0.0 <= q.x <= WIDTH - PADDLE_W
    ensures pointerActive && PADDLE_W / 2.0 <= pointerX <= WIDTH - PADDLE_W / 2.0 ==> q.x + PADDLE_W / 2.0 == pointerX
    ensures !pointerActive && left == right && 0.0 <= p.x <= WIDTH - PADDLE_W ==> q == p
    ensures !pointerActive && left && !right && 0.0 <= p.x <= WIDTH - PADDLE_W && dt >= 0.0 ==> q.x <= p.x
    ensures !pointerActive && right && !left && 0.0 <= p.x <= WIDTH - PADDLE_W && dt >= 0.0 ==> q.x >= p.x
  {
    var move := (if right then 1.0 else 0.0) - (if left then 1.0 else 0.0);
    var x := if pointerActive then pointerX - PADDLE_W / 2.0 else p.x + move * PADDLE_SPEED * dt;
    Paddle(Clamp(x, 0.0, WIDTH - PADDLE_W), p.y)
  }

  /**
    The ball after touching paddle p: lifted just above it, the hit counted,
    the speed raised by HitSpeed, and sent off along `aim` of the landing
    point (-1 left end, 0 centre, 1 right end) at the new speed.
  */
  function PaddleBounced(b: Ball, p: Paddle, aim: real -> Vec): (r: Ball)
    ensures r.x == b.x && r.y + BALL_RADIUS < p.y
    ensures r.paddleHitCount == b.paddleHitCount + 1
    ensures b.speed <= MAX_SPEED ==> b.speed <= r.speed <= MAX_SPEED
    ensures (r.paddleHitCount % HITS_PER_SPEED_UP != 0 ==> r.speed == b.speed)
  {
    var dir := aim(Clamp((b.x - (p.x + PADDLE_W / 2.0)) / (PADDLE_W / 2.0), -1.0, 1.0));
    var hits := b.paddleHitCount + 1;
    var speed := HitSpeed(b.speed, hits);
    b.(y := p.y - BALL_RADIUS - 0.1, vx := dir.x * speed as real, vy := dir.y * speed as real,
       speed := speed, paddleHitCount := hits)
  }

  /** The paddle phase of a sub-step: the ball bounces exactly when it touches the paddle. */
  function PaddlePhase(b: Ball, p: Paddle, aim: real -> Vec): (r: Ball)
    ensures r.paddleHitCount == b.paddleHitCount + 1 <==> RectCircleCollide(p.x, p.y, PADDLE_W, PADDLE_H, b.x, b.y, BALL_RADIUS)
    ensures r.paddleHitCount == b.paddleHitCount || r.paddleHitCount == b.paddleHitCount + 1
    ensures r.x == b.x
  {
    if RectCircleCollide(p.x, p.y, PADDLE_W, PADDLE_H, b.x, b.y, BALL_RADIUS) then PaddleBounced(b, p, aim) else b
  }

  /** The brick pass's result for ball b over grid g laid out at margin `left` with pitch cellW x cellH. */
  function BrickScan(g: seq<seq<Cell>>, b: Ball, left: int, cellW: real, cellH: real): (hit: Hit)
    requires cellW > 0.0 && cellH > 0.0
    ensures hit.HitAt? ==>
              && HitsBrick(g, hit) && g[hit.r][hit.c].brick.alive
              && var k := g[hit.r][hit.c].brick;
                 RectCircleCollide(k.x, k.y, k.w, k.h, b.x, b.y, BALL_RADIUS)
  {
    Scan(g, CellIndex(b.y, BRICK_OFFSET_TOP, cellH), CellIndex(b.x, left as real, cellW), b.x, b.y, BALL_RADIUS)
  }

  /** The brick the pass strikes lies in a cell within one row and one column of the ball's cell. */
  lemma BrickScanNearBall(g: seq<seq<Cell>>, b: Ball, left: int, cellW: real, cellH: real)
    requires cellW > 0.0 && cellH > 0.0
    ensures var hit := BrickScan(g, b, left, cellW, cellH);
            hit.HitAt? ==> WithinOneCell(hit.r, hit.c, b.y - BRICK_OFFSET_TOP, b.x - left as real, cellH, cellW)
  {
    var row := CellIndex(b.y, BRICK_OFFSET_TOP, cellH);
    var col := CellIndex(b.x, left as real, cellW);
    HitNearBall(row, col, Scan(g, row, col, b.x, b.y, BALL_RADIUS), b.y - BRICK_OFFSET_TOP, b.x - left as real, cellH, cellW);
  }

  /**
    On a grid whose bricks sit in their cells (Placed), with the engine's
    brick and pitch sizes, the ball touches no brick outside the 3x3 block
    around its own cell: such a brick is two or more cells away along one
    axis, and the gap exceeds the ball's radius.
  */
  lemma OutsideBlockMisses(g: seq<seq<Cell>>, b: Ball, left: int, brickW: real, cellW: real, cellH: real, r: int, c: int)
    requires brickW >= MIN_BRICK_W && cellW == brickW + BRICK_PADDING && cellH == BRICK_H + BRICK_PADDING
    requires Placed(g, left, brickW, cellW, cellH)
    ensures !InNeighbourhood(CellIndex(b.y, BRICK_OFFSET_TOP, cellH), CellIndex(b.x, left as real, cellW), r, c) ==>
              !Struck(g, r, c, b.x, b.y, BALL_RADIUS)
  {
    var row := CellIndex(b.y, BRICK_OFFSET_TOP, cellH);
    var col := CellIndex(b.x, left as real, cellW);
    if !InNeighbourhood(row, col, r, c) && 0 <= r < |g| && 0 <= c < |g[r]| && g[r][c].Occupied? {
      var k := g[r][c].brick;
      if r < row - 1 || row + 1 < r {
        FarCellClear(row, r, b.y - BRICK_OFFSET_TOP, cellH, BRICK_H, BALL_RADIUS);
      } else {
        FarCellClear(col, c, b.x - left as real, cellW, brickW, BALL_RADIUS);
      }
      SeparatedMisses(k.x, k.y, k.w, k.h, b.x, b.y, BALL_RADIUS);
    }
  }

  /**
    Scanning the 3x3 block loses nothing on such a grid: the pass misses
    exactly when the ball touches no brick anywhere in the grid, and a hit is
    the first brick of the whole grid, in row-major order, that it touches.
  */
  lemma BrickScanFindsFirst(g: seq<seq<Cell>>, b: Ball, left: int, brickW: real, cellW: real, cellH: real)
    requires brickW >= MIN_BRICK_W && cellW == brickW + BRICK_PADDING && cellH == BRICK_H + BRICK_PADDING
    requires Placed(g, left, brickW, cellW, cellH)
    ensures var hit := BrickScan(g, b, left, cellW, cellH);
            && (hit.Miss? <==> forall r, c :: !Struck(g, r, c, b.x, b.y, BALL_RADIUS))
            && (hit.HitAt? ==> forall r, c | Before(r, c, hit.r, hit.c) :: !Struck(g, r, c, b.x, b.y, BALL_RADIUS))
  {
    forall r, c
      ensures !InNeighbourhood(CellIndex(b.y, BRICK_OFFSET_TOP, cellH), CellIndex(b.x, left as real, cellW), r, c) ==>
                !Struck(g, r, c, b.x, b.y, BALL_RADIUS)
    {
      OutsideBlockMisses(g, b, left, brickW, cellW, cellH, r, c);
    }
  }

  /** `hit` names a cell of g holding a brick. */
  predicate HitsBrick(g: seq<seq<Cell>>, hit: Hit)
  {
    hit.HitAt? && 0 <= hit.r < |g| && 0 <= hit.c < |g[hit.r]| && g[hit.r][hit.c].Occupied?
  }

  /** The grid after the brick pass: the hit brick struck, or g itself on a miss. */
  function StruckGrid(g: seq<seq<Cell>>, hit: Hit): seq<seq<Cell>>
  {
    if HitsBrick(g, hit) then g[hit.r := g[hit.r][hit.c := Strike(g[hit.r][hit.c].brick)]] else g
  }

  /** The points the brick pass scores: those of the strike, or none on a miss. */
  function StruckPoints(g: seq<seq<Cell>>, hit: Hit): int
  {
    if HitsBrick(g, hit) then StrikePoints(g[hit.r][hit.c].brick) else 0
  }

  /** The ball after the brick pass: bounced off the hit brick, or unchanged on a miss. */
  function StruckBall(b: Ball, g: seq<seq<Cell>>, hit: Hit, stepDt: real): Ball
  {
    if HitsBrick(g, hit) then BounceOffBrick(b, g[hit.r][hit.c].brick, stepDt) else b
  }

  /**
    The brick pass keeps a grid well formed and lowers its live count by one
    exactly when it removes a brick. So a grid holding bricks is cleared by a
    pass only when its last brick, on its last hit point, is struck.
  */
  lemma {:induction false} StruckGridCount(g: seq<seq<Cell>>, rows: int, cols: int, hit: Hit)
    requires WellFormedGrid(g, rows, cols)
    ensures WellFormedGrid(StruckGrid(g, hit), rows, cols)
    ensures CountLive(StruckGrid(g, hit)) ==
              CountLive(g) - (if HitsBrick(g, hit) && g[hit.r][hit.c].brick.hp <= 1 then 1 else 0)
    ensures CountLive(g) >= 1 && CountLive(StruckGrid(g, hit)) == 0 ==>
              CountLive(g) == 1 && HitsBrick(g, hit) && g[hit.r][hit.c].brick.hp == 1
  {
    if HitsBrick(g, hit) {
      StrikeKeepsGrid(g, rows, cols, hit.r, hit.c);
    }
  }

  /** Ball b sits just above the centre of paddle p and heads straight up at its speed. */
  predicate OnPaddle(b: Ball, p: Paddle)
  {
    && b.x == p.x + PADDLE_W / 2.0
    && b.y == p.y - BALL_RADIUS - 1.0
    && b.vx == 0.0
    && b.vy == -(b.speed as real)
  }

  /**
    A grid and its layout are those of `level`, laid out from a previous
    left margin of `left0`: bricks sized to fill the space between two such
    margins, the grid re-centred at `left`, every cell built from the
    pattern (empty for 0; a live brick with 2 hit points for 2 and 1 hit
    point otherwise) and the counter holding the number of bricks placed.
  */
  ghost predicate GridLaidOut(level: Level, left0: int, rows: int, cols: int, brickW: real, cellW: real, cellH: real,
                              left: int, bricks: seq<seq<Cell>>, remaining: int)
    requires Playable(level)
  {
    && rows == level.rows && cols == level.cols
    && brickW == BrickWidth(left0, level.cols)
    && cellW == brickW + BRICK_PADDING && cellH == BRICK_H + BRICK_PADDING
    && left == CentredLeft(level.cols, brickW)
    && WellFormedGrid(bricks, rows, cols) && Placed(bricks, left, brickW, cellW, cellH)
    && (forall r, c :: 0 <= r < rows && 0 <= c < cols ==>
          bricks[r][c] == BuiltCell(level, r, c, left, brickW))
    && remaining == CountLive(bricks)
  }

  /** The engine's fields at one instant, for stating what a sub-step or a frame does. */
  datatype Snap = Snap(score: int, lives: int, levelIndex: int, state: GameState,
                       bricks: seq<seq<Cell>>, bricksRemaining: int,
                       brickRows: int, brickCols: int, brickW: real, brickOffsetLeft: int, cellW: real, cellH: real,
                       ball: Ball, paddle: Paddle, lastStepDt: real)

  /** Two snapshots have the same grid layout (shape, brick size, pitch and margin). */
  predicate SameLayout(s: Snap, t: Snap)
  {
    && t.brickRows == s.brickRows && t.brickCols == s.brickCols && t.brickW == s.brickW
    && t.cellW == s.cellW && t.cellH == s.cellH && t.brickOffsetLeft == s.brickOffsetLeft
  }

  /**
    From s to t the ball was lost: one life less, score, level, grid, layout
    and paddle kept. With lives left play goes on with the ball back on the
    paddle at its speed and hit count; otherwise the game is over and the
    ball stays where it fell.
  */
  predicate LostBall(s: Snap, t: Snap)
  {
    && t.lives == s.lives - 1
    && t.score == s.score && t.levelIndex == s.levelIndex
    && t.bricks == s.bricks && t.bricksRemaining == s.bricksRemaining && SameLayout(s, t)
    && t.paddle == s.paddle
    && (t.lives > 0 ==>
          && t.state == Playing && OnPaddle(t.ball, t.paddle)
          && t.ball.speed == s.ball.speed && t.ball.paddleHitCount == s.ball.paddleHitCount)
    && (t.lives <= 0 ==> t.state == GameState.GameOver && t.ball == s.ball)
  }

  /**
    From s to t ran the collision phase of a sub-step. The ball first meets
    the paddle (PaddlePhase), then the brick pass runs from that ball
    (BrickScan): the struck brick's points are scored, and the frame stops
    exactly when the pass leaves no live brick. Without a stop the grid and
    ball are those the pass leaves and the layout is kept. With one the
    level advances: past the last level the game is won with that grid,
    layout and ball; otherwise the next level is laid out from the old
    margin and the ball, 10 faster (capped), waits on the paddle. Lives, the
    paddle and the step length are kept throughout.
  */
  ghost predicate Collided(s: Snap, t: Snap, aim: real -> Vec, stop: bool)
  {
    && s.cellW > 0.0 && s.cellH > 0.0
    && var b1 := PaddlePhase(s.ball, s.paddle, aim);
       var hit := BrickScan(s.bricks, b1, s.brickOffsetLeft, s.cellW, s.cellH);
       var g1 := StruckGrid(s.bricks, hit);
       var b2 := StruckBall(b1, s.bricks, hit, s.lastStepDt);
       && t.score == s.score + StruckPoints(s.bricks, hit)
       && t.lives == s.lives && t.paddle == s.paddle && t.lastStepDt == s.lastStepDt
       && (stop <==> CountLive(g1) == 0)
       && (!stop ==>
             && t.state == Playing && t.levelIndex == s.levelIndex
             && t.bricks == g1 && t.bricksRemaining == CountLive(g1) && t.ball == b2 && SameLayout(s, t))
       && (stop ==> t.levelIndex == s.levelIndex + 1)
       && (stop && t.levelIndex == LEVEL_COUNT ==>
             && t.state == Win
             && t.bricks == g1 && t.bricksRemaining == CountLive(g1) && t.ball == b2 && SameLayout(s, t))
       && (stop && t.levelIndex < LEVEL_COUNT ==>
             && t.state == Playing && OnPaddle(t.ball, t.paddle)
             && t.ball.speed == Min(MAX_SPEED, b2.speed + LEVEL_SPEED_UP)
             && t.ball.paddleHitCount == b2.paddleHitCount
             && 0 <= t.levelIndex < |LEVELS| && Playable(LEVELS[t.levelIndex])
             && GridLaidOut(LEVELS[t.levelIndex], s.brickOffsetLeft, t.brickRows, t.brickCols, t.brickW,
                            t.cellW, t.cellH, t.brickOffsetLeft, t.bricks, t.bricksRemaining))
  }

  /**
    From s to t ran one sub-step of length stepDt: the ball moves and
    bounces off the walls (AfterMove); if it is then past the bottom the
    ball is lost and the frame stops (LostBall); otherwise the collision
    phase runs from the moved ball (Collided).
  */
  ghost predicate Stepped(s: Snap, t: Snap, stepDt: real, aim: real -> Vec, stop: bool)
  {
    var moved := AfterMove(s.ball, stepDt);
    && t.lastStepDt == stepDt
    && (moved.y - BALL_RADIUS > HEIGHT ==> stop && LostBall(s.(ball := moved), t))
    && (moved.y - BALL_RADIUS <= HEIGHT ==> Collided(s.(ball := moved, lastStepDt := stepDt), t, aim, stop))
  }

  /** A laid-out grid is determined by its level, its old margin and its layout. */
  lemma {:induction false} LaidOutUnique(level: Level, left0: int, rows: int, cols: int, brickW: real, cellW: real,
                                         cellH: real, left: int, g1: seq<seq<Cell>>, n1: int, g2: seq<seq<Cell>>, n2: int)
    requires Playable(level)
    requires GridLaidOut(level, left0, rows, cols, brickW, cellW, cellH, left, g1, n1)
    requires GridLaidOut(level, left0, rows, cols, brickW, cellW, cellH, left, g2, n2)
    ensures g1 == g2 && n1 == n2
  {
    forall r | 0 <= r < rows
      ensures g1[r] == g2[r]
    {
      assert forall c | 0 <= c < cols :: g1[r][c] == g2[r][c];
    }
  }

  /**
    The collision phase's outcome is determined: from a state whose level
    is still in play, two outcomes agree on whether the frame stops and on
    every field, the next level's grid included.
  */
  lemma CollidedDetermined(s: Snap, t1: Snap, t2: Snap, aim: real -> Vec, stop1: bool, stop2: bool)
    requires s.levelIndex < LEVEL_COUNT
    requires Collided(s, t1, aim, stop1) && Collided(s, t2, aim, stop2)
    ensures stop1 == stop2 && t1 == t2
  {
    if stop1 && t1.levelIndex < LEVEL_COUNT {
      LaidOutUnique(LEVELS[t1.levelIndex], s.brickOffsetLeft, t1.brickRows, t1.brickCols, t1.brickW, t1.cellW,
                    t1.cellH, t1.brickOffsetLeft, t1.bricks, t1.bricksRemaining, t2.bricks, t2.bricksRemaining);
    }
  }

  /**
    A sub-step's outcome is determined: from a state whose level is still in
    play, two outcomes of the same sub-step agree on whether the frame stops
    and on every field. So the contract of a sub-step fixes its result.
  */
  lemma SteppedDetermined(s: Snap, t1: Snap, t2: Snap, stepDt: real, aim: real -> Vec, stop1: bool, stop2: bool)
    requires s.levelIndex < LEVEL_COUNT
    requires Stepped(s, t1, stepDt, aim, stop1) && Stepped(s, t2, stepDt, aim, stop2)
    ensures stop1 == stop2 && t1 == t2
  {
    var moved := AfterMove(s.ball, stepDt);
    if moved.y - BALL_RADIUS <= HEIGHT {
      CollidedDetermined(s.(ball := moved, lastStepDt := stepDt), t1, t2, aim, stop1, stop2);
    }
  }

  class Game {
    var score: int
    var lives: int
    var levelIndex: int
    var state: GameState

    /** `bricks[r][c]` is the brick at row r, column c, or Empty. */
    var bricks: seq<seq<Cell>>
    var bricksRemaining: int
    var brickRows: int
    var brickCols: int
    var brickW: real
    /** Left margin of the grid: sizes the bricks, then is re-centred on every build. */
    var brickOffsetLeft: int
    /** Grid pitch (brick plus padding), used to find the cell under the ball. */
    var cellW: real
    var cellH: real

    var ball: Ball
    var paddle: Paddle
    /** Length of the sub-step in progress; the bounce looks back over it. */
    var lastStepDt: real

    /**
      The invariant every operation keeps. The level index runs up to the
      number of levels and reaches it exactly in Win; lives run down to 0
      exactly in GameOver; the speed stays within [BASE_SPEED, MAX_SPEED];
      the paddle stays on its line inside the world; the grid has the
      declared shape, holds only live bricks with 1 or 2 hit points, each
      in its own cell of the layout, and the counter agrees with it.
    */
    ghost predicate WellFormed()
      reads this
    {
      SessionOK() && BallOK() && PaddleOK() && GridOK()
    }

    /** The session part of WellFormed: level index, state, lives and score. */
    ghost predicate SessionOK()
      reads this`levelIndex, this`state, this`lives, this`score
    {
      && 0 <= levelIndex <= LEVEL_COUNT
      && (state == Win <==> levelIndex == LEVEL_COUNT)
      && 0 <= lives <= START_LIVES
      && (state == GameState.GameOver <==> lives == 0)
      && score >= 0
    }

    /** The ball part of WellFormed: speed within bounds, hit counter not negative. */
    ghost predicate BallOK()
      reads this`ball
    {
      BASE_SPEED <= ball.speed <= MAX_SPEED && ball.paddleHitCount >= 0
    }

    /** The paddle part of WellFormed: on its line, inside the world. */
    ghost predicate PaddleOK()
      reads this`paddle
    {
      paddle.y == PADDLE_Y && 0.0 <= paddle.x <= WIDTH - PADDLE_W
    }

    /** The grid part of WellFormed: layout bounds, grid shape and contents, brick placement, counter. */
    ghost predicate GridOK()
      reads this`brickRows, this`brickCols, this`brickW, this`cellW, this`cellH,
            this`brickOffsetLeft, this`bricks, this`bricksRemaining
    {
      && brickCols >= 1
      && brickW >= MIN_BRICK_W && cellW == brickW + BRICK_PADDING && cellH == BRICK_H + BRICK_PADDING
      && brickOffsetLeft >= MIN_OFFSET_LEFT
      && WellFormedGrid(bricks, brickRows, brickCols)
      && Placed(bricks, brickOffsetLeft, brickW, cellW, cellH)
      && bricksRemaining == CountLive(bricks)
    }

    /** Between frames, only a won game has an empty grid. */
    ghost predicate Valid()
      reads this
    {
      WellFormed() && (state != Win ==> bricksRemaining >= 1)
    }

    /** The ball sits just above the centre of the paddle and heads straight up at its speed. */
    ghost predicate BallOnPaddle()
      reads this
    {
      OnPaddle(ball, paddle)
    }

    /** The engine's fields as one value. */
    ghost function Snapshot(): Snap
      reads this
    {
      Snap(score, lives, levelIndex, state, bricks, bricksRemaining,
           brickRows, brickCols, brickW, brickOffsetLeft, cellW, cellH, ball, paddle, lastStepDt)
    }

    /** The session as the page loads: level 1 laid out behind the start screen. */
    constructor ()
      ensures Valid()
      ensures state == Start && score == 0 && lives == START_LIVES && levelIndex == 0
      ensures paddle == Paddle(WIDTH / 2.0 - 50.0, PADDLE_Y) && lastStepDt == 0.016
      ensures ball.speed == BASE_SPEED && ball.paddleHitCount == 0
      ensures brickOffsetLeft == INITIAL_OFFSET_LEFT
      ensures Playable(LEVELS[0]) && LaidOut(LEVELS[0], INITIAL_OFFSET_LEFT)
      ensures BallOnPaddle()
    {
      score := 0;
      lives := START_LIVES;
      levelIndex := 0;
      state := Start;
      bricks := [];
      bricksRemaining := 0;
      brickRows := 0;
      brickCols := 0;
      brickW := 64.0;
      brickOffsetLeft := INITIAL_OFFSET_LEFT;
      cellW := 0.0;
      cellH := 0.0;
      paddle := Paddle(WIDTH / 2.0 - 50.0, PADDLE_Y);
      ball := Ball(WIDTH / 2.0, HEIGHT / 2.0, 220.0, -220.0, BASE_SPEED, 0);
      lastStepDt := 0.016;
      new;
      BuildBricks();
      MarginStaysPut();
      ResetBallAndPaddle();
    }

    /**
      The grid and its layout are those of `level`, laid out from a previous
      left margin of `left0` (see GridLaidOut).
    */
    ghost predicate LaidOut(level: Level, left0: int)
      requires Playable(level)
      reads this`brickRows, this`brickCols, this`brickW, this`cellW, this`cellH,
            this`brickOffsetLeft, this`bricks, this`bricksRemaining
    {
      GridLaidOut(level, left0, brickRows, brickCols, brickW, cellW, cellH, brickOffsetLeft, bricks, bricksRemaining)
    }

    /**
      Lays out the current level (see LaidOut); every level holds at least
      one brick, so the counter starts positive.
    */
    method BuildBricks()
      requires 0 <= levelIndex < LEVEL_COUNT
      modifies this`brickRows, this`brickCols, this`brickW, this`cellW, this`cellH,
               this`brickOffsetLeft, this`bricks, this`bricksRemaining
      ensures Playable(LEVELS[levelIndex]) && LaidOut(LEVELS[levelIndex], old(brickOffsetLeft))
      ensures GridOK() && bricksRemaining >= 1
    {
      LevelCount();
      LevelsPlayable();
      LevelHoldsBricks(levelIndex);
      BuildGrid(LEVELS[levelIndex]);
    }

    /** The body of BuildBricks, for the level it has looked up. */
    method BuildGrid(level: Level)
      requires Playable(level)
      modifies this`brickRows, this`brickCols, this`brickW, this`cellW, this`cellH,
               this`brickOffsetLeft, this`bricks, this`bricksRemaining
      ensures LaidOut(level, old(brickOffsetLeft))
      ensures bricksRemaining == BrickCount(level)
    {
      brickRows := level.rows;
      brickCols := level.cols;
      brickW := BrickWidth(brickOffsetLeft, brickCols);
      cellW := brickW + BRICK_PADDING;
      cellH := BRICK_H + BRICK_PADDING;
      brickOffsetLeft := CentredLeft(brickCols, brickW);

      bricks, bricksRemaining := BuildCells(level, brickOffsetLeft, brickW);
    }

    /**
      The two loops of BuildBricks: the level's grid row by row, with the
      number of bricks placed, for margin `left` and brick width `w`.
    */
    static method BuildCells(level: Level, left: int, w: real) returns (grid: seq<seq<Cell>>, count: int)
      requires Playable(level)
      ensures |grid| == level.rows && BuiltRows(grid, level, level.cols, left, w)
      ensures WellFormedGrid(grid, level.rows, level.cols)
      ensures Placed(grid, left, w, w + BRICK_PADDING, BRICK_H + BRICK_PADDING)
      ensures count == CountLive(grid) == BrickCount(level)
    {
      grid := [];
      count := 0;
      for r := 0 to level.rows
        invariant |grid| == r
        invariant BuiltRows(grid, level, level.cols, left, w)
        invariant count == CountLive(grid) == NonZeroUpTo(level, r)
      {
        var row, placed := BuildRow(level, r, level.cols, left, w);
        AppendBuiltRow(grid, row, level, level.cols, left, w);
        grid := grid + [row];
        count := count + placed;
      }
      BuiltRowsWellFormed(grid, level, level.cols, left, w);
    }

    /**
      The inner loop of BuildBricks: row r of `level`, cell by cell, and the
      number of bricks placed in it.
    */
    static method BuildRow(level: Level, r: int, cols: int, left: int, w: real) returns (row: seq<Cell>, placed: int)
      requires Playable(level) && cols >= 0
      ensures |row| == cols
      ensures forall j :: 0 <= j < cols ==> row[j] == BuiltCell(level, r, j, left, w)
      ensures placed == CountRow(row) == NonZeroInRow(level, r, cols)
    {
      row := [];
      placed := 0;
      for c := 0 to cols
        invariant |row| == c
        invariant forall j :: 0 <= j < c ==> row[j] == BuiltCell(level, r, j, left, w)
        invariant placed == CountRow(row) == NonZeroInRow(level, r, c)
      {
        // the brick for this pattern cell, or Empty for a 0 cell
        var built := BuiltCell(level, r, c, left, w);
        if built.Occupied? {
          placed := placed + 1;
        }
        var prev := row;
        row := row + [built];
        assert row[..c] == prev && row[c] == built;
      }
    }

    /** Puts the paddle back inside the world on its line and the ball on the paddle, keeping its speed. */
    method ResetBallAndPaddle()
      modifies this`paddle, this`ball
      ensures paddle == Paddle(Clamp(old(paddle).x, 0.0, WIDTH - PADDLE_W), PADDLE_Y)
      ensures BallOnPaddle()
      ensures ball.speed == old(ball).speed && ball.paddleHitCount == old(ball).paddleHitCount
    {
      paddle := paddle.(x := Clamp(paddle.x, 0.0, WIDTH - PADDLE_W));
      paddle := paddle.(y := PADDLE_Y);
      ball := ball.(x := paddle.x + PADDLE_W / 2.0);
      ball := ball.(y := paddle.y - BALL_RADIUS - 1.0);
      ball := ball.(vx := 0.0);
      ball := ball.(vy := -(ball.speed as real));
    }

    /**
      A fresh game from level 1: score 0, three lives, base speed, hit
      counter cleared, level 1 laid out and the ball on the paddle. It can be
      started from any state.
    */
    method StartGame()
      modifies this
      ensures Valid()
      ensures state == Playing && score == 0 && lives == START_LIVES && levelIndex == 0
      ensures ball.speed == BASE_SPEED && ball.paddleHitCount == 0
      ensures Playable(LEVELS[0]) && LaidOut(LEVELS[0], old(brickOffsetLeft))
      ensures paddle == Paddle(Clamp(old(paddle).x, 0.0, WIDTH - PADDLE_W), PADDLE_Y)
      ensures BallOnPaddle()
    {
      score := 0;
      lives := START_LIVES;
      levelIndex := 0;
      ball := ball.(speed := BASE_SPEED, paddleHitCount := 0);
      BuildBricks();
      ResetBallAndPaddle();
      state := Playing;
    }

    method WinGame()
      modifies this`state
      ensures state == Win
    {
      state := Win;
    }

    method GameOver()
      modifies this`state
      ensures state == GameState.GameOver
    {
      state := GameState.GameOver;
    }

    /**
      Advances to the next level. Past the last level the game is won and
      nothing else changes; otherwise the ball gets 10 faster (capped), the
      next level is laid out and play resumes with the ball on the paddle.
    */
    method NextLevel()
      requires WellFormed() && state == Playing
      modifies this`levelIndex, this`state, this`ball, this`paddle,
               this`brickRows, this`brickCols, this`brickW, this`cellW, this`cellH,
               this`brickOffsetLeft, this`bricks, this`bricksRemaining
      ensures Valid()
      ensures levelIndex == old(levelIndex) + 1
      ensures score == old(score) && lives == old(lives) && paddle == old(paddle)
      ensures levelIndex == LEVEL_COUNT ==>
                && state == Win
                && bricks == old(bricks) && bricksRemaining == old(bricksRemaining)
                && brickRows == old(brickRows) && brickCols == old(brickCols) && brickW == old(brickW)
                && cellW == old(cellW) && cellH == old(cellH) && brickOffsetLeft == old(brickOffsetLeft)
                && ball == old(ball)
      ensures levelIndex < LEVEL_COUNT ==>
                && state == Playing
                && ball.speed == Min(MAX_SPEED, old(ball).speed + LEVEL_SPEED_UP)
                && ball.paddleHitCount == old(ball).paddleHitCount
                && LaidOut(LEVELS[levelIndex], old(brickOffsetLeft))
                && BallOnPaddle()
    {
      levelIndex := levelIndex + 1;
      if levelIndex >= LEVEL_COUNT {
        WinGame();
        return;
      }
      ball := ball.(speed := Min(MAX_SPEED, ball.speed + LEVEL_SPEED_UP));
      BuildBricks();
      ResetBallAndPaddle();
      state := Playing;
    }

    /** Pause and resume: Playing and Paused swap, every other state is left alone. */
    method TogglePause()
      requires Valid()
      modifies this`state
      ensures Valid()
      ensures state == Toggled(old(state))
    {
      if state == Playing {
        state := Paused;
      } else if state == Paused {
        state := Playing;
      }
    }

    /**
      Paddle control for one frame. The keys move the paddle at PADDLE_SPEED
      (both or neither cancel out); an active pointer instead centres the
      paddle under it; either way the paddle is then clamped inside the world.
    */
    method HandleInput(dt: real, left: bool, right: bool, pointerActive: bool, pointerX: real)
      modifies this`paddle
      ensures paddle == Steered(old(paddle), dt, left, right, pointerActive, pointerX)
      ensures paddle.y == old(paddle).y
      ensures 0.0 <= paddle.x <= WIDTH - PADDLE_W
      ensures pointerActive ==> paddle.x == Clamp(pointerX - PADDLE_W / 2.0, 0.0, WIDTH - PADDLE_W)
      ensures !pointerActive ==>
                var move := (if right then 1.0 else 0.0) - (if left then 1.0 else 0.0);
                paddle.x == Clamp(old(paddle).x + move * PADDLE_SPEED * dt, 0.0, WIDTH - PADDLE_W)
      ensures !pointerActive && left == right && 0.0 <= old(paddle).x <= WIDTH - PADDLE_W ==>
                paddle == old(paddle)
    {
      var move := 0.0;
      if left {
        move := move - 1.0;
      }
      if right {
        move := move + 1.0;
      }
      if move != 0.0 {
        paddle := paddle.(x := paddle.x + move * PADDLE_SPEED * dt);
      }
      if pointerActive {
        var targetX := pointerX - PADDLE_W / 2.0;
        paddle := paddle.(x := targetX);
      }
      paddle := paddle.(x := Clamp(paddle.x, 0.0, WIDTH - PADDLE_W));
    }

    /**
      The ball fell past the bottom: one life is lost; with lives left the
      ball goes back on the paddle and play goes on, otherwise the game is over.
    */
    method LoseLife()
      requires WellFormed() && state == Playing
      modifies this`lives, this`state, this`paddle, this`ball
      ensures WellFormed()
      ensures lives == old(lives) - 1 && paddle == old(paddle)
      ensures lives > 0 ==>
                && state == Playing && BallOnPaddle()
                && ball.speed == old(ball).speed && ball.paddleHitCount == old(ball).paddleHitCount
      ensures lives == 0 ==> state == GameState.GameOver && ball == old(ball)
    {
      lives := lives - 1;
      if lives > 0 {
        ResetBallAndPaddle();
        state := Playing;
      } else {
        GameOver();
      }
    }

    /** Moves the ball for one sub-step and reflects it off the side and top walls. */
    method MoveBall(stepDt: real)
      modifies this`ball
      ensures ball == AfterMove(old(ball), stepDt)
    {
      ball := ball.(x := ball.x + ball.vx * stepDt);
      ball := ball.(y := ball.y + ball.vy * stepDt);
      if ball.x - BALL_RADIUS < 0.0 {
        ball := ball.(x := BALL_RADIUS, vx := Abs(ball.vx));
      } else if ball.x + BALL_RADIUS > WIDTH {
        ball := ball.(x := WIDTH - BALL_RADIUS, vx := -Abs(ball.vx));
      }
      if ball.y - BALL_RADIUS < 0.0 {
        ball := ball.(y := BALL_RADIUS, vy := Abs(ball.vy));
      }
    }

    /**
      The ball touched the paddle: it is lifted just above the paddle and
      sent off along `aim(rel)`, where rel in [-1, 1] says where on the
      paddle it landed (-1 left end, 0 centre, 1 right end); the hit is
      counted, and every fifth hit speeds the ball up by 20, capped.
    */
    method PaddleBounce(aim: real -> Vec)
      requires WellFormed()
      modifies this`ball
      ensures WellFormed()
      ensures ball == PaddleBounced(old(ball), paddle, aim)
      ensures ball.x == old(ball).x && ball.y == paddle.y - BALL_RADIUS - 0.1
      ensures ball.paddleHitCount == old(ball).paddleHitCount + 1
      ensures ball.speed == HitSpeed(old(ball).speed, ball.paddleHitCount)
      ensures var dir := aim(Clamp((old(ball).x - (paddle.x + PADDLE_W / 2.0)) / (PADDLE_W / 2.0), -1.0, 1.0));
              ball.vx == dir.x * ball.speed as real && ball.vy == dir.y * ball.speed as real
    {
      ball := ball.(y := paddle.y - BALL_RADIUS - 0.1);
      var paddleCenter := paddle.x + PADDLE_W / 2.0;
      var rel := Clamp((ball.x - paddleCenter) / (PADDLE_W / 2.0), -1.0, 1.0);
      var dir := aim(rel);
      ball := ball.(paddleHitCount := ball.paddleHitCount + 1);
      if ball.paddleHitCount % HITS_PER_SPEED_UP == 0 {
        ball := ball.(speed := Min(MAX_SPEED, ball.speed + HIT_SPEED_UP));
      }
      ball := ball.(vx := dir.x * ball.speed as real, vy := dir.y * ball.speed as real);
    }

    /** Reverses the ball's velocity along the axis it most plausibly struck `brick` on. */
    method ResolveBallBrickBounce(brick: Brick)
      modifies this`ball
      ensures ball == BounceOffBrick(old(ball), brick, lastStepDt)
    {
      var prevX := ball.x - ball.vx * lastStepDt;
      var prevY := ball.y - ball.vy * lastStepDt;
      var wasAbove := prevY <= brick.y;
      var wasBelow := prevY >= brick.y + brick.h;
      var wasLeft := prevX <= brick.x;
      var wasRight := prevX >= brick.x + brick.w;

      var invertX := false;
      var invertY := false;
      if (wasAbove && ball.vy > 0.0) || (wasBelow && ball.vy < 0.0) {
        invertY := true;
      }
      if (wasLeft && ball.vx > 0.0) || (wasRight && ball.vx < 0.0) {
        invertX := true;
      }
      if invertX && invertY {
        // ambiguous corner: keep the ball in play with a vertical bounce
        invertX := false;
      }
      if invertY {
        ball := ball.(vy := -ball.vy);
      } else if invertX {
        ball := ball.(vx := -ball.vx);
      } else {
        ball := ball.(vy := -ball.vy);
      }
    }

    /**
      The ball struck the live brick at (r, c): the brick takes the hit (see
      StrikeBrick) and the ball then bounces off it.
    */
    method HitBrick(r: int, c: int)
      requires WellFormed()
      requires 0 <= r < brickRows && 0 <= c < brickCols && bricks[r][c].Occupied?
      modifies this`bricks, this`bricksRemaining, this`score, this`ball
      ensures WellFormed()
      ensures StrikeApplied(HitAt(r, c), old(bricks), old(ball), old(score), old(bricksRemaining))
    {
      var brick := StrikeBrick(r, c);
      BounceReadsGeometryOnly(ball, brick, old(bricks)[r][c].brick, lastStepDt);
      ResolveBallBrickBounce(brick);
    }

    /**
      The grid and score side of a hit on the live brick at (r, c): a brick
      with hit points to spare loses one and stays, scoring 5; a brick on its
      last hit point is removed and the counter drops by one, scoring 10. No
      other cell changes. The brick returned, the one the ball bounces off,
      has the struck brick's rectangle.
    */
    method StrikeBrick(r: int, c: int) returns (brick: Brick)
      requires WellFormed()
      requires 0 <= r < brickRows && 0 <= c < brickCols && bricks[r][c].Occupied?
      modifies this`bricks, this`bricksRemaining, this`score
      ensures WellFormed()
      ensures var b := old(bricks)[r][c].brick;
              && bricks == old(bricks)[r := old(bricks)[r][c := Strike(b)]]
              && score == old(score) + StrikePoints(b)
              && bricksRemaining == old(bricksRemaining) - (if b.hp > 1 then 0 else 1)
              && brick.x == b.x && brick.y == b.y && brick.w == b.w && brick.h == b.h
      ensures var b := old(bricks)[r][c].brick;
              && (b.hp > 1 ==>
                    && bricks[r][c].Occupied? && bricks[r][c].brick == b.(hp := b.hp - 1)
                    && score == old(score) + 5 && bricksRemaining == old(bricksRemaining))
              && (b.hp <= 1 ==>
                    && bricks[r][c].Empty?
                    && score == old(score) + 10 && bricksRemaining == old(bricksRemaining) - 1)
      ensures forall r', c' | 0 <= r' < brickRows && 0 <= c' < brickCols && (r', c') != (r, c) ::
                bricks[r'][c'] == old(bricks)[r'][c']
    {
      brick := bricks[r][c].brick;
      StrikeKeepsGrid(bricks, brickRows, brickCols, r, c);
      StrikeKeepsPlaced(bricks, r, c, brickOffsetLeft, brickW, cellW, cellH);
      if brick.hp > 1 {
        brick := brick.(hp := brick.hp - 1);
        bricks := bricks[r := bricks[r][c := Occupied(brick)]];
        score := score + 5;
      } else {
        brick := brick.(alive := false);
        bricks := bricks[r := bricks[r][c := Empty]];
        bricksRemaining := bricksRemaining - 1;
        score := score + 10;
      }
    }

    /**
      The brick pass of a sub-step. The 3x3 block of cells around the cell
      containing the ball's centre is scanned row by row; the first in-range
      live brick the ball touches is struck (damaged for 5 points or removed
      for 10) and the ball bounces off it, and the scan stops there. So at
      most one cell of the grid changes.
    */
    method ScanBricks()
      requires WellFormed()
      modifies this`bricks, this`bricksRemaining, this`score, this`ball
      ensures WellFormed()
      ensures var hit := Scan(old(bricks), CellIndex(old(ball).y, BRICK_OFFSET_TOP, cellH),
                              CellIndex(old(ball).x, brickOffsetLeft as real, cellW),
                              old(ball).x, old(ball).y, BALL_RADIUS);
              && (hit.Miss? ==>
                    bricks == old(bricks) && bricksRemaining == old(bricksRemaining)
                    && score == old(score) && ball == old(ball))
              && (hit.HitAt? ==> StrikeApplied(hit, old(bricks), old(ball), old(score), old(bricksRemaining)))
      ensures var hit := BrickScan(old(bricks), old(ball), brickOffsetLeft, cellW, cellH);
              && bricks == StruckGrid(old(bricks), hit)
              && score == old(score) + StruckPoints(old(bricks), hit)
              && ball == StruckBall(old(ball), old(bricks), hit, lastStepDt)
    {
      ghost var g0 := bricks;
      ghost var ball0 := ball;
      var approxCol := CellIndex(ball.x, brickOffsetLeft as real, cellW);
      var approxRow := CellIndex(ball.y, BRICK_OFFSET_TOP, cellH);
      ghost var hit := Scan(g0, approxRow, approxCol, ball0.x, ball0.y, BALL_RADIUS);
      ghost var done := false;

      var rr := approxRow - 1;
      while rr <= approxRow + 1
        invariant approxRow - 1 <= rr <= approxRow + 3
        invariant WellFormed()
        invariant !done ==>
                    && rr <= approxRow + 2
                    && bricks == g0 && bricksRemaining == old(bricksRemaining)
                    && score == old(score) && ball == ball0
                    && ScanFrom(g0, approxRow, approxCol, rr, approxCol - 1, ball0.x, ball0.y, BALL_RADIUS) == hit
        invariant done ==> rr == approxRow + 3 && StrikeApplied(hit, g0, ball0, old(score), old(bricksRemaining))
        decreases approxRow + 3 - rr
      {
        if 0 <= rr < brickRows {
          var struck := ScanRow(rr, approxRow, approxCol);
          if struck {
            done := true;
            // leave the outer loop too: at most one brick per sub-step
            rr := approxRow + 2;
          }
        } else {
          SkipRow(g0, approxRow, approxCol, rr, ball0.x, ball0.y, BALL_RADIUS);
        }
        rr := rr + 1;
      }
    }

    /**
      The inner loop of the brick pass, over the three cells of row rr of the
      block around (approxRow, approxCol). Cells outside the grid, empty or
      not touched are passed over; the first struck one is hit and `struck`
      reports it. Without a strike nothing changes and the scan goes on at
      the next row.
    */
    method ScanRow(rr: int, approxRow: int, approxCol: int) returns (struck: bool)
      requires WellFormed()
      requires approxRow - 1 <= rr <= approxRow + 1 && 0 <= rr < brickRows
      modifies this`bricks, this`bricksRemaining, this`score, this`ball
      ensures WellFormed()
      ensures var hit := ScanFrom(old(bricks), approxRow, approxCol, rr, approxCol - 1, old(ball).x, old(ball).y, BALL_RADIUS);
              && (!struck ==>
                    && bricks == old(bricks) && bricksRemaining == old(bricksRemaining)
                    && score == old(score) && ball == old(ball)
                    && hit == ScanFrom(old(bricks), approxRow, approxCol, rr + 1, approxCol - 1, old(ball).x, old(ball).y, BALL_RADIUS))
              && (struck ==> StrikeApplied(hit, old(bricks), old(ball), old(score), old(bricksRemaining)))
    {
      ghost var g0 := bricks;
      ghost var ball0 := ball;
      ghost var hit := ScanFrom(g0, approxRow, approxCol, rr, approxCol - 1, ball0.x, ball0.y, BALL_RADIUS);
      struck := false;
      var cc := approxCol - 1;
      while cc <= approxCol + 1
        invariant approxCol - 1 <= cc <= approxCol + 3
        invariant !struck ==>
                    && cc <= approxCol + 2
                    && bricks == g0 && bricksRemaining == old(bricksRemaining)
                    && score == old(score) && ball == ball0
                    && ScanFrom(g0, approxRow, approxCol, rr, cc, ball0.x, ball0.y, BALL_RADIUS) == hit
        invariant WellFormed()
        invariant struck ==> cc == approxCol + 3 && StrikeApplied(hit, g0, ball0, old(score), old(bricksRemaining))
        decreases approxCol + 3 - cc
      {
        if 0 <= cc < brickCols {
          var cell := bricks[rr][cc];
          if cell.Occupied? && cell.brick.alive {
            var brick := cell.brick;
            if RectCircleCollide(brick.x, brick.y, brick.w, brick.h, ball.x, ball.y, BALL_RADIUS) {
              assert Struck(g0, rr, cc, ball0.x, ball0.y, BALL_RADIUS);
              assert ScanFrom(g0, approxRow, approxCol, rr, cc, ball0.x, ball0.y, BALL_RADIUS) == HitAt(rr, cc);
              HitBrick(rr, cc);
              struck := true;
              // leave the loop: at most one brick per sub-step
              cc := approxCol + 2;
            }
          }
        }
        cc := cc + 1;
      }
    }

    /** The state after `hit`, a hit of the scan from grid g0 and ball ball0, has been applied. */
    ghost predicate StrikeApplied(hit: Hit, g0: seq<seq<Cell>>, ball0: Ball, score0: int, remaining0: int)
      reads this
    {
      && hit.HitAt?
      && 0 <= hit.r < |g0| && 0 <= hit.c < |g0[hit.r]| && g0[hit.r][hit.c].Occupied?
      && var b := g0[hit.r][hit.c].brick;
         && bricks == g0[hit.r := g0[hit.r][hit.c := Strike(b)]]
         && score == score0 + StrikePoints(b)
         && bricksRemaining == remaining0 - (if b.hp > 1 then 0 else 1)
         && ball == BounceOffBrick(ball0, b, lastStepDt)
    }

    /**
      One sub-step of a frame: move and bounce off the walls; lose a life if
      the ball is past the bottom (ending the frame); bounce off the paddle;
      strike at most one brick; advance the level if the grid is cleared
      (ending the frame). `stop` says the frame ends here.
    */
    method SubStep(stepDt: real, aim: real -> Vec) returns (stop: bool)
      requires Valid() && state == Playing
      modifies this
      ensures Valid()
      ensures lastStepDt == stepDt && paddle == old(paddle)
      ensures score >= old(score)
      ensures !stop ==> state == Playing && lives == old(lives) && levelIndex == old(levelIndex)
      ensures stop ==> lives == old(lives) - 1 || levelIndex == old(levelIndex) + 1
      ensures Stepped(old(Snapshot()), Snapshot(), stepDt, aim, stop)
      ensures levelIndex == old(levelIndex) || levelIndex == old(levelIndex) + 1
      ensures state == Playing || state == GameState.GameOver || state == Win
      ensures ball.speed >= old(ball).speed
    {
      lastStepDt := stepDt;
      MoveBall(stepDt);

      if ball.y - BALL_RADIUS > HEIGHT {
        LoseLife();
        return true;
      }

      stop := Collide(aim);
    }

    /**
      The rest of a sub-step once the ball is still in play: bounce off the
      paddle, strike at most one brick, and advance the level if the grid is
      cleared, which ends the frame (`stop`).
    */
    method Collide(aim: real -> Vec) returns (stop: bool)
      requires Valid() && state == Playing
      modifies this
      ensures Valid()
      ensures score >= old(score) && lives == old(lives) && ball.speed >= old(ball).speed
      ensures !stop ==> state == Playing && levelIndex == old(levelIndex)
      ensures stop ==> levelIndex == old(levelIndex) + 1 && (state == Playing || state == Win)
      ensures paddle == old(paddle) && lastStepDt == old(lastStepDt)
      ensures Collided(old(Snapshot()), Snapshot(), aim, stop)
    {
      HitPaddleAndBricks(aim);

      if bricksRemaining <= 0 {
        LevelCount();
        NextLevel();
        return true;
      }
      return false;
    }

    /**
      The paddle and brick passes of a sub-step: the ball bounces off the
      paddle if it touches it (PaddlePhase), then the brick pass runs from
      that ball (BrickScan) and its hit, if any, is applied.
    */
    method HitPaddleAndBricks(aim: real -> Vec)
      requires WellFormed()
      modifies this`bricks, this`bricksRemaining, this`score, this`ball
      ensures WellFormed()
      ensures var b1 := PaddlePhase(old(ball), paddle, aim);
              var hit := BrickScan(old(bricks), b1, brickOffsetLeft, cellW, cellH);
              && bricks == StruckGrid(old(bricks), hit)
              && score == old(score) + StruckPoints(old(bricks), hit)
              && ball == StruckBall(b1, old(bricks), hit, lastStepDt)
      ensures score >= old(score) && ball.speed >= old(ball).speed
    {
      if RectCircleCollide(paddle.x, paddle.y, PADDLE_W, PADDLE_H, ball.x, ball.y, BALL_RADIUS) {
        PaddleBounce(aim);
      }
      ScanBricks();
    }

    /**
      One frame of `dt` seconds. The paddle follows the input in every state;
      only a running game moves on. `trace` holds the state after the input
      and after each sub-step run, `n` of them: each step from one to the
      next is a sub-step of length dt / Steps(speed) (Stepped), only the
      last can stop the frame, and it is the last exactly because it
      stopped or because Steps(speed) sub-steps have run. A frame therefore
      costs at most one life, advances at most one level and never lowers
      the score.
    */
    method Update(dt: real, left: bool, right: bool, pointerActive: bool, pointerX: real, aim: real -> Vec)
      returns (ghost n: nat, ghost stopped: bool, ghost trace: seq<Snap>)
      requires Valid()
      requires 0.0 <= dt <= MAX_DT
      modifies this
      ensures Valid()
      ensures paddle == Steered(old(paddle), dt, left, right, pointerActive, pointerX)
      ensures |trace| == n + 1
      ensures trace[0] == old(Snapshot()).(paddle := Steered(old(paddle), dt, left, right, pointerActive, pointerX))
      ensures trace[n] == Snapshot()
      ensures old(state) != Playing ==> n == 0 && !stopped
      ensures old(state) == Playing ==>
                && 1 <= n <= Steps(old(ball).speed)
                && (!stopped ==> n == Steps(old(ball).speed))
                && forall i | 0 <= i < n ::
                     Stepped(trace[i], trace[i + 1], dt / Steps(old(ball).speed) as real, aim, i == n - 1 && stopped)
      ensures old(state) == Playing && n < Steps(old(ball).speed) ==>
                lives == old(lives) - 1 || levelIndex == old(levelIndex) + 1
      ensures score >= old(score)
      ensures lives == old(lives) || lives == old(lives) - 1
      ensures levelIndex == old(levelIndex) || levelIndex == old(levelIndex) + 1
      ensures state == old(state) || (old(state) == Playing && (state == GameState.GameOver || state == Win))
      ensures ball.speed >= old(ball).speed
    {
      n, stopped := 0, false;
      HandleInput(dt, left, right, pointerActive, pointerX);
      trace := [Snapshot()];
      if state == Paused {
        return;
      }
      if state != Playing {
        return;
      }

      var steps := Steps(ball.speed);
      var stepDt := dt / steps as real;
      for i := 0 to steps
        invariant n == i && |trace| == i + 1 && trace[i] == Snapshot()
        invariant Valid() && state == Playing && paddle == trace[0].paddle
        invariant lives == old(lives) && levelIndex == old(levelIndex) && score >= old(score)
        invariant ball.speed >= old(ball).speed
        invariant trace[0] == old(Snapshot()).(paddle := Steered(old(paddle), dt, left, right, pointerActive, pointerX))
        invariant forall j | 0 <= j < i :: Stepped(trace[j], trace[j + 1], stepDt, aim, false)
      {
        var stop := SubStep(stepDt, aim);
        n := n + 1;
        trace := trace + [Snapshot()];
        if stop {
          stopped := true;
          break;
        }
      }
    }
  }
}
