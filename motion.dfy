/**
  The ball and how it moves within one sub-step: integration of its
  position, reflection off the left, right and top walls, and the choice of
  which velocity component a brick impact reverses.
*/
module Motion {
  import opened Geometry
  import opened Bricks

  const BALL_RADIUS: real := 8.0

  /**
    The ball: centre, velocity, scalar speed (tracked apart from the
    velocity so that a new direction can be given the same speed) and the
    number of paddle hits so far, which drives the speed-up.
  */
  datatype Ball = Ball(x: real, y: real, vx: real, vy: real, speed: int, paddleHitCount: int)

  /** A direction in the plane (a unit vector where the engine produces one). */
  datatype Vec = Vec(x: real, y: real)

  /**
    The ball after moving for `dt` and bouncing off the side and top walls.
    Whatever the move, the ball ends inside the walls horizontally and below
    the top; a wall it crossed turns the matching velocity component inward,
    and a component whose wall was not crossed is left alone. The bottom is
    not a wall.
  */
  function AfterMove(b: Ball, dt: real): (r: Ball)
    ensures BALL_RADIUS <= r.x <= WIDTH - BALL_RADIUS
    ensures r.y >= BALL_RADIUS
    ensures r.speed == b.speed && r.paddleHitCount == b.paddleHitCount
    ensures var x := b.x + b.vx * dt;
            && (x - BALL_RADIUS < 0.0 ==> r.x == BALL_RADIUS && r.vx == Abs(b.vx))
            && (x + BALL_RADIUS > WIDTH ==> r.x == WIDTH - BALL_RADIUS && r.vx == -Abs(b.vx))
            && (BALL_RADIUS <= x <= WIDTH - BALL_RADIUS ==> r.x == x && r.vx == b.vx)
    ensures var y := b.y + b.vy * dt;
            && (y - BALL_RADIUS < 0.0 ==> r.y == BALL_RADIUS && r.vy == Abs(b.vy))
            && (y >= BALL_RADIUS ==> r.y == y && r.vy == b.vy)
  {
    var moved := b.(x := b.x + b.vx * dt, y := b.y + b.vy * dt);
    var sides :=
      if moved.x - BALL_RADIUS < 0.0 then moved.(x := BALL_RADIUS, vx := Abs(moved.vx))
      else if moved.x + BALL_RADIUS > WIDTH then moved.(x := WIDTH - BALL_RADIUS, vx := -Abs(moved.vx))
      else moved;
    if sides.y - BALL_RADIUS < 0.0 then sides.(y := BALL_RADIUS, vy := Abs(sides.vy)) else sides
  }

  /**
    Looking back along the velocity for one sub-step, the ball came from
    above the brick moving down or from below it moving up.
  */
  predicate CameVertically(b: Ball, brick: Brick, stepDt: real)
  {
    var prevY := b.y - b.vy * stepDt;
    (prevY <= brick.y && b.vy > 0.0) || (prevY >= brick.y + brick.h && b.vy < 0.0)
  }

  /** Likewise, the ball came from the left moving right or from the right moving left. */
  predicate CameHorizontally(b: Ball, brick: Brick, stepDt: real)
  {
    var prevX := b.x - b.vx * stepDt;
    (prevX <= brick.x && b.vx > 0.0) || (prevX >= brick.x + brick.w && b.vx < 0.0)
  }

  /**
    The ball after bouncing off `brick`: the decision table of the bounce.
    Exactly one velocity component is reversed and the other kept. A
    vertical approach always reverses the vertical component, even when a
    side approach is recognised as well (the corner case); a purely sideways
    approach reverses the horizontal one; an approach neither test
    recognises falls back to reversing the vertical one. Position, speed and
    hit counter are untouched.
  */
  function BounceOffBrick(b: Ball, brick: Brick, stepDt: real): (r: Ball)
    ensures r.x == b.x && r.y == b.y && r.speed == b.speed && r.paddleHitCount == b.paddleHitCount
    ensures (r.vx == -b.vx && r.vy == b.vy) || (r.vx == b.vx && r.vy == -b.vy)
    ensures CameVertically(b, brick, stepDt) ==> r.vy == -b.vy && r.vx == b.vx
    ensures CameHorizontally(b, brick, stepDt) && !CameVertically(b, brick, stepDt) ==>
              r.vx == -b.vx && r.vy == b.vy
    ensures !CameHorizontally(b, brick, stepDt) && !CameVertically(b, brick, stepDt) ==>
              r.vy == -b.vy && r.vx == b.vx
  {
    if CameHorizontally(b, brick, stepDt) && !CameVertically(b, brick, stepDt) then b.(vx := -b.vx)
    else b.(vy := -b.vy)
  }

  /** Only the rectangle of the brick matters to the bounce, not its hit points or liveness. */
  lemma BounceReadsGeometryOnly(b: Ball, brick: Brick, other: Brick, stepDt: real)
    requires brick.x == other.x && brick.y == other.y && brick.w == other.w && brick.h == other.h
    ensures BounceOffBrick(b, brick, stepDt) == BounceOffBrick(b, other, stepDt)
  {
  }
}
