/**
  The brick grid: brick records, the rows x cols grid of optional bricks,
  the number of live bricks in it, the pixel layout of the grid, and the
  neighbourhood scan that picks the one brick a ball strikes in a sub-step.
*/
module Bricks {
  import opened Geometry

  /** Fixed brick height. */
  const BRICK_H: real := 20.0
  /** Gap between neighbouring bricks, horizontally and vertically. */
  const BRICK_PADDING: real := 8.0
  /** Distance from the top of the world to the first brick row. */
  const BRICK_OFFSET_TOP: real := 50.0
  /** Bricks are never made narrower than this. */
  const MIN_BRICK_W: real := 24.0
  /** The left margin of the grid is never smaller than this. */
  const MIN_OFFSET_LEFT: int := 16

  /**
    A brick: its rectangle, remaining hit points, liveness flag, colour and
    the pattern value it was built from (1 normal, 2 strong).
  */
  datatype Brick = Brick(x: real, y: real, w: real, h: real, hp: int, alive: bool, color: string, kind: int)

  /** One grid cell: no brick (`null` in the grid) or a brick. */
  datatype Cell = Empty | Occupied(brick: Brick)

  /** The grid has `rows` rows of `cols` cells, and every brick in it is alive with 1 or 2 hit points. */
  ghost predicate WellFormedGrid(g: seq<seq<Cell>>, rows: int, cols: int)
  {
    && |g| == rows
    && (forall r :: 0 <= r < |g| ==> |g[r]| == cols)
    && (forall r, c :: 0 <= r < |g| && 0 <= c < |g[r]| && g[r][c].Occupied? ==>
          g[r][c].brick.alive && 1 <= g[r][c].brick.hp <= 2)
  }

  /**
    Every brick of g sits in its own cell of a grid whose left margin is
    `left` and whose pitch is cellW x cellH: the brick in cell (r, c) is
    brickW x BRICK_H with its top-left corner at the corner of that cell.
  */
  ghost predicate Placed(g: seq<seq<Cell>>, left: int, brickW: real, cellW: real, cellH: real)
  {
    forall r, c :: 0 <= r < |g| && 0 <= c < |g[r]| && g[r][c].Occupied? ==>
      && g[r][c].brick.x == left as real + c as real * cellW
      && g[r][c].brick.y == BRICK_OFFSET_TOP + r as real * cellH
      && g[r][c].brick.w == brickW && g[r][c].brick.h == BRICK_H
  }

  // ---------------------------------------------------------------------
  // Counting live bricks

  function Weight(cell: Cell): nat
  {
    if cell.Occupied? then 1 else 0
  }

  /** Number of bricks in one row. */
  function CountRow(row: seq<Cell>): nat
  {
    if row == [] then 0 else CountRow(row[..|row| - 1]) + Weight(row[|row| - 1])
  }

  /** Number of bricks in the whole grid. */
  function CountLive(g: seq<seq<Cell>>): nat
  {
    if g == [] then 0 else CountLive(g[..|g| - 1]) + CountRow(g[|g| - 1])
  }

  /** Replacing one cell of a row changes the row's count by the difference of the two cells. */
  lemma {:induction false} CountRowUpdate(row: seq<Cell>, c: int, v: Cell)
    requires 0 <= c < |row|
    ensures CountRow(row[c := v]) == CountRow(row) - Weight(row[c]) + Weight(v)
  {
    var n := |row|;
    if c == n - 1 {
      assert row[c := v][..n - 1] == row[..n - 1];
    } else {
      CountRowUpdate(row[..n - 1], c, v);
      assert row[c := v][..n - 1] == row[..n - 1][c := v];
    }
  }

  /**
    Replacing one cell of the grid changes the live count by the difference
    of the two cells: removing a brick decrements it by exactly one, and
    damaging a brick in place leaves it as it was.
  */
  lemma {:induction false} CountLiveUpdate(g: seq<seq<Cell>>, r: int, c: int, v: Cell)
    requires 0 <= r < |g| && 0 <= c < |g[r]|
    ensures CountLive(g[r := g[r][c := v]]) == CountLive(g) - Weight(g[r][c]) + Weight(v)
  {
    var n := |g|;
    var g' := g[r := g[r][c := v]];
    if r == n - 1 {
      assert g'[..n - 1] == g[..n - 1];
      CountRowUpdate(g[r], c, v);
    } else {
      CountLiveUpdate(g[..n - 1], r, c, v);
      assert g'[..n - 1] == g[..n - 1][r := g[r][c := v]];
    }
  }

  lemma {:induction false} CountRowZero(row: seq<Cell>)
    ensures CountRow(row) == 0 <==> forall c :: 0 <= c < |row| ==> row[c].Empty?
  {
    if row != [] {
      var n := |row|;
      CountRowZero(row[..n - 1]);
      assert forall c :: 0 <= c < n - 1 ==> row[..n - 1][c] == row[c];
    }
  }

  /**
    The live count is zero exactly when no cell of the grid holds a brick:
    the counter test `bricksRemaining <= 0` detects a cleared level.
  */
  lemma {:induction false} CountLiveZero(g: seq<seq<Cell>>)
    ensures CountLive(g) == 0 <==> forall r, c :: 0 <= r < |g| && 0 <= c < |g[r]| ==> g[r][c].Empty?
  {
    if g != [] {
      var n := |g|;
      CountLiveZero(g[..n - 1]);
      CountRowZero(g[n - 1]);
      assert forall r :: 0 <= r < n - 1 ==> g[..n - 1][r] == g[r];
    }
  }

  // ---------------------------------------------------------------------
  // Striking a brick

  /**
    What a struck brick leaves in its cell: a brick with more than one hit
    point stays, one point weaker; a brick on its last hit point is removed.
  */
  function Strike(b: Brick): (c: Cell)
    ensures c.Empty? <==> b.hp <= 1
    ensures c.Occupied? ==>
              && c.brick.hp == b.hp - 1 && c.brick.alive == b.alive
              && c.brick.x == b.x && c.brick.y == b.y && c.brick.w == b.w && c.brick.h == b.h
  {
    if b.hp > 1 then Occupied(b.(hp := b.hp - 1)) else Empty
  }

  /** Score for striking a brick: 5 for damaging it, 10 for destroying it. */
  function StrikePoints(b: Brick): (p: int)
    ensures p == 10 <==> Strike(b).Empty?
    ensures p == 5 <==> Strike(b).Occupied?
  {
    if b.hp > 1 then 5 else 10
  }

  /**
    Striking the brick at (r, c) of a well-formed grid leaves a well-formed
    grid; a damaged brick keeps the live count, a destroyed one lowers it by
    exactly one, and every other cell is untouched.
  */
  lemma StrikeKeepsGrid(g: seq<seq<Cell>>, rows: int, cols: int, r: int, c: int)
    requires WellFormedGrid(g, rows, cols)
    requires 0 <= r < rows && 0 <= c < cols && g[r][c].Occupied?
    ensures var g' := g[r := g[r][c := Strike(g[r][c].brick)]];
            && WellFormedGrid(g', rows, cols)
            && CountLive(g') == CountLive(g) - (if g[r][c].brick.hp > 1 then 0 else 1)
            && (forall r', c' | 0 <= r' < rows && 0 <= c' < cols && (r', c') != (r, c) :: g'[r'][c'] == g[r'][c'])
  {
    CountLiveUpdate(g, r, c, Strike(g[r][c].brick));
  }

  /** Striking a brick keeps every brick of the grid in its cell: a damaged brick keeps its rectangle. */
  lemma StrikeKeepsPlaced(g: seq<seq<Cell>>, r: int, c: int, left: int, brickW: real, cellW: real, cellH: real)
    requires Placed(g, left, brickW, cellW, cellH)
    requires 0 <= r < |g| && 0 <= c < |g[r]| && g[r][c].Occupied?
    ensures Placed(g[r := g[r][c := Strike(g[r][c].brick)]], left, brickW, cellW, cellH)
  {
  }

  // ---------------------------------------------------------------------
  // Layout

  /** Width of a grid of `cols` bricks of width `brickW` with padding between them. */
  function GridWidth(cols: int, brickW: real): real
  {
    cols as real * brickW + (cols - 1) as real * BRICK_PADDING
  }

  /**
    Brick width for `cols` columns between two margins of `left`: the space
    between the margins, less the padding, shared among the columns, but
    never less than MIN_BRICK_W. (What this width achieves is stated by
    BrickWidthFills.)
  */
  function BrickWidth(left: int, cols: int): (w: real)
    requires cols >= 1
    ensures w >= MIN_BRICK_W
  {
    var raw := (WIDTH - left as real - left as real - (cols - 1) as real * BRICK_PADDING) / cols as real;
    if MIN_BRICK_W < raw then raw else MIN_BRICK_W
  }

  /**
    The bricks exactly fill the space between the two margins, unless that
    would make them narrower than MIN_BRICK_W, in which case they are
    MIN_BRICK_W wide and the grid overflows the margins.
  */
  lemma BrickWidthFills(left: int, cols: int)
    requires cols >= 1
    ensures var w := BrickWidth(left, cols);
            || GridWidth(cols, w) == WIDTH - 2.0 * left as real
            || (w == MIN_BRICK_W && GridWidth(cols, w) > WIDTH - 2.0 * left as real)
  {
    var raw := (WIDTH - left as real - left as real - (cols - 1) as real * BRICK_PADDING) / cols as real;
    assert cols as real * raw == WIDTH - left as real - left as real - (cols - 1) as real * BRICK_PADDING;
    if raw <= MIN_BRICK_W {
      MultiplyBoth(raw, MIN_BRICK_W, cols as real);
      assert cols as real * raw <= cols as real * MIN_BRICK_W;
    }
  }

  /**
    The left margin that centres a grid of `cols` bricks of width `brickW`:
    half the space left over, rounded down, but never below MIN_OFFSET_LEFT.
    (CentredLeftCentres states the rounding.)
  */
  function CentredLeft(cols: int, brickW: real): (left: int)
    ensures left >= MIN_OFFSET_LEFT
  {
    var centred := ((WIDTH - GridWidth(cols, brickW)) / 2.0).Floor;
    if MIN_OFFSET_LEFT < centred then centred else MIN_OFFSET_LEFT
  }

  /**
    The margin is half the leftover width rounded down, unless that is below
    MIN_OFFSET_LEFT, and only then is it MIN_OFFSET_LEFT.
  */
  lemma CentredLeftCentres(cols: int, brickW: real)
    ensures var left := CentredLeft(cols, brickW);
            || (left == MIN_OFFSET_LEFT && (WIDTH - GridWidth(cols, brickW)) / 2.0 < (MIN_OFFSET_LEFT + 1) as real)
            || left as real <= (WIDTH - GridWidth(cols, brickW)) / 2.0 < left as real + 1.0
  {
  }

  /**
    When bricks of the minimum width fit between margins of `left`, building
    the grid and re-centring it gives back the same margin: the margin used
    to size the bricks and the one used to place them agree, and the grid is
    exactly centred.
  */
  lemma MarginIsFixedPoint(left: int, cols: int)
    requires cols >= 1 && left >= MIN_OFFSET_LEFT
    requires GridWidth(cols, MIN_BRICK_W) <= WIDTH - 2.0 * left as real
    ensures CentredLeft(cols, BrickWidth(left, cols)) == left
    ensures left as real + GridWidth(cols, BrickWidth(left, cols)) + left as real == WIDTH
  {
    var w := BrickWidth(left, cols);
    BrickWidthFills(left, cols);
    assert GridWidth(cols, w) == WIDTH - 2.0 * left as real;
    assert (WIDTH - GridWidth(cols, w)) / 2.0 == left as real;
  }

  /**
    `Math.floor((p - origin) / pitch)`: the index of the grid cell of pitch
    `pitch`, starting at `origin`, that contains coordinate p.
  */
  function CellIndex(p: real, origin: real, pitch: real): (i: int)
    requires pitch > 0.0
    ensures i as real * pitch <= p - origin < (i + 1) as real * pitch
  {
    FloorScaled(p - origin, pitch);
    ((p - origin) / pitch).Floor
  }

  /** The floor of d / pitch, scaled back by a positive pitch, brackets d. */
  lemma FloorScaled(d: real, pitch: real)
    requires pitch > 0.0
    ensures (d / pitch).Floor as real * pitch <= d
    ensures d < ((d / pitch).Floor + 1) as real * pitch
  {
    var q := d / pitch;
    var lo := q.Floor as real;
    var hi := (q.Floor + 1) as real;
    assert q * pitch == d;
    assert lo <= q < hi && hi == lo + 1.0;
    MultiplyBoth(lo, q, pitch);
    PositiveProduct(hi - q, pitch);
    assert hi * pitch - q * pitch == (hi - q) * pitch;
    assert hi * pitch > q * pitch;
    assert hi * pitch > d;
  }

  /**
    A cell index within one of the index i of coordinate offset d: d lies
    within the three cells centred on it.
  */
  lemma NeighbourSpan(i: int, k: int, d: real, pitch: real)
    requires pitch > 0.0
    requires i as real * pitch <= d < (i + 1) as real * pitch
    requires i - 1 <= k <= i + 1
    ensures (k - 1) as real * pitch <= d < (k + 2) as real * pitch
  {
    var lo, hi := (k - 1) as real, (k + 2) as real;
    MultiplyBoth(lo, i as real, pitch);
    MultiplyBoth((i + 1) as real, hi, pitch);
    assert d < hi * pitch && lo * pitch <= d;
  }

  /**
    Offsets (dy, dx) from the grid origin lie within one cell of cell (r, c),
    in the 3x3 block of cells of pitch cellW x cellH centred on it.
  */
  predicate WithinOneCell(r: int, c: int, dy: real, dx: real, cellH: real, cellW: real)
  {
    && (r - 1) as real * cellH <= dy < (r + 2) as real * cellH
    && (c - 1) as real * cellW <= dx < (c + 2) as real * cellW
  }

  /**
    A hit of the scan around cell (row, col), the cell holding offsets
    (dy, dx) from the grid origin, lies within one cell of that cell.
  */
  lemma HitNearBall(row: int, col: int, hit: Hit, dy: real, dx: real, cellH: real, cellW: real)
    requires cellH > 0.0 && cellW > 0.0
    requires row as real * cellH <= dy < (row + 1) as real * cellH
    requires col as real * cellW <= dx < (col + 1) as real * cellW
    ensures hit.HitAt? && InNeighbourhood(row, col, hit.r, hit.c) ==> WithinOneCell(hit.r, hit.c, dy, dx, cellH, cellW)
  {
    if hit.HitAt? && InNeighbourhood(row, col, hit.r, hit.c) {
      NeighbourSpan(row, hit.r, dy, cellH);
      NeighbourSpan(col, hit.c, dx, cellW);
    }
  }

  /**
    The one-axis reason the scan may stop at the 3x3 block. Along an axis of
    pitch `pitch`, a ball centred at offset d inside cell i, of radius cr no
    more than a pitch, lies strictly before the start of every cell two or
    more past i and strictly after the end of the extent-`w` brick of every
    cell two or more before i, when bricks are narrower than the pitch.
  */
  lemma FarCellClear(i: int, k: int, d: real, pitch: real, w: real, cr: real)
    requires 0.0 <= cr <= pitch && 0.0 <= w < pitch
    requires i as real * pitch <= d < (i + 1) as real * pitch
    requires k >= i + 2 || k <= i - 2
    ensures k >= i + 2 ==> d + cr < k as real * pitch
    ensures k <= i - 2 ==> k as real * pitch + w < d - cr
  {
    if k >= i + 2 {
      var next, far := (i + 1) as real, (i + 2) as real;
      MultiplyBoth(far, k as real, pitch);
      assert far * pitch == next * pitch + pitch;
      assert d + cr < far * pitch;
    } else {
      var here, far := i as real, (i - 2) as real;
      MultiplyBoth(k as real, far, pitch);
      assert far * pitch == here * pitch - pitch - pitch;
      assert far * pitch + w < d - cr;
    }
  }

  lemma MultiplyBoth(a: real, b: real, k: real)
    requires a <= b && k > 0.0
    ensures a * k <= b * k
  {
  }

  // ---------------------------------------------------------------------
  // The 3x3 neighbourhood scan

  /** The ball (centre (cx, cy), radius cr) strikes a live brick at in-range cell (r, c) of g. */
  predicate Struck(g: seq<seq<Cell>>, r: int, c: int, cx: real, cy: real, cr: real)
  {
    && 0 <= r < |g| && 0 <= c < |g[r]|
    && g[r][c].Occupied? && g[r][c].brick.alive
    && var b := g[r][c].brick;
       RectCircleCollide(b.x, b.y, b.w, b.h, cx, cy, cr)
  }

  /** (r, c) lies in the 3x3 block of cells centred on (row, col). */
  predicate InNeighbourhood(row: int, col: int, r: int, c: int)
  {
    row - 1 <= r <= row + 1 && col - 1 <= c <= col + 1
  }

  /** (r1, c1) comes strictly before (r2, c2) in row-major order. */
  predicate Before(r1: int, c1: int, r2: int, c2: int)
  {
    r1 < r2 || (r1 == r2 && c1 < c2)
  }

  /** Outcome of a scan: nothing struck, or the cell of the brick struck. */
  datatype Hit = Miss | HitAt(r: int, c: int)

  /**
    Scans the neighbourhood of (row, col) in row-major order from (r, c) on
    and returns the first cell holding a live brick the ball touches. Cells
    outside the grid are skipped.
  */
  function ScanFrom(g: seq<seq<Cell>>, row: int, col: int, r: int, c: int, cx: real, cy: real, cr: real): (hit: Hit)
    requires row - 1 <= r <= row + 2 && col - 1 <= c <= col + 2
    ensures hit.HitAt? ==>
              && InNeighbourhood(row, col, hit.r, hit.c)
              && !Before(hit.r, hit.c, r, c)
              && Struck(g, hit.r, hit.c, cx, cy, cr)
    ensures forall r', c' | InNeighbourhood(row, col, r', c') && !Before(r', c', r, c) && Struck(g, r', c', cx, cy, cr) ::
              hit.HitAt? && !Before(r', c', hit.r, hit.c)
    decreases row + 2 - r, col + 2 - c
  {
    if r > row + 1 then Miss
    else if c > col + 1 then ScanFrom(g, row, col, r + 1, col - 1, cx, cy, cr)
    else if Struck(g, r, c, cx, cy, cr) then HitAt(r, c)
    else ScanFrom(g, row, col, r, c + 1, cx, cy, cr)
  }

  /**
    The whole-neighbourhood scan. A hit is an in-range cell of the 3x3 block
    holding a live brick the ball touches, and no cell before it in
    row-major order is struck; a miss means no cell of the block is struck.
  */
  function Scan(g: seq<seq<Cell>>, row: int, col: int, cx: real, cy: real, cr: real): (hit: Hit)
    ensures hit.HitAt? ==>
              && InNeighbourhood(row, col, hit.r, hit.c)
              && 0 <= hit.r < |g| && 0 <= hit.c < |g[hit.r]|
              && Struck(g, hit.r, hit.c, cx, cy, cr)
              && forall r', c' | InNeighbourhood(row, col, r', c') && Before(r', c', hit.r, hit.c) ::
                   !Struck(g, r', c', cx, cy, cr)
    ensures hit.Miss? <==> forall r', c' | InNeighbourhood(row, col, r', c') :: !Struck(g, r', c', cx, cy, cr)
  {
    ScanFrom(g, row, col, row - 1, col - 1, cx, cy, cr)
  }

  /** Unfolds the scan over one whole neighbourhood row that lies outside the grid. */
  lemma SkipRow(g: seq<seq<Cell>>, row: int, col: int, r: int, cx: real, cy: real, cr: real)
    requires row - 1 <= r <= row + 1
    requires r < 0 || r >= |g|
    ensures ScanFrom(g, row, col, r, col - 1, cx, cy, cr) == ScanFrom(g, row, col, r + 1, col - 1, cx, cy, cr)
  {
    assert !Struck(g, r, col - 1, cx, cy, cr) && !Struck(g, r, col, cx, cy, cr) && !Struck(g, r, col + 1, cx, cy, cr);
    assert ScanFrom(g, row, col, r, col - 1, cx, cy, cr) == ScanFrom(g, row, col, r, col, cx, cy, cr);
    assert ScanFrom(g, row, col, r, col, cx, cy, cr) == ScanFrom(g, row, col, r, col + 1, cx, cy, cr);
    assert ScanFrom(g, row, col, r, col + 1, cx, cy, cr) == ScanFrom(g, row, col, r, col + 2, cx, cy, cr);
  }
}
