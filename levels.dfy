/**
  The level definitions (row and column counts, colour palette and the
  pattern matrix: 0 empty, 1 normal, 2 strong) and the brick each pattern
  cell turns into.
*/
module Levels {
  import opened Geometry
  import opened Bricks

  datatype Level = Level(rows: nat, cols: nat, palette: seq<string>, pattern: seq<seq<int>>)

  /** The three levels of the game, in the order they are played. */
  const LEVELS: seq<Level> := [
    Level(6, 11, ["#4FC3F7", "#FF7043", "#66BB6A"], [
      [0,1,1,1,1,1,1,1,1,1,0],
      [1,1,2,1,1,2,1,1,2,1,1],
      [1,2,1,1,2,1,1,2,1,2,1],
      [1,1,1,2,1,1,1,2,1,1,1],
      [1,1,2,1,1,2,1,1,2,1,1],
      [0,1,1,1,1,1,1,1,1,1,0]
    ]),
    Level(7, 12, ["#F06292", "#9575CD", "#FFD54F"], [
      [2,0,2,0,2,0,2,0,2,0,2,0],
      [0,1,0,1,0,1,0,1,0,1,0,1],
      [2,0,2,0,2,0,2,0,2,0,2,0],
      [0,1,0,1,0,1,0,1,0,1,0,1],
      [2,0,2,0,2,0,2,0,2,0,2,0],
      [0,1,0,1,0,1,0,1,0,1,0,1],
      [2,0,2,0,2,0,2,0,2,0,2,0]
    ]),
    Level(8, 13, ["#80DEEA", "#A5D6A7", "#EF9A9A", "#FFCC80"], [
      [0,0,1,1,1,2,2,2,1,1,1,0,0],
      [0,1,1,2,2,1,1,1,2,2,1,1,0],
      [1,1,2,2,1,1,2,1,1,2,2,1,1],
      [1,2,2,1,1,2,2,2,1,1,2,2,1],
      [1,1,2,2,1,1,2,1,1,2,2,1,1],
      [0,1,1,2,2,1,1,1,2,2,1,1,0],
      [0,0,1,1,1,2,2,2,1,1,1,0,0],
      [0,0,0,1,1,1,2,1,1,1,0,0,0]
    ])
  ]

  /** How many levels there are; the game is won after the last one. */
  const LEVEL_COUNT: int := 3

  lemma LevelCount()
    ensures |LEVELS| == LEVEL_COUNT
  {
  }

  /** The margin the grid starts with, before any level is built. */
  const INITIAL_OFFSET_LEFT: int := 35

  /** A level the builder can lay out: at least one column and a non-empty palette. */
  predicate Playable(level: Level)
  {
    level.cols >= 1 && |level.palette| >= 1
  }

  /** The pattern value at (r, c); a missing row or cell reads as 0 (empty). */
  function PatternCell(level: Level, r: int, c: int): int
  {
    if 0 <= r < |level.pattern| && 0 <= c < |level.pattern[r]| then level.pattern[r][c] else 0
  }

  /** Number of non-empty pattern cells among the first c cells of row r. */
  function NonZeroInRow(level: Level, r: int, c: nat): nat
  {
    if c == 0 then 0
    else NonZeroInRow(level, r, c - 1) + (if PatternCell(level, r, c - 1) != 0 then 1 else 0)
  }

  /** Number of non-empty pattern cells in the first r rows. */
  function NonZeroUpTo(level: Level, r: nat): nat
  {
    if r == 0 then 0 else NonZeroUpTo(level, r - 1) + NonZeroInRow(level, r - 1, level.cols)
  }

  /** Number of bricks a level starts with: its non-empty pattern cells. */
  function BrickCount(level: Level): nat
  {
    NonZeroUpTo(level, level.rows)
  }

  /**
    The cell the builder puts at (r, c) when the grid margin is `left` and the
    brick width `brickW`: empty for pattern value 0; otherwise a live brick
    with 2 hit points for value 2 and 1 hit point for any other value,
    coloured by the second palette entry when strong and the first otherwise.
  */
  function BuiltCell(level: Level, r: int, c: int, left: int, brickW: real): (cell: Cell)
    requires Playable(level)
    ensures cell.Empty? <==> PatternCell(level, r, c) == 0
    ensures cell.Occupied? ==>
              && cell.brick.alive
              && cell.brick.hp == (if PatternCell(level, r, c) == 2 then 2 else 1)
              && cell.brick.kind == PatternCell(level, r, c)
              && cell.brick.w == brickW && cell.brick.h == BRICK_H
              && cell.brick.color in level.palette
  {
    var cell := PatternCell(level, r, c);
    if cell == 0 then Empty
    else
      var strong := cell == 2;
      Occupied(Brick(
        left as real + c as real * (brickW + BRICK_PADDING),
        BRICK_OFFSET_TOP + r as real * (BRICK_H + BRICK_PADDING),
        brickW, BRICK_H,
        if strong then 2 else 1,
        true,
        level.palette[(if strong then 1 else 0) % |level.palette|],
        cell))
  }

  /** The rows of `g` are the first |g| rows of the level's grid, each `cols` cells long. */
  ghost predicate BuiltRows(g: seq<seq<Cell>>, level: Level, cols: int, left: int, brickW: real)
    requires Playable(level)
  {
    && (forall i :: 0 <= i < |g| ==> |g[i]| == cols)
    && (forall i, j :: 0 <= i < |g| && 0 <= j < |g[i]| ==> g[i][j] == BuiltCell(level, i, j, left, brickW))
  }

  /** Appending the next built row keeps the rows built and adds the row's bricks to the count. */
  lemma AppendBuiltRow(g: seq<seq<Cell>>, row: seq<Cell>, level: Level, cols: int, left: int, brickW: real)
    requires Playable(level) && BuiltRows(g, level, cols, left, brickW)
    requires |row| == cols
    requires forall j :: 0 <= j < cols ==> row[j] == BuiltCell(level, |g|, j, left, brickW)
    ensures BuiltRows(g + [row], level, cols, left, brickW)
    ensures CountLive(g + [row]) == CountLive(g) + CountRow(row)
  {
    var g' := g + [row];
    assert g'[..|g|] == g && g'[|g|] == row;
  }

  /**
    Built rows form a well-formed grid: every brick in them is alive with 1
    or 2 hit points and sits in its own cell of pitch brickW + BRICK_PADDING
    by BRICK_H + BRICK_PADDING from margin `left`.
  */
  lemma BuiltRowsWellFormed(g: seq<seq<Cell>>, level: Level, cols: int, left: int, brickW: real)
    requires Playable(level) && BuiltRows(g, level, cols, left, brickW)
    ensures WellFormedGrid(g, |g|, cols)
    ensures Placed(g, left, brickW, brickW + BRICK_PADDING, BRICK_H + BRICK_PADDING)
  {
  }

  /** Every level can be laid out, its pattern has exactly rows x cols cells, and it holds bricks. */
  lemma LevelsPlayable()
    ensures forall i :: 0 <= i < |LEVELS| ==> Playable(LEVELS[i])
    ensures forall i :: 0 <= i < |LEVELS| ==> |LEVELS[i].pattern| == LEVELS[i].rows
    ensures forall i, r :: 0 <= i < |LEVELS| && 0 <= r < LEVELS[i].rows ==> |LEVELS[i].pattern[r]| == LEVELS[i].cols
  {
  }

  lemma {:induction false} RowCountsCell(level: Level, r: int, c: int, n: nat)
    requires 0 <= c < n
    requires PatternCell(level, r, c) != 0
    ensures NonZeroInRow(level, r, n) >= 1
  {
    if n - 1 != c {
      RowCountsCell(level, r, c, n - 1);
    }
  }

  lemma {:induction false} UpToCountsRow(level: Level, r: nat, n: nat)
    requires r < n
    ensures NonZeroUpTo(level, n) >= NonZeroInRow(level, r, level.cols)
  {
    if n - 1 != r {
      UpToCountsRow(level, r, n - 1);
    }
  }

  /** A level with a non-empty pattern cell inside its rows x cols starts with at least one brick. */
  lemma NonEmptyCellCounts(level: Level, r: nat, c: nat)
    requires r < level.rows && c < level.cols
    requires PatternCell(level, r, c) != 0
    ensures BrickCount(level) >= 1
  {
    RowCountsCell(level, r, c, level.cols);
    UpToCountsRow(level, r, level.rows);
  }

  /** Every level starts with at least one brick, so a level is never cleared on arrival. */
  lemma LevelHoldsBricks(i: int)
    requires 0 <= i < |LEVELS|
    ensures BrickCount(LEVELS[i]) >= 1
  {
    if i == 0 {
      NonEmptyCellCounts(LEVELS[0], 1, 0);
    } else if i == 1 {
      NonEmptyCellCounts(LEVELS[1], 0, 0);
    } else {
      NonEmptyCellCounts(LEVELS[2], 2, 0);
    }
  }

  /**
    Starting from the initial margin of 35, every level is laid out with a
    margin of 35 again: the grid never drifts and is exactly centred.
  */
  lemma MarginStaysPut()
    ensures forall i :: 0 <= i < |LEVELS| ==>
              CentredLeft(LEVELS[i].cols, BrickWidth(INITIAL_OFFSET_LEFT, LEVELS[i].cols)) == INITIAL_OFFSET_LEFT
  {
    forall i | 0 <= i < |LEVELS|
      ensures CentredLeft(LEVELS[i].cols, BrickWidth(INITIAL_OFFSET_LEFT, LEVELS[i].cols)) == INITIAL_OFFSET_LEFT
    {
      MarginIsFixedPoint(INITIAL_OFFSET_LEFT, LEVELS[i].cols);
    }
  }
}
