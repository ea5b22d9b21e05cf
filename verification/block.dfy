/**
 The block wall: the fixed grid spawned at the start of a level, and the
 removal of blocks that have run out of lives.
 */
module Blocks {
  import opened Prelude
  import opened Geometry
  import opened Resources
  import opened Components

  const BLOCK_COLUMNS: nat := 6
  const BLOCK_ROWS: nat := 5
  const BLOCK_SIZE: Size := Size(20, 3)
  const BLOCK_PADDING: int := 1
  const BLOCK_LIVES: u8 := 2
  const GRID_TOP: int := 10
  const BLOCK_COUNT: nat := BLOCK_ROWS * BLOCK_COLUMNS

  /** Horizontal and vertical distance between neighbouring blocks' corners. */
  const COLUMN_STRIDE: int := BLOCK_SIZE.width + BLOCK_PADDING
  const ROW_STRIDE: int := BLOCK_SIZE.height + BLOCK_PADDING

  /** Width of one row of the wall, padding between blocks included. */
  const GRID_WIDTH: int := BLOCK_COLUMNS * COLUMN_STRIDE - BLOCK_PADDING

  function BlockRect(b: Block): Rect {
    Rect(b.pos, BLOCK_SIZE)
  }

  /** Left edge of the wall: the spare width halved, rounded toward zero. */
  function GridLeft(res: DisplayResolution): int {
    TruncDiv(AsI32(res.width) - GRID_WIDTH, 2)
  }

  /** The block in `row` and `column` of a fresh wall. */
  function GridBlock(res: DisplayResolution, row: nat, column: nat): Block {
    Block(Point(GridLeft(res) + column * COLUMN_STRIDE, GRID_TOP + row * ROW_STRIDE), BLOCK_LIVES)
  }

  lemma GridIndex(row: nat, column: nat)
    requires column < BLOCK_COLUMNS
    ensures (row * BLOCK_COLUMNS + column) / BLOCK_COLUMNS == row
    ensures (row * BLOCK_COLUMNS + column) % BLOCK_COLUMNS == column
  {
  }

  /**
   A fresh wall in spawn order (row by row, left to right): 5 rows of 6
   blocks, each with 2 lives, the block in row r and column c at
   (GridLeft + 21c, 10 + 4r).
   */
  function BlockGrid(res: DisplayResolution): (grid: seq<Block>)
    ensures |grid| == 30
    ensures forall i :: 0 <= i < |grid| ==> grid[i].lives == 2
    ensures forall row: nat, column: nat :: row < 5 && column < 6 ==>
      grid[row * 6 + column] == Block(Point(GridLeft(res) + 21 * column, 10 + 4 * row), 2)
  {
    var grid := seq(BLOCK_COUNT, i requires 0 <= i < BLOCK_COUNT => GridBlock(res, i / BLOCK_COLUMNS, i % BLOCK_COLUMNS));
    forall row: nat, column: nat | row < 5 && column < 6
      ensures grid[row * 6 + column] == Block(Point(GridLeft(res) + 21 * column, 10 + 4 * row), 2)
    {
      GridIndex(row, column);
    }
    grid
  }

  /** `spawn_blocks` as written: two nested loops appending one block at a time. */
  method SpawnBlockGrid(res: DisplayResolution) returns (blocks: seq<Block>)
    ensures blocks == BlockGrid(res)
  {
    var left := GridLeft(res);
    blocks := [];
    var row := 0;
    while row < BLOCK_ROWS
      invariant 0 <= row <= BLOCK_ROWS
      invariant blocks == BlockGrid(res)[..row * BLOCK_COLUMNS]
    {
      var column := 0;
      while column < BLOCK_COLUMNS
        invariant 0 <= column <= BLOCK_COLUMNS
        invariant blocks == BlockGrid(res)[..row * BLOCK_COLUMNS + column]
      {
        var x := left + column * COLUMN_STRIDE;
        var y := GRID_TOP + row * ROW_STRIDE;
        blocks := blocks + [Block(Point(x, y), BLOCK_LIVES)];
        column := column + 1;
      }
      row := row + 1;
    }
  }

  /** The `spawn_blocks` system: adds a fresh wall to the store. */
  function SpawnBlocks(w: World): (w': World)
    ensures w' == w.(blocks := w'.blocks)
    ensures |w'.blocks| == |w.blocks| + 30
    ensures w'.blocks[..|w.blocks|] == w.blocks
    ensures w'.blocks[|w.blocks|..] == BlockGrid(w.res)
  {
    w.(blocks := w.blocks + BlockGrid(w.res))
  }

  /** No two blocks of a fresh wall share a pixel. */
  lemma GridDisjoint(res: DisplayResolution)
    ensures forall i, j :: 0 <= i < j < |BlockGrid(res)| ==>
      !Overlaps(BlockRect(BlockGrid(res)[i]), BlockRect(BlockGrid(res)[j]))
  {
    var grid := BlockGrid(res);
    forall i, j | 0 <= i < j < |grid|
      ensures !Overlaps(BlockRect(grid[i]), BlockRect(grid[j]))
    {
      var ri, ci := i / 6, i % 6;
      var rj, cj := j / 6, j % 6;
      assert i == ri * 6 + ci && j == rj * 6 + cj;
      assert grid[i].pos == Point(GridLeft(res) + 21 * ci, 10 + 4 * ri);
      assert grid[j].pos == Point(GridLeft(res) + 21 * cj, 10 + 4 * rj);
      if ri == rj {
        assert ci < cj;
      } else {
        assert ri < rj;
      }
    }
  }

  /**
   On a display at least as wide as the wall (and narrow enough for its width
   to survive the cast to `i32`), every block lies within [0, width).
   */
  lemma GridWithinDisplay(res: DisplayResolution)
    requires GRID_WIDTH <= res.width < I32_LIMIT
    ensures forall i :: 0 <= i < |BlockGrid(res)| ==>
      0 <= BlockGrid(res)[i].pos.x && BlockRect(BlockGrid(res)[i]).Right() <= res.width
  {
    var grid := BlockGrid(res);
    forall i | 0 <= i < |grid|
      ensures 0 <= grid[i].pos.x && BlockRect(grid[i]).Right() <= res.width
    {
      var r, c := i / 6, i % 6;
      assert i == r * 6 + c;
      assert grid[i].pos.x == GridLeft(res) + 21 * c;
    }
  }

  /** The blocks that still have lives, in store order. */
  function LiveBlocks(blocks: seq<Block>): (live: seq<Block>)
    ensures AllAlive(live)
    ensures |live| == |blocks| - DeadCount(blocks)
    ensures forall b :: multiset(live)[b] == if b.lives > 0 then multiset(blocks)[b] else 0
    ensures forall b :: b in live <==> b in blocks && b.lives > 0
    ensures AllAlive(blocks) ==> live == blocks
  {
    if |blocks| == 0 then []
    else
      assert blocks == [blocks[0]] + blocks[1..];
      if blocks[0].lives == 0 then LiveBlocks(blocks[1..])
      else [blocks[0]] + LiveBlocks(blocks[1..])
  }

  /** The `remove_blocks` system: despawns exactly the blocks with no lives left. */
  function RemoveBlocks(w: World): (w': World)
    ensures w' == w.(blocks := w'.blocks)
    ensures AllAlive(w'.blocks)
    ensures forall b :: multiset(w'.blocks)[b] == if b.lives > 0 then multiset(w.blocks)[b] else 0
    ensures forall b :: b in w'.blocks <==> b in w.blocks && b.lives > 0
    ensures |w'.blocks| == |w.blocks| - DeadCount(w.blocks)
  {
    w.(blocks := LiveBlocks(w.blocks))
  }

  /** Removing dead blocks twice is removing them once. */
  lemma RemoveBlocksIdempotent(w: World)
    ensures RemoveBlocks(RemoveBlocks(w)) == RemoveBlocks(w)
  {
  }
}
