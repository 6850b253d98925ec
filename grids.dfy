/** The ROWS x COLS table of tiles built once at start-up (create_grid). The
    fill and outline colours of each cell are not modelled. */
module Grids {
  import opened Tiles

  /** `grid` is exactly the table create_grid builds: ROWS x COLS, with the
      tile for (r, c) at grid[r, c]. */
  ghost predicate IsGrid(grid: array2<Tile>)
    reads grid
  {
    grid.Length0 == ROWS && grid.Length1 == COLS &&
    forall r, c :: 0 <= r < ROWS && 0 <= c < COLS ==> grid[r, c] == TileAt(r, c)
  }

  /** Fills a fresh table row by row, column by column. */
  method CreateGrid() returns (grid: array2<Tile>)
    ensures fresh(grid)
    ensures grid.Length0 == ROWS && grid.Length1 == COLS
    ensures forall r, c :: 0 <= r < ROWS && 0 <= c < COLS ==>
      grid[r, c].row == r && grid[r, c].col == c &&
      grid[r, c].rec == Rect(c * TILE_SIZE, r * TILE_SIZE, TILE_SIZE, TILE_SIZE)
    ensures IsGrid(grid)
  {
    grid := new Tile[ROWS, COLS];
    var row := 0;
    while row < ROWS
      invariant 0 <= row <= ROWS
      invariant forall r, c :: 0 <= r < row && 0 <= c < COLS ==> grid[r, c] == TileAt(r, c)
    {
      var col := 0;
      while col < COLS
        invariant 0 <= col <= COLS
        invariant forall r, c :: 0 <= r < row && 0 <= c < COLS ==> grid[r, c] == TileAt(r, c)
        invariant forall c :: 0 <= c < col ==> grid[row, c] == TileAt(row, c)
      {
        grid[row, col] := Tile(Rect(col * TILE_SIZE, row * TILE_SIZE, TILE_SIZE, TILE_SIZE), row, col);
        col := col + 1;
      }
      row := row + 1;
    }
  }
}
