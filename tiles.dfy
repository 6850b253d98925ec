/** Screen and grid geometry of the snake game: the compile-time constants,
    the Tile record and the row/column range every grid cell lies in. */
module Tiles {

  const WINDOW_WIDTH: int := 1500
  const WINDOW_HEIGHT: int := 1000
  const TILE_SIZE: int := 50

  /** Number of grid rows and columns (20 and 30). */
  const ROWS: int := WINDOW_HEIGHT / TILE_SIZE
  const COLS: int := WINDOW_WIDTH / TILE_SIZE

  /** On-screen footprint of a tile, in pixels. The source stores it as a
      float rectangle; every value it ever holds is an integer. */
  datatype Rect = Rect(x: int, y: int, width: int, height: int)

  /** A grid cell: its pixel rectangle, its row and its column. */
  datatype Tile = Tile(rec: Rect, row: int, col: int)

  predicate InGrid(row: int, col: int) {
    0 <= row < ROWS && 0 <= col < COLS
  }

  /** The tile that the grid holds at (row, col); create_fruit builds its
      tile with the same formula. */
  function TileAt(row: int, col: int): Tile {
    Tile(Rect(col * TILE_SIZE, row * TILE_SIZE, TILE_SIZE, TILE_SIZE), row, col)
  }

  /** A tile that is one of the grid's own tiles. */
  predicate OnGrid(t: Tile) {
    InGrid(t.row, t.col) && t == TileAt(t.row, t.col)
  }

  /** Grid cell picked from two raw values of the C library's rand(), which
      are never negative. The macros are not parenthesised, so
      `rand() % ROWS` reads `(rand() % WINDOW_HEIGHT) / TILE_SIZE`, and
      likewise for the column. */
  function RandomCell(randRow: nat, randCol: nat): (cell: (int, int))
    ensures InGrid(cell.0, cell.1)
  {
    ((randRow % WINDOW_HEIGHT) / TILE_SIZE, (randCol % WINDOW_WIDTH) / TILE_SIZE)
  }

  /** Every grid cell can be picked: RandomCell covers the whole grid. */
  lemma RandomCellCoversGrid(row: int, col: int)
    requires InGrid(row, col)
    ensures row * TILE_SIZE >= 0 && col * TILE_SIZE >= 0
    ensures RandomCell(row * TILE_SIZE, col * TILE_SIZE) == (row, col)
  {
  }
}
