/** Concrete runs of the snake, derived from the contracts alone: a client
    of Grids and Snakes in the way main uses them. */
module Scenarios {
  import opened Tiles
  import opened Grids
  import opened Snakes

  /** From the centre, one step right lands on (10, 16) with the body still
      empty; after one growth and two more steps right, the single segment
      holds the head from just before the last step. */
  method RightFromCentre() {
    var grid := CreateGrid();
    var snake := new Snake(grid);
    assert snake.head.row == 10 && snake.head.col == 15;

    var d := snake.Move(Direction(1, 0), grid);
    assert snake.head == TileAt(10, 16) && snake.length == 0 && d == Direction(1, 0);

    snake.Increase();
    d := snake.Move(d, grid);
    var beforeLast := snake.head;
    d := snake.Move(d, grid);
    assert beforeLast == TileAt(10, 17);
    assert snake.length == 1 && snake.Body() == [beforeLast];
    assert snake.head == TileAt(10, 18);
  }

  /** Walking left into the wall: the step from column 0 is refused, the
      direction drops to (0, 0) and the snake stays put. */
  method LeftIntoWall() {
    var grid := CreateGrid();
    var snake := new Snake(grid);
    var d := Direction(-1, 0);
    var steps := 15;
    while steps > 0
      invariant 0 <= steps <= 15
      invariant snake.Valid() && fresh(snake.body) && snake.length == 0 && d == Direction(-1, 0)
      invariant snake.head == TileAt(10, steps) && IsGrid(grid)
    {
      d := snake.Move(d, grid);
      steps := steps - 1;
    }
    d := snake.Move(d, grid);
    assert d == STILL && snake.head == TileAt(10, 0);
  }
}
