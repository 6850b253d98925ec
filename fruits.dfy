/** The fruit: one tile, moved to a random grid cell each time the snake's
    head reaches it (create_fruit, update_fruit, fruit_collected). */
module Fruits {
  import opened Tiles
  import opened Grids
  import opened Snakes

  /** The test of fruit_collected. It first gives up when the fruit lies
      strictly right of and strictly below the head, and then asks for equal
      row and column. The early exit never fires on equal cells, so the test
      is plain equality of row and column. */
  function Collects(fruit: Tile, head: Tile): (hit: bool)
    ensures hit <==> fruit.row == head.row && fruit.col == head.col
  {
    if fruit.col - head.col > 0 && fruit.row - head.row > 0 then false
    else fruit.col == head.col && fruit.row == head.row
  }

  class Fruit {
    var tile: Tile

    /** create_fruit: a tile built from a random cell, with the same formula
        the grid uses. */
    constructor (randRow: nat, randCol: nat)
      ensures tile == TileAt(RandomCell(randRow, randCol).0, RandomCell(randRow, randCol).1)
      ensures OnGrid(tile)
    {
      var cell := RandomCell(randRow, randCol);
      tile := TileAt(cell.0, cell.1);
    }

    /** update_fruit: the fruit moves to the grid tile of a random cell. */
    method Update(grid: array2<Tile>, randRow: nat, randCol: nat)
      requires IsGrid(grid)
      modifies this
      ensures tile == grid[RandomCell(randRow, randCol).0, RandomCell(randRow, randCol).1]
      ensures OnGrid(tile)
    {
      var cell := RandomCell(randRow, randCol);
      tile := grid[cell.0, cell.1];
    }
  }

  /** fruit_collected: when the head is on the fruit, the snake grows, the
      fruit respawns and the score goes up by one; otherwise nothing changes.
      The score is passed in and handed back instead of through a pointer. */
  method FruitCollected(fruit: Fruit, player: Snake, grid: array2<Tile>, score: int,
                        randRow: nat, randCol: nat)
    returns (newScore: int)
    requires player.Valid() && IsGrid(grid)
    modifies fruit, player
    ensures player.Valid()
    ensures player.head == old(player.head)
    ensures Collects(old(fruit.tile), player.head) ==>
      newScore == score + 1 &&
      player.length == old(player.length) + 1 && fresh(player.body) &&
      player.Body()[..old(player.length)] == old(player.Body()) &&
      fruit.tile == TileAt(RandomCell(randRow, randCol).0, RandomCell(randRow, randCol).1)
    ensures !Collects(old(fruit.tile), player.head) ==>
      newScore == score && fruit.tile == old(fruit.tile) &&
      player.length == old(player.length) && player.body == old(player.body) &&
      player.Body() == old(player.Body())
    ensures OnGrid(old(fruit.tile)) ==> OnGrid(fruit.tile)
  {
    newScore := score;
    if fruit.tile.col - player.head.col > 0 && fruit.tile.row - player.head.row > 0 {
      return;
    }
    if fruit.tile.col == player.head.col && fruit.tile.row == player.head.row {
      player.Increase();
      fruit.Update(grid, randRow, randCol);
      newScore := newScore + 1;
    }
  }
}
