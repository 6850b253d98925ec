/** The snake: a head tile and a body array of `length` segments, moved one
    cell at a time by a shift register (move_snake) and grown by one
    segment per fruit (increase_snake). */
module Snakes {
  import opened Tiles
  import opened Grids

  /** A step in columns (x) and rows (y). */
  datatype Direction = Direction(x: int, y: int)

  const STILL := Direction(0, 0)

  /** The directions the keyboard can produce. */
  predicate IsUnit(d: Direction) {
    d == STILL || d == Direction(1, 0) || d == Direction(-1, 0) ||
    d == Direction(0, 1) || d == Direction(0, -1)
  }

  /** The bounds test of move_snake: the step would leave the grid. */
  predicate Blocked(head: Tile, d: Direction) {
    head.row + d.y < 0 || head.row + d.y > ROWS - 1 ||
    head.col + d.x < 0 || head.col + d.x > COLS - 1
  }

  /** New head and new direction after one move: a blocked step stops the
      snake where it is, any other step lands on the neighbouring grid tile
      and keeps the direction. */
  function Advance(head: Tile, d: Direction): (r: (Tile, Direction))
    ensures !InGrid(head.row + d.y, head.col + d.x) ==> r == (head, STILL)
    ensures InGrid(head.row + d.y, head.col + d.x) ==>
      r.1 == d && OnGrid(r.0) && r.0.row == head.row + d.y && r.0.col == head.col + d.x
    ensures OnGrid(head) ==> OnGrid(r.0)
    ensures IsUnit(d) ==> IsUnit(r.1)
  {
    if Blocked(head, d) then (head, STILL)
    else (TileAt(head.row + d.y, head.col + d.x), d)
  }

  /** The body after one shift: the first segment takes the old head and
      every other segment the one ahead of it; the last segment's old value
      drops out. */
  function Shifted(head: Tile, body: seq<Tile>): (r: seq<Tile>)
    ensures |r| == |body|
    ensures |body| > 0 ==> r[0] == head
    ensures forall i :: 1 <= i < |body| ==> r[i] == body[i - 1]
  {
    if body == [] then [] else [head] + body[..|body| - 1]
  }

  function Reverse(s: seq<Tile>): (r: seq<Tile>)
    ensures |r| == |s|
  {
    if s == [] then [] else [s[|s| - 1]] + Reverse(s[..|s| - 1])
  }

  /** The body after one shift per head in `heads`, oldest first: `heads[k]`
      is the head just before the k-th move. */
  function ShiftAll(body: seq<Tile>, heads: seq<Tile>): seq<Tile>
  {
    if heads == [] then body
    else Shifted(heads[|heads| - 1], ShiftAll(body, heads[..|heads| - 1]))
  }

  /** After n moves with no growth, the body holds the n most recent
      previous heads, most recent first, followed by the oldest segments,
      cut to the body's length. */
  lemma {:induction false} ShiftAllTrail(body: seq<Tile>, heads: seq<Tile>)
    ensures ShiftAll(body, heads) == (Reverse(heads) + body)[..|body|]
  {
    if heads != [] {
      var h, earlier := heads[|heads| - 1], heads[..|heads| - 1];
      ShiftAllTrail(body, earlier);
      var before := (Reverse(earlier) + body)[..|body|];
      assert Reverse(heads) == [h] + Reverse(earlier);
      if |body| > 0 {
        calc {
          ShiftAll(body, heads);
          Shifted(h, before);
          [h] + before[..|body| - 1];
          { assert before[..|body| - 1] == (Reverse(earlier) + body)[..|body| - 1]; }
          [h] + (Reverse(earlier) + body)[..|body| - 1];
          { assert [h] + (Reverse(earlier) + body) == Reverse(heads) + body; }
          (Reverse(heads) + body)[..|body|];
        }
      }
    }
  }

  class Snake {
    var head: Tile
    var body: array<Tile>
    var length: nat

    /** The body array holds exactly `length` segments. */
    ghost predicate Valid()
      reads this
    {
      body.Length == length
    }

    ghost function Body(): seq<Tile>
      reads this, body
    {
      body[..]
    }

    /** create_snake: a bodiless snake on the centre tile. */
    constructor (grid: array2<Tile>)
      requires IsGrid(grid)
      ensures Valid() && fresh(body)
      ensures head == TileAt(10, 15) && head == grid[ROWS / 2, COLS / 2]
      ensures length == 0 && Body() == []
    {
      head := grid[ROWS / 2, COLS / 2];
      length := 0;
      body := new Tile[0];
    }

    /** increase_snake: one more segment. The array is reallocated and the
        old segments copied; the new last segment is left unspecified. */
    method Increase()
      requires Valid()
      modifies this
      ensures Valid() && fresh(body)
      ensures length == old(length) + 1
      ensures Body()[..old(length)] == old(Body())
      ensures head == old(head)
    {
      length := length + 1;
      var grown := new Tile[length];
      var i := 0;
      while i < body.Length
        invariant 0 <= i <= body.Length
        invariant grown[..i] == body[..i]
        modifies grown
      {
        grown[i] := body[i];
        i := i + 1;
      }
      body := grown;
    }

    /** move_snake. A blocked step zeroes the direction and leaves the snake
        alone; otherwise the head moves to the neighbouring grid tile and the
        body shifts one place, each segment taking the value ahead of it. The
        source reads and writes body[0] even when the body is empty; here the
        shift is guarded by length > 0. */
    method Move(direction: Direction, grid: array2<Tile>) returns (newDirection: Direction)
      requires Valid() && IsGrid(grid)
      modifies this, body
      ensures Valid() && body == old(body) && length == old(length)
      ensures (head, newDirection) == Advance(old(head), direction)
      ensures Blocked(old(head), direction) ==> Body() == old(Body())
      ensures !Blocked(old(head), direction) ==> Body() == Shifted(old(head), old(Body()))
    {
      if Blocked(head, direction) {
        newDirection := STILL;
        return;
      }
      newDirection := direction;
      var previous := head;
      head := grid[head.row + direction.y, head.col + direction.x];
      if length > 0 {
        ghost var before := body[..];
        var tmp := body[0];
        body[0] := previous;
        previous := tmp;
        var i := 1;
        while i < length
          invariant 1 <= i <= length
          invariant previous == before[i - 1]
          invariant body[0] == old(head)
          invariant forall k :: 1 <= k < i ==> body[k] == before[k - 1]
          invariant forall k :: i <= k < length ==> body[k] == before[k]
          modifies body
        {
          tmp := body[i];
          body[i] := previous;
          previous := tmp;
          i := i + 1;
        }
      }
    }
  }
}
