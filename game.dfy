/** The game loop of main: each frame polls the four arrow keys, advances
    the frame counter, moves the snake every FRAMES_TO_WAIT frames and checks
    for a collected fruit. Window handling and drawing are not modelled;
    the keyboard and rand() become inputs of each frame. */
module Game {
  import opened Tiles
  import opened Grids
  import opened Snakes
  import opened Fruits

  const TARGET_FPS: int := 60
  const MOVES_PER_SECOND: int := 5
  /** Frames between two moves (12). */
  const FRAMES_TO_WAIT: int := TARGET_FPS / MOVES_PER_SECOND

  /** State of one key in a frame: held down, or pressed in this frame. */
  datatype Key = Key(isDown: bool, isPressed: bool)

  predicate Held(k: Key) {
    k.isDown || k.isPressed
  }

  datatype Keys = Keys(right: Key, left: Key, up: Key, down: Key)

  /** A key's state and the direction it selects. */
  datatype Binding = Binding(held: bool, dir: Direction)

  /** The keys in the order main checks them. */
  function Bindings(keys: Keys): seq<Binding> {
    [Binding(Held(keys.right), Direction(1, 0)),
     Binding(Held(keys.left), Direction(-1, 0)),
     Binding(Held(keys.up), Direction(0, -1)),
     Binding(Held(keys.down), Direction(0, 1))]
  }

  /** The direction after checking the bindings in order, each held key
      overwriting the direction; the result is the starting direction or the
      direction of some held key. */
  function Poll(d: Direction, bindings: seq<Binding>): (r: Direction)
    ensures r == d || exists i :: 0 <= i < |bindings| && bindings[i].held && r == bindings[i].dir
    decreases |bindings|
  {
    if bindings == [] then d
    else Poll(if bindings[0].held then bindings[0].dir else d, bindings[1..])
  }

  /** The last held key wins. */
  lemma {:induction false} PollLastHeld(d: Direction, bindings: seq<Binding>, i: int)
    requires 0 <= i < |bindings| && bindings[i].held
    requires forall j :: i < j < |bindings| ==> !bindings[j].held
    ensures Poll(d, bindings) == bindings[i].dir
    decreases |bindings|
  {
    if i > 0 {
      PollLastHeld(if bindings[0].held then bindings[0].dir else d, bindings[1..], i - 1);
    }
  }

  /** The direction after a frame's key checks. Starting from a keyboard
      direction, it stays one. */
  function KeyDirection(d: Direction, keys: Keys): (r: Direction)
    ensures IsUnit(d) ==> IsUnit(r)
    ensures !Held(keys.right) && !Held(keys.left) && !Held(keys.up) && !Held(keys.down) ==> r == d
  {
    Poll(d, Bindings(keys))
  }

  /** One frame of the move throttle: the counter goes up, and on reaching
      FRAMES_TO_WAIT it triggers a move and starts again from zero. */
  function Tick(counter: int): (r: (int, bool))
    ensures 0 <= counter < FRAMES_TO_WAIT ==>
      0 <= r.0 < FRAMES_TO_WAIT && (r.1 <==> counter == FRAMES_TO_WAIT - 1)
  {
    if counter + 1 >= FRAMES_TO_WAIT then (0, true) else (counter + 1, false)
  }

  /** Counter and number of moves after `frames` more frames. */
  function Ticks(counter: int, frames: nat): (int, nat)
  {
    if frames == 0 then (counter, 0)
    else
      var before := Ticks(counter, frames - 1);
      (Tick(before.0).0, before.1 + if Tick(before.0).1 then 1 else 0)
  }

  /** Moves come exactly once every FRAMES_TO_WAIT frames: the frames
      counted so far split into whole periods, one per move, and the
      counter's current value. */
  lemma {:induction false} TicksCadence(counter: int, frames: nat)
    requires 0 <= counter < FRAMES_TO_WAIT
    ensures 0 <= Ticks(counter, frames).0 < FRAMES_TO_WAIT
    ensures counter + frames == FRAMES_TO_WAIT * Ticks(counter, frames).1 + Ticks(counter, frames).0
  {
    if frames > 0 {
      TicksCadence(counter, frames - 1);
    }
  }

  /** `after` is `before`, followed by one more segment when `grew`. */
  ghost predicate Grown(before: seq<Tile>, after: seq<Tile>, grew: bool) {
    if grew then |after| == |before| + 1 && after[..|before|] == before
    else after == before
  }

  /** What the outside world supplies in one frame: the keyboard, and the
      two rand() values a fruit respawn would draw. */
  datatype FrameInput = FrameInput(keys: Keys, randRow: nat, randCol: nat)

  /** The state main owns. */
  class GameState {
    const grid: array2<Tile>
    const player: Snake
    const fruit: Fruit
    var direction: Direction
    var score: int
    var frameCounter: int

    /** The snake's head and the fruit are grid tiles, the direction is a
        keyboard direction, the counter is below the threshold and the score
        is the number of segments. */
    ghost predicate Valid()
      reads this, grid, player, fruit
    {
      IsGrid(grid) && player.Valid() &&
      OnGrid(player.head) && OnGrid(fruit.tile) &&
      IsUnit(direction) &&
      0 <= frameCounter < FRAMES_TO_WAIT &&
      score == player.length
    }

    /** The set-up part of main, with the two rand() values create_fruit
        draws. */
    constructor (randRow: nat, randCol: nat)
      ensures Valid()
      ensures fresh(grid) && fresh(player) && fresh(player.body) && fresh(fruit)
      ensures player.head == TileAt(10, 15) && player.length == 0
      ensures fruit.tile == TileAt(RandomCell(randRow, randCol).0, RandomCell(randRow, randCol).1)
      ensures direction == STILL && score == 0 && frameCounter == 0
    {
      var g := CreateGrid();
      grid := g;
      player := new Snake(g);
      fruit := new Fruit(randRow, randCol);
      direction := STILL;
      score := 0;
      frameCounter := 0;
    }

    /** The four key checks of main, in their order: each held key
        overwrites the direction. */
    method PollKeys(keys: Keys)
      modifies this`direction
      ensures direction == KeyDirection(old(direction), keys)
    {
      ghost var bindings := Bindings(keys);
      if Held(keys.right) {
        direction := Direction(1, 0);
      }
      assert Poll(old(direction), bindings) == Poll(direction, bindings[1..]);
      if Held(keys.left) {
        direction := Direction(-1, 0);
      }
      assert Poll(old(direction), bindings) == Poll(direction, bindings[2..]);
      if Held(keys.up) {
        direction := Direction(0, -1);
      }
      assert Poll(old(direction), bindings) == Poll(direction, bindings[3..]);
      if Held(keys.down) {
        direction := Direction(0, 1);
      }
      assert Poll(old(direction), bindings) == Poll(direction, bindings[4..]);
    }

    /** One pass of main's loop, without the drawing. */
    method Frame(input: FrameInput) returns (moved: bool)
      requires Valid()
      modifies this, player, player.body, fruit
      ensures Valid()
      ensures player.body == old(player.body) || fresh(player.body)
      ensures (frameCounter, moved) == Tick(old(frameCounter))
      ensures var polled := KeyDirection(old(direction), input.keys);
        if moved then (player.head, direction) == Advance(old(player.head), polled)
        else player.head == old(player.head) && direction == polled
      ensures var polled := KeyDirection(old(direction), input.keys);
        var shifted := if moved && !Blocked(old(player.head), polled)
          then Shifted(old(player.head), old(player.Body())) else old(player.Body());
        var collected := Collects(old(fruit.tile), player.head);
        Grown(shifted, player.Body(), collected) &&
        score == old(score) + (if collected then 1 else 0) &&
        fruit.tile == if collected then grid[RandomCell(input.randRow, input.randCol).0,
                                              RandomCell(input.randRow, input.randCol).1]
                      else old(fruit.tile)
    {
      frameCounter := frameCounter + 1;

      PollKeys(input.keys);

      moved := frameCounter >= FRAMES_TO_WAIT;
      if moved {
        direction := player.Move(direction, grid);
        frameCounter := 0;
      }

      score := FruitCollected(fruit, player, grid, score, input.randRow, input.randCol);
    }

    /** main's loop over a run of frames that ends when the window closes:
        the snake moved once every FRAMES_TO_WAIT frames, and the score never
        fell and rose by at most one per frame. */
    method Play(inputs: seq<FrameInput>) returns (moves: nat)
      requires Valid()
      modifies this, player, player.body, fruit
      ensures Valid()
      ensures old(frameCounter) + |inputs| == FRAMES_TO_WAIT * moves + frameCounter
      ensures old(score) <= score <= old(score) + |inputs|
    {
      ghost var start := frameCounter;
      moves := 0;
      var i := 0;
      while i < |inputs|
        invariant 0 <= i <= |inputs|
        invariant Valid()
        invariant player.body == old(player.body) || fresh(player.body)
        invariant (frameCounter, moves) == Ticks(start, i)
        invariant old(score) <= score <= old(score) + i
      {
        ghost var counter := frameCounter;
        var moved := Frame(inputs[i]);
        assert (frameCounter, moved) == Tick(counter);
        if moved {
          moves := moves + 1;
        }
        assert Ticks(start, i + 1) == (frameCounter, moves);
        i := i + 1;
      }
      TicksCadence(start, |inputs|);
    }
  }
}
