# Snake game logic in Dafny

A model of the game logic of a small raylib snake game (`snake.c`). A snake
moves on a 20 x 30 grid of 50-pixel tiles (a 1500 x 1000 window). The
arrow keys set its direction. It moves one cell every 12 frames (60 frames
per second, 5 moves per second). When its head reaches the fruit, it grows
by one segment, the fruit jumps to a random cell and the score goes up by
one. A step off the grid is refused: the direction drops to (0, 0) and the
snake stays where it is. This is the game's only collision handling.

Modules, in dependency order:

- `Tiles` (`tiles.dfy`): the window, tile and grid constants; the `Tile`
  record with its integer pixel rectangle; `TileAt`, the tile formula shared
  by `create_grid` and `create_fruit`; `RandomCell`, the cell drawn from two
  `rand()` values.
- `Grids` (`grids.dfy`): `create_grid`, which fills a fresh `array2<Tile>`
  with two nested loops. `IsGrid` states what the table holds.
- `Snakes` (`snakes.dfy`): the `Direction` record; the bounds test and the
  new head and direction it yields (`Advance`); the one-step body shift
  (`Shifted`); and class `Snake`, whose fields are the head, the body array
  and the length. Its methods are `create_snake`, `increase_snake` and
  `move_snake`. `Move` shifts the body array in place with the carried
  `previous`/`tmp` pair of the source.
- `Fruits` (`fruits.dfy`): class `Fruit` (`create_fruit`, `update_fruit`), the
  collection test `Collects` and `fruit_collected`.
- `Game` (`game.dfy`): one frame of `main`'s loop without the drawing. It
  covers the key checks in the order right, left, up, down, the frame
  counter, the move and the fruit check. It also has the loop itself, run
  over a finite sequence of frame inputs that ends when the window closes.
  Class `GameState` holds what `main` owns. Its `Valid()` states the game's
  invariants: the head and the fruit are grid tiles, the direction is one of
  the five keyboard directions, the counter is below 12, and the score
  equals the number of body segments.
- `Scenarios` (`scenarios.dfy`): two client methods that derive concrete runs
  from the contracts alone. One starts at the centre (10, 15), steps right,
  grows, and checks that the one segment holds the previous head. The other
  walks left into the wall and is stopped there.

Inputs from outside the program become parameters. The keyboard is a `Keys`
value per frame, with "held down" and "pressed this frame" for each arrow.
Each call of `rand()` is a `nat` parameter; the C library's `rand()` is never
negative. The macros `ROWS` and `COLS` are not parenthesised, so
`rand() % ROWS` reads `(rand() % 1000) / 50`. `RandomCell` writes that
expansion out, and its contract proves the result is still a grid cell.

Decisions where the source is undefined or easy to misread:

- `move_snake` reads and writes `body[0]` even when the body is empty
  (snake.c:133-135). The game starts with an empty body (snake.c:95-96), so
  this happens on every move before the first fruit is eaten, which in almost
  every game includes the first move. The model guards the shift with
  `length > 0`. A precondition would make those moves uncallable.
- `increase_snake` leaves the new last segment uninitialised. `Increase`
  copies the old segments into a fresh array one longer. Its contract says
  nothing about the last slot.
- The early exit in `fruit_collected` (snake.c:178) looks as if it could
  suppress a real match. It cannot: it needs both differences strictly
  positive, and equal cells have both differences zero. The model keeps the
  early exit as written. `Collects` proves the test equals plain equality of
  row and column.
- In `Direction`, `x` is the column step and `y` the row step. So (0, -1)
  moves up and the left move is (-1, 0).
  `Scenarios.LeftIntoWall` uses (-1, 0).

## Model

| member | source | states |
|---|---|---|
| Tiles.RandomCell | snake.c:146-147 | the cell drawn as `(rand() % 1000) / 50`, `(rand() % 1500) / 50` always lies in [0,20) x [0,30) |
| Tiles.RandomCellCoversGrid | snake.c:170-171 | every grid cell (r, c) can be drawn, for example from the rand values r*50 and c*50 |
| Grids.CreateGrid | snake.c:42-60 | a fresh 20 x 30 table whose (r, c) tile is `TileAt(r, c)` (snake.c:51-52): row r, column c and rectangle (c*50, r*50, 50, 50) |
| Snakes.Advance | snake.c:115-129 | with the bounds test `Blocked` (snake.c:115-119): a step leaving [0,20) x [0,30) keeps the head and yields direction (0,0); any other step lands on the grid tile at (row+y, col+x) and keeps the direction; a head on the grid stays on it; a keyboard direction stays one |
| Snakes.Shifted | snake.c:133-141 | one shift keeps the length, puts the old head in segment 0 and the old segment i-1 in segment i |
| Snakes.ShiftAllTrail | snake.c:125-141 | after n moves without growth the body is the n previous heads, most recent first, then the oldest segments, cut to the body's length |
| Snakes.Snake.constructor | snake.c:90-99 | a new snake has its head on grid tile (10, 15), the centre, and an empty body |
| Snakes.Snake.Increase | snake.c:107-111 | length goes up by exactly 1, the old segments are kept in order, the head is unchanged |
| Snakes.Snake.Move | snake.c:113-142 | head and returned direction are those of `Advance`; a blocked move leaves the body unchanged, any other rewrites it in place to `Shifted(old head, old body)`; the length is unchanged |
| Fruits.Collects | snake.c:176-181 | the early exit never hides a match: the test holds exactly when the fruit's row and column equal the head's |
| Fruits.Fruit.constructor | snake.c:144-156 | the first fruit is the tile `TileAt` of a random cell, the grid's own formula (snake.c:149-152), hence a grid tile |
| Fruits.Fruit.Update | snake.c:168-174 | the fruit becomes the grid's tile at a random cell, hence a grid tile |
| Fruits.FruitCollected | snake.c:176-186 | on a match the snake grows by one keeping its segments, the fruit respawns at the random cell and the score rises by 1; otherwise fruit, snake and score are unchanged |
| Game.Poll | snake.c:210-225 | checking the keys in the order `Bindings` lists them (right, left, up, down) yields the starting direction or the direction of some held key; so with no key held the direction is kept |
| Game.PollLastHeld | snake.c:210-225 | the result is the direction of the last held key in checking order |
| Game.KeyDirection | snake.c:210-225 | a keyboard direction stays one of (0,0), (+-1,0), (0,+-1) after the key checks; with no key held it is unchanged |
| Game.Tick | snake.c:227-231 | from a counter in [0,12) the next counter is in [0,12), and a move is triggered exactly when the counter was 11 |
| Game.TicksCadence | snake.c:202-231 | over any number of frames, frames = 12 * moves + final counter: exactly one move per 12 frames |
| Game.GameState.constructor | snake.c:188-203 | the start state: snake on (10,15) with no body, a random grid fruit, direction (0,0), score and counter 0, all invariants holding |
| Game.GameState.PollKeys | snake.c:210-225 | the four sequential key checks leave exactly `KeyDirection` of the old direction |
| Game.GameState.Frame | snake.c:207-238 | one frame keeps the invariants; the counter follows `Tick`; on a move the head and direction follow `Advance` from the polled direction; the body is the shifted (or unmoved) body, one segment longer and with score+1 and a respawned fruit exactly when the head is on the fruit |
| Game.GameState.Play | snake.c:207-240 | the loop keeps the invariants, and old counter + frames = 12 * moves + new counter |

## Left out

- Drawing and windowing (`draw_grid_background`, `draw_snake`, `draw_fruit`, `InitWindow`, `BeginDrawing`/`EndDrawing`, `DrawText`, `SetTargetFPS`, `WindowShouldClose`, `CloseWindow`): these are calls into the raylib library. The window-close test becomes the end of the input sequence given to `Play`.
- Colours of grid cells, and the float type of `Rectangle`: colours only affect drawing, and every rectangle value the program builds is an integer, so the model stores integers.
- `malloc`, `realloc`, `free` and `delete_grid`, `delete_snake`, `delete_fruit`: allocation failure is unchecked in the source and memory lifetime is not game behaviour. Dafny arrays take their place; `Increase` allocates the longer array and copies.
- `srand(time(NULL))` and the distribution of `rand()`: only the range of each drawn value is kept, as a `nat` parameter.
- Frame timing and vsync: only the integer frame counter is modelled.
- Integer widths: C `int` overflow of the score, the frame counter and `row + y` is not modelled. The counter stays below 12, and rows, columns and directions are small.
- Snakes.Snake.Increase: says nothing about the new last segment. The source leaves it uninitialised, and the model's fresh array holds a default tile there.
- Game.GameState.Play: the final head, body, fruit and direction are constrained only by `Valid()` (grid tiles, a keyboard direction, score equal to the body length); each frame's exact effect is `Frame`'s contract, which the loop does not compose over the whole run.
