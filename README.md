# Grid exploration demo — model of the field and player state engine

The program shows an 80 × 25 field of `'.'` cells in a terminal. The player
(`@`) moves with the arrow keys, and one randomly placed special tile `'#'`
waits somewhere on the field. When the player steps onto it, a bordered
"battle" overlay appears and waits for any key. Then the player is put back
at the centre, the old `'#'` is swept away, and a new special tile is placed.
Escape ends the program.

This project models that engine in `game.cpp`:

- the field buffer, a fixed `char[25][80]`;
- the player's and the special tile's coordinates;
- `placeSpecialTile`'s rejection-sampling loop;
- the key switch;
- the hit check and the reset that follows the overlay.

It has three modules:

- `Field` (`field.dfy`) — the field as a value (`seq<seq<char>>`): the
  initial field, the sweep, placing the tile, counting cells, and the
  invariant `OnlySpecialAt` (the one `'#'` is at the given cell and every
  other cell is `'.'`).
- `Movement` (`movement.dfy`) — the keys (`Up`, `Down`, `Left`, `Right`,
  `Esc`, `Other`) and the guarded one-cell move.
- `Exploration` (`game.dfy`) — class `Game`. It holds the buffer as an
  `array2<char>` indexed `[row, column]`, the four coordinates, and the
  random-number stream. Its methods fill, sweep and write the buffer in place
  and move the player field by field, as `main` does. Each method is proved
  against the `Field` and `Movement` functions, through the ghost view
  `Grid()` of the buffer. The event loop is proved against `Play`, a ghost
  function that gives the outcome of the loop for any sequence of keys.

Randomness: after `srand`, `rand()` returns a fixed sequence, so the model
takes that sequence as a constant `rand: nat -> nat`. The k-th pair of calls
gives the column `rand(2k) % 80` and the row `rand(2k+1) % 25`, in that order
(both values are non-negative, so C's `%` and Dafny's agree). The field
`drawn` counts the pairs used so far.

The `do … while` loop ends only when some pair misses the player. Placement
therefore requires `AcceptedFrom`: some later pair misses the player. The
game requires `LeavesCentre`: from every point in the stream, some later pair
misses the centre. The centre is where the player always stands when a tile
is placed.

`game.cpp` has no wall tiles, no collision and no mode variable. The overlay
is the point in the loop where the program waits for a key, so the model has
none of these either. Following the code, the key that
closes the overlay can be any key, including Escape. `Run` consumes it
without looking at it.

## Model

| member | source | states |
|---|---|---|
| `Exploration.Game.Init` | game.cpp:63-77 | The field is all `'.'` apart from the one special tile. The player starts at the centre (40, 12). The tile sits at the first pair of draws that misses the player. The `Exploring` invariant holds. |
| `Field.Blank` | game.cpp:65-70 | The freshly filled field has 25 rows of 80 cells, and every cell is `'.'`. |
| `Field.BlankHasNoSpecial` | game.cpp:65-70 | The freshly filled field holds no `'#'` at all. |
| `Exploration.Game.PlaceSpecial` | game.cpp:46-53 | The loop stops at the first pair of draws, from the current point in the stream, that is not the player's cell. Every earlier pair hit the player. The chosen cell is in bounds and not the player's. The buffer equals the old buffer with `'#'` at that cell, and no other cell changes. |
| `Exploration.Game.WriteSpecial` | game.cpp:52 | The buffer equals the old buffer with `'#'` at `(specialX, specialY)`, and no other cell changes. |
| `Field.Placed` | game.cpp:52 | After the tile is written, the chosen cell holds `'#'` and every other cell is unchanged. |
| `Exploration.DrawX` | game.cpp:48 | The column `rand() % WIDTH` drawn by a pair of calls is in `[0, 80)`. |
| `Exploration.DrawY` | game.cpp:49 | The row `rand() % HEIGHT` drawn by a pair of calls is in `[0, 25)`. |
| `Exploration.FirstAccepted` | game.cpp:47-50 | The pair at which the sampling loop stops is the first pair, from the starting point on, that misses the player. It misses the player, and every earlier pair hit the player. |
| `Exploration.FirstAcceptedUnique` | game.cpp:47-50 | Any pair that misses the player, with every earlier pair hitting it, is exactly `FirstAccepted`, so the loop's stopping point is unique. |
| `Exploration.Sample` | game.cpp:47-50 | The do-while loop returns the cell drawn by `FirstAccepted` and the index just past it. The cell is in bounds and is not the player's. |
| `Movement.Move` | game.cpp:84-96 | An in-bounds player stays in bounds. From inside the field, an arrow key moves to the adjacent cell in its direction exactly when that cell is inside the field; otherwise the position is unchanged. Non-arrow keys never move. A move changes at most one coordinate, by exactly one. |
| `Movement.RefusedMoveIsStable` | game.cpp:86-95 | A move refused at the edge (for example Left at x = 0) leaves the position unchanged, and the same key pressed again is refused again. |
| `Exploration.Game.Step` | game.cpp:82-103 | Escape quits and nothing changes. Otherwise the new position is `Move` of the old one. Neither the field nor the special tile changes. `hit` holds exactly when the player now stands on the special tile. Without a hit the `Exploring` invariant still holds. |
| `Exploration.Game.SweepSpecial` | game.cpp:110-114 | The buffer after the nested sweep equals `Swept` of the buffer before it. |
| `Field.Cleared` | game.cpp:112 | The per-cell sweep never yields `'#'`. It turns `'#'` into `'.'` and leaves every other character unchanged. |
| `Field.Swept` | game.cpp:110-114 | Every `'#'` cell becomes `'.'`, and every other cell keeps its character. |
| `Field.SweptHasNoSpecial` | game.cpp:110-114 | After the sweep no `'#'` remains: the count of `'#'` cells is 0. |
| `Field.SweptOnlySpecialIsBlank` | game.cpp:108-114 | Under the game's invariant, the sweep gives back exactly the freshly filled field. |
| `Exploration.Game.ResetAfterOverlay` | game.cpp:107-115 | The player is back at the centre. The new special tile is not at the centre and was placed by the first pair of draws that misses it. The field is the fresh field plus that one tile. The `Exploring` invariant holds again. |
| `Field.PlacedOnBlank` | game.cpp:75-77 | Placing the tile on the fresh field gives exactly one `'#'`, at the chosen cell, with every other cell `'.'`. |
| `Field.OnlySpecialAtCountsOne` | game.cpp:103-115 | Under the invariant, the field holds exactly one `'#'` cell, and every cell is `'.'` or `'#'`. |
| `Field.OnlySpecialAtIsPlacedOnBlank` | game.cpp:103-115 | Under the invariant, the field is exactly the freshly filled field with `'#'` written at the special tile's cell. |
| `Field.OnlySpecialAtUnique` | game.cpp:103 | The field determines the special tile's coordinates, so the hit check compares against the only `'#'` cell. |
| `Exploration.PlayKeepsInvariant` | game.cpp:79-119 | For every key sequence, the reference loop `Play` reads keys in order and stops early only right after an Escape read while exploring. The player and the tile stay in the field. They end on the same cell only when the keys ran out while the overlay was shown. The draw counter never goes back. |
| `Exploration.Game.Turn` | game.cpp:82-116 | One pass of the loop. Escape stops it with nothing changed. Otherwise the player moves. On a hit, the next key is consumed and the reset runs. If no key is left, the loop stops with the overlay shown. The result agrees with one step of `Play`, and the invariant is kept. |
| `Exploration.Game.Run` | game.cpp:79-119 | The final `quit`, the number of keys used, the player, the special tile and the draw counter are exactly what `Play` gives for the keys. An Escape read while exploring therefore ends the loop. The field is the fresh field plus the one tile. The loop ends in the `Exploring` state unless the keys ran out while the overlay was showing. |

## Left out

- `drawField` and `drawBorder` (game.cpp:12-44) are left out. They only draw the screen and hold no state.
- The ncurses calls (`initscr`, `curs_set`, `keypad`, `noecho`, `endwin`) are left out; they are terminal I/O.
- `getch` is replaced by the `Key` datatype and by the key sequence given to `Run`. Raw key codes other than the four arrows and 27 all become `Other`.
- `usleep(50000)` is left out. It only sets the pace and does not affect the state.
- `srand(time(0))` is left out, and so is any claim about how `rand()` is distributed. The seeded random stream is a parameter of the model.
- `Exploration.Game.Run`: the program blocks in `getch` forever. The model's loop instead ends when its finite key sequence runs out, which can happen while the overlay is waiting for a key.
- `Exploration.Game.Init`: requires `LeavesCentre`, which says that from every point in the random stream some later pair of draws misses the centre. This is stronger than start-up alone needs. It leaves out every stream on which some later placement would spin forever; the source loops for ever there.
- `Exploration.Game.PlaceSpecial` and `Exploration.Sample`: the model assumes that some later draw misses the player (`AcceptedFrom`). If no draw ever did, the source's loop would never end, and the model does not cover that case.
- Integer width: every coordinate stays within `[0, 80) × [0, 25)`, so C's `int` cannot overflow and the model uses unbounded integers.
