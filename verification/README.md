# Battleships: a Dafny model of the game logic

A model of the two-player Battleships game. Its presentation layer (tkinter
widgets, colours, mouse bindings, message boxes) is stripped away. What is
left is the game logic:

- **Grids** (`grid.dfy`): the flat list of squares built column by column. It
  also holds the `x * size + y` arithmetic that `get_square` uses to find a
  square, with Python's negative-index wrap-around written out.
- **Players** (`players.dfy`): the player record, which holds the ship cells,
  the fired cells, the orientation, the index of the ship being placed and the
  one-shot-per-turn flag. Around it are ship placement (`find_coordinates`,
  `place_ship`, `flip_orientation`), firing (`handle_fired`) and the hit/miss
  classification drawn by the two screens.
- **Games** (`games.dfy`): the match as a state machine.
  - Player one places ships, then player two, then turns alternate.
  - Each turn shows the defender's own board first. If the defender has lost,
    the game is decided there. Otherwise the opponent screen follows, and the
    defender fires one shot.
  - Every delayed callback (`after(2000, …)`, `after(3000, …)`) is the explicit
    `Advance` event.
  - The new-game question is the `Answer(newGame)` event, and closing the
    window is the `Closed` phase.
- **Coords** and **Optional**: the coordinate pair and an option type. The
  option type stands for Python's IndexError and ValueError outcomes.

Behaviour of the code worth knowing:
- `handle_fired` has no already-fired check and no out-of-bounds check. Shots
  stay duplicate-free only because the opponent screen arms only unfired
  squares. Clicks only ever come from squares on the board.
- A placement after the last ship, or one that overlaps, returns silently with
  no error value.
- The game-over test runs when the defender's own board is shown, after the
  pending switch that follows a shot.

## Model

| member | source | states |
|---|---|---|
| Grids.NewGrid | Grid.py:13-25 | The built list has size*size squares. The square at flat position i was created at column i / size, row i % size, which is the x-outer, y-inner append order. |
| Grids.SquareIndexBounds | Grid.py:42 | For 0 <= x, y < size the index x*size + y lies in [0, size*size). |
| Grids.SquareIndexInjective | Grid.py:37-42 | Two in-grid coordinates with the same index are the same coordinate. |
| Grids.SquareIndexOnto | Grid.py:37-42 | Every index in [0, size*size) is reached by the in-grid coordinate (i / size, i % size). With injectivity, the mapping is a bijection between board cells and squares. |
| Grids.GetSquareFindsCell | Grid.py:37-42 | On a grid built by NewGrid, get_square(x, y) of an in-grid coordinate never raises and returns the square created at column x, row y. |
| Players.NewPlayer | Player.py:10-17 | A new player has no ship cells and no shots, is at ship index 0, is oriented vertically, has not fired, and satisfies the layout invariant. |
| Players.GetShipSize | Player.py:94-95 | The current ship length exists iff ships remain. It is then SHIP_SIZES[index], which is positive. |
| Players.Candidates | Player.py:67-92 | The result is empty once every ship is placed. A non-empty result has get_ship_size cells in a consecutive run along the orientation axis, starting at min(anchor, size - length), with the other coordinate fixed. It is empty exactly when a cell of the run is already occupied. It never overlaps placed ships and has no duplicates. For an in-grid anchor and a board at least as long as the current ship, it lies inside the grid. |
| Players.FindCoordinates | Player.py:67-92 | The clamp and the loop with its early return on the first occupied cell compute exactly the candidate cells. |
| Players.ClampAtBottomEdge | Player.py:71-85 | On a 10x10 board the 5-long first ship anchored vertically at (0, 9) occupies (0,5) to (0,9). |
| Players.PlaceShip | Player.py:52-64 | An empty candidate list changes nothing and does not call `after`. Otherwise the candidate cells are appended and the index advances by one. `after` runs exactly when this commit makes the index reach len(SHIP_SIZES). The index only moves forward. |
| Players.PlaceShipKeepsLayout | Player.py:52-64 | Placement keeps the layout duplicate-free and its cell count equal to the sum of SHIP_SIZES[0..index). If the existing ship cells are on the board, the anchor is in the grid and the board is at least as long as the current ship, every ship cell stays on the board. |
| Players.FlipOrientation | Player.py:34-38 | Only `vertical` changes, and it is negated. |
| Players.HandleFired | Player.py:150-158 | While `fired` is set, nothing changes and nothing is scheduled. Otherwise exactly the clicked cell is appended, `fired` is set and the switch is scheduled. No other field changes, and there is no duplicate check. |
| Players.DisplayOpponentScreen | Player.py:118-148 | `fired` is cleared. The armed squares are exactly the board cells not yet fired at. Cells already fired at are marked, and a mark is Hit iff the cell is one of the opponent's ship cells. |
| Players.PlayerScreenExact | Player.py:97-116 | With duplicate-free lists, the remove-based miss computation never raises. The hits are the ship cells the opponent fired at. The misses are exactly the opponent's shots outside the ship cells, in firing order. |
| Games.IsGameOver | main.py:31-40 | The loop with break reports game over iff every ship cell of the current player is among the other player's shots. This is vacuously true for an empty layout. |
| Games.NewGame | main.py:14-22 | A new game has two fresh players, starts with player one placing, and satisfies the game invariant. |
| Games.StepKeepsInv | main.py:14-59 | Every input keeps the game invariant, listed after this table. |
| Games.Reachable | main.py:14-59 | In every state reachable from a new game, layouts are well formed and on the board, and neither player's shot list has a duplicate. |
| Games.PlacementOrder | main.py:21-22 | Placing(One) moves only to Placing(Two). Placing(Two) moves only to player one's turn, never to game over, because player two has fired nothing yet. A phase change happens only on a left click that commits the placer's last ship, moving their index from len(SHIP_SIZES) - 1 to len(SHIP_SIZES). |
| Games.TurnsAlternate | main.py:42-59 | After a shot, the pending switch goes to Won(shooter) if the defender is fully hit. Otherwise it goes to the defender's turn, whether the shot hit or missed. The defender's next switch gives them the opponent screen with `fired` cleared. |
| Games.NoOtherWayOut | Player.py:150-158 | No other input ends a turn. The opponent screen is left only on the switch that a taken shot scheduled, and any other input leaves the phase unchanged. The player's own board, with every square unbound, is left only for the same player's opponent screen. |
| Games.WinnerJustFired | main.py:31-43 | A game is won only by the shooter whose pending switch has just fired, and only when every ship cell of the loser is among the winner's shots. |
| Games.OneShotPerTurn | Player.py:141-158 | On the opponent screen, one input changes the attacker's shots in one of two ways only. Either the list is unchanged, or, while no shot was taken yet, it gains one cell it did not contain. The defender is untouched. |
| Games.ShipIndexNeverDecreases | Player.py:59-60 | Outside the restart after a win, no input decreases either player's ship index. |
| Games.PlayerScreenShown | main.py:29 | In every state satisfying the invariant, the defender's board is computed without the ValueError of `remove`, and shows exactly the opponent's hits and misses. |
| Games.PlayerScreenSquaresExist | Player.py:102-116 | In every state satisfying the invariant, every square that `display_player_screen` looks up exists on a built board: each ship cell and each opponent shot finds its own square, with no IndexError and no negative-index wrap-around. |

Some members that model source functions carry no contract of their own.
The rows above serve as their contracts:
- `Grids.GetSquare` (Grid.py:37-42): Grids.GetSquareFindsCell.
- `Players.DisplayPlayerScreen` (Player.py:97-116): Players.PlayerScreenExact and Games.PlayerScreenSquaresExist.
- `Games.Defeated` (main.py:31-40): Games.IsGameOver.
- `Games.ShowPlayerScreen` (main.py:24-52): Games.TurnsAlternate, Games.WinnerJustFired and Games.PlacementOrder.
- `Games.ShowOpponentScreen` (main.py:54-59): Games.TurnsAlternate and Players.DisplayOpponentScreen.
- `Games.Step`, `Games.PlacingStep` and `Games.AimingStep` (main.py:21-22, Player.py:30-32 and 147): Games.StepKeepsInv, Games.PlacementOrder, Games.NoOtherWayOut, Games.OneShotPerTurn and Games.ShipIndexNeverDecreases.

The game invariant `Games.Inv` contains these conditions:
- Both layouts satisfy `LayoutOk`, and both players' cells are on the 10x10
  board.
- Shot lists have no duplicates.
- During placement nobody has fired yet. Player two has placed nothing while
  player one places, and player one has placed everything while player two
  places.
- Armed squares are on the board. They are unfired until the shot is taken.
- A won game has the loser fully hit by the winner.

## Left out

- Widgets, colours, hover previews (`update_ship`), `bind`/`unbind` and
  `Grid.reset`: these are presentation only. A click is modelled as reaching
  the square under it, so clicks outside the board are ignored.
- Message boxes: they are display only. The yes/no new-game question is the
  `Answer` input.
- Window title, geometry, `root.destroy` and `mainloop`: these are process
  plumbing. Destroying the window is the `Closed` phase.
- The 2000 ms and 3000 ms delays: their timing is not modelled. Each becomes
  one pending `Advance` step. The opponent screen's delay is pending exactly
  while the attacker's `fired` flag is set.
- Player names: they are display only.
- Grids.NewGrid: takes a natural-number size, so Python's empty range for a
  negative size is not modelled. The game always uses 10.
- Players.PlaceShip: calls the candidate computation once, not twice as the
  code does. Nothing changes between the two calls, so both give the same
  cells.
