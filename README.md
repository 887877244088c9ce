# Minesweeper engine in Dafny

A model of the game engine in `minesweeper.py`, a Tk Minesweeper. The
`Minesweeper` class keeps a grid of tiles keyed by coordinate. Each tile
records whether it is a mine, how many of its up to eight neighbours are
mines, and whether it is DEFAULT, CLICKED or FLAGGED. The class also keeps
four counters (flags, correct flags, clicked tiles and score) and the time of
the first click.

- `setup` builds the grid, seeds the mines with random draws in a
  row-by-row sweep, and stores each tile's adjacency count.
- A left click on a mine ends the game as lost. A click on a zero tile
  starts a breadth-first flood fill over a work queue. A click on a
  numbered tile adds its count to the score. The game is won when the
  clicked count reaches `size_x * size_y - mine_amount`.
- A right click toggles a flag and keeps the two flag counters.
- `gameOver` draws a mine on every unflagged mine and a "wrong" mark on
  every flag that is not on a mine.
- The start window's `save_input` checks the three numbers typed in.

The project has seven modules:

- `Grid` (`grid.dfy`): positions, tiles, the board as a map, neighbours,
  adjacency counts and tile counting.
- `FloodFill` (`floodfill.dfy`): the invariants of the breadth-first reveal,
  one lemma per loop step.
- `EndGame` (`endgame.dfy`): the images `gameOver` draws.
- `Engine` (`engine.dfy`): the `Minesweeper` class. Its grid is a `map`
  field, the counters are further fields, and every handler is a method
  with a `modifies` clause. The invariant `Valid()` ties the flag,
  correct-flag and clicked counters to the sizes of the sets of tiles they
  count, and every stored count to the mines around the tile. It keeps the
  score non-negative and says nothing more about it; the click handlers'
  contracts state how the score changes.
- `Rules` (`rules.dfy`): what the counters mean for the win test.
- `Input` (`input.dfy`): `save_input` as written, and a corrected check.
- `App` (`app.dfy`): the constructor's mine guard, the start of a game, and
  flag/unflag.

Three behaviours of the source that the model keeps:

- A click on an already revealed numbered tile adds its points to the score
  again (`minesweeper.py:229`); the CLICKED guard comes only after it
  (`minesweeper.py:232`). A click on an already revealed zero tile runs the
  flood fill again.
- The flood fill of a zero tile runs before the tile itself is marked
  (`minesweeper.py:223` and `minesweeper.py:232-234`), so the fill may reveal
  the clicked tile, and the later guard keeps it from being counted twice.
- Flagging a tile unbinds its left click (`minesweeper.py:246`) and
  unflagging binds it again (`minesweeper.py:256`), so `OnClick` requires
  that the tile is not FLAGGED.

`OnClick` and `OnRightClick` also require that the game is still being
played; see "## Left out" for the one way the source can handle a click
after the end.

## Model

| member | source | states |
|---|---|---|
| `Grid.Candidates` | minesweeper.py:188-197 | exactly the eight positions adjacent to `p`, all distinct |
| `Grid.InBoundsOnly` | minesweeper.py:198-202 | keeps exactly the candidates whose dictionary lookup succeeds; none is repeated |
| `Grid.Neighbors` | minesweeper.py:186-203 | at most eight distinct positions: exactly the in-bounds tiles adjacent to `p` |
| `Grid.NeighborsSymmetric` | minesweeper.py:186-203 | `q` is a neighbour of `p` exactly when `p` is a neighbour of `q` |
| `Grid.MinedCount` | minesweeper.py:121-123 | the mine count over a neighbour list never exceeds its length |
| `Grid.MinedCountZero` | minesweeper.py:121-123 | a zero count means that no listed tile is a mine |
| `Grid.MinedCountFrame` | minesweeper.py:121-123 | the count depends only on which listed tiles are mines |
| `Grid.AdjacencyFrame` | minesweeper.py:119-124 | the adjacency counts stay right when only tile states change |
| `Grid.AdjacencyFromLayout` | minesweeper.py:119-124 | counts taken over the seeded layout are the adjacency counts of the board that carries them |
| `Grid.ZeroTileNeighborSafe` | minesweeper.py:281-283 | a tile with count zero has no mined neighbour, so the flood fill never reveals a mine |
| `Grid.AdjacencyBounded` | minesweeper.py:226-229 | every count lies in 0..8, so `mines - 1` indexes one of the eight number images |
| `Grid.WhereUpdate` | minesweeper.py:292-293 | replacing one tile moves each tile count by at most one, as the old and new tiles say: the one-step change behind the counter updates here and at lines 234, 249-250 and 261-262 |
| `Grid.SumMinesSnoc` | minesweeper.py:289 | revealing one more tile adds that tile's count to the score total |
| `Grid.SumMinesNonNegative` | minesweeper.py:289 | the score a fill adds is never negative |
| `Grid.RowCard` | minesweeper.py:92 | one row of the grid has `size_y` tiles |
| `Grid.CellsCard` | minesweeper.py:91-92 | the nested `range` loops create `size_x * size_y` tiles, or none when a size is not positive |
| `Grid.CellsSplit` | minesweeper.py:91-92 | one more row adds exactly that row's tiles |
| `Grid.BoardCard` | minesweeper.py:89-114 | a grid with the in-bounds keys has exactly the `setup` keys, `NumTiles` of them |
| `FloodFill.FillStart` | minesweeper.py:266 | the queue holding only the start tile satisfies the fill invariant |
| `FloodFill.FillPop` | minesweeper.py:268-269 | taking the head of the queue starts the neighbour loop with its invariant |
| `FloodFill.FillClear` | minesweeper.py:274-275 | `clearTile` on the next neighbour keeps the inner invariant and extends the record of revealed tiles exactly when the tile was DEFAULT |
| `FloodFill.FillSkip` | minesweeper.py:278-279 | a neighbour that is not DEFAULT changes nothing |
| `FloodFill.FillReveal` | minesweeper.py:281-293 | revealing a DEFAULT neighbour keeps every part of the invariant |
| `FloodFill.TrackedStep` | minesweeper.py:292-293 | revealing a safe DEFAULT tile extends the list of tiles turned CLICKED, without repeats and without a mine |
| `FloodFill.SoundStep` | minesweeper.py:274-275 | a neighbour of the tile being expanded may be appended to the revealed tiles: each revealed tile neighbours the start tile or a zero tile revealed before it |
| `FloodFill.DetachedRevealNotSound` | minesweeper.py:281-283 | on a row whose fill from (0,0) stops at the numbered tile (0,1), a record going on past the mine to (0,4) and (0,5) is not sound, and the record of (0,1) alone is |
| `FloodFill.QueueStep` | minesweeper.py:281-283 | only zero tiles are queued |
| `FloodFill.ClosedStep` | minesweeper.py:292 | a processed tile stays without DEFAULT neighbours |
| `FloodFill.CoverStep` | minesweeper.py:283 | every revealed zero tile is processed or queued |
| `FloodFill.PrefixStep` | minesweeper.py:274-275 | the neighbours cleared so far are not DEFAULT |
| `FloodFill.FillProcessed` | minesweeper.py:274-275 | after its neighbour loop, the dequeued tile has no DEFAULT neighbour |
| `FloodFill.FillDone` | minesweeper.py:268 | an empty queue leaves the start tile and every revealed zero tile without a DEFAULT neighbour |
| `EndGame.EndImageOf` | minesweeper.py:156-165 | "wrong" exactly for a flag on a safe tile, "mine" exactly for an unflagged mine, otherwise unchanged |
| `EndGame.EndImages` | minesweeper.py:154-165 | the redrawn buttons are exactly the tiles whose image changes, each with its image |
| `EndGame.RevealedTileKept` | minesweeper.py:156-165 | a revealed tile keeps its image when no mine was revealed |
| `EndGame.FlagsJudged` | minesweeper.py:156-165 | a flagged mine keeps its flag, an unflagged mine is shown, a flag on a safe tile is marked wrong |
| `Engine.FlagToggled` | minesweeper.py:243-262 | DEFAULT becomes FLAGGED, FLAGGED becomes DEFAULT, CLICKED is unchanged, mine and count are kept |
| `Engine.PointValue` | minesweeper.py:38-41 | the value of number image `mines` is `mines` itself |
| `Engine.ClickKeeps` | minesweeper.py:292-293 | marking a DEFAULT tile CLICKED keeps the keys, adjacency and flag counts, adds one clicked tile and removes one DEFAULT tile |
| `Engine.ToggleKeeps` | minesweeper.py:243-262 | a toggle keeps the invariant, moves the flag count by one in its direction, and moves the correct-flag count likewise on a mine |
| `Engine.ToggleTwice` | minesweeper.py:243-262 | a second toggle restores the tile and undoes the flag-count change |
| `Engine.UntouchedCounts` | minesweeper.py:81-83 | an all-DEFAULT grid has no flag, no correct flag and no clicked tile, which is what the zeroed counters say |
| `Engine.CountedStep` | minesweeper.py:121-124 | storing one tile's count extends the row-by-row record of counted tiles |
| `Engine.CountedRow` | minesweeper.py:119-120 | a finished row moves the record to the next row |
| `Engine.CountedAll` | minesweeper.py:119-124 | after the last row every tile carries its adjacency count |
| `Engine.SeedStep` | minesweeper.py:139-142 | mining an unmined tile adds one mine and leaves one fewer to place |
| `Engine.SweptStep` | minesweeper.py:138-142 | when every draw succeeds, each visited tile is a mine after its visit |
| `Engine.SweptRow` | minesweeper.py:133-134 | the sweep moves to the next row |
| `Engine.SweptAll` | minesweeper.py:132-142 | a full sweep in which every draw succeeds mines every tile |
| `Engine.DrawnStep` | minesweeper.py:156-165 | drawing one tile extends the map of redrawn buttons |
| `Engine.DrawnRow` | minesweeper.py:154-155 | a finished row moves the drawing to the next row |
| `Engine.DrawnAll` | minesweeper.py:154-165 | after the last row, the drawn images are `EndImages` of the grid |
| `Engine.MarkKeeps` | minesweeper.py:231-234 | marking the clicked tile after the fill extends the revealed list by it, adds its count, and keeps the fill closed |
| `FloodFill.ClosedKept` | minesweeper.py:292 | revealing a tile never gives a closed tile a DEFAULT neighbour |
| `Engine.Minesweeper.constructor` | minesweeper.py:47-49 | records the sizes and the mine amount |
| `Engine.Minesweeper.Restart` | minesweeper.py:144-146 | a valid, playing grid with all tiles DEFAULT, all counters zero and no start time; at most `Span(mine_amount)` mines (`mine_amount` when positive, else 0) are placed, and `done` exactly when that many are; an all-success draw sequence gives `done` when `maxPasses >= 1` and the mines fit into `NumTiles` |
| `Engine.Minesweeper.Setup` | minesweeper.py:79-124 | the counters reset and the grid built, seeded and counted, with the invariant established; the same guarantees on tiles, mines and `done` as `Restart`, with the status left as it was |
| `Engine.Minesweeper.BuildTiles` | minesweeper.py:89-114 | one fresh tile (not a mine, count 0, DEFAULT) at every in-bounds coordinate and nowhere else |
| `Engine.Minesweeper.CountAdjacency` | minesweeper.py:119-124 | every tile's count is the number of mined neighbours; keys, mines and states unchanged |
| `Engine.Minesweeper.CountMinesAround` | minesweeper.py:121-123 | the accumulated `mc` is the number of mined neighbours |
| `Engine.Minesweeper.SeedMines` | minesweeper.py:130-142 | keeps keys, counts and states; places at most `Span(mine_amount)` mines (`mine_amount` when positive, else 0); `done` exactly when that many are placed; an all-success draw sequence gives `done` when `maxPasses >= 1` and the mines fit into `NumTiles` |
| `Engine.Minesweeper.OnRightClick` | minesweeper.py:238-263 | the start time is set on the first click; the tile is toggled; the flag and correct-flag counters move as the toggle says; nothing else changes and the invariant holds |
| `Engine.Minesweeper.ClearTile` | minesweeper.py:277-293 | a tile that is not DEFAULT changes nothing; a DEFAULT tile becomes CLICKED, adds its count to the score and one to the clicked count, and is queued exactly when its count is zero |
| `Engine.Minesweeper.ClearSurroundingTiles` | minesweeper.py:265-275 | the fill reveals only safe DEFAULT tiles, each a neighbour of the start tile or of a zero tile revealed before it, so every revealed tile is reachable from the start through zero tiles; afterwards the start and every revealed zero tile have no DEFAULT neighbour; the counters and score grow by exactly the revealed tiles |
| `Engine.Minesweeper.ClearNeighbors` | minesweeper.py:274-275 | clearing all neighbours of the dequeued tile keeps the fill invariant and leaves them not DEFAULT |
| `Engine.Minesweeper.ClearNext` | minesweeper.py:275 | clearing one neighbour keeps the inner invariant and the counter bookkeeping |
| `Engine.Minesweeper.OnClick` | minesweeper.py:211-236 | a mine changes nothing and loses; otherwise the tile ends CLICKED, only safe tiles are revealed, the clicked count grows by the revealed tiles, the score by their counts (by the tile's count again for a revealed numbered tile), and the game is won exactly when the win test holds |
| `Engine.Minesweeper.Uncover` | minesweeper.py:221-234 | the fill for a zero tile, or the score update for a numbered one, then the CLICKED mark |
| `Engine.Minesweeper.OpenZero` | minesweeper.py:221-234 | a click on a zero tile reveals the fill's tiles, each reached from the tile through zero tiles revealed before it, and then the tile itself if still DEFAULT; the region is closed |
| `Engine.Minesweeper.OpenNumber` | minesweeper.py:224-234 | a click on a numbered tile adds its count to the score, even when it was revealed before, and reveals at most that tile |
| `Engine.Minesweeper.MarkClicked` | minesweeper.py:231-234 | counts the tile exactly when it was not CLICKED yet |
| `Engine.Minesweeper.GameOver` | minesweeper.py:153-174 | the redrawn buttons are exactly `EndImages` of the grid; the status records the outcome |
| `Input.SaveInput` | minesweeper.py:318-327 | "too many mines" exactly when `mine_amount > size_x * size_y`; accepted exactly when the mines fit and no field is zero, no test refuses a value for being negative, so (1, −1, −1) and (−1, 3, 3) are accepted; no other error is raised |
| `Input.MineCountCheckedFirst` | minesweeper.py:318-327 | with either size zero, a positive mine amount is reported as too many mines |
| `Input.ZeroMinesRefused` | minesweeper.py:325-327 | when `size_x * size_y` is not negative, zero mines is refused as a missing field |
| `Input.AcceptedPassesGuard` | minesweeper.py:318-322 | an accepted input never raises the constructor's `ValueError` |
| `Input.NegativeSizesAccepted` | minesweeper.py:318-327 | (1, -1, -1) is accepted though the grid it builds has no tile |
| `Input.NegativeMinesAccepted` | minesweeper.py:318-327 | (-1, 3, 3) is accepted |
| `Input.CheckedInput` | minesweeper.py:318-327 | accepts only what `save_input` accepts, and reports `save_input`'s own error whenever it has one |
| `Input.CheckedInputExact` | minesweeper.py:318-327 | the corrected check accepts exactly positive sizes with 1 to `size_x * size_y` mines, for which the grid has `size_x * size_y` tiles |
| `Rules.SafeCount` | minesweeper.py:235 | the safe tiles number the tile total minus the mines |
| `Rules.ClickedAreSafe` | minesweeper.py:215-218 | with no revealed mine, the clicked tiles are among the safe ones |
| `Rules.WonIffAllSafeClicked` | minesweeper.py:235-236 | for non-negative sizes, with `mine_amount` mines placed and no mine revealed, the win test holds exactly when every safe tile is CLICKED |
| `Rules.NegativeMinesUnwinnable` | minesweeper.py:235-236 | with a negative mine amount the win test never holds |
| `Rules.EmptyGridNeverSeeded` | minesweeper.py:130-142 | a grid without tiles never reaches a positive mine amount, so the seeding loop cannot end |
| `App.NewGame` | minesweeper.py:51-52 | no game exactly when the mines exceed `size_x * size_y`; otherwise a fresh game as `restart` leaves it: valid, playing, no start time, counters zero, all tiles DEFAULT, at most `Span(mine_amount)` mines, and `done` exactly when that many are placed |
| `App.StartGame` | minesweeper.py:305-352 | a game exactly when the corrected check accepts. The game is fresh: valid, playing, no start time, counters zero, all tiles DEFAULT, at most `mine_amount` mines, and `done` exactly when all are placed. Its grid then has `size_x * size_y - mine_amount` safe tiles, which is the win target, and an all-success draw sequence gives `done` |
| `App.FlagAndUnflag` | minesweeper.py:243-262 | flagging and then unflagging a tile restores the grid and both flag counters; the clicked count, score and status are unchanged, and only the start time may be set |

## Left out

- The Tk window, the buttons, their images and `refreshLabels`: the model
  records the end images in a map and leaves all other drawing out.
- `updateTimer` and `datetime.now()`: the clock reading is the `now`
  parameter of the click handlers, and the timer label is not modelled.
- `random.uniform(0.0, 1.0) < 0.1`: the draws are an outcome sequence
  `coin`, one draw per visited tile. The unbounded `while` becomes at most
  `maxPasses` passes, and `done` says whether `Span(mine_amount)` mines were
  placed. With `maxPasses == 0` no pass runs, so `done` holds only when no
  mine is asked for.
- Engine.Minesweeper.SeedMines: does not model a source run that never ends.
  The fuel bound turns it into `done == false`, which
  `Rules.EmptyGridNeverSeeded` shows is the only outcome on an empty grid.
- The end-of-game dialog and `tk.quit()`: `GameOver` sets the status, and the
  "yes" answer is a call to `Restart`.
- Binding and unbinding of button events, and the platform-dependent
  right-click button: a flagged tile has no left-click handler, so
  `OnClick` requires that the tile is not FLAGGED.
- The string ids `"x_y"` and their parsing in `clearSurroundingTiles`: the
  queue holds positions. The `deque` is a sequence, with `popleft` as
  `queue[1..]` and `append` as `+ [p]`.
- The `int()` parsing in `save_input` and its "All values should be
  integers!" error: the inputs are integers.
- Re-entry through `self.tk.update()` in `gameOver` (`minesweeper.py:167`):
  it can run a click that was queued before the dialog opens, on a game that
  has already ended. The model accepts clicks only while the status is
  Playing, so it does not capture such a click.
- `main`'s windows and event loops: `App.StartGame` models pressing "Play"
  followed by the constructor, with the corrected check.
- Helper methods the source does not have: `Uncover`, `OpenZero`,
  `OpenNumber` and `MarkClicked` split `onClick`, and `ClearNeighbors` and
  `ClearNext` split the loop of `clearSurroundingTiles`. `BuildTiles`,
  `SeedMines` and `CountAdjacency` are the three phases of `setup`.
- `get_input` has an empty body and is not modelled.
- The label layout of `__init__` (`minesweeper.py:55-74`) is not modelled.
  With `size_y <= 1`, `columnspan=int(size_y / 2)` is 0 and the flags label's
  column is negative, which Tk's grid would likely refuse before `restart`
  runs; `App.NewGame` and `App.StartGame` still build a game for such sizes.

## Findings

| source | as written | input that shows it | evidently intended | confidence | as-written member | corrected member |
|---|---|---|---|---|---|---|
| minesweeper.py:318-327 | only more mines than `size_x * size_y` and zero fields are refused, so negative sizes pass | mines 1, x -1, y -1: the product is 1, so the input is accepted. The grid built from it would have no tile, and seeding an empty grid never ends. In the program the constructor's label layout fails first: `columnspan=int(-1 / 2)` is 0 at lines 61-63, before `restart` at line 76 | sizes and mine amount must be positive | medium, not executed | `Input.NegativeSizesAccepted`, `Rules.EmptyGridNeverSeeded` | `Input.CheckedInput`, `Input.CheckedInputExact`, used by `App.StartGame` |
| minesweeper.py:318-327 | a negative mine amount passes both tests | mines -1, x 3, y 3: accepted; no mine is placed and the win target is 10 of 9 tiles, so the game can never be won | the mine amount must be at least 1 | high, not executed | `Input.NegativeMinesAccepted`, `Rules.NegativeMinesUnwinnable` | `Input.CheckedInput`, `Input.CheckedInputExact`, used by `App.StartGame` |
