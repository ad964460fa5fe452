# 2048 game rules in Dafny

A model of the rule engine of the 2048 sliding-tile game (`script.js`). The
model has three parts:

- **Tile** is a value: a position, a value, the position it held before the
  current move and the two tiles it was merged from. It lives in module
  `Tiles`.
- **Grid** is a class over a `size`×`size` `array2` of optional tiles,
  indexed column first (`cells[x, y]`), exactly as the source's
  `cells[x][y]`. It lives in module `Grids`.
- **GameManager** is a class holding the grid, the score and the `over`,
  `won` and `keepPlaying` flags. It lives in module `Game`. Its methods carry
  out `move`, `setup`, `restart`, `keepPlaying`, the spawn of random tiles,
  the game-over test and the storage side of `actuate`, writing the grid in
  place.

Every method that reads or changes the grid is proved equal to a function on
values in modules `Boards` and `Rules`:
- a grid is read as a `Board`, a sequence of columns of `Option<Tile>`;
- the manager's fields are read as a `GameState`.

`KeepPlaying`, `Credit`, `MergeTiles` and `PlaceMerged` are small steps of
`move` and `keepPlaying`. Their contracts state the new fields directly.

The game's properties are then proved about those functions, in three
modules:
- `MoveProperties`:
  - the tile loop of a move (before the spawn) conserves the tile-value sum
    and removes one tile per merge;
  - a tile merges at most once per move;
  - a move that moves nothing spawns nothing and changes only the tiles'
    per-move fields;
  - a move sets `over` exactly when some tile moved and the grid it leaves
    is stuck.

  A stuck grid on which no move has moved a tile is not marked `over`. This
  holds for a resumed game and for a new 1×1 game, in the source as in the
  model.
- `GameProperties`: spawning and starting a game; what a whole move with
  its spawn does to the tile total; save and restore round trips; the
  traversal order.
- `Scenarios`: a worked move that shows a freshly merged tile is not merged
  again.

Randomness enters as parameters. `Math.random()` is called twice per spawn:
first to choose between 2 (below 0.9) and 4, then to pick the empty cell.
Both results are passed in as a `Draw(value, cell)` of two reals in [0, 1).
Local storage is not modelled as a store. `actuate` returns the new best
score and the game to save, or `None` when the saved game is cleared.

Merging follows the code. The new tile of value 2v replaces the two tiles
of value v, so a merge adds 2v to the score and leaves the sum of tile
values on the grid unchanged (`MoveProperties.SlideAllConserves`). Prose
descriptions of the game sometimes say that each merge raises the tile sum
by v; the code does not do that.

## Model

| member | source | states |
|---|---|---|
| Tiles.NewTile | script.js:394-401 | the new tile is at the given position, has the given value (2 when the value is 0), and has no previous position and no merge record |
| Tiles.SavePosition | script.js:403-405 | the previous position becomes the current position; position, value and merge record are kept |
| Tiles.UpdatePosition | script.js:407-410 | only the position changes, to the one given; updating to the current position changes nothing |
| Tiles.SerializeTile | script.js:412-420 | the saved tile records the tile's position and value |
| Tiles.RestoreTile | script.js:303 | the rebuilt tile has the saved position and value (2 for a saved 0) and no previous position or merge record |
| Tiles.TileRoundTrip | script.js:412-420 | restoring a saved tile gives back the tile with its per-move fields cleared |
| Boards.EmptyBoard | script.js:281-293 | an n×n board whose every cell is empty |
| Boards.CellContent | script.js:354-360 | the tile in the cell when the cell is within bounds, nothing otherwise |
| Boards.SetCell | script.js:363-369 | writing one cell changes that cell and no other |
| Boards.SetCellValid | script.js:363-365 | writing a tile whose position is the cell keeps every tile at its own position with a valid value |
| Boards.InsertTile | script.js:363-365 | the tile is found at its position; every other cell is unchanged |
| Boards.RemoveTile | script.js:367-369 | the tile's cell becomes empty; every other cell is unchanged |
| Boards.AvailableCellsSpec | script.js:319-329 | the list holds exactly the empty cells, in column-then-row scan order, and is empty exactly when the grid is full |
| Boards.EmptyInColumnSpec | script.js:319-329 | the scan of one column lists exactly its empty cells, in increasing y |
| Boards.EmptyBeforeSpec | script.js:332-338 | the scan of the first x columns lists exactly their empty cells, in scan order |
| Boards.TileCountBound | script.js:341-343 | a grid holds between 0 and n·n tiles, and n·n exactly when it is full |
| Boards.SerializeCells | script.js:376-391 | the saved grid has the grid's shape and saves each cell |
| Boards.RestoreCells | script.js:295-308 | the rebuilt n×n grid holds at each cell the tile restored from the saved cell |
| Boards.GridRoundTrip | script.js:295-308 | restoring a saved grid gives back the grid with every tile's per-move fields cleared |
| Rules.GetVector | script.js:194-204 | each direction maps to a unit vector: 1 (right) is the only one with x = 1, 2 (down) the only one with y = 1 |
| Rules.Traversal | script.js:207-220 | the traversal lists 0..n-1, reversed when the vector's component is 1 |
| Rules.Reverse | script.js:215-216 | the reversed list has the same length, with element i taken from the mirror position |
| Rules.Farthest | script.js:222-236 | the walk stops on the cell before the first out-of-bounds or occupied cell, every cell passed is empty, and `next` is one step beyond the farthest cell |
| Rules.FarthestSteps | script.js:228-233 | every cell the walk passes is in bounds and empty |
| Rules.NextIsNotStart | script.js:160-161 | the cell after the farthest position is never the starting cell, so a tile never merges with itself |
| Rules.PositionsEqual | script.js:270-272 | comparing both coordinates is true exactly when the two positions are equal |
| Rules.MoveTileTo | script.js:124-128 | the tile is at the target with its position updated, its old cell is empty, and no other cell changes |
| Rules.MergeOnBoard | script.js:156-164 | the merged tile is at the target, the moving tile's cell is empty, and no other cell changes |
| Rules.CanMerge | script.js:153-156 | a merge happens exactly when the cell after the farthest position is in bounds and holds a tile of the same value that was not itself made by a merge in this move |
| Rules.MergedTile | script.js:157-158 | the merged tile sits at the next cell with the sum of the two equal values and no previous position; its merge record holds the occupant and the moving tile, relocated to that cell with its value kept |
| Rules.MergeStep | script.js:156-170 | when the next tile has the same value and no merge record, the board gets a tile of twice the value at that cell, the score grows by that value, `won` is set when it is 2048, and the move counts as moved |
| Rules.SlideStep | script.js:171-177 | otherwise the tile moves to the farthest cell, score and `won` are unchanged, and the move counts as moved exactly when the tile changed cell |
| Rules.MoveCell | script.js:150-179 | one step of the loop keeps the board valid, never lowers the score, and never clears `won` or `moved` |
| Rules.MoveColumn | script.js:149-179 | the inner loop keeps the board valid, never lowers the score, and never clears `won` or `moved` |
| Rules.MoveAll | script.js:146-180 | the double loop keeps the board valid, never lowers the score, and never clears `won` or `moved` |
| Rules.PrepareTile | script.js:114-121 | the tile keeps its position and value, loses its merge record and records its current position |
| Rules.PrepareBoard | script.js:114-121 | every cell holds its tile prepared for the move; the board stays valid |
| Rules.SpawnValue | script.js:73 | a spawned tile is a 2 or a 4 |
| Rules.PickIndex | script.js:314-316 | the random index is within the list |
| Rules.RandomAvailableCell | script.js:311-317 | a cell is returned exactly when the grid is not full, and it is in bounds and empty |
| Rules.AddRandomTile | script.js:71-78 | the board stays a valid board of the same size |
| Rules.AddStartTiles | script.js:64-68 | the board stays a valid board of the same size |
| Rules.SlideAll | script.js:139-180 | the tile loop keeps the board valid, never lowers the score and never clears `won` |
| Rules.MoveGame | script.js:131-191 | a terminated game is returned unchanged; otherwise the board stays valid, the score never falls, `keepPlaying` is kept, and `won` and `over` are never cleared |
| Rules.NewGame | script.js:48-57 | a new game is a valid game on an n×n board |
| Rules.SerializeGame | script.js:103-111 | the saved game records the grid size, every cell saved, the score and the three flags |
| Rules.RestoreGame | script.js:42-47 | the restored game has a square grid of the saved size with each cell rebuilt from its saved entry, and the saved score and flags |
| Rules.ActuateStorage | script.js:82-91 | the best score becomes the larger of the stored best and the score; the saved game is cleared exactly when the game is over and is the serialized game otherwise |
| MoveProperties.PrepareKeepsTotals | script.js:114-121 | preparing the tiles keeps the tile count, the value sum and fullness |
| MoveProperties.MergeTotals | script.js:156-164 | a merge keeps the value sum and removes one tile |
| MoveProperties.SlideTotals | script.js:171-173 | a slide into an empty cell keeps the value sum and the tile count |
| MoveProperties.MoveCellConserves | script.js:150-179 | one loop step keeps the value sum; it removes one tile exactly when it merges, and changes the score exactly then |
| MoveProperties.MoveColumnConserves | script.js:149-179 | the inner loop keeps the value sum and removes exactly as many tiles as its steps merge (`ColumnMerges`); the score is unchanged exactly when nothing merged |
| MoveProperties.MoveAllConserves | script.js:146-180 | the double loop keeps the value sum and removes exactly as many tiles as its steps merge (`AllMerges`); the score is unchanged exactly when nothing merged |
| MoveProperties.SlideAllConserves | script.js:139-180 | the tiles of a move keep their value sum, the tile count falls by the number of merges, and the score is unchanged exactly when nothing merged |
| MoveProperties.MoveCellStill | script.js:150-179 | a loop step that moves nothing leaves the state as it was |
| MoveProperties.MoveColumnStill | script.js:149-179 | an inner loop that moves nothing leaves the state as it was |
| MoveProperties.MoveAllStill | script.js:146-180 | a double loop that moves nothing leaves the state as it was |
| MoveProperties.UnmovedMoveKeepsGame | script.js:182-190 | a move that moves no tile spawns nothing and changes only the tiles' per-move fields |
| MoveProperties.AheadIsVisited | script.js:215-217 | the traversal runs against the move direction: every cell ahead of the visited cell along the vector has been visited before it |
| MoveProperties.NextIsAhead | script.js:226-230 | the cell the walk stops on lies some steps ahead of the start along the vector |
| MoveProperties.UnvisitedUnmerged | script.js:149-151 | while every merged tile lies on a visited cell, the tile at the cell being visited was not made by a merge in this move |
| MoveProperties.MergeOnBoardKeepsMergesSound | script.js:157-161 | placing a sound merged tile on a visited cell keeps every record sound and every merged tile on a visited cell |
| MoveProperties.MergedTileFits | script.js:156-158 | the tile a merge at the visited cell builds records two tiles not made by a merge, and lands on a cell already visited |
| MoveProperties.MergeKeepsMergesSound | script.js:156-170 | a merging step builds its tile from an unmerged moving tile and an unmerged target, and places it on a visited cell |
| MoveProperties.MoveTileToKeepsMergesSound | script.js:124-128 | moving a tile not made by a merge keeps every record sound and every merged tile where it was |
| MoveProperties.SlideKeepsMergesSound | script.js:171-173 | a sliding or empty step moves only an unmerged tile, so every merged tile stays on a visited cell |
| MoveProperties.MoveCellKeepsMergesSound | script.js:150-179 | the step at the next cell of the traversal keeps every merge record sound (a merged tile comes from two equal tiles, neither made by a merge) and every merged tile on a visited cell |
| MoveProperties.MoveColumnKeepsMergesSound | script.js:147-179 | the inner loop over the first j cells of a column keeps every record sound and every merged tile on a visited cell |
| MoveProperties.ColumnDone | script.js:147-179 | once the inner loop has finished, the whole column counts as visited |
| MoveProperties.MoveAllKeepsMergesSound | script.js:146-180 | the outer loop over the first i columns keeps every record sound and every merged tile on a visited cell |
| MoveProperties.SlideAllMergesOnce | script.js:139-180 | after a move, every merged tile was made from two equal tiles neither of which was made by a merge in that move, so no tile merges twice |
| MoveProperties.MovesAvailableExactly | script.js:238-240 | moves are available exactly when the grid has an empty cell or two equal orthogonal neighbours |
| MoveProperties.DirectionOf | script.js:194-204 | every unit vector is the vector of one of the four directions |
| MoveProperties.StuckWalk | script.js:222-236 | on a stuck grid every tile's walk stops at once, next to a tile it cannot merge with |
| MoveProperties.MoveCellStuck | script.js:150-179 | on a stuck grid a loop step changes nothing |
| MoveProperties.MoveColumnStuck | script.js:149-179 | on a stuck grid the inner loop changes nothing |
| MoveProperties.MoveAllStuck | script.js:146-180 | on a stuck grid the double loop changes nothing |
| MoveProperties.PrepareKeepsStuck | script.js:114-121 | preparing the tiles keeps a stuck grid stuck |
| MoveProperties.StuckMeansNoMove | script.js:131-191 | on a stuck grid no direction moves a tile, and the move changes only the tiles' per-move fields |
| MoveProperties.GameOverExactly | script.js:182-190 | a move on a game that is not terminated sets `over` exactly when some tile moved and the resulting grid is stuck |
| MoveProperties.OverOnlyWhenStuck | script.js:186-188 | `over` becomes true only on a stuck grid |
| GameProperties.AddRandomTileSpec | script.js:71-78 | a full grid is unchanged; otherwise exactly the picked empty cell gets a fresh tile of the drawn value, 2 or 4; no other cell changes; the tile count grows by one and the value sum by the new value |
| GameProperties.MoveGameConserves | script.js:131-191 | a move on a game that is not terminated raises the value sum by exactly the spawned value, and changes the tile count by one less per merge and one more for the spawn; the spawn happens when a tile moved and the grid has room |
| GameProperties.StartTilesSpec | script.js:64-68 | each start tile adds one tile of value 2 or 4 until the grid is full |
| GameProperties.NewGameSpec | script.js:48-57 | a new game has `startTiles` tiles of value 2 or 4 (all cells on a smaller grid), score 0 and every flag false |
| GameProperties.EmptyBoardCount | script.js:281-293 | an empty grid holds no tile |
| GameProperties.GameRoundTrip | script.js:103-111 | a saved game can be resumed, and restores to the same game with the tiles' per-move fields cleared |
| GameProperties.SnapshotRoundTrip | script.js:42-50 | saving a restored game gives back the snapshot it came from |
| GameProperties.ActuateSavesResumable | script.js:87-91 | the game `actuate` saves can be resumed, and restores to the game itself |
| GameProperties.TraversalVisitsEachOnce | script.js:207-220 | each traversal lists every index 0..n-1 exactly once, so the loop of `move` visits every cell once |
| Scenarios.NoChainedMerge | script.js:156-170 | on a 3×3 grid with 2, 2, c along the top row, a move left gives 4, c and score 4, and the new 4 does not merge again even when c is 4 |
| Grids.Grid.Empty | script.js:281-293 | the new grid has every cell empty |
| Grids.Grid.FromState | script.js:295-308 | the grid built from a saved state is the restored board |
| Grids.Grid.WithinBounds | script.js:371-374 | a position is within bounds exactly when both coordinates are in 0..size-1 |
| Grids.Grid.CellContent | script.js:354-360 | the cell's tile when in bounds, nothing otherwise |
| Grids.Grid.CellOccupied | script.js:350-352 | a cell is occupied exactly when it is in bounds and holds a tile |
| Grids.Grid.CellAvailable | script.js:346-348 | a cell is available exactly when it is not occupied, which includes every out-of-bounds position |
| Grids.Grid.InsertTile | script.js:363-365 | the matrix afterwards is the old board with the tile inserted at its position |
| Grids.Grid.RemoveTile | script.js:367-369 | the matrix afterwards is the old board with the tile's cell emptied |
| Grids.Grid.AvailableCells | script.js:319-329 | the loop returns the scan-order list of empty cells |
| Grids.Grid.CellsAvailable | script.js:341-343 | true exactly when the grid is not full |
| Grids.Grid.RandomAvailableCell | script.js:311-317 | the cell chosen by the draw among the empty cells, or nothing on a full grid |
| Grids.Grid.Serialize | script.js:376-391 | the saved grid holds the size and every cell saved |
| Game.GameManager.constructor | script.js:5-18 | the manager resumes the saved game when there is one and otherwise starts a new game with two tiles |
| Game.GameManager.Setup | script.js:39-61 | the state is the restored game when one is saved, a new game otherwise |
| Game.GameManager.Restart | script.js:21-25 | the state is a new game |
| Game.GameManager.AddStartTiles | script.js:64-68 | the grid gets `startTiles` random tiles |
| Game.GameManager.AddRandomTile | script.js:71-78 | the grid gets one random tile when it is not full |
| Game.GameManager.IsGameTerminated | script.js:34-36 | the game is terminated exactly when it is over, or won without `keepPlaying` |
| Game.GameManager.KeepPlaying | script.js:28-31 | after `keepPlaying` the game is terminated exactly when it is over |
| Game.GameManager.Serialize | script.js:103-111 | the saved game records the grid, the score and the three flags |
| Game.GameManager.Actuate | script.js:81-100 | the new best score and the saved game are those of the storage rules |
| Game.GameManager.PrepareTiles | script.js:114-121 | every tile on the grid is prepared for the move |
| Game.GameManager.MoveTile | script.js:124-128 | the tile moves to the cell on the grid and in its own position |
| Game.GameManager.BuildTraversals | script.js:207-220 | each list is 0..size-1, reversed along the axis the vector points forward on |
| Game.GameManager.FindFarthestPosition | script.js:222-236 | the loop finds the farthest empty cell and the cell after it |
| Game.GameManager.MergeTiles | script.js:156-170 | the merged tile replaces both tiles at the next cell, the score grows by its value, `won` is set at 2048, and the move counts as moved |
| Game.GameManager.PlaceMerged | script.js:160-164 | the merged tile is inserted and the moving tile removed |
| Game.GameManager.Credit | script.js:166-169 | the score grows by the value and `won` is set when the value is 2048 |
| Game.GameManager.SlideTile | script.js:171-177 | the tile slides to the farthest cell, as one loop step prescribes |
| Game.GameManager.TraverseCell | script.js:150-179 | one loop step on the grid does what the rules prescribe for the cell |
| Game.GameManager.TraverseColumn | script.js:149-179 | the inner loop does what the rules prescribe for the column |
| Game.GameManager.TraverseColumns | script.js:146-180 | the double loop does what the rules prescribe for every cell |
| Game.GameManager.SlideTiles | script.js:139-180 | preparing and then looping over the cells gives the tile part of the move |
| Game.GameManager.TileMatchesAvailable | script.js:243-268 | true exactly when some tile has an orthogonal neighbour of equal value |
| Game.GameManager.TileMatchesAt | script.js:249-264 | true exactly when the cell holds a tile with an equal-valued neighbour in one of the four directions |
| Game.GameManager.MovesAvailable | script.js:238-240 | true exactly when the grid has an empty cell or a possible merge |
| Game.GameManager.SpawnAndCheck | script.js:182-190 | a random tile is added and `over` is set when no move is left |
| Game.GameManager.Move | script.js:131-191 | the new state is the rules' move of the old state in the direction, with the given draw |

## Left out

- The HTML actuator, the keyboard input manager, the local storage manager and the animation-frame bootstrap are not part of this model. A move is given its direction as a number 0..3.
- Event binding in the GameManager constructor (`move`, `restart`, `keepPlaying` handlers) is left out. The handlers are the methods themselves.
- `actuate` is modelled only on its storage side (`Rules.ActuateStorage`). It returns the new best score and the game to save, or `None` for a cleared game. The call to the actuator that draws the grid is left out.
- The `actuate` calls at the end of `setup` and `move` are not made by Game.GameManager.Setup and Game.GameManager.Move. The caller runs Game.GameManager.Actuate after them.
- `restart` also clears the saved game and tells the actuator to continue. Neither is modelled. The saved game of the next `actuate` is what this model reports.
- `Math.random()` is an injected `Draw` of two reals in [0, 1). The model makes no probability statement about it: it does not say that a 2 appears nine times in ten.
- `eachCell` is not a member of its own. Its loops appear inline in the two methods that use it (`AvailableCells`, `PrepareTiles`); `TileMatchesAvailable` has its own nested loops, as in the source.
- Tiles are values, not shared objects. In the source the moved tile is the same object as the one recorded in the merged tile's `mergedFrom`, so the later `updatePosition` is visible there. The model records `UpdatePosition(tile, next)` in `mergedFrom`, which is the value the shared object ends with.
- Game.GameManager.constructor and Setup require a saved game that `ResumableSnapshot` accepts: its grid rebuilds into a valid grid of the manager's size and its score is not negative. Every game `actuate` saves meets this (GameProperties.ActuateSavesResumable). The source does not check a snapshot, and behaves as follows on the cases the requires excludes:
  - fewer saved columns than the saved size: it fails with a TypeError;
  - a saved size other than the manager's: it rebuilds the grid at the saved size, while the traversals use the manager's size and read cells out of range as empty;
  - a saved tile whose position is not its cell: it stores the tile in cell (x, y) but gives it the saved coordinates, so the tile's own position differs from its cell;
  - a tile value that is not a power of two, or a negative score: it accepts them.
- A corrupt tile value that is not a power of two is not modelled. Every tile on a `ValidBoard` has a value that is a power of two, at least 2.
- Rules.AddRandomTile and Rules.AddStartTiles state in their own contracts only that the board stays valid. What they add is stated by GameProperties.AddRandomTileSpec and GameProperties.StartTilesSpec.
- Rules.MoveCell, Rules.MoveColumn, Rules.MoveAll and Rules.SlideAll state in their own contracts only bounds on score and flags. Conservation, merge-once and stuck behaviour are stated by the lemmas in MoveProperties.
