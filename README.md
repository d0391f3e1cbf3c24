# Falling-block game engine

A model of the engine of a small browser game in the style of Tetris (`script.js`). The game keeps
its state in three globals:
- an occupancy grid of `H` rows by `W` columns, where each cell is empty or holds the letter of the piece locked there;
- the falling block `{type, rotation, x, y}`;
- a counter of cleared rows.

Three operations change that state:
- `moveLeft` and `moveRight` shift the block one column and undo the shift when it collides;
- `moveDown` drops it one row. When the drop collides, it undoes the drop, locks the block into the grid (`mergeBlock`), spawns a new block (`createBlock`) and clears full rows (`removeFullRows`).

The model has four modules:
- `Tetrominoes` (`tetrominoes.dfy`): the seven kinds, their occupancy matrices (one variant each), the key order the spawner draws from, and the colour table.
- `Board` (`board.dfy`): cells, rows, grids and the block record. It holds the spawner `CreateBlock` and the collision predicate `Collides`. It also holds `Merged`, the grid after a lock, and the lemmas about them.
- `RowClear` (`rowclear.dfy`): what one pass of the row clear does, stated on the original rows. `Survivors` gives the rows that survive the pass. `Cleared` is the grid after the pass and `RemovedCount` the number of rows removed.
- `Engine` (`engine.dfy`): the class `Game` with the globals as fields (`grid`, `current`, `score`, `gameOver`) and the grid size as constants `W` and `H`. Its methods are the source's functions, written with the source's loops. Each one is proved against the functions above. The object invariant `Valid()` says:
  - the grid is `H` by `W`;
  - the falling block carries its kind's matrix and lies within the columns and above the floor;
  - the game-over flag is down.

## Behaviour of the code kept as is

- Row clear skips rows. `removeFullRows` keeps counting the index down after removing a row (script.js:224-228). The row that moves down into the index just examined is therefore never looked at in that pass. `RowClear.Survivors` states this: scanning from the bottom, a full row is removed and the row directly above it is kept unexamined. `RowClear.AdjacentFullRowsNotBothCleared` shows that two full rows at the bottom leave one full row behind.
- No game-over check. A new block is spawned without a collision test (script.js:179), and nothing ever sets `gameOver` (script.js:60). `Valid()` keeps the flag false. `Board.SpawnCollidesOnOccupiedSpawnArea` shows that the spawned block collides as soon as the cells of the spawn area are occupied, even when no row is full. So "the falling block never overlaps the grid" is not an invariant of this game, and the model does not claim it.
- Spawn column. The column is `floor(W/2) - floor(width/2)` (script.js:133), not `floor((W - width)/2)`. `Board.SpawnColumn` proves the two are at most one column apart. `Board.SpawnColumnNotHalfTheSlack` gives a case where they differ (a T piece on ten columns).
- The counter goes up once per removed row (script.js:228), never once per lock.
- Locking needs only that the block is in bounds. It does not need the block to be collision-free: after a colliding spawn, the lock writes over occupied cells. `Engine.Game.MergeBlock` therefore requires only that every square is within the columns and above the floor, which is all the source needs to index the grid.

## Model

| member | source | states |
|---|---|---|
| `Tetrominoes.Rotations` | script.js:21-43 | each kind has exactly one variant; it is a non-empty rectangular 0/1 matrix with at least one 1, at most 4 rows by 3 columns |
| `Tetrominoes.KeysEnumerateKinds` | script.js:129-130 | the key list the spawner indexes names every kind, each once |
| `Tetrominoes.EveryKindHasColour` | script.js:8-16 | the colour table has an entry for every kind |
| `Board.CreateBlock` | script.js:128-140 | the spawned block has the drawn kind from the key list, that kind's single matrix, and row 0; the grid is not an input |
| `Board.SpawnColumn` | script.js:133 | the spawn column is floor(W/2) - floor(width/2), which lies between floor((W - width)/2) and one more than that |
| `Board.SpawnColumnNotHalfTheSlack` | script.js:133 | on ten columns a T piece spawns at column 4, not at floor((10 - 3)/2) = 3 |
| `Board.SpawnInBounds` | script.js:128-140 | on a grid at least 3 wide and 4 tall, every square of a spawned block is within the columns and above the floor |
| `Board.SpawnFitsEmptyGrid` | script.js:53-54 | the first block, spawned over the empty starting grid, does not collide |
| `Board.SpawnCollidesOnOccupiedSpawnArea` | script.js:179 | a spawned block collides on any grid whose first four rows are occupied in the three middle columns (no row need be full), so a spawn can be placed in collision |
| `Board.NoCollisionInBounds` | script.js:185-204 | a block that does not collide has every square within the columns and above the floor |
| `Board.AboveGridNeverCollides` | script.js:196 | squares on rows above the grid never meet grid contents: a block entirely above row 0 and within the columns never collides |
| `Board.MergedCells` | script.js:207-220 | after a lock the grid is still H by W; every visible cell the block covers holds its kind, and every other cell is unchanged |
| `Board.MergeKeepsOccupancy` | script.js:207-220 | a lock never empties a cell |
| `Board.MergeThenCollides` | script.js:207-220 | after a lock, the same block at the same place collides, provided one of its squares is on a visible row |
| `RowClear.SurvivorsEmbedding` | script.js:223-231 | the surviving rows are the original rows at strictly increasing indices (order kept); every row not kept was full; a kept full row sits directly above a removed row |
| `RowClear.NoFullRowAllSurvive` | script.js:225 | when no row is full, every row survives |
| `RowClear.ClearWithoutFullRowIsIdentity` | script.js:223-231 | a pass over a grid with no full row removes nothing and leaves the grid unchanged |
| `RowClear.ClearedShape` | script.js:226-227 | a pass keeps the grid at H rows of W cells |
| `RowClear.AdjacentFullRowsNotBothCleared` | script.js:224-228 | with two full rows at the bottom, one pass removes at least one row and leaves a full row at the bottom |
| `RowClear.SingleFullRowCleared` | script.js:223-231 | a one-row grid with its row full becomes one empty row, and one row is counted |
| `Engine.Game.constructor` | script.js:53-60 | a new game has a spawned block, an empty H by W grid, counter 0, the flag down, and satisfies the invariant |
| `Engine.Game.IsCollision` | script.js:185-204 | the nested scan with early return answers true exactly when some set entry of the block lands outside the columns, at or below row H, or on an occupied cell of a visible row |
| `Engine.Game.MoveLeft` | script.js:158-163 | the block is exactly one column further left if it does not collide there, otherwise unchanged; kind, matrix, row, grid, counter and flag are unchanged; a block that did not collide still does not |
| `Engine.Game.MoveRight` | script.js:166-171 | the same as MoveLeft, one column to the right |
| `Engine.Game.MoveDown` | script.js:174-182 | if the block does not collide one row lower, it moves there with grid and counter untouched. Otherwise the grid becomes the row-cleared grid of the grid with the block locked where it stood, the counter rises by the number of rows removed, and the new block is the spawned one. The flag stays down and the invariant holds |
| `Engine.Game.MergeBlock` | script.js:207-220 | the nested loops leave the grid equal to `Merged` of the old grid and the block |
| `Engine.Game.RemoveFullRows` | script.js:223-231 | the bottom-up splice-and-unshift loop leaves the grid equal to `Cleared` of the old grid (one empty row on top per removed row, then the survivors in order) and raises the counter by exactly the number of rows removed |

## Left out

- Drawing: the canvas, `draw`, `drawBlock` and `gameOverScreen`. They are browser output. The colour table is modelled only as data.
- The frame loop and timing: `mainLoop`, `requestAnimationFrame` and the millisecond accumulator in `update`. These are browser scheduling. A timer tick is a call of `Engine.Game.MoveDown`.
- Keyboard input: `handleInput`, which registers a listener on every frame. Each key is a direct call of `MoveLeft`, `MoveRight` or `MoveDown`.
- Randomness: the two `Math.random` draws in `createBlock`. They are parameters instead: a kind index below 7 and a variant index below the length of the kind's list.
- Pixel constants: screen size, cell size and block size are not modelled. The grid size is given by the integer constants `W` and `H`.
- Fractional grid height: the source's `GRID_HEIGHT` is 530/30, about 17.67. That value would make `removeFullRows` read `grid[16.67]` and the bound test accept row 17 of a 17-row array. The model uses an integer `H` instead.
- Small grids: the model requires `W >= 3` and `H >= 4` (the widest and the tallest piece). On a smaller grid a spawned block can stick out below row H or past column W, and locking it (script.js:215) writes to rows or columns that do not exist.
- Machine numbers: JavaScript numbers are doubles. The model uses unbounded integers, which agree with them at every size the game reaches.
