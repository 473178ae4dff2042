# Tetris rules engine in Dafny

This project models the rules of a small Tetris game written in Python with
pygame (`main.py`): the seven tetromino blueprints, quarter-turn rotation of a
shape matrix, the 20-row by 26-column grid (600 / 30 and 800 / 30), the
collision test `can_move`, locking a piece into the grid, line clearing,
the gravity interval and level, and the per-frame rules of the game loop
(held-key moves, the up-key rotation with its revert, gravity with lock,
clear, score, respawn and game over).

Modules, one per part of the program:

- `Config`: screen and grid constants, and the derived `Rows` and `Cols`.
- `Shapes`: the shape catalog, the `zip(*reversed(m))` rotation and its
  properties (rectangle turned, cell count kept, four turns are the identity).
- `Pieces`: the `Tetromino` class (spawn position, in-place rotation).
- `Board`: the `Grid` class (empty board, `AddTetromino`, `CanMove`), the
  free `CanRotate` and `IsGameOver`, and the specification functions `Fits`
  and `Lock` with lemmas about the occupied cells.
- `Lines`: `clear_lines` as a method taking the grid, proved equal to the
  specification `Cleared` (empty rows on top, surviving rows in order).
- `Timing`: `get_falling_speed` and the level formula.
- `Game`: the `Engine` class holding the grid, the current piece, the score,
  the two timers and the game-over flag, with one method per rule of the
  game loop and `Tick` for a whole frame.

Cells are booleans (the Python grid holds 0 and 1). Python lists that the
program mutates or rebinds (`grid.cells`, `tetromino.shape`) are `seq` fields that the
methods reassign. The engine invariant `Engine.Valid` says the grid keeps
its size, the piece is a non-empty rectangle lying on the board at a row
`>= 0`, and, while the game is not over, the piece overlaps no settled cell.

## Model

| member | source | states |
|---|---|---|
| Shapes.Blueprint | main.py:22-72 | each of the seven blueprints is a square of side 2 to 4 with exactly four occupied cells |
| Shapes.CatalogShapes | main.py:22-72 | every catalog entry is a non-empty square of side 2 to 4 with four occupied cells |
| Shapes.CatalogCells | main.py:22-72 | every catalog entry has exactly four occupied cells |
| Shapes.ZipWidth | main.py:102-103 | the number of tuples `zip` yields is the length of the shortest row: no longer than any row and equal to one of them |
| Shapes.ColumnsFromAt | main.py:102-103 | the rotation lists the columns in order, one tuple per column up to the zip width |
| Shapes.RotateRect | main.py:102-103 | an r-by-c shape turns into a c-by-r shape with out[i][j] == in[r-1-j][i] |
| Shapes.RotateWellShaped | main.py:122-124 | a turned non-empty rectangle is a non-empty rectangle with its sides swapped |
| Shapes.RotateCells | main.py:102-103 | the occupied cells after a turn are exactly the images (x, r-1-y) of the occupied cells before |
| Shapes.InjectiveImageSize | main.py:102-103 | a map on cells that sends no two cells to the same cell (the quarter turn, the shift onto the board) keeps the number of cells of any set |
| Shapes.RotateKeepsCellCount | main.py:122-124 | a turn keeps the number of occupied cells |
| Shapes.RotateTwice | main.py:122-124 | two quarter turns turn an r-by-c shape upside down: out[i][j] == in[r-1-i][c-1-j] |
| Shapes.RotateFourTimes | main.py:211-216 | four quarter turns give back the original shape, so the up key's revert restores it |
| Pieces.Tetromino.constructor | main.py:117-120 | a new piece has its kind's blueprint, column `COLS//2 - width//2` and row 0 |
| Pieces.Tetromino.Rotate | main.py:122-124 | the shape becomes its quarter turn; the position is unchanged |
| Board.FitsInBounds | main.py:136-143 | a piece that `can_move` accepts lies inside the walls and above the floor |
| Board.SpawnInBounds | main.py:117-120 | a freshly spawned piece of any kind lies on the board |
| Board.LockAddsPlacedCells | main.py:130-134 | locking makes occupied exactly the board cells occupied before plus the piece's shifted cells |
| Board.FitsMeansDisjoint | main.py:136-143 | a piece that fits covers no occupied board cell |
| Board.LockCellCount | main.py:130-134 | locking a piece that fits adds as many occupied cells as the shape has |
| Board.Grid.constructor | main.py:127-128 | a new grid is `ROWS` rows of `COLS` cells, all empty |
| Board.Grid.AddTetromino | main.py:130-134 | the grid becomes the locked board: each occupied shape cell set at (y + row, x + column), every other cell unchanged, size kept |
| Board.Grid.CanMove | main.py:136-143 | true exactly when every occupied cell of the shape moved by (dx, dy) is inside the walls, above the floor and on an empty cell |
| Board.CanRotate | main.py:105-114 | true exactly when the turned shape fits at the piece's position, i.e. `can_move` of the turned shape at offset (0, 0) |
| Board.IsGameOver | main.py:79-80 | true exactly when the piece does not fit where it stands |
| Lines.SurvivorsSize | main.py:88-91 | every row either survives or is counted as full |
| Lines.SurvivorsRows | main.py:87-95 | every surviving row is a row of the input, is not full and keeps its width |
| Lines.KeepNonFull | main.py:89-91 | a stretch of non-full rows survives whole and adds nothing to the count |
| Lines.ClearedShape | main.py:87-95 | clearing keeps the grid `ROWS` by `COLS` |
| Lines.ClearedLayout | main.py:87-95 | after clearing k full rows the top k rows are empty and the rest are the non-full rows in their original order |
| Lines.ClearedHasNoFullRow | main.py:87-95 | no full row remains after clearing |
| Lines.ClearedWithoutFullRow | main.py:87-95 | with no full row, the count is 0 and the grid is unchanged |
| Lines.ClearedIsIdempotent | main.py:87-95 | clearing a cleared grid changes nothing |
| Lines.FullRowIndices | main.py:88-91 | the collected indices are increasing, in range, and are exactly the full rows |
| Lines.AfterDeletions | main.py:92-94 | the delete-and-insert loop keeps the number of rows |
| Lines.NoFullRowBetween | main.py:88-91 | no row between two consecutive collected indices (or after the last) is full |
| Lines.DeleteFullRow | main.py:92-94 | one deletion of the next full row, with an empty row inserted on top, extends the cleared prefix by that row |
| Lines.ClearRest | main.py:87-95 | the rows below the last full row survive whole, completing the cleared grid |
| Lines.DeletionsSoFar | main.py:92-94 | after k deletions the rows up to the k-th full row are cleared and the rest untouched, so each later index still names its row |
| Lines.DeletionsClear | main.py:92-95 | all deletions together give the cleared grid, and the number of indices is the number of full rows |
| Lines.ClearLines | main.py:87-95 | the grid becomes the cleared grid and the result is the number of full rows |
| Timing.FallingSpeed | main.py:76-77 | the interval is never below 100 ms, is 1000 ms at level 1, at most 1000 ms from level 1 on, and 100 ms from level 10 on |
| Timing.FallingSpeedNonIncreasing | main.py:76-77 | a higher level never has a longer interval |
| Timing.Level | main.py:181 | the level is at least 1 and is the minute of play, counted from 1 |
| Timing.LevelNonDecreasing | main.py:181 | the level never drops as time passes |
| Game.Engine.constructor | main.py:161-166 | a new game has an empty grid, a spawned piece of the given kind, score and timers 0 and no game over |
| Game.Engine.Advance | main.py:178-181 | both timers grow by the frame's `dt`; nothing else changes |
| Game.Engine.MoveLeft | main.py:191-193 | the piece moves one column left exactly when it fits there, otherwise stays; it keeps fitting |
| Game.Engine.MoveRight | main.py:194-196 | the piece moves one column right exactly when it fits there, otherwise stays; it keeps fitting |
| Game.Engine.SoftDrop | main.py:197-200 | the piece moves one row down and the gravity timer restarts exactly when it fits there; otherwise nothing changes |
| Game.Engine.RotatePiece | main.py:210-216 | the shape is the turned one if that fits where the piece is, and the original shape otherwise; the position never changes |
| Game.Engine.Settle | main.py:221-227 | the piece is locked, full lines are cleared, 100 points per line are added, a new piece spawns at the top centre, and game over is set exactly when it does not fit (never cleared) |
| Game.Engine.Gravity | main.py:218-228 | once the interval for the level has passed the piece falls a row if it fits and settles otherwise, and the timer restarts; before that nothing changes; score never decreases and game over is never cleared |
| Game.Engine.Tick | main.py:177-228 | a frame keeps the engine invariant, adds `dt` to the play time, never lowers the score and never clears game over |

## Left out

- pygame initialisation, the display and all drawing (score, grid, piece,
  the game-over text) are foreign library calls with no rules in them.
- The clock, the event queue and quitting are I/O: the frame's `dt` in
  milliseconds, the held arrow keys and the number of up-key presses are
  parameters of `Game.Engine.Tick`.
- The key-repeat timers (initial delay 200 ms, repeat 100 ms) decide only
  whether a held key acts in this frame; the model takes that decision as the
  boolean parameters `left`, `right` and `down`.
- The random choice of the next piece is a parameter `kind` with
  `0 <= kind < 7`.
- The module-level `level = 1` is never read (the game loop's own `level`
  shadows it).
- `can_move` does not reject a row above the top; Python would then read a
  row from the bottom of the grid. Pieces spawn at row 0 and only move down,
  so the model requires a row `>= 0` (`Board.Fits`, `Board.Grid.CanMove`) and
  keeps it in `Game.Engine.Valid`.
- After game over the Python loop keeps moving, dropping and locking pieces;
  only the drawing changes. The model follows that: `gameOver` is a flag that
  is never cleared, and the rules keep applying after it is set. Once it is
  set the piece may overlap settled cells, so `Game.Engine.Valid` asks for a
  fitting piece only while the game is not over.
- Game.Engine.Tick: states the engine invariant, the play time, score
  monotonicity and game over monotonicity for a whole frame, not the exact
  resulting state; the exact effect of each step is stated by the methods it
  calls.
- The Python shape after `Tetromino.rotate` holds lists built from tuples;
  only the values matter here, so shapes are sequences throughout.
- Grid cells and shape cells are booleans, not the integers 0 and 1.
