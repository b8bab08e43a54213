# Falling-block rules engine, modelled in Dafny

This project models the rules engine of a terminal falling-block puzzle game written in Go.
The engine has two layers.

- **Field and piece** (`field/field.go`, module `Grid` in `grid.dfy`).
  - A `Field` is a `Width x Height` grid of color codes, stored row-major. 0 means empty and 1..7 are the colors of the seven shapes.
  - A `Block` is the falling piece. It has a square shape matrix, also row-major, whose top-left corner sits at `(X, Y)`. Cell `i` of the block lands on field cell `(i % Width + X, i / Width + Y)`.
  - The operations are: creating a blank field; the seven-shape table; copying a field; drawing a block into the field; the legality tests `CanPlace` and `CanMove`; rotating a block a quarter turn; and `ClearLines`, which removes complete rows and counts them.
- **Session** (`gamestate/gamestate.go`, module `Session` in `session.dfy`).
  - A `GameState` owns one field, the current block and the `LinesCleared` counter.
  - `Nudge` moves the block when the moved block can be placed. When a downward move is refused, it locks the block into the field and spawns a new centered block. Any other refused move does nothing.
  - `RotateBlock` commits a rotation only when the rotated block can be placed.
  - `ClearCompleteLines` adds the result of `ClearLines` to the counter.

`row_major.dfy` (module `RowMajor`) holds the index arithmetic that both layers share. A cell `(x, y)` of a `w`-wide matrix is stored at `y * w + x`, and an index `i` has coordinates `(i % w, i / w)`.

How the Go code is modelled:

- `Grid.Field` is a class. `Width`, `Height` and the `Matrix` array are fixed when the field is created. `DrawBlock`, `ClearLines` and their helpers update the array in place with the source's loops.
- `Grid.Field.Value()` gives the field's contents as a `Grid.Board` value. The specification functions work on that value:
  - `Placeable`: what `CanPlace` decides.
  - `Drawn`: the field with a block laid over it. It is defined cell by cell, independently of the drawing loop.
  - `ClearPass`: the bottom-up scan of `ClearLines`.
- `Grid.Block` is a value, and so is everything done to it. `Grid.Rotate` runs the source's rotation loop over a fresh array that stands for the block's storage. It is proved equal to `Grid.Rotated`, which is defined by the inverse index map.
- `Session.GameState` is a class with the source's three fields. Its invariant `Valid()` says:
  - the field and the block are well formed and hold only colors 0..7;
  - the field is at least 4 wide and 3 high;
  - every non-empty cell of the block lies on the field.

  The constructor establishes this invariant and every public operation keeps it. `CenterBlock`, the source's private helper, is only called from inside them.
- The random draw `rand.Intn(7)` becomes a shape index `k` in `[0, 7)`. It is a parameter of `Grid.NewBlock`, of the `GameState` constructor and of `Nudge`, which uses it only in its lock branch.

In two places the code does less than its own comments promise, and in a third it leaves a case unchecked. The model follows the code:

- **Which rows count as complete.** The code slices a row as `Matrix[l*Width : (l+1)*Width-1]`, so it never looks at a row's last cell. A row whose only empty cell is its last one is still removed (`Grid.LastColumnIgnored`). On a one-column field every row counts as complete (`Grid.ClearPassWidthOne`). The comment at field/field.go:209 calls a line complete when it has no empty cell, which would include the last one.
- **Stacked complete rows.** After removing row `l`, the scan goes on with row `l-1`. The row that has just moved into `l` is not examined again, so two stacked complete rows need two calls (`Grid.StackedRowsNeedTwoPasses`). The doc comment at field/field.go:199-201 says `ClearLines` clears the complete lines, but one call leaves the upper row of such a pair complete. The game calls `ClearCompleteLines` on every frame, so the second row goes on the next frame.
- **Spawning is not checked.** The lock branch at gamestate/gamestate.go:46-47 never checks that the freshly spawned block can be placed (`Session.LockedSpawnBlocked`). "The current block is placeable" therefore holds across accepted moves and rotations. It does not hold across a lock, nor across `ClearCompleteLines`: that operation leaves the block where it is while the shift at field/field.go:221-223 can move an occupied cell onto it.

## Model

| member | source | states |
|---|---|---|
| `Grid.Field.constructor` | field/field.go:20-29 | NewField: the new field has the requested width and height, a fresh `Width*Height` array, and every cell is 0 |
| `Grid.NewBlock` | field/field.go:46-110 | each of the seven shapes is square with side 2, 3 or 4, has `Width*Height` cells and sits at (0, 0); its cells are 0 or the shape's color `k+1`, and the color occurs |
| `Grid.Field.Copy` | field/field.go:142-149 | the copy has the same width, height and cells, in a fresh object with a fresh array, so later writes to either one do not reach the other |
| `Grid.Field.DrawBlock` | field/field.go:126-137 | for a block whose non-empty cells are all on the field, the field afterwards is `Drawn(old field, b)`: its size is unchanged, and every cell that a non-empty block cell covers takes that cell's color |
| `Grid.DrawnAt` | field/field.go:127-135 | after drawing, the field cell `(i % bw + X, i / bw + Y)` holds `b.Matrix[i]` for every non-empty block cell `i` |
| `Grid.DrawnElsewhere` | field/field.go:127-135 | after drawing, a field cell that no non-empty block cell lands on keeps its old value |
| `Grid.DrawnKeepsOccupied` | field/field.go:133-135 | drawing never empties a cell: an occupied cell stays occupied |
| `Grid.DrawnColored` | field/field.go:126-137 | drawing a block whose cells are colors 0..7 onto such a field leaves only colors 0..7 |
| `Grid.DrawnNotPlaceable` | field/field.go:126-197 | once a block with a non-empty cell has been drawn, `CanPlace` of that same block at the same position is false |
| `Grid.Field.CanPlace` | field/field.go:177-197 | returns true exactly when every non-empty block cell lands inside `[0,Width) x [0,Height)` on a cell that holds 0 |
| `Grid.Field.CanMove` | field/field.go:155-175 | returns what `CanPlace` would return for the block moved by `(dx, dy)` |
| `Grid.PlaceableOnBoard` | field/field.go:186-188 | a placeable block has all of its non-empty cells on the field |
| `Grid.Rotate` | field/field.go:238-249 | the rotation loop, writing old cell `i` at `(i % W) * H + (H - 1 - i / W)`, yields exactly `Rotated(b)` |
| `Grid.Rotated` | field/field.go:238-249 | rotating keeps `Width`, `Height`, `X`, `Y` and the matrix length; width and height are not swapped |
| `Grid.RotatedAt` | field/field.go:241-247 | the old cell `(x, y)` ends up at index `x * Height + (Height - 1 - y)` |
| `Grid.RotatedPermutes` | field/field.go:238-249 | rotation is a permutation: the multiset of cells is unchanged (for any width and height) |
| `Grid.RotatedColored` | field/field.go:238-249 | rotation keeps the block's cells within colors 0..7 |
| `Grid.RotatedFourTimes` | field/field.go:238-249 | four rotations of a square block give back the original block |
| `Grid.Field.LineComplete` | field/field.go:205-215 | the completeness test looks at the first `Width-1` cells of row `l` and is true exactly when none of them is 0 |
| `Grid.Field.RemoveRow` | field/field.go:220-228 | shifting the rows above `l` down by one and blanking row 0 leaves the cells as `Collapse`: an empty row on top, then the old rows `0..l-1`, then the old rows below `l` |
| `Grid.Field.ShiftDown` | field/field.go:220-223 | every cell above row `l` is copied one row down, from the last such cell to the first, so each moved cell receives its old upper neighbour; the top row and the rows from `l+1` down keep their old values |
| `Grid.Field.EraseTop` | field/field.go:225-228 | the top row becomes all 0 and every other cell keeps its value |
| `Grid.Field.ClearLines` | field/field.go:202-233 | the new cells and the returned count are those of the bottom-up scan `ClearPass` from row `Height-1` |
| `Grid.ClearPass` | field/field.go:202-233 | the scan keeps the number of cells |
| `Grid.ClearPassBounds` | field/field.go:202-233 | a scan from row `l` removes at most `l+1` rows, so `ClearLines` returns a count in `[0, Height]`, and it keeps all cells within colors 0..7 |
| `Grid.ClearPassNone` | field/field.go:202-233 | the count is 0 exactly when no row has its first `Width-1` cells all non-empty, and a count of 0 leaves the field unchanged |
| `Grid.ClearPassTopEmpty` | field/field.go:225-228 | when the count is positive, row 0 is empty afterwards |
| `Grid.ClearPassWidthOne` | field/field.go:205-207 | on a one-column field every row counts as complete, so the count is `Height` |
| `Grid.LastColumnIgnored` | field/field.go:205-215 | on any field at least 2 wide, a row whose only empty cell is its last cell counts as complete, and the scan from that row removes it and counts it, then goes on with the collapsed cells from the row above |
| `Grid.StackedRowsNeedTwoPasses` | field/field.go:204-231 | on any field at least 2 wide, two stacked complete rows `l-1` and `l`, with no complete row above them: the scan from row `l` leaves exactly `Collapse` at row `l` with a count of 1; the old row `l-1`, now at row `l`, is still complete, and the next scan removes it |
| `Session.GameState.constructor` | gamestate/gamestate.go:13-19 | New: the field is all 0 with the requested size, the counter is 0, and the block is `Spawn(k, w)`, the whole shape-table entry `k` (matrix, width, height) moved to `Y == 0`, `X == w/2 - Width/2`; the session invariant holds |
| `Session.GameState.CenterBlock` | gamestate/gamestate.go:21-23 | only the block's `X` changes, to `Field.Width/2 - Block.Width/2` |
| `Session.SpawnOnBoard` | gamestate/gamestate.go:46-47 | on a field at least 4 wide and 3 high, a spawned block of any shape has all of its non-empty cells on the field, at `Y == 0`, centered |
| `Session.GameState.NudgeLeft` | gamestate/gamestate.go:25-31 | has the effect of `Nudge(-1, false)`: the block moves one column left if the moved block can be placed, else nothing changes; the field and the counter never change |
| `Session.GameState.Nudge` | gamestate/gamestate.go:33-49 | an accepted move replaces the block by the moved copy (only `X` or only `Y` changes by `delta`), and the field stays; a refused move with `vertical && delta > 0` makes the field `Drawn(old field, old block)` and the block shape `k` centered at `Y == 0`; any other refused move changes nothing; the counter never changes; a placeable block stays placeable unless it is locked |
| `Session.PlaceableConsistent` | gamestate/gamestate.go:41-42 | accepting a placeable block keeps the session invariant |
| `Session.LockKeepsConsistent` | gamestate/gamestate.go:43-48 | locking the block and spawning a new one keeps the session invariant |
| `Session.LockedSpawnBlocked` | gamestate/gamestate.go:45-47 | the lock branch does not check the new block: if a cell under it was already occupied, the new block is not placeable |
| `Session.GameState.RotateBlock` | gamestate/gamestate.go:51-57 | the block becomes its rotation (same `X` and `Y`) when the rotation can be placed, else it stays; the field is never modified; a placeable block stays placeable |
| `Session.RotateKeepsConsistent` | gamestate/gamestate.go:51-57 | committing a placeable rotation keeps the session invariant |
| `Session.GameState.ClearCompleteLines` | gamestate/gamestate.go:59-61 | the field becomes the `ClearLines` result, the counter grows by exactly the returned count and so never decreases, and the block does not change |
| `Session.ClearKeepsConsistent` | gamestate/gamestate.go:59-61 | clearing lines keeps the session invariant |

## Left out

- The whole of `main.go`. This covers the terminal screen, key polling and its goroutine, the render and gravity loop with its timer, the global mutex, the JSON save and load of `state.json`, and the drawing helpers. These are I/O, rendering and concurrency. The gravity cadence is the caller's business; the model has `Nudge(1, true, k)`.
- The random draw `rand.Intn(7)`. The shape index `k` is a parameter instead. Nothing is claimed about the distribution.
- `Block.Copy` (field/field.go:112-121). A block is a value here, so a copy is the value itself. Independence from the original holds by construction.
- Go's value receivers and slice sharing. In the source a `Field` value and its struct copies share one `Matrix` slice. Examples are the value receiver of `DrawBlock` at field/field.go:126 and assignments such as `lastField := gs.Field` in the game's main loop. `Field.Copy`, which allocates a new slice at field/field.go:146, is the exception. Here that slice is the one array owned by a `Grid.Field` object, and `GameState.Field` refers to that object for its whole life.
- Integer width. Go's `int` is 64 bits; the model uses unbounded integers. Field sizes and coordinates stay far from overflow.
- Negative sizes. `Width` and `Height` are natural numbers here; with negative sizes, `make` in the source panics or allocates a meaningless slice.
- `Grid.Field.DrawBlock`: requires every non-empty block cell to lie on the field. The source only needs each written linear index to be inside the array. A cell off the left or right edge whose index is still inside the array would be written into the neighbouring row, and the model does not cover that case.
- `Grid.Field.ClearLines`: requires `Width >= 1` unless `Height == 0`. With `Width == 0` the source's row slice ends at -1 and panics.
- `Session.GameState.constructor`: requires a field at least 4 wide and 3 high, so that every shape spawns with all its non-empty cells on the field. The I shape is 4 wide, and shapes 2 and 3 have a non-empty cell in their third row. The source accepts any size. On a smaller field a spawned piece could hang off the field, and locking it would write into the wrong row or panic.
- `Session.GameState.Nudge`, `Session.GameState.NudgeLeft`, `Session.GameState.RotateBlock`, `Session.GameState.ClearCompleteLines`: each requires the session invariant `Valid()`, which the constructor establishes and every operation keeps. The source states no such condition. A session restored from a saved file is not checked against it, and the model does not cover such a session.
- `Grid.Rotate`: returns the rotated block instead of overwriting the receiver's own slice. The source rotates a copy (gamestate/gamestate.go:52-53), so no other holder of that slice can observe the difference.
- Non-square blocks. All seven shapes are square. `Rotate` is modelled and proved a permutation for any width and height and, like the source, never swaps them. Only the four-rotations identity needs a square.
