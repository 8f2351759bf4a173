# Game of Life engine and Minesweeper board, in Dafny

This project models the in-memory logic of two grid games from the
repository, separated from their PyQt5 windows, and proves properties of it.

- **`life.dfy`, module `Life`**: the `GameOfLife` engine of
  `gameoflife_with_changes.py`.
  - It holds a `rows × cols` boolean grid on a torus (a field `grid: seq<seq<bool>>`, the list of lists of the source).
  - It counts the eight wrapped neighbours of a cell.
  - It advances one generation into a fresh grid under the rule named by `ruleset`: `"classic"` is B3/S23 and `"alternative"` is B36/S23.
  - It stamps the named patterns `glider` and `small_exploder` additively, with wrap-around.
  - It clears the grid.
  - The pure functions `NextAlive`, `NeighborCount`, `NextGen` and `Stamp` specify the methods `GetNeighborCount`, `Update` and `AddShape`.
- **`saper.dfy`, module `Saper`**: the board logic of `Minesweeper` in `saper.py`.
  - The per-cell fields `is_mine`, `adjacent_mines` and `is_revealed` become three `rows × cols` arrays of the class `Minesweeper`.
  - Mines are placed from a given sequence of candidate positions.
  - Each safe cell's mine count is taken over its 3 × 3 block, clipped at the board's edges.
  - A cell is revealed by a recursive flood fill (`RevealCell`). Its loop over the block is the method `RevealSafeNeighbors`, and the two methods call each other.
  - `CheckWin` is the win test; `CellClicked` is the three-way click dispatch. Its result, the datatype `Outcome`, stands for the call it ends with: `Ignored` for the early `return`, `Lost` for `gameOver(False)`, `Won` for `gameOver(True)`, and `Playing` when a safe click is not yet a win.
  - The flood fill is specified on snapshots of the board. `FloodFilled` says what is revealed at least: the start cell, and every safe cell around each revealed cell with count 0. `SpreadFrom` says what is revealed at most: every new cell lies at the end of a chain of hidden cells from the start, each in the clipped block of the one before, all after the first safe, all but the last with count 0 (`IsChain`, `Reaches`). Together they fix the revealed region exactly (`FloodExact`). It terminates on the number of hidden cells.
- **`grids.dfy`, module `Grids`**: rectangular grids as `seq<seq<T>>`, the value view of a 2-D array, and counting the cells that hold a given boolean.

Two behaviours of the engine's code are worth spelling out:
- **Unknown ruleset.** `update` starts from `create_grid(False)`, sets no cell when the ruleset is neither `"classic"` nor `"alternative"`, and assigns that grid (`gameoflife_with_changes.py:47`, `:62`). So every cell dies (`UnknownRulesetKillsAll`).
- **Construction never fails.** The constructor checks nothing about its dimensions. Dimensions are `nat` here. Counting neighbours and stamping need `rows > 0 && cols > 0`, because the code's `% self.rows` would otherwise divide by zero.

The source's `%` floors, so its result lies in `[0, n)` for a positive `n`. That matches Dafny's Euclidean `%` for every positive `n`, which is the only case the code reaches.

## Model

| member | source | states |
|---|---|---|
| `Life.Wrap` | gameoflife_with_changes.py:40-41 | A coordinate taken modulo a positive dimension is a valid index, even for the offsets -1 at the edges. |
| `Life.RuleOf` | gameoflife_with_changes.py:52-57 | The name `"classic"`, and only it, selects the classic rule; `"alternative"`, and only it, selects the alternative one; any other name selects neither. |
| `Life.NextAlive` | gameoflife_with_changes.py:52-61 | A live cell survives iff its count is in the rule's survival set ({2,3} for both named rules), and a dead cell is born iff its count is in the birth set ({3} classic, {3,6} alternative). An unrecognised ruleset sets no cell alive. |
| `Life.AlternativeDiffersOnlyOnSix` | gameoflife_with_changes.py:53-61 | The two named rules give different results exactly for a dead cell with six live neighbours. |
| `Life.AliveAt` | gameoflife_with_changes.py:40-42 | The lookup of a cell with both coordinates taken modulo the dimensions reads the stored cell (r, c) itself whenever (r, c) is already on the board. |
| `Life.NeighborCount` | gameoflife_with_changes.py:34-44 | The number of live cells among the eight wrapped neighbours of (r, c) is at most 8. |
| `Life.LoopOrderCountsNeighbors` | gameoflife_with_changes.py:36-43 | Visiting the offsets dr, dc ∈ {-1,0,1} in loop order, skipping (0,0), counts exactly the eight wrapped neighbours. |
| `Life.DeadGridHasNoNeighbors` | gameoflife_with_changes.py:34-44 | In an all-dead grid every cell has zero live neighbours. |
| `Life.DiagonalWrapExample` | gameoflife_with_changes.py:40-42 | On a 3 × 3 torus with only (0,0) alive, cell (2,2) counts one live neighbour, across both edges. |
| `Life.NextGen` | gameoflife_with_changes.py:47-62 | The next generation has the same `rows × cols` shape, and each of its cells follows the rule applied to the state and neighbour count of that cell in the old grid. |
| `Life.UnknownRulesetKillsAll` | gameoflife_with_changes.py:47-62 | Under a ruleset other than `"classic"` and `"alternative"`, one step yields the all-dead grid. |
| `Life.EmptyStaysEmpty` | gameoflife_with_changes.py:47-62 | A step from the all-dead grid gives the all-dead grid under every ruleset. A clear followed by a step therefore leaves the grid dead. |
| `Life.IsolatedCellDies` | gameoflife_with_changes.py:52-61 | A live cell with fewer than two live neighbours is dead after a step, under every ruleset. |
| `Life.BlinkerOscillates` | gameoflife_with_changes.py:46-62 | Under the classic rule a horizontal blinker on a 5 × 5 torus becomes vertical and back again: two steps return it, and the two phases differ. |
| `Life.LoneCellDies` | gameoflife_with_changes.py:46-62 | A single live cell on a 5 × 5 torus dies under the classic rule, leaving the board empty. |
| `Life.Covered` | gameoflife_with_changes.py:68-70 | A cell is covered by a stamp only if it is an in-range cell that some offset of the shape lands on after wrapping. |
| `Life.Stamp` | gameoflife_with_changes.py:64-71 | Stamping keeps the grid's shape and never kills a cell; it is additive. |
| `Life.StampSetsShapeCells` | gameoflife_with_changes.py:68-71 | For every offset of the shape, the wrapped cell (r0+dr mod rows, c0+dc mod cols) is alive after stamping. |
| `Life.StampLeavesOtherCells` | gameoflife_with_changes.py:68-71 | A cell that no offset of the shape lands on keeps its state. |
| `Life.StampIdempotent` | gameoflife_with_changes.py:64-71 | Stamping a shape twice at the same anchor equals stamping it once. |
| `Life.StampCommutes` | gameoflife_with_changes.py:64-71 | Two stamps give the same grid in either order. |
| `Life.LoadShapes` | gameoflife_with_changes.py:28-32 | Every known shape is non-empty and its offsets fit in a 3 × 4 box. |
| `Life.GliderExample` | gameoflife_with_changes.py:30 | Stamping `"glider"` at (0,0) on an empty 5 × 5 torus makes exactly the cells (0,1), (1,2), (2,0), (2,1) and (2,2) alive. |
| `Life.GameOfLife.CreateGrid` | gameoflife_with_changes.py:19-26 | The result has exactly `rows × cols` cells. Unrandomised, every cell is dead; randomised, a cell is alive exactly when its draw picks the one `True` among the four choices. |
| `Life.GameOfLife.constructor` | gameoflife_with_changes.py:12-17 | A new engine has the given dimensions and ruleset and the known shapes. Its grid is all dead: it has `rows × cols` dead cells. |
| `Life.GameOfLife.GetNeighborCount` | gameoflife_with_changes.py:34-44 | The double loop returns the number of live wrapped neighbours (`NeighborCount`), a value in [0, 8]. |
| `Life.GameOfLife.Update` | gameoflife_with_changes.py:46-62 | The grid becomes `NextGen` of the old grid under the current ruleset. Every count is read from the old grid. The shape and the ruleset are unchanged. |
| `Life.GameOfLife.AddShape` | gameoflife_with_changes.py:64-71 | A known shape turns the grid into `Stamp` of the old grid at the anchor; an unknown name leaves the grid unchanged; the ruleset is unchanged. |
| `Life.GameOfLife.Clear` | gameoflife_with_changes.py:73-74 | Every cell becomes dead; dimensions and ruleset are unchanged. |
| `Saper.AdjacentPositiveIffMineNear` | saper.py:67-71 | A cell's clipped 3 × 3 count is positive iff some cell of its clipped block is a mine. |
| `Saper.AdjacentCount` | saper.py:66-71 | The count over the clipped 3 × 3 block around a cell is at most 9. |
| `Saper.AdjacentAtMostEight` | saper.py:67-71 | A safe cell counts at most 8 mines in its clipped block. |
| `Saper.ScanStep` | saper.py:94-97 | Passing a cell that is a mine or is revealed keeps every scanned safe cell revealed as the board grows. |
| `Saper.FloodNothing` | saper.py:87-88 | A reveal that meets an already revealed cell and changes nothing is complete. |
| `Saper.FloodOne` | saper.py:89 | Revealing the one hidden cell (x, y) is a partial reveal from (x, y). |
| `Saper.ClosedGrowthTrans` | saper.py:94-98 | Two growths of the revealed set in a row, each revealing only safe cells and closing their zero-count cells, make one such growth. |
| `Saper.FloodFromSafeIsClosed` | saper.py:96-98 | A complete reveal from a safe cell reveals only safe cells and closes every zero-count cell it reveals. |
| `Saper.FloodFinish` | saper.py:90-98 | Revealing (x, y), then its safe neighbours' floods, with every safe cell of its block shown, is a complete reveal from (x, y). |
| `Saper.ChainRevealed` | saper.py:94-98 | By induction along a chain from (x, y): a complete reveal from (x, y) reveals every cell of the chain. |
| `Saper.FloodExact` | saper.py:86-98 | A complete reveal from (x, y) that spreads only from (x, y) reveals a cell iff a chain of hidden cells from (x, y) reaches it: the lower and upper bounds meet. |
| `Saper.SpreadOne` | saper.py:89 | Revealing the hidden cell (x, y) alone spreads only from (x, y). |
| `Saper.SpreadThrough` | saper.py:92-98 | When a hidden cell (x, y) has count 0, cells revealed from the safe cells of its block are reached by chains from (x, y). |
| `Saper.SpreadFromBlockStep` | saper.py:94-98 | One more reveal from a hidden safe cell of the block keeps every newly revealed cell reachable from some hidden safe cell of the block. |
| `Saper.VisitStep` | saper.py:96-98 | A complete reveal from a hidden safe cell of the block keeps the growth safe, closed and spread from the block, and reveals that cell. |
| `Saper.ScanSkip` | saper.py:97 | Passing a mine or a revealed cell of the block advances the loop's invariant by one cell. |
| `Saper.ScanVisit` | saper.py:96-98 | Revealing from a hidden safe cell of the block advances the loop's invariant by one cell and reveals no cell twice, so the hidden count does not grow. |
| `Saper.ScanEnd` | saper.py:94-98 | When the loop over the block ends, the growth is safe, closed, spread from the block, and every safe cell of the block is revealed. |
| `Saper.RevealNothing` | saper.py:87-88 | On an already revealed cell, changing nothing is a reveal from that cell. |
| `Saper.RevealNumbered` | saper.py:89-91 | On a hidden cell with a positive count, revealing that cell alone is a reveal from that cell. |
| `Saper.RevealZero` | saper.py:89-98 | On a hidden cell with count 0, revealing it and then every safe cell of its block by reveals from the block is a reveal from that cell. |
| `Saper.FloodRevealsNoMine` | saper.py:77-82 | A reveal started on a safe cell of a board that shows no mine still shows no mine. |
| `Saper.Minesweeper.constructor` | saper.py:18-33 | A new board has the given dimensions and mine count, 10, 10 and 10 by default. Every cell is hidden. It has at most `mines` mines, and fewer only when every candidate was used. The mines are exactly the candidates of some prefix of the draws, the whole sequence when fewer than `mines` were placed: the first distinct candidates in order. Every safe cell holds its clipped 3 × 3 count; every mine holds 0. |
| `Saper.Minesweeper.PlaceMines` | saper.py:50-58 | The number of mine cells grows by exactly `placed`, which never exceeds `mines`. The cells that become mines are exactly the candidates used. Candidates run out before `mines` are placed whenever `mines > rows × cols`. |
| `Saper.Minesweeper.PlaceMine` | saper.py:55-58 | One candidate becomes a mine. The mine count rises by one exactly when that cell was not a mine before. |
| `Saper.Minesweeper.CalculateAdjacents` | saper.py:60-71 | Every safe cell's count becomes the number of mines in its clipped 3 × 3 block. Mine cells keep their count. |
| `Saper.Minesweeper.RevealCell` | saper.py:86-99 | On a revealed cell, nothing changes. On a hidden cell with a positive count, exactly that cell is revealed. On a hidden cell with count 0, the newly revealed cells are exactly those a chain of hidden cells from it reaches (with `FloodExact`): only safe cells after the first, and every safe cell around each new zero-count cell. It terminates on the number of hidden cells. |
| `Saper.Minesweeper.RevealSafeNeighbors` | saper.py:94-98 | Revealing from each hidden safe cell of the clipped block reveals only safe cells, each reached by a chain from a hidden safe cell of the block; it closes every zero-count cell it reveals, and leaves every safe cell of the block revealed. |
| `Saper.Minesweeper.CheckWin` | saper.py:115-119 | Returns true iff every non-mine cell is revealed. |
| `Saper.Minesweeper.CellClicked` | saper.py:73-84 | A revealed cell: no effect, `Ignored`. A mine: no effect, `Lost`. A safe cell: exactly the region `RevealCell` states is revealed, and the result is `Won` exactly when every safe cell is then revealed, otherwise `Playing`. |

## Left out

- The GUI, meaning windows, painting, keyboard and mouse handlers, timers and the message boxes (`GameWindow`, `initUI`, `updateTimer`, the `setText`/`setStyleSheet`/`setEnabled` calls), because it is rendering and event wiring, not board logic. `gameOver` is reduced to the `Outcome` value that `CellClicked` returns.
- The JSON configuration read at start-up, because it is file I/O; dimensions and mine counts are parameters.
- `waves_fa.py`, because it is floating-point sine evaluation used for drawing, with no board logic.
- Randomness is not modelled. `CreateGrid` keeps the source's default of randomizing, and a randomized grid takes a grid of draws, each an index into `[False, True, False, False]`. `placeMines` takes a sequence of candidate positions in place of `random.randint`.
- Saper.Minesweeper.PlaceMines: the candidate sequence is finite. When it runs out before `mines` distinct cells are drawn, the model stops with fewer mines. The source would keep drawing, and never stops when `mines > rows × cols`. With zero rows or columns and `mines > 0`, the source raises `ValueError` from `random.randint(0, -1)`; the model has no candidate in range and places no mine.
- Saper.Minesweeper.RevealCell: Python's recursion limit is not modelled. The source raises `RecursionError` once a zero-count region needs more than about 1000 nested `revealCell` frames; the model always completes the reveal.
- Cells are addressed by their (row, column) indices. The `Cell` objects and the dictionary keyed by `(x, y)` are not modelled.
- Negative dimensions are not modelled (dimensions are `nat`). With zero rows or columns, the code's neighbour count and stamping would divide by zero, so those two operations require positive dimensions.
- The engine's grid is a value field that `Update` and `Clear` replace and `AddShape` updates cell by cell. Aliasing between row lists cannot arise in the source, because every grid is freshly built, and it is not modelled.
