# Conway's Game of Life engine, modelled in Dafny

The engine keeps a square window of `width` by `height` pixels divided into cells of
`cellLength` pixels. The grid `cells[r][c]` holds one `Cell` object per square: row `r`
counted from the bottom of the window, column `c` from the left. Each cell stores the
pixel coordinates of its lower-left corner, `x = c * cellLength` and
`y = r * cellLength`, and a mutable `alive` flag. The model covers four things:

- the neighbour count a cell computes from the grid, `Cell.getAliveNeighbors`;
- the generation step `Game.iterate`, which puts the next generation into a freshly
  allocated grid and then swaps it in;
- the two user mutations, `killCells` (clear the board) and the mouse handler (map a
  click to a cell and flip it);
- the grid set-up in `initCells`, with the random seed replaced by a given board.

The project has five modules:

- `Arith` (arith.dfy): Java's integer division, which truncates toward zero, and the
  facts about it the grid index arithmetic needs.
- `Rules` (rules.dfy): the specification on values. A `Board` is a sequence of rows of
  `alive` flags. It defines the neighbour count, the B3/S23 rule, the whole-board step,
  the cleared board and the one-cell flip, and proves their properties.
- `Patterns` (patterns.dfy): a lone cell, the 2x2 block and the blinker, and what the
  step does to each.
- `Cells` (cell.dfy): the `Cell` class. `GetAliveNeighbors` keeps the source's nested
  loops and is proved equal to `Rules.NeighbourCount` on the grid's `Snapshot`, the
  board of its `alive` flags.
- `Engine` (game.dfy): the `Game` class over an `array2<Cell?>` grid. `Valid()` is its
  invariant: every slot holds a cell whose stored coordinates match its index. Each
  method is proved against the `Rules` functions through `Snapshot`.

Java's `new Cell[n][m]` becomes `new Cell?[n, m]`; its slots start out `null`, as in
Java. A Java index out of range throws `IndexOutOfBoundsException`, and the source
catches it to skip the access. The model writes an explicit bounds test instead. This
covers negative indices too, which Java also rejects.

The model follows these details of the code:

- The code never rejects a size. A window narrower than one cell makes an empty grid.
  The model allows that too: it demands only `0 < cellLength` and
  `0 <= width == height`.
- A cell stores pixel coordinates, not grid coordinates, so the grid index has to be
  recovered by division (`src/Cell.java:20-21`).
- The step does not flip cells in place. It creates a new cell object for every cell
  that dies or is born, and for a live cell with three neighbours, which takes the
  birth branch; it reuses the old object for every other cell.
  `Engine.Reused` names the reused cells and `Engine.Game.Iterate` states which objects
  are old and which are fresh.
- Java truncates the click quotient toward zero. So a cursor less than one cell to the
  left of the window, or below it, still selects column 0, or row 0
  (`Engine.ClickJustOutsideSelectsEdge`).

## Model

| member | source | states |
|---|---|---|
| `Arith.TruncDiv` | src/Game.java:94-95 | Java's `/` for a positive divisor: for a non-negative dividend `q * d <= a < q * d + d`, and for a negative one the quotient is rounded up toward zero |
| `Arith.MulDivCancel` | src/Cell.java:20-21 | a coordinate `k * cellLength` stored by the grid divides back to `k`, so a cell recovers its own grid index |
| `Rules.NeighbourCount` | src/Cell.java:18-34 | the count of live cells around a position is at most 8 |
| `Rules.NeighbourCountSum` | src/Cell.java:22-30 | the count is the sum over the eight surrounding positions, where a position off the board adds nothing |
| `Rules.NeighbourCountIsCardinality` | src/Cell.java:20-26 | the count equals the number of on-board positions `(i, j)` with `abs(i - r) <= 1`, `abs(j - c) <= 1`, `(i, j) != (r, c)` whose cell is alive |
| `Rules.CountAvoidsToggle` | src/Cell.java:22-26 | flipping a position that a list of positions does not contain leaves the count along that list unchanged |
| `Rules.SelfNotCounted` | src/Cell.java:24 | the count at a position does not depend on that position's own state |
| `Rules.OutsideWindowNotCounted` | src/Cell.java:22-23 | a cell outside the 3x3 window does not change the count, so there is no wrap-around between opposite edges |
| `Rules.OffBoardIsDeadBorder` | src/Cell.java:25-30 | skipping off-board positions gives the same count as surrounding the board with a border of dead cells |
| `Rules.CornerCount` | src/Cell.java:22-30 | at each of the four corners the count is at most 3 |
| `Rules.SingleCellBoard` | src/Cell.java:22-30 | the only cell of a 1x1 board has count 0 |
| `Rules.NextState` | src/Game.java:159-164 | the rule in the source's branch order: the result is alive exactly when the count is 3, or the cell is alive and the count is 2 |
| `Rules.Step` | src/Game.java:154-165 | the next board has the old board's shape, and each cell follows B3/S23 using counts taken from the old board only |
| `Rules.StepKeepsShape` | src/Game.java:153-155 | a rows x cols grid steps to a rows x cols grid |
| `Rules.DeadStaysDead` | src/Game.java:159-164 | a board with no live cell steps to a board with no live cell |
| `Rules.DeadIsFixed` | src/Game.java:159-164 | the cleared board is a fixed point of the step |
| `Rules.IsolatedCellDies` | src/Game.java:159-160 | a live cell without live neighbours is dead in the next generation |
| `Rules.Dead` | src/Game.java:193-198 | the cleared board has the given shape and no live cell |
| `Rules.Toggle` | src/Game.java:97-102 | flipping `(r, c)` keeps the shape, inverts that cell if it is on the board and leaves every other cell as it was, so an off-board position changes nothing |
| `Rules.ToggleTwice` | src/Game.java:97-102 | flipping the same position twice restores the board |
| `Rules.ToggleChangesOneCell` | src/Game.java:97-102 | an on-board flip changes the board, and changes no cell other than the flipped one |
| `Patterns.LoneCellDies` | src/Game.java:159-164 | a board with one live cell steps to the cleared board |
| `Patterns.BlockIsStill` | src/Game.java:156-164 | the 2x2 block is unchanged by the step, also against an edge |
| `Patterns.BlinkerTurnsVertical` | src/Game.java:156-164 | a horizontal blinker away from the edges steps to the vertical blinker |
| `Patterns.BlinkerTurnsHorizontal` | src/Game.java:156-164 | the vertical blinker steps back to the horizontal one |
| `Patterns.BlinkerPeriodTwo` | src/Game.java:156-164 | the blinker changes after one step and is restored after two |
| `Cells.Cell.constructor` | src/Cell.java:2-14 | a new cell holds exactly the given `x`, `y` and `alive`; `x` and `y` are constants |
| `Cells.Cell.ChangeState` | src/Cell.java:15 | `alive` is inverted and nothing else changes |
| `Cells.ChangeStateTwice` | src/Cell.java:15 | two flips restore `alive` |
| `Cells.Cell.GetAliveNeighbors` | src/Cell.java:18-34 | the loops return `NeighbourCount` of the grid's flags at index `(y / cellLength, x / cellLength)`, a value in 0..8 |
| `Engine.ClickIndex` | src/Game.java:94-95 | the (row, column) a cursor selects, with the y axis flipped against `height`: for a cursor inside the window it is the cell whose square contains the cursor, and a cursor left of or below the window gives a column or row of at most 0 |
| `Engine.ClickSelectsDrawnCell` | src/Game.java:94-95 | a click inside the square where cell `(r, c)` is drawn selects index `(r, c)` |
| `Engine.ClickJustOutsideSelectsEdge` | src/Game.java:94-95 | a cursor less than one cell left of the window, or below it, still selects column 0, or row 0 |
| `Engine.Game.constructor` | src/Game.java:137-148 | an `n x n` grid with `n = width / cellLength`, each slot a newly allocated cell at pixel `(c * cellLength, r * cellLength)` with the seed's state; the grid's flags are the seed |
| `Engine.Game.CellsDistinct` | src/Game.java:145 | different slots of a valid grid hold different cell objects, because their coordinates differ |
| `Engine.Game.Iterate` | src/Game.java:150-168 | the grid keeps its invariant and its dimensions, the new flags are `Step` of the old flags, each slot holds the old object when `Reused` says so and a fresh one otherwise, and the old cells are not modified |
| `Engine.Game.NextRow` | src/Game.java:155-165 | one pass of the inner loop fills row `r` with cells placed at their coordinates and carrying the next generation's flags, and leaves the other rows alone |
| `Engine.Game.NextCell` | src/Game.java:158-164 | the three branches give a cell at the right coordinates with the rule's next state; the old object is kept exactly when neither the death nor the birth branch fires |
| `Engine.Game.KillCells` | src/Game.java:193-198 | the grid keeps its invariant and ends with no live cell, and only cells that were alive are written |
| `Engine.Game.Click` | src/Game.java:94-102 | the new flags are `Toggle` of the old flags at the index the click selects; a click off the grid changes nothing and does not fail |

## Left out

- Window creation, OpenGL drawing (`drawCell`, `drawCells`), the render loop and the
  keyboard and mouse callback wiring: these are I/O against foreign libraries.
- The random seed in `initCells`: `Math.random()` is not modelled, and the constructor
  takes the initial board as a parameter.
- src/Clock.java and the rate changes on the arrow keys: they accumulate `double` values,
  and when the clock fires depends on floating-point rounding.
- The `running` flag and the clock-gated call to `iterate` in the driving loop: this is
  scheduling around the engine, not engine behaviour.
- Reading the cursor position and the `double` to `int` casts before the division:
  `Click` starts from integer pixel coordinates.
- The fixed window size and cell size (800, 800 and 10) are constructor parameters. The
  constructor requires `width == height`, because `iterate` allocates
  `[height / cellLength][width / cellLength]` but loops over `cells.length` by
  `cells[0].length`, which agree only for a square window.
- 32-bit overflow: pixel coordinates and counts are unbounded integers. This matters
  only for windows far larger than the 800-pixel one.
- The accessors `x()`, `y()` and `alive()` are modelled as reads of the fields they
  return.
- Java's jagged `Cell[][]` is modelled as a rectangular `array2`, because every row
  is allocated with the same length and is never replaced.
- Engine.Game.Iterate: the source fills the next grid in one method with two nested
  loops. The model puts the inner loop in its own method, `NextRow`, to keep each
  proof small.
