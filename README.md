# Mineframe Sweeper: a verified model of the minesweeper engine

This project models the minesweeper minigame of the Mineframe widget, the
`MinesweeperCard` component of `src/components/Frame.tsx`, and proves what
its board engine promises:

- the board initialiser builds a `BOARD_SIZE × BOARD_SIZE` grid of hidden,
  mine-free cells whose counts are 0;
- `generateMines` places mines by rejection sampling: each draw marks the
  drawn cell unless it already holds a mine, until `MINE_COUNT` mines are
  placed;
- `calculateAdjacentMines` writes into every non-mine cell the number of
  mines in its bounds-clipped 3×3 neighbourhood and leaves mine cells alone;
- `handleCellClick` reveals exactly one cell unless the game is over or the
  cell is already revealed, and ends the game when that cell is a mine;
- `renderCell` shows a button for a covered cell, and for a revealed one the
  bomb, its count, or nothing.

Modules, following the engine's parts:

- `Board` (board.dfy): cells, the initial board, one placement step (`Mark`)
  and many (`MarkAll`), and what can and cannot be placed.
- `Adjacency` (adjacency.dfy): the neighbourhood of a cell, the loop that
  counts its mines, and the annotated board `Annotate` that specifies
  `calculateAdjacentMines`.
- `Reveal` (reveal.dfy): a click as a function on the component's state,
  and runs of clicks.
- `Display` (display.dfy): the glyph rule.
- `Engine` (engine.dfy): the class `MinesweeperCard`, holding the board and
  the game-over flag, with the imperative steps proved against the
  functions above.

`BOARD_SIZE` and `MINE_COUNT` come from `~/lib/constants`, which is not part
of this model; they are the class's `size` and `mineCount`. The random
coordinates `Math.floor(Math.random() * BOARD_SIZE)` are replaced by a
finite sequence of draws, each an in-range pair taken in the source's order
(x first, then y). The placement loop stops when `mineCount` mines are
placed or the draws run out; `PlacementCanFinish` and
`PlacementNeverFinishes` show that a sequence of draws that finishes the
loop exists exactly when `mineCount <= size * size`.

`mineCount == size * size` is a valid configuration: with every cell a
mine the loop can still finish (`PlacementCanFinish`).

## Model

| member | source | states |
|---|---|---|
| `Board.InitialBoard` | src/components/Frame.tsx:32-40 | the initial board is size × size and every cell is not a mine, not revealed, and has count 0 |
| `Board.InitialBoardEmpty` | src/components/Frame.tsx:32-40 | a fresh board has no mine and no revealed cell |
| `Board.Mark` | src/components/Frame.tsx:53-56 | the drawn cell becomes a mine unless it already is one; the shape and every other cell stay as they were |
| `Board.MarkEffect` | src/components/Frame.tsx:53-56 | one loop iteration adds the drawn position to the mines; the mine count rises by exactly one when the cell was not a mine and stays otherwise; every other cell and every reveal flag and count is unchanged |
| `Board.MarkAll` | src/components/Frame.tsx:50-57 | after any sequence of draws the board keeps its shape, its mines are the old mines plus the drawn positions, and no reveal flag or count changes |
| `Board.MinesAtMostCells` | src/components/Frame.tsx:50 | a size × size board never holds more than size * size mines |
| `Board.PlacementCanFinish` | src/components/Frame.tsx:49-57 | when mineCount <= size * size some sequence of in-range draws puts exactly mineCount mines on a fresh board |
| `Board.PlacementNeverFinishes` | src/components/Frame.tsx:49-57 | when mineCount > size * size no sequence of draws ever reaches mineCount mines, so the loop cannot end |
| `Adjacency.CountNeighbourMines` | src/components/Frame.tsx:65-74 | the dy/dx loops return exactly the number of mines at in-bounds positions with \|ny − y\| <= 1 and \|nx − x\| <= 1 |
| `Adjacency.ScanStep` | src/components/Frame.tsx:68-71 | visiting one offset raises the tally by one exactly when that position is on the board and holds a mine |
| `Adjacency.NeighbourBound` | src/components/Frame.tsx:64-75 | a non-mine cell has between 0 and 8 mine neighbours |
| `Adjacency.SameLayoutSameNeighbours` | src/components/Frame.tsx:71 | the count depends only on where the mines are, so cells already updated do not disturb later counts |
| `Adjacency.Annotate` | src/components/Frame.tsx:61-79 | the board the counting pass produces: same shape, mine cells untouched, and every non-mine cell given the number of mines in its bounds-clipped 3×3 window |
| `Adjacency.AnnotateCorrect` | src/components/Frame.tsx:61-79 | after the counting pass the mine layout and every reveal flag are unchanged, mine cells are untouched, and every non-mine cell holds its exact neighbour count, between 0 and 8 |
| `Adjacency.AnnotateIdempotent` | src/components/Frame.tsx:61-79 | running the counting pass on its own result changes nothing |
| `Reveal.Click` | src/components/Frame.tsx:86-97 | a click keeps the shape and every other cell; (y, x) becomes revealed unless the game is over; the game is over afterwards exactly when it was before or a covered mine was clicked |
| `Reveal.ClickIgnored` | src/components/Frame.tsx:87 | a click when the game is over or on a revealed cell changes neither the board nor the flag; a second click on the same cell changes nothing |
| `Reveal.ClickRevealsOne` | src/components/Frame.tsx:89-94 | otherwise the revealed positions grow by exactly (y, x), every other cell is unchanged, (y, x) keeps its mine flag and count, and the game is over afterwards exactly when (y, x) is a mine |
| `Reveal.ClickKeepsLayout` | src/components/Frame.tsx:89-90 | a click moves no mine and changes no count, and a board with correct counts keeps them |
| `Reveal.ClickKeepsFlagHonest` | src/components/Frame.tsx:92-94 | if the game-over flag is true exactly when a mine is showing, it stays so after a click |
| `Reveal.PlayMonotone` | src/components/Frame.tsx:86-97 | over any run of clicks the revealed positions only grow, and once the game is over no click changes anything, so the flag never goes back to false |
| `Reveal.PlayKeepsLayout` | src/components/Frame.tsx:89-90 | over any run of clicks the mine layout and mine positions never change, and correct counts stay correct |
| `Reveal.PlayKeepsFlagHonest` | src/components/Frame.tsx:92-94 | over any run of clicks the game is over exactly when a mine is showing, if that held at the start |
| `Display.RenderCell` | src/components/Frame.tsx:101-111 | a covered cell shows a button and nothing else; a revealed mine shows the bomb; a revealed non-mine shows its count when nonzero and blank when zero |
| `Display.BlankHasNoMineNeighbours` | src/components/Frame.tsx:111 | on a board with correct counts a blank revealed cell has no mine among its in-bounds neighbours |
| `Display.NumberIsNeighbourCount` | src/components/Frame.tsx:111 | on a board with correct counts a number shown is between 1 and 8 and equals the number of mines around the cell |
| `Engine.MountEffect` | src/components/Frame.tsx:81-82 | placing mines on a fresh board and then counting leaves mines exactly on the drawn cells, at most size * size of them, right counts, nothing revealed and count 0 on mine cells |
| `Engine.MinesweeperCard.constructor` | src/components/Frame.tsx:32-41 | the component starts with the initial board and the game not over |
| `Engine.MinesweeperCard.GenerateMines` | src/components/Frame.tsx:48-58 | the board after the loop is the board after the draws consumed; the mine count rose by the number placed, which is at most mineCount; the loop went on exactly while fewer than mineCount were placed and stops early only when the draws run out |
| `Engine.MinesweeperCard.CalculateAdjacentMines` | src/components/Frame.tsx:61-79 | the board afterwards is the annotated board, whose properties `AnnotateCorrect` states |
| `Engine.MinesweeperCard.InitializeMines` | src/components/Frame.tsx:44-84 | after the mount effect the counts are right, nothing is revealed, mines sit only on drawn cells, mine cells keep count 0, and exactly mineCount mines are placed when placement finishes, which needs mineCount <= size * size |
| `Engine.MinesweeperCard.HandleCellClick` | src/components/Frame.tsx:86-97 | the board and flag after the click are `Click` of those before it |

## Left out

- The `Frame` component (src/components/Frame.tsx:150-256): host SDK context loading, `addFrame` and its error strings, event listeners, `ready`, the wallet-provider store and safe-area padding. These are asynchronous calls into third-party libraries.
- React mechanics (`useState`, `useEffect`, the scheduling of `setBoard`/`setGameOver`) and the JSX layout, including the "Game Over" banner and the hard-coded 8-column grid; only the glyph choice is modelled.
- "New Game" reloads the page; it is modelled only as building a new `MinesweeperCard` and running `InitializeMines` again.
- `Math.random` and its distribution: only the in-range integers it yields are modelled, as a finite sequence of draws. Uniformity of the mine layout is not stated.
- Engine.MinesweeperCard.GenerateMines: the source loop runs until it succeeds; the model stops when its finite draws run out and says so in its result, rather than running forever.
- Engine.MinesweeperCard.InitializeMines: for a board of size 0 with a positive mine count the source throws when it indexes the empty board; the model has no in-range draw for such a board and ends with no mines placed.
- Engine.MinesweeperCard.InitializeMines: when the finite draws run out before `mineCount` mines are placed (`finished` false), the model still runs the counting pass on the partly mined board; the source would still be inside `generateMines` and never reach `calculateAdjacentMines`.
- Engine.MinesweeperCard.InitializeMines: requires the initial board. Because `[...board]` shares the initial state's cell objects, a second run of the mount effect (as React Strict Mode does in development) would start from an already mined board and place `MINE_COUNT` more mines; that re-run is React mechanics and is not modelled.
- The board is a value (`seq<seq<Cell>>`) that each step replaces. The source mutates shared cell objects through a shallow copy of the outer array, so the old and new React state alias the same cells; that aliasing is not modelled.
- Engine.MinesweeperCard.HandleCellClick: out-of-bounds coordinates are excluded by a precondition; in the source they can only come from the rendered grid, which is always in bounds.
- JavaScript numbers are doubles; counts here are unbounded integers, which agree with them for every value a board can produce (0 to 8).
