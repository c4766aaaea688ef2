# Minesweeper board and play core, in Dafny

This project models the core of a console Minesweeper game written in Kotlin
(`Minesweeper/task/src/minesweeper/Main.kt`) and proves properties of the model.
The Kotlin program has three classes. `Cell` holds a state and a count of mined
neighbours. `GameField` holds the grid of cells, draws the mine positions,
places the mines, toggles marks and runs the win test. `MineSweeperGame` runs
one move at a time and stops the game when it is won.

Modules, one per file, follow that structure:

- `Grid` (`grid.dfy`): coordinates, the 8-neighbourhood in the order the board
  lists it, counting mined cells in a neighbour list, and the decoding of a
  drawn number into a cell.
- `Cells` (`cells.dfy`): the five state constants and the `Cell` value with the
  source's six operations. Each operation that changes the cell returns the
  changed cell together with the source's Boolean answer where it gives one.
- `Marks` (`marks.dfy`): what toggling does to the set of marked cells.
- `Board` (`board.dfy`): the board as a value (`BoardView`). The two board
  updates are specified here as functions (`AddMineAt`, `ToggleMarkAt`), with
  the invariants they keep.
- `Field` (`field.dfy`): the `GameField` class. Its fields are the grid
  (`seq<seq<Cell>>`), the mined and marked sets and the drawn positions. Its
  methods reassign those fields and are proved against the `Board` functions.
- `Game` (`game.dfy`): the `MineSweeperGame` class and its `Play` move.

The invariant kept between moves is `Board.Consistent`:

- every count equals the number of mined neighbours;
- the marked set is exactly the cells in the marked state;
- a cell is closed, marked, or in the mined state, and only a mined cell can be
  in the mined state.

While mines are being placed, the stronger `Board.Placing` also holds: nothing
is marked, and a cell is in the mined state exactly when it is mined.

The source has no marked-neighbour counters, no first-move relocation, no
flood fill, and no board operation that opens a cell. Its guard `isNearMine`
tests that the count is positive and the cell is not in the mined state.
Placement draws random numbers until enough distinct ones are collected, then
decodes each one as written (see Findings).

Two source quirks are kept and proved as they are:

- A marked cell with a mined neighbour passes the guard, so it can never be
  unmarked (`Board.MarkedNextToMineIsStuck`).
- Marking a mined cell and unmarking it again leaves it closed, although it is
  still in the mined set (`Board.ToggleTwice`).

## Model

| member | source | states |
|---|---|---|
| Grid.NeighboursOf | Minesweeper/task/src/minesweeper/Main.kt:103-130 | a cell is listed exactly when it is on the grid and adjacent to (row, col); the cell itself is not listed; no cell is listed twice; at most eight cells |
| Grid.NeighboursAsListed | Minesweeper/task/src/minesweeper/Main.kt:103-130 | the neighbour list equals the list built branch by branch (row above if row > 0: same column, left, right; row below if row < height - 1: likewise; then left, right), in that order |
| Grid.NeighbourSymmetric | Minesweeper/task/src/minesweeper/Main.kt:103-130 | q is listed as a neighbour of p exactly when p is listed as a neighbour of q |
| Grid.ListedIffAdjacent | Minesweeper/task/src/minesweeper/Main.kt:103-130 | for two cells on the grid, q is listed as a neighbour of p exactly when q is adjacent to p |
| Grid.BoardListsOnGrid | Minesweeper/task/src/minesweeper/Main.kt:103-130 | each of the eight branch guards of the neighbour list holds exactly when its offset cell lies on the grid |
| Grid.AroundAsListed | Minesweeper/task/src/minesweeper/Main.kt:103-130 | from any offset onwards, the offset cells kept on the grid are the cells the remaining branches of the neighbour list add, in the same order |
| Grid.AroundMembers | Minesweeper/task/src/minesweeper/Main.kt:103-130 | a cell is among the offset cells from index k onwards exactly when it is on the grid, adjacent to (row, col), and its offset's index is at least k |
| Grid.AroundDistinct | Minesweeper/task/src/minesweeper/Main.kt:103-130 | the offset cells from any index onwards contain no cell twice |
| Grid.DirectionIndex | Minesweeper/task/src/minesweeper/Main.kt:103-130 | every one of the eight neighbour offsets occurs in the offset list, at the returned index |
| Grid.MinedAmongZero | Minesweeper/task/src/minesweeper/Main.kt:86-88 | the mined count over a neighbour list is zero exactly when no listed cell is mined |
| Grid.MinedAmongIsCardinality | Minesweeper/task/src/minesweeper/Main.kt:94-101 | over a list without duplicates, the count is the number of distinct mined cells in it |
| Grid.MinedAmongInsert | Minesweeper/task/src/minesweeper/Main.kt:94-101 | adding one new mine raises a list's count by one exactly when the mine is in the list |
| Grid.Decode | Minesweeper/task/src/minesweeper/Main.kt:32 | row-major decoding: the column lies in [0, width) and row * width + column gives the drawn number back |
| Grid.DecodeInGrid | Minesweeper/task/src/minesweeper/Main.kt:28-32 | a number drawn from [0, width * height) decodes, row-major, to a cell on the grid and encodes back to itself; such a number exists only on a board with columns |
| Grid.EncodeInRange | Minesweeper/task/src/minesweeper/Main.kt:28-32 | every cell's row-major number lies in the drawing range and decodes back to the cell |
| Grid.DecodeInjective | Minesweeper/task/src/minesweeper/Main.kt:32 | distinct numbers decode to distinct cells |
| Grid.DecodedSize | Minesweeper/task/src/minesweeper/Main.kt:32 | a set of drawn numbers decodes to exactly as many cells |
| Grid.DecodedAdd | Minesweeper/task/src/minesweeper/Main.kt:32 | decoding one more new number adds one cell that was not there before |
| Grid.DecodeAsWritten | Minesweeper/task/src/minesweeper/Main.kt:32 | the decoding as written: the column is the drawn number modulo the width, as in row-major decoding, but the row is the number of whole heights in the drawn number |
| Grid.DecodeAsWrittenOnSquare | Minesweeper/task/src/minesweeper/Main.kt:32 | on a square board the decoding as written agrees with row-major decoding for every draw |
| Grid.DecodeAsWrittenCollides | Minesweeper/task/src/minesweeper/Main.kt:32 | on a 3-row, 2-column board the distinct draws 0 and 2 decode, as written, to the same cell (0, 0) |
| Grid.DecodeAsWrittenLeavesGrid | Minesweeper/task/src/minesweeper/Main.kt:32 | on a 2-row, 3-column board the draw 4 decodes, as written, to row 2, which is off the grid |
| Grid.DecodeAsWrittenOneColumn | Minesweeper/task/src/minesweeper/Main.kt:32 | on a 10-row, 1-column board every draw in [0, 10) decodes, as written, to (0, 0), and (1, 0) is a neighbour of that cell |
| Cells.Decimal | Minesweeper/task/src/minesweeper/Main.kt:60 | the count is written as a non-empty string of decimal digits with no leading zero |
| Cells.DecimalRoundTrip | Minesweeper/task/src/minesweeper/Main.kt:60 | reading the decimal string back gives the count |
| Cells.Cell.Open | Minesweeper/task/src/minesweeper/Main.kt:42-51 | a closed cell becomes opened, a mined one fires, others are unchanged; the count is kept; the answer is whether the cell changed |
| Cells.OpenOnce | Minesweeper/task/src/minesweeper/Main.kt:42-51 | opening a second time changes nothing and answers false |
| Cells.Cell.AddNearMine | Minesweeper/task/src/minesweeper/Main.kt:53-55 | the count goes up by one and the state stays |
| Cells.Cell.ToString | Minesweeper/task/src/minesweeper/Main.kt:57-66 | the glyph is empty exactly for an opened cell, "@" exactly for a fired one, "*" exactly for a marked one, "!" exactly for an unknown state, "." exactly for a mined cell or a closed cell with no mined neighbour, and a numeral exactly for a closed cell with mined neighbours, whose value is the count and which has no leading zero |
| Cells.Cell.PutMine | Minesweeper/task/src/minesweeper/Main.kt:68-74 | the answer is true exactly on a closed cell, which then turns to the mined state; any other cell is unchanged; the count is kept |
| Cells.PutMineOnce | Minesweeper/task/src/minesweeper/Main.kt:68-74 | a second mine on the same cell is refused and changes nothing |
| Cells.Cell.ToggleMark | Minesweeper/task/src/minesweeper/Main.kt:76-84 | a marked cell becomes closed and any other cell becomes marked; the answer is whether the cell is marked now; the count is kept |
| Cells.ToggleMarkTwice | Minesweeper/task/src/minesweeper/Main.kt:76-84 | toggling twice restores a closed or marked cell; a cell in any other state comes back closed |
| Cells.Cell.IsNearMine | Minesweeper/task/src/minesweeper/Main.kt:86-88 | on a closed cell the guard holds exactly when the cell shows a number; it never holds in the mined state; on a marked cell it holds exactly when the count is positive; in every state but the mined one, a positive count makes it hold |
| Cells.KnownStatesStayKnown | Minesweeper/task/src/minesweeper/Main.kt:15-19 | every cell operation keeps one of the five known states |
| Marks.Toggled | Minesweeper/task/src/minesweeper/Main.kt:143-150 | the toggled cell changes membership in the marked set and no other cell does |
| Marks.MarksAfterParity | Minesweeper/task/src/minesweeper/Main.kt:143-150 | after a sequence of toggles, a cell is marked exactly when its starting mark differs from the parity of its toggle count |
| Marks.MarksAfterOrderIndependent | Minesweeper/task/src/minesweeper/Main.kt:143-150 | the same toggles in any order give the same marked set |
| Marks.MarkingEveryMineWins | Minesweeper/task/src/minesweeper/Main.kt:156-158 | from no marks, toggling each mine once in any order makes the marked set equal the mined set; toggling one of them again breaks the equality |
| Board.NewGrid | Minesweeper/task/src/minesweeper/Main.kt:23 | height rows of width new cells, each closed with no mined neighbour |
| Board.EmptyBoard | Minesweeper/task/src/minesweeper/Main.kt:20-23 | the new board, with nothing mined or marked, satisfies the placement invariant |
| Board.PlacingIsConsistent | Minesweeper/task/src/minesweeper/Main.kt:26-35 | a board that satisfies the placement invariant is consistent |
| Board.BumpAll | Minesweeper/task/src/minesweeper/Main.kt:98-100 | raising the counts along a list of cells on the grid keeps the grid's shape |
| Board.BumpAllEffect | Minesweeper/task/src/minesweeper/Main.kt:97-100 | raising the counts along a list without duplicates adds one to each listed cell's count; no state changes, and no other count |
| Board.AddMineAt | Minesweeper/task/src/minesweeper/Main.kt:94-101 | adding a mine keeps the board's size and keeps both sets on the grid; the cell joins the mined set and the marked set stays |
| Board.AddMineAtEffect | Minesweeper/task/src/minesweeper/Main.kt:94-101 | after adding a mine at p, a closed p is in the mined state and every other state is unchanged; a cell's count goes up by one exactly when it is adjacent to p |
| Board.AddMineKeepsPlacing | Minesweeper/task/src/minesweeper/Main.kt:94-101 | a mine on a cell not yet mined keeps the placement invariant |
| Board.AddMineKeepsCounts | Minesweeper/task/src/minesweeper/Main.kt:94-101 | a mine on a cell not yet mined keeps every count equal to the number of mined neighbours |
| Board.AddMineKeepsStates | Minesweeper/task/src/minesweeper/Main.kt:94-101 | if a cell is in the mined state exactly when it is mined, that stays true with the new mine |
| Board.AddMineCountAt | Minesweeper/task/src/minesweeper/Main.kt:94-101 | a new mine at p raises a cell's mined-neighbour count by one exactly when the cell is adjacent to p |
| Board.AddMineOnMinedBreaksCounts | Minesweeper/task/src/minesweeper/Main.kt:94-101 | a second mine on an already-mined cell raises its neighbours' counts without growing the mined set, so the counts no longer match |
| Board.ToggleMarkAt | Minesweeper/task/src/minesweeper/Main.kt:143-150 | toggling keeps the board's size, both sets on the grid and the mined set; p is marked afterwards exactly when its cell was not in the marked state; the marks of other cells stay |
| Board.ToggleMarkAtEffect | Minesweeper/task/src/minesweeper/Main.kt:143-150 | toggling p closes a marked p and removes it from the marked set, or marks any other p and adds it to the set; the count and every other cell are unchanged |
| Board.ToggleMarkKeepsConsistent | Minesweeper/task/src/minesweeper/Main.kt:143-150 | toggling keeps the board consistent and toggles p in the marked set |
| Board.ToggleMarkKeepsCounts | Minesweeper/task/src/minesweeper/Main.kt:143-150 | toggling keeps every count right |
| Board.ToggleMarkKeepsMarks | Minesweeper/task/src/minesweeper/Main.kt:143-150 | toggling keeps the marked set equal to the cells in the marked state |
| Board.ToggleMarkKeepsStates | Minesweeper/task/src/minesweeper/Main.kt:143-150 | toggling keeps every state closed, marked, or mined on a mined cell |
| Board.ToggleTwice | Minesweeper/task/src/minesweeper/Main.kt:143-150 | toggling a closed or marked cell twice restores the board; a cell in the mined state comes back closed, with the marks restored |
| Board.Won | Minesweeper/task/src/minesweeper/Main.kt:156-158 | a won board has as many marked cells as mined cells |
| Board.WonIffMarkedIsMined | Minesweeper/task/src/minesweeper/Main.kt:156-158 | on a consistent board, the marked set equals the mined set exactly when every cell is in the marked state precisely when it is mined |
| Board.NearMine | Minesweeper/task/src/minesweeper/Main.kt:152-154 | the guard never holds on a cell in the mined state or with no mined neighbour counted; on a closed or marked cell it holds exactly when the count is positive |
| Board.NearMineIffMinedNeighbour | Minesweeper/task/src/minesweeper/Main.kt:152-154 | when the counts are right, the guard holds exactly when some neighbour is mined and the cell is not in the mined state |
| Board.MarkedNextToMineIsStuck | Minesweeper/task/src/minesweeper/Main.kt:86-88 | a marked cell with a mined neighbour passes the guard, so the move that would unmark it is refused |
| Field.DrawPositions | Minesweeper/task/src/minesweeper/Main.kt:27-29 | the drawn set has numOfMines elements (none for a negative count), all taken from the draws; drawing stops after the shortest prefix of draws holding that many distinct values |
| Field.MinesMatchDraws | Minesweeper/task/src/minesweeper/Main.kt:26-35 | there are as many mined cells as drawn numbers |
| Field.GameField.constructor | Minesweeper/task/src/minesweeper/Main.kt:14-35 | the new board is consistent and satisfies the placement invariant; the mined cells are the decoded drawn numbers, as many as mines were asked for; the drawn set is the one the drawing loop stops at |
| Field.GameField.PlaceMines | Minesweeper/task/src/minesweeper/Main.kt:32 | one mine for each drawn number, in any order, keeps the placement invariant and makes the mined set the decoded drawn numbers |
| Field.GameField.AddMine | Minesweeper/task/src/minesweeper/Main.kt:94-101 | the new board is `AddMineAt` of the old one: the cell is mined, recorded, and each neighbour's count goes up by one |
| Field.GameField.ToggleMarkCell | Minesweeper/task/src/minesweeper/Main.kt:143-150 | the new board is `ToggleMarkAt` of the old one; it stays consistent, and the marked set is toggled at the cell |
| Field.GameField.IsCellNearMine | Minesweeper/task/src/minesweeper/Main.kt:152-154 | the guard holds exactly when some neighbour is mined and the cell is not in the mined state |
| Field.GameField.CheckWin | Minesweeper/task/src/minesweeper/Main.kt:156-158 | the game is won exactly when every cell is in the marked state precisely when it is mined; a won board has as many marks as drawn mines |
| Game.MineSweeperGame.constructor | Minesweeper/task/src/minesweeper/Main.kt:3-7 | a new running game on a new, consistent board with nothing marked that satisfies the placement invariant, so every mined cell is in the mined state; by default ten mines on a ten-by-ten board |
| Game.MineSweeperGame.Play | Minesweeper/task/src/minesweeper/Main.kt:172-193 | on a cell that passes the guard nothing changes; otherwise the mark is toggled and the game stops when the board is then won; the board stays consistent, and the answer is whether the game is still running |

## Left out

- Drawing and prompting are not modelled: `draw`, `ask`, `display`, the `println` messages in `play`, and the `display()`/`ask()` calls in the game's initialiser. They only produce output. `Cells.Cell.ToString` models the glyph of one cell.
- `main` is not modelled: it reads the mine count from standard input and loops over moves read from input.
- The random number generator is a parameter, `draws`: the sequence of numbers the generator would return.
- Field.GameField.constructor: requires at least `numOfMines` distinct values among the draws. With fewer cells than mines, the source's drawing loop never ends. On a board with no cells and at least one mine, the source instead throws on the first draw, because the range `0..-1` is empty. The model captures neither case: no draw lies in [0, 0), so its requires excludes a board with no cells and a positive mine count.
- Field.GameField.ToggleMarkCell, Field.GameField.IsCellNearMine, Game.MineSweeperGame.Play: require the cell to be on the board. The source throws an index-out-of-bounds exception otherwise, and the model does not capture the exception.
- Board dimensions are natural numbers. In the source, a negative height, or a negative width with at least one row, makes the list construction throw; a board with no rows and a negative width is built without error, and with no mines to place it draws nothing. The model captures none of these cases.
- Kotlin `Int` is 32 bits, but the model uses unbounded integers. `fieldWidth * fieldHeight` overflows only on boards far beyond what a console can show. In the model a count never exceeds eight. In the source it is at most `numOfMines`: the decoding as written can put several mines on one cell, and on a 10-row, 1-column board every draw lands on (0, 0), so ten mines raise the count of (1, 0) ten times (`Grid.DecodeAsWrittenOneColumn`).
- `Cell` is an object in the source and a value here.
  - The grid is a field of type `seq<seq<Cell>>`, and the methods reassign it, so a cell's in-place update and its aliasing are not modelled.
  - The mined and marked sets hold `Cell` objects in the source and positions here. `Cell` does not override equality and every position holds its own object, so the two are interchangeable.
- `positions.forEach` visits the drawn numbers in the set's iteration order. The model visits them in an arbitrary order.
  - Either way, `PlaceMines` ends with the placement invariant and with the mined set equal to the decoded numbers.
  - Those two facts fix every cell's state and count, so the order does not matter.
- `open` is modelled on the cell, but nothing on the board calls it in the source. The opened and fired states therefore never occur on a board, and `Board.StatesAllowed` leaves them out.
- The row and column decoding as the source writes it is modelled (`Grid.DecodeAsWritten`), but the board uses row-major decoding. See Findings.

## Findings

| source | as written | input that shows it | evidently intended | confidence | as-written member | corrected member |
|---|---|---|---|---|---|---|
| Minesweeper/task/src/minesweeper/Main.kt:32 | the drawn number `it` becomes row `it / fieldHeight`, column `it % fieldWidth` | 3 rows, 2 columns: draws 0 and 2 both give cell (0, 0), so two distinct positions mine one cell, and the second `addMine` counts that mine again on its neighbours; 2 rows, 3 columns: draw 4 gives row 2, off the grid | row `it / fieldWidth`, column `it % fieldWidth` (row-major), which is a bijection from [0, width * height) onto the grid; the two agree on square boards such as the 9-by-9 one `main` creates | not executed | Grid.DecodeAsWritten (Grid.DecodeAsWrittenCollides, Grid.DecodeAsWrittenLeavesGrid, Grid.DecodeAsWrittenOneColumn, Board.AddMineOnMinedBreaksCounts) | Grid.Decode (Grid.DecodeInGrid, Grid.DecodeInjective, Grid.DecodedSize, Grid.EncodeInRange) |
