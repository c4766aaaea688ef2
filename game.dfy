/** The game: a board and whether play goes on. A move toggles the mark on
    one cell unless the cell shows a number, and the game stops once the
    marked cells are exactly the mined cells. */
module Game {
  import opened Grid
  import opened Marks
  import opened Board
  import opened Field

  class MineSweeperGame {
    const numOfMines: int
    const fieldWidth: nat
    const fieldHeight: nat
    const field: GameField
    var isRunning: bool

    ghost predicate Valid()
      reads this, field
    {
      && field.Valid()
      && field.numOfMines == numOfMines
      && field.fieldWidth == fieldWidth
      && field.fieldHeight == fieldHeight
    }

    /** A new game on a new board, running; ten mines on a ten-by-ten board
        unless told otherwise. The draws stand for the random numbers the
        board draws its mine positions from. */
    constructor (draws: seq<int>, numOfMines: int := 10, fieldWidth: nat := 10, fieldHeight: nat := 10)
      requires forall d :: d in draws ==> 0 <= d < fieldWidth * fieldHeight
      requires numOfMines <= |Elements(draws)|
      ensures Valid() && fresh(field)
      ensures this.numOfMines == numOfMines && this.fieldWidth == fieldWidth && this.fieldHeight == fieldHeight
      ensures isRunning
      ensures field.markedCells == {} && StopsAfterEnoughDistinct(draws, numOfMines, field.positions)
      ensures Placing(field.View())
    {
      this.numOfMines := numOfMines;
      this.fieldWidth := fieldWidth;
      this.fieldHeight := fieldHeight;
      field := new GameField(numOfMines, fieldWidth, fieldHeight, draws);
      isRunning := true;
    }

    /** One move at column col of row row. On a cell that shows a number
        nothing changes; otherwise the mark is toggled and the game stops if
        that makes the marked cells the mined cells. The answer is whether
        the game is still running. */
    method Play(col: int, row: int) returns (running: bool)
      requires Valid() && field.OnBoard((row, col))
      modifies this, field
      ensures Valid()
      ensures old(NearMine(field.View(), (row, col))) ==>
        field.View() == old(field.View()) && isRunning == old(isRunning)
      ensures !old(NearMine(field.View(), (row, col))) ==>
        && field.View() == ToggleMarkAt(old(field.View()), (row, col))
        && field.markedCells == Toggled(old(field.markedCells), (row, col))
        && isRunning == (old(isRunning) && !Won(field.View()))
      ensures field.positions == old(field.positions)
      ensures running == isRunning
    {
      if field.IsCellNearMine(col, row) {
      } else {
        field.ToggleMarkCell(col, row);
        if field.CheckWin() {
          isRunning := false;
          return isRunning;
        }
      }
      return isRunning;
    }
  }
}
