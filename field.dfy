/** The board: a height-by-width grid of cells, the set of mined cells, the
    set of marked cells, mine placement, mark toggling and the win test. */
module Field {
  import opened Grid
  import opened Cells
  import opened Marks
  import opened Board

  /** The draws stop after the shortest prefix that holds numOfMines distinct
      values, and positions is the set of values in that prefix. */
  ghost predicate StopsAfterEnoughDistinct(draws: seq<int>, numOfMines: int, positions: set<int>) {
    exists k :: 0 <= k <= |draws| && positions == Elements(draws[..k])
      && forall j :: 0 <= j < k ==> |Elements(draws[..j])| < numOfMines
  }

  /** Collect drawn numbers into a set until it holds numOfMines of them. The
      draws stand for the random numbers the game would generate. */
  method DrawPositions(draws: seq<int>, numOfMines: int) returns (positions: set<int>)
    requires numOfMines <= |Elements(draws)|
    ensures positions <= Elements(draws)
    ensures |positions| == if numOfMines < 0 then 0 else numOfMines
    ensures StopsAfterEnoughDistinct(draws, numOfMines, positions)
  {
    positions := {};
    var i := 0;
    while |positions| < numOfMines
      invariant 0 <= i <= |draws|
      invariant positions == Elements(draws[..i])
      invariant forall j :: 0 <= j < i ==> |Elements(draws[..j])| < numOfMines
      invariant |positions| <= if numOfMines < 0 then 0 else numOfMines
      decreases |draws| - i
    {
      assert draws[..|draws|] == draws;
      assert draws[..i + 1] == draws[..i] + [draws[i]];
      positions := positions + {draws[i]};
      i := i + 1;
    }
    assert draws[..i] <= draws;
  }

  /** The mined cells are as many as the drawn numbers: distinct numbers
      decode to distinct cells, and a board with no columns draws nothing. */
  lemma MinesMatchDraws(positions: set<int>, mined: set<Pos>, height: nat, width: nat)
    requires forall it :: it in positions ==> 0 <= it < width * height
    requires width > 0 ==> mined == Decoded(positions, width)
    requires forall p :: p in mined ==> InGrid(p, height, width)
    ensures |mined| == |positions|
  {
    if width > 0 {
      DecodedSize(positions, width);
    } else {
      forall it | it in positions ensures false {
        DecodeInGrid(it, height, width);
      }
      assert positions == {};
      assert mined == {};
    }
  }

  class GameField {
    const numOfMines: int
    const fieldWidth: nat
    const fieldHeight: nat
    /** cells[row][col]. */
    var cells: seq<seq<Cell>>
    var markedCells: set<Pos>
    var minedCells: set<Pos>
    /** The drawn numbers, each denoting one cell. */
    var positions: set<int>

    ghost predicate OnBoard(p: Pos) {
      InGrid(p, fieldHeight, fieldWidth)
    }

    /** The board as a value. */
    ghost function View(): BoardView
      reads this
    {
      BoardView(fieldHeight, fieldWidth, cells, minedCells, markedCells)
    }

    /** The drawn numbers lie on the board, there are as many as mines were
        asked for, and the mined cells are the cells they denote. */
    ghost predicate PositionsMatch()
      reads this
    {
      && (forall it :: it in positions ==> 0 <= it < fieldWidth * fieldHeight)
      && |positions| == (if numOfMines < 0 then 0 else numOfMines)
      && (fieldWidth > 0 ==> minedCells == Decoded(positions, fieldWidth))
      && |minedCells| == |positions|
    }

    ghost predicate Valid()
      reads this
    {
      Consistent(View()) && PositionsMatch()
    }

    /** Builds the grid, draws the mine positions and places a mine on the
        cell each of them denotes. */
    constructor (numOfMines: int, fieldWidth: nat, fieldHeight: nat, draws: seq<int>)
      requires forall d :: d in draws ==> 0 <= d < fieldWidth * fieldHeight
      requires numOfMines <= |Elements(draws)|
      ensures Valid()
      ensures this.numOfMines == numOfMines && this.fieldWidth == fieldWidth && this.fieldHeight == fieldHeight
      ensures StopsAfterEnoughDistinct(draws, numOfMines, positions)
      ensures Placing(View())
    {
      this.numOfMines := numOfMines;
      this.fieldWidth := fieldWidth;
      this.fieldHeight := fieldHeight;
      cells := NewGrid(fieldHeight, fieldWidth);
      markedCells := {};
      minedCells := {};
      var drawn := DrawPositions(draws, numOfMines);
      positions := drawn;
      new;
      assert View() == EmptyBoard(fieldHeight, fieldWidth);
      PlaceMines();
      PlacingIsConsistent(View());
      MinesMatchDraws(positions, minedCells, fieldHeight, fieldWidth);
    }

    /** The rest of the initialisation: places a mine on the cell each drawn
        number denotes, one number at a time in any order. */
    method PlaceMines()
      requires Placing(View()) && minedCells == {}
      requires forall it :: it in positions ==> 0 <= it < fieldWidth * fieldHeight
      modifies this
      ensures Placing(View())
      ensures fieldWidth > 0 ==> minedCells == Decoded(positions, fieldWidth)
      ensures positions == old(positions)
    {
      var remaining := positions;
      ghost var done: set<int> := {};
      while remaining != {}
        invariant done + remaining == positions && done !! remaining && positions == old(positions)
        invariant fieldWidth > 0 ==> minedCells == Decoded(done, fieldWidth)
        invariant Placing(View())
        decreases remaining
      {
        // Supplies the witness for the `:|` that follows.
        if forall e :: e !in remaining {
          assert false;
        }
        var it :| it in remaining;
        DecodeInGrid(it, fieldHeight, fieldWidth);
        DecodedAdd(done, it, fieldWidth);
        var p := Decode(it, fieldWidth);
        ghost var before := View();
        AddMine(p.0, p.1);
        AddMineKeepsPlacing(before, p);
        remaining := remaining - {it};
        done := done + {it};
      }
    }

    /** Mines the cell at (row, col), records it as mined and raises the count
        of each of its neighbours by one. */
    method AddMine(row: int, col: int)
      requires Shaped(View()) && OnBoard((row, col))
      modifies this
      ensures View() == AddMineAt(old(View()), (row, col))
      ensures positions == old(positions)
    {
      var (cell, _) := cells[row][col].PutMine();
      cells := SetCell(cells, (row, col), cell);
      minedCells := minedCells + {(row, col)};
      var neighbours := NeighboursOf(row, col, fieldHeight, fieldWidth);
      ghost var target := BumpAll(cells, fieldHeight, fieldWidth, neighbours);
      assert neighbours[0..] == neighbours;
      for i := 0 to |neighbours|
        invariant Rectangular(cells, fieldHeight, fieldWidth)
        invariant BumpAll(cells, fieldHeight, fieldWidth, neighbours[i..]) == target
        invariant minedCells == old(minedCells) + {(row, col)} && markedCells == old(markedCells)
        invariant positions == old(positions)
      {
        var q := neighbours[i];
        assert q in neighbours && neighbours[i..][1..] == neighbours[i + 1..];
        cells := SetCell(cells, q, cells[q.0][q.1].AddNearMine());
      }
      assert neighbours[|neighbours|..] == [];
    }

    /** Toggles the mark on the cell at column col of row row and keeps the
        marked set in step with it. */
    method ToggleMarkCell(col: int, row: int)
      requires Valid() && OnBoard((row, col))
      modifies this
      ensures Valid()
      ensures View() == ToggleMarkAt(old(View()), (row, col))
      ensures markedCells == Toggled(old(markedCells), (row, col))
      ensures positions == old(positions)
    {
      ghost var before := View();
      var (cell, marked) := cells[row][col].ToggleMark();
      cells := SetCell(cells, (row, col), cell);
      if marked {
        markedCells := markedCells + {(row, col)};
      } else {
        markedCells := markedCells - {(row, col)};
      }
      ToggleMarkKeepsConsistent(before, (row, col));
    }

    /** The guard against marking a number: it holds exactly when some
        neighbour is mined and the cell is not itself in the mined state. */
    function IsCellNearMine(col: int, row: int): (near: bool)
      reads this
      requires Valid() && OnBoard((row, col))
      ensures near <==>
        (exists q :: q in NeighboursOf(row, col, fieldHeight, fieldWidth) && q in minedCells)
        && cells[row][col].state != MINED
    {
      NearMineIffMinedNeighbour(View(), (row, col));
      cells[row][col].IsNearMine()
    }

    /** The game is won when the marked cells are exactly the mined cells:
        every cell is in the marked state precisely when it is mined, and
        as many cells are marked as mines were drawn. */
    function CheckWin(): (won: bool)
      reads this
      requires Valid()
      ensures won <==> forall r, c :: 0 <= r < fieldHeight && 0 <= c < fieldWidth ==>
        (cells[r][c].state == MARKED <==> (r, c) in minedCells)
      ensures won ==> |markedCells| == |positions|
    {
      WonIffMarkedIsMined(View());
      minedCells == markedCells
    }
  }
}
