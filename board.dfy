/** The board as a value: the grid of cells, the set of mined cells and the
    set of marked cells. The board object's operations are specified as
    functions on this value, and the invariants they keep are proved here. */
module Board {
  import opened Grid
  import opened Cells
  import opened Marks

  /** height rows of width cells each; cells[row][col]. */
  predicate Rectangular(cells: seq<seq<Cell>>, height: nat, width: nat) {
    |cells| == height && forall r :: 0 <= r < height ==> |cells[r]| == width
  }

  /** A new grid: height rows of width new cells. */
  function NewGrid(height: nat, width: nat): (cells: seq<seq<Cell>>)
    ensures Rectangular(cells, height, width)
    ensures forall r, c :: 0 <= r < height && 0 <= c < width ==> cells[r][c] == NewCell
  {
    seq(height, _ => seq(width, _ => NewCell))
  }

  /** The grid with the cell at p replaced by c. */
  function SetCell(cells: seq<seq<Cell>>, p: Pos, c: Cell): (r: seq<seq<Cell>>)
    requires 0 <= p.0 < |cells| && 0 <= p.1 < |cells[p.0]|
    ensures |r| == |cells| && forall i :: 0 <= i < |r| ==> |r[i]| == |cells[i]|
    ensures r[p.0][p.1] == c
    ensures forall i, j :: 0 <= i < |r| && 0 <= j < |r[i]| && (i, j) != p ==> r[i][j] == cells[i][j]
  {
    cells[p.0 := cells[p.0][p.1 := c]]
  }

  datatype BoardView = BoardView(
    height: nat,
    width: nat,
    cells: seq<seq<Cell>>,
    mined: set<Pos>,
    marked: set<Pos>)

  /** The grid has the board's size and both sets stay on it. */
  predicate Shaped(v: BoardView) {
    && Rectangular(v.cells, v.height, v.width)
    && (forall p :: p in v.mined ==> InGrid(p, v.height, v.width))
    && (forall p :: p in v.marked ==> InGrid(p, v.height, v.width))
  }

  /** Each cell's count is the number of its neighbours that are mined. */
  predicate CountsMatch(v: BoardView)
    requires Shaped(v)
  {
    forall r, c :: 0 <= r < v.height && 0 <= c < v.width ==>
      v.cells[r][c].nearHowManyMines == MinedAmong(NeighboursOf(r, c, v.height, v.width), v.mined)
  }

  /** The marked set is exactly the cells in the marked state. */
  predicate MarksMatch(v: BoardView)
    requires Shaped(v)
  {
    forall r, c :: 0 <= r < v.height && 0 <= c < v.width ==>
      ((r, c) in v.marked <==> v.cells[r][c].state == MARKED)
  }

  /** Without opening, a cell is closed, marked, or in the mined state, and
      only a mined cell can be in the mined state. */
  predicate StatesAllowed(v: BoardView)
    requires Shaped(v)
  {
    forall r, c :: 0 <= r < v.height && 0 <= c < v.width ==>
      var s := v.cells[r][c].state;
      s == CLOSED || s == MARKED || (s == MINED && (r, c) in v.mined)
  }

  /** What holds of the board between moves. */
  predicate Consistent(v: BoardView) {
    Shaped(v) && CountsMatch(v) && MarksMatch(v) && StatesAllowed(v)
  }

  /** What holds while the mines are being placed: nothing is marked and a
      cell is in the mined state exactly when it is mined. */
  predicate Placing(v: BoardView) {
    && Shaped(v)
    && CountsMatch(v)
    && v.marked == {}
    && forall r, c :: 0 <= r < v.height && 0 <= c < v.width ==>
         v.cells[r][c].state == (if (r, c) in v.mined then MINED else CLOSED)
  }

  lemma PlacingIsConsistent(v: BoardView)
    requires Placing(v)
    ensures Consistent(v)
  {
  }

  /** A newly created board: every cell closed, with no mined neighbour. */
  function EmptyBoard(height: nat, width: nat): (v: BoardView)
    ensures Placing(v)
    ensures v.height == height && v.width == width && v.mined == {} && v.marked == {}
    ensures forall r, c :: 0 <= r < height && 0 <= c < width ==> v.cells[r][c] == NewCell
  {
    forall r, c | 0 <= r < height && 0 <= c < width
      ensures MinedAmong(NeighboursOf(r, c, height, width), {}) == 0
    {
      MinedAmongZero(NeighboursOf(r, c, height, width), {});
    }
    BoardView(height, width, NewGrid(height, width), {}, {})
  }

  /** The grid with one more mined neighbour counted at each cell of ns, first to last. */
  function BumpAll(cells: seq<seq<Cell>>, height: nat, width: nat, ns: seq<Pos>): (r: seq<seq<Cell>>)
    requires Rectangular(cells, height, width)
    requires forall q :: q in ns ==> InGrid(q, height, width)
    ensures Rectangular(r, height, width)
    decreases |ns|
  {
    if ns == [] then cells
    else
      var q := ns[0];
      assert InGrid(q, height, width);
      BumpAll(SetCell(cells, q, cells[q.0][q.1].AddNearMine()), height, width, ns[1..])
  }

  /** Counting along a list without duplicates raises each listed cell's
      count by one and changes nothing else. */
  lemma {:induction false} BumpAllEffect(cells: seq<seq<Cell>>, height: nat, width: nat, ns: seq<Pos>, r: int, c: int)
    requires Rectangular(cells, height, width)
    requires forall q :: q in ns ==> InGrid(q, height, width)
    requires NoDuplicates(ns)
    requires 0 <= r < height && 0 <= c < width
    ensures BumpAll(cells, height, width, ns)[r][c].state == cells[r][c].state
    ensures BumpAll(cells, height, width, ns)[r][c].nearHowManyMines ==
      cells[r][c].nearHowManyMines + (if (r, c) in ns then 1 else 0)
    decreases |ns|
  {
    if ns != [] {
      var q := ns[0];
      assert q in ns;
      var next := SetCell(cells, q, cells[q.0][q.1].AddNearMine());
      NoDuplicatesTail(ns);
      assert forall x :: x in ns[1..] ==> x in ns;
      BumpAllEffect(next, height, width, ns[1..], r, c);
      assert (r, c) in ns <==> (r, c) == q || (r, c) in ns[1..];
    }
  }

  /** Putting a mine on cell p: a closed cell turns to the mined state, p
      joins the mined set, and each neighbour of p counts one more mine. */
  function AddMineAt(v: BoardView, p: Pos): (r: BoardView)
    requires Shaped(v) && InGrid(p, v.height, v.width)
    ensures Shaped(r) && r.height == v.height && r.width == v.width
    ensures r.mined == v.mined + {p} && r.marked == v.marked
  {
    var placed := SetCell(v.cells, p, v.cells[p.0][p.1].PutMine().0);
    v.(cells := BumpAll(placed, v.height, v.width, NeighboursOf(p.0, p.1, v.height, v.width)),
       mined := v.mined + {p})
  }

  /** Every cell keeps its state, except that a closed p turns to the mined
      state, and counts one more mine exactly when it is adjacent to p. */
  lemma AddMineAtEffect(v: BoardView, p: Pos, r: int, c: int)
    requires Shaped(v) && InGrid(p, v.height, v.width)
    requires 0 <= r < v.height && 0 <= c < v.width
    ensures AddMineAt(v, p).cells[r][c].state ==
      if (r, c) == p && v.cells[r][c].state == CLOSED then MINED else v.cells[r][c].state
    ensures AddMineAt(v, p).cells[r][c].nearHowManyMines ==
      v.cells[r][c].nearHowManyMines + (if Adjacent((r, c), p) then 1 else 0)
  {
    var ns := NeighboursOf(p.0, p.1, v.height, v.width);
    var placed := SetCell(v.cells, p, v.cells[p.0][p.1].PutMine().0);
    BumpAllEffect(placed, v.height, v.width, ns, r, c);
  }

  /** Placing a mine on a cell that has none keeps every count right and
      keeps the mined state in step with the mined set. */
  lemma AddMineKeepsPlacing(v: BoardView, p: Pos)
    requires Placing(v) && InGrid(p, v.height, v.width) && p !in v.mined
    ensures Placing(AddMineAt(v, p))
  {
    AddMineKeepsCounts(v, p);
    AddMineKeepsStates(v, p);
  }

  lemma AddMineKeepsCounts(v: BoardView, p: Pos)
    requires Shaped(v) && CountsMatch(v) && InGrid(p, v.height, v.width) && p !in v.mined
    ensures Shaped(AddMineAt(v, p)) && CountsMatch(AddMineAt(v, p))
  {
    var a := AddMineAt(v, p);
    forall r, c | 0 <= r < v.height && 0 <= c < v.width
      ensures a.cells[r][c].nearHowManyMines == MinedAmong(NeighboursOf(r, c, v.height, v.width), a.mined)
    {
      AddMineAtEffect(v, p, r, c);
      AddMineCountAt(v, p, r, c);
    }
  }

  lemma AddMineKeepsStates(v: BoardView, p: Pos)
    requires Shaped(v) && InGrid(p, v.height, v.width)
    requires forall r, c :: 0 <= r < v.height && 0 <= c < v.width ==>
      v.cells[r][c].state == (if (r, c) in v.mined then MINED else CLOSED)
    ensures Shaped(AddMineAt(v, p))
    ensures forall r, c :: 0 <= r < v.height && 0 <= c < v.width ==>
      AddMineAt(v, p).cells[r][c].state == (if (r, c) in v.mined + {p} then MINED else CLOSED)
  {
    forall r, c | 0 <= r < v.height && 0 <= c < v.width
      ensures AddMineAt(v, p).cells[r][c].state == (if (r, c) in v.mined + {p} then MINED else CLOSED)
    {
      AddMineAtEffect(v, p, r, c);
    }
  }

  /** One cell's count after placing a new mine on p. */
  lemma AddMineCountAt(v: BoardView, p: Pos, r: int, c: int)
    requires Shaped(v) && InGrid(p, v.height, v.width) && p !in v.mined
    requires 0 <= r < v.height && 0 <= c < v.width
    ensures MinedAmong(NeighboursOf(r, c, v.height, v.width), v.mined + {p}) ==
      MinedAmong(NeighboursOf(r, c, v.height, v.width), v.mined) + (if Adjacent((r, c), p) then 1 else 0)
  {
    MinedAmongInsert(NeighboursOf(r, c, v.height, v.width), v.mined, p);
  }

  /** Toggling the mark on p: the cell's toggle decides whether p joins or
      leaves the marked set. */
  function ToggleMarkAt(v: BoardView, p: Pos): (r: BoardView)
    requires Shaped(v) && InGrid(p, v.height, v.width)
    ensures Shaped(r) && r.height == v.height && r.width == v.width && r.mined == v.mined
    ensures p in r.marked <==> v.cells[p.0][p.1].state != MARKED
    ensures r.marked - {p} == v.marked - {p}
  {
    var (cell, marked) := v.cells[p.0][p.1].ToggleMark();
    v.(cells := SetCell(v.cells, p, cell),
       marked := if marked then v.marked + {p} else v.marked - {p})
  }

  /** A marked cell closes and leaves the marked set; any other cell becomes
      marked and joins it; nothing else changes. */
  lemma ToggleMarkAtEffect(v: BoardView, p: Pos)
    requires Shaped(v) && InGrid(p, v.height, v.width)
    ensures Shaped(ToggleMarkAt(v, p))
    ensures v.cells[p.0][p.1].state == MARKED ==>
      ToggleMarkAt(v, p).cells[p.0][p.1].state == CLOSED && ToggleMarkAt(v, p).marked == v.marked - {p}
    ensures v.cells[p.0][p.1].state != MARKED ==>
      ToggleMarkAt(v, p).cells[p.0][p.1].state == MARKED && ToggleMarkAt(v, p).marked == v.marked + {p}
    ensures ToggleMarkAt(v, p).cells[p.0][p.1].nearHowManyMines == v.cells[p.0][p.1].nearHowManyMines
    ensures forall r, c :: 0 <= r < v.height && 0 <= c < v.width && (r, c) != p ==>
      ToggleMarkAt(v, p).cells[r][c] == v.cells[r][c]
    ensures ToggleMarkAt(v, p).mined == v.mined
  {
  }

  /** Toggling a mark keeps the board consistent, and on a consistent board
      it toggles p in the marked set. */
  lemma ToggleMarkKeepsConsistent(v: BoardView, p: Pos)
    requires Consistent(v) && InGrid(p, v.height, v.width)
    ensures Consistent(ToggleMarkAt(v, p))
    ensures ToggleMarkAt(v, p).marked == Toggled(v.marked, p)
  {
    ToggleMarkKeepsCounts(v, p);
    ToggleMarkKeepsMarks(v, p);
    ToggleMarkKeepsStates(v, p);
  }

  lemma ToggleMarkKeepsCounts(v: BoardView, p: Pos)
    requires Shaped(v) && CountsMatch(v) && InGrid(p, v.height, v.width)
    ensures Shaped(ToggleMarkAt(v, p)) && CountsMatch(ToggleMarkAt(v, p))
  {
    ToggleMarkAtEffect(v, p);
  }

  lemma ToggleMarkKeepsMarks(v: BoardView, p: Pos)
    requires Shaped(v) && MarksMatch(v) && InGrid(p, v.height, v.width)
    ensures Shaped(ToggleMarkAt(v, p)) && MarksMatch(ToggleMarkAt(v, p))
    ensures ToggleMarkAt(v, p).marked == Toggled(v.marked, p)
  {
    ToggleMarkAtEffect(v, p);
  }

  lemma ToggleMarkKeepsStates(v: BoardView, p: Pos)
    requires Shaped(v) && StatesAllowed(v) && InGrid(p, v.height, v.width)
    ensures Shaped(ToggleMarkAt(v, p)) && StatesAllowed(ToggleMarkAt(v, p))
  {
    ToggleMarkAtEffect(v, p);
  }

  lemma SetCellTwice(cells: seq<seq<Cell>>, p: Pos, c1: Cell, c2: Cell)
    requires 0 <= p.0 < |cells| && 0 <= p.1 < |cells[p.0]|
    ensures SetCell(SetCell(cells, p, c1), p, c2) == SetCell(cells, p, c2)
  {
    assert SetCell(cells, p, c1)[p.0][p.1 := c2] == cells[p.0][p.1 := c2];
  }

  lemma SetCellSame(cells: seq<seq<Cell>>, p: Pos)
    requires 0 <= p.0 < |cells| && 0 <= p.1 < |cells[p.0]|
    ensures SetCell(cells, p, cells[p.0][p.1]) == cells
  {
    assert cells[p.0][p.1 := cells[p.0][p.1]] == cells[p.0];
  }

  /** Toggling twice restores a closed or marked cell; a cell in any other
      state (on a consistent board, the mined state) comes back closed, so
      the mine stays in the mined set but the cell no longer shows it. */
  lemma ToggleTwice(v: BoardView, p: Pos)
    requires Shaped(v) && MarksMatch(v) && InGrid(p, v.height, v.width)
    ensures Shaped(ToggleMarkAt(v, p))
    ensures var s := v.cells[p.0][p.1].state;
      s == CLOSED || s == MARKED ==> ToggleMarkAt(ToggleMarkAt(v, p), p) == v
    ensures var s := v.cells[p.0][p.1].state;
      s != CLOSED && s != MARKED ==>
      ToggleMarkAt(ToggleMarkAt(v, p), p) == v.(cells := SetCell(v.cells, p, v.cells[p.0][p.1].(state := CLOSED)))
  {
    ToggleMarkAtEffect(v, p);
    var cell := v.cells[p.0][p.1];
    var m := ToggleMarkAt(v, p);
    ToggleMarkTwice(cell);
    SetCellTwice(v.cells, p, cell.ToggleMark().0, cell.ToggleMark().0.ToggleMark().0);
    var s := cell.state;
    if s == CLOSED || s == MARKED {
      SetCellSame(v.cells, p);
    }
  }

  /** The win test: every cell is marked exactly when it is mined. */
  predicate Won(v: BoardView)
    ensures Won(v) ==> |v.marked| == |v.mined|
  {
    v.mined == v.marked
  }

  /** On a consistent board the game is won exactly when every cell of the
      grid is in the marked state precisely when it is mined. */
  lemma WonIffMarkedIsMined(v: BoardView)
    requires Consistent(v)
    ensures Won(v) <==> forall r, c :: 0 <= r < v.height && 0 <= c < v.width ==>
      (v.cells[r][c].state == MARKED <==> (r, c) in v.mined)
  {
    if forall r, c :: 0 <= r < v.height && 0 <= c < v.width ==>
      (v.cells[r][c].state == MARKED <==> (r, c) in v.mined)
    {
      forall q ensures q in v.marked <==> q in v.mined {
        if q in v.marked || q in v.mined {
          assert InGrid(q, v.height, v.width);
          assert v.cells[q.0][q.1].state == MARKED <==> q in v.mined;
        }
      }
    }
  }

  /** The guard against marking a number, read on the board. */
  predicate NearMine(v: BoardView, p: Pos)
    requires Shaped(v) && InGrid(p, v.height, v.width)
    ensures NearMine(v, p) ==> v.cells[p.0][p.1].state != MINED && v.cells[p.0][p.1].nearHowManyMines > 0
    ensures v.cells[p.0][p.1].state in {CLOSED, MARKED} ==>
      (NearMine(v, p) <==> v.cells[p.0][p.1].nearHowManyMines > 0)
  {
    v.cells[p.0][p.1].IsNearMine()
  }

  /** On a board whose counts are right the guard holds exactly when some
      neighbour is mined and the cell is not in the mined state. */
  lemma NearMineIffMinedNeighbour(v: BoardView, p: Pos)
    requires Shaped(v) && CountsMatch(v) && InGrid(p, v.height, v.width)
    ensures NearMine(v, p) <==>
      (exists q :: q in NeighboursOf(p.0, p.1, v.height, v.width) && q in v.mined)
      && v.cells[p.0][p.1].state != MINED
  {
    assert v.cells[p.0][p.1].nearHowManyMines == MinedAmong(NeighboursOf(p.0, p.1, v.height, v.width), v.mined);
    MinedAmongZero(NeighboursOf(p.0, p.1, v.height, v.width), v.mined);
  }

  /** A marked cell next to a mine keeps its mark: the guard holds on it, so
      the move that would unmark it is refused. */
  lemma MarkedNextToMineIsStuck(v: BoardView, p: Pos, q: Pos)
    requires Shaped(v) && CountsMatch(v) && InGrid(p, v.height, v.width)
    requires v.cells[p.0][p.1].state == MARKED
    requires InGrid(q, v.height, v.width) && Adjacent(q, p) && q in v.mined
    ensures NearMine(v, p)
  {
    NearMineIffMinedNeighbour(v, p);
    assert q in NeighboursOf(p.0, p.1, v.height, v.width);
  }

  /** Putting a mine on a cell that already has one counts it a second time:
      the mined set does not grow, but each neighbour's count does, so the
      counts no longer match the mined cells. */
  lemma AddMineOnMinedBreaksCounts(v: BoardView, p: Pos, q: Pos)
    requires Shaped(v) && CountsMatch(v) && InGrid(p, v.height, v.width) && p in v.mined
    requires InGrid(q, v.height, v.width) && Adjacent(q, p)
    ensures Shaped(AddMineAt(v, p)) && !CountsMatch(AddMineAt(v, p))
  {
    var count := MinedAmong(NeighboursOf(q.0, q.1, v.height, v.width), v.mined);
    assert v.cells[q.0][q.1].nearHowManyMines == count;
    AddMineAtEffect(v, p, q.0, q.1);
    var a := AddMineAt(v, p);
    AddPresent(v.mined, p);
    assert a.cells[q.0][q.1].nearHowManyMines == count + 1;
    CountWrongAt(a, q);
  }

  /** Adding a member to a set leaves it as it is; kept apart so that the set
      equality is proved on its own rather than in the caller's larger context. */
  lemma AddPresent<T>(s: set<T>, x: T)
    requires x in s
    ensures s + {x} == s
  {
  }

  /** One cell whose count is off is enough to break the counts; kept apart so
      that the caller does not unfold the counts of every cell. */
  lemma CountWrongAt(v: BoardView, q: Pos)
    requires Shaped(v) && InGrid(q, v.height, v.width)
    requires v.cells[q.0][q.1].nearHowManyMines != MinedAmong(NeighboursOf(q.0, q.1, v.height, v.width), v.mined)
    ensures !CountsMatch(v)
  {
  }
}
