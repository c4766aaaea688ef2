/** One board cell: a state value and a count of mined neighbours, the
    transitions between states, and the one-glyph rendering the board draws. */
module Cells {

  // The five cell states, with the values the game uses for them.
  const CLOSED: int := 0
  const OPENED: int := 1
  const MINED: int := 2
  const FIRED: int := 3
  const MARKED: int := 4

  predicate IsKnownState(s: int) {
    s == CLOSED || s == OPENED || s == MINED || s == FIRED || s == MARKED
  }

  predicate AllDigits(s: string) {
    forall i :: 0 <= i < |s| ==> '0' <= s[i] <= '9'
  }

  /** A non-empty string of decimal digits. */
  predicate IsNumeral(s: string) {
    |s| >= 1 && AllDigits(s)
  }

  /** The number a string of decimal digits denotes. */
  function ValueOf(s: string): nat
    requires AllDigits(s)
  {
    if s == [] then 0
    else ValueOf(s[..|s| - 1]) * 10 + (s[|s| - 1] as int - '0' as int)
  }

  /** The decimal numeral of n, as string interpolation writes a count. */
  function Decimal(n: nat): (s: string)
    ensures IsNumeral(s)
    ensures n > 0 ==> s[0] != '0'
  {
    var last := [('0' as int + n % 10) as char];
    if n < 10 then last else Decimal(n / 10) + last
  }

  /** Reading the numeral back gives the count. */
  lemma {:induction false} DecimalRoundTrip(n: nat)
    ensures ValueOf(Decimal(n)) == n
  {
    if n >= 10 {
      DecimalRoundTrip(n / 10);
      var s := Decimal(n);
      assert s[..|s| - 1] == Decimal(n / 10);
    }
  }

  /** A cell. Each operation that changes the cell returns the changed cell,
      paired with the answer the operation gives where it gives one. */
  datatype Cell = Cell(state: int, nearHowManyMines: nat) {

    /** Opening: a closed cell becomes opened, a mined one fires; the answer
        says whether the state changed. */
    function Open(): (r: (Cell, bool))
      ensures state == CLOSED ==> r.0.state == OPENED
      ensures state == MINED ==> r.0.state == FIRED
      ensures state != CLOSED && state != MINED ==> r.0 == this
      ensures r.0.nearHowManyMines == nearHowManyMines
      ensures r.1 <==> r.0 != this
    {
      if state == CLOSED then (this.(state := OPENED), true)
      else if state == MINED then (this.(state := FIRED), true)
      else (this, false)
    }

    function AddNearMine(): (c: Cell)
      ensures c.nearHowManyMines == nearHowManyMines + 1 && c.state == state
    {
      this.(nearHowManyMines := nearHowManyMines + 1)
    }

    /** The glyph drawn for this cell. A closed cell shows its count of mined
        neighbours when it has any; a mined cell looks like an empty closed one. */
    function ToString(): (g: string)
      ensures g == "" <==> state == OPENED
      ensures g == "@" <==> state == FIRED
      ensures g == "*" <==> state == MARKED
      ensures g == "!" <==> !IsKnownState(state)
      ensures g == "." <==> state == MINED || (state == CLOSED && nearHowManyMines == 0)
      ensures IsNumeral(g) <==> state == CLOSED && nearHowManyMines > 0
      ensures IsNumeral(g) ==> ValueOf(g) == nearHowManyMines
      ensures IsNumeral(g) ==> g[0] != '0'
    {
      if state == OPENED then ""
      else if state == CLOSED then
        if nearHowManyMines > 0 then DecimalRoundTrip(nearHowManyMines); Decimal(nearHowManyMines) else "."
      else if state == MINED then "."
      else if state == FIRED then "@"
      else if state == MARKED then "*"
      else "!"
    }

    /** Placing a mine succeeds only on a closed cell; the answer says whether it did. */
    function PutMine(): (r: (Cell, bool))
      ensures r.1 <==> state == CLOSED
      ensures r.0.state == (if r.1 then MINED else state)
      ensures r.0.nearHowManyMines == nearHowManyMines
    {
      if state == CLOSED then (this.(state := MINED), true) else (this, false)
    }

    /** A marked cell becomes closed, any other cell (a mined one included)
        becomes marked; the answer says whether the cell is marked now. */
    function ToggleMark(): (r: (Cell, bool))
      ensures r.1 <==> r.0.state == MARKED
      ensures r.1 <==> state != MARKED
      ensures r.0.state == (if state == MARKED then CLOSED else MARKED)
      ensures r.0.nearHowManyMines == nearHowManyMines
    {
      if state != MARKED then (this.(state := MARKED), true) else (this.(state := CLOSED), false)
    }

    /** The guard against marking a number. On a closed cell it holds exactly
        when the cell shows a number; it never holds on a cell in the mined
        state; on a marked cell it holds whenever a neighbour is mined, so a
        marked cell with mined neighbours cannot be unmarked. */
    function IsNearMine(): (near: bool)
      ensures state == CLOSED ==> (near <==> IsNumeral(ToString()))
      ensures state == MINED ==> !near
      ensures state == MARKED ==> (near <==> nearHowManyMines > 0)
      ensures near ==> nearHowManyMines > 0
      ensures state != MINED && nearHowManyMines > 0 ==> near
    {
      nearHowManyMines > 0 && state != MINED
    }
  }

  /** A new cell: closed, with no mined neighbour. */
  const NewCell: Cell := Cell(CLOSED, 0)

  /** Opening a second time changes nothing. */
  lemma OpenOnce(c: Cell)
    ensures !c.Open().0.Open().1
    ensures c.Open().0.Open().0 == c.Open().0
  {
  }

  /** Placing a second mine on the same cell fails and changes nothing. */
  lemma PutMineOnce(c: Cell)
    ensures !c.PutMine().0.PutMine().1
    ensures c.PutMine().0.PutMine().0 == c.PutMine().0
  {
  }

  /** Toggling twice restores a closed or marked cell; a cell in any other
      state comes back closed. */
  lemma ToggleMarkTwice(c: Cell)
    ensures c.state == CLOSED || c.state == MARKED ==> c.ToggleMark().0.ToggleMark().0 == c
    ensures c.state != CLOSED && c.state != MARKED ==> c.ToggleMark().0.ToggleMark().0 == c.(state := CLOSED)
  {
  }

  /** Every operation keeps a known state known. */
  lemma KnownStatesStayKnown(c: Cell)
    requires IsKnownState(c.state)
    ensures IsKnownState(c.Open().0.state) && IsKnownState(c.PutMine().0.state)
    ensures IsKnownState(c.ToggleMark().0.state) && IsKnownState(c.AddNearMine().state)
  {
  }
}
