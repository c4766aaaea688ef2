/** Coordinates on the board, the 8-neighbourhood of a cell, counting mined
    cells among neighbours, and the decoding of a drawn number into a cell. */
module Grid {

  /** A cell coordinate (row, col); rows run over [0, height), columns over [0, width). */
  type Pos = (int, int)

  predicate InGrid(p: Pos, height: int, width: int) {
    0 <= p.0 < height && 0 <= p.1 < width
  }

  /** Chebyshev distance exactly 1. */
  predicate Adjacent(p: Pos, q: Pos) {
    (p.0 != q.0 || p.1 != q.1) && -1 <= p.0 - q.0 <= 1 && -1 <= p.1 - q.1 <= 1
  }

  /** No entry of s occurs twice. */
  predicate NoDuplicates<T(==)>(s: seq<T>) {
    s == [] || (s[0] !in s[1..] && NoDuplicates(s[1..]))
  }

  function Elements<T>(s: seq<T>): set<T> {
    set x | x in s
  }

  /** Dropping the first entry keeps a list free of duplicates, and the
      first entry does not recur. */
  lemma NoDuplicatesTail<T>(s: seq<T>)
    requires s != [] && NoDuplicates(s)
    ensures NoDuplicates(s[1..]) && s[0] !in s[1..]
  {
  }

  lemma ElementsCons<T>(s: seq<T>)
    requires s != []
    ensures Elements(s) == {s[0]} + Elements(s[1..])
  {
    assert s == [s[0]] + s[1..];
  }

  /** Two lists without duplicates and without common entries join into one. */
  lemma {:induction false} NoDuplicatesAppend<T>(a: seq<T>, b: seq<T>)
    requires NoDuplicates(a) && NoDuplicates(b)
    requires forall x :: x in a ==> x !in b
    ensures NoDuplicates(a + b)
  {
    if a == [] {
      assert a + b == b;
    } else {
      assert (a + b)[0] == a[0] && (a + b)[1..] == a[1..] + b;
      NoDuplicatesAppend(a[1..], b);
      assert a[0] in a;
    }
  }

  /** The eight offsets (row, column) of a cell's neighbours, in the order the
      board lists them: the row above (same column, left, right), the row
      below (same column, left, right), then left and right on the same row. */
  const Directions: seq<(int, int)> := [(-1, 0), (-1, -1), (-1, 1), (1, 0), (1, -1), (1, 1), (0, -1), (0, 1)]

  /** One step, straight or diagonal, to a different cell. */
  predicate IsOffset(d: (int, int)) {
    (d.0 != 0 || d.1 != 0) && -1 <= d.0 <= 1 && -1 <= d.1 <= 1
  }

  /** Where an offset stands among the Directions. */
  function DirectionIndex(d: (int, int)): (i: nat)
    requires IsOffset(d)
    ensures i < |Directions| && Directions[i] == d
  {
    if d.0 == -1 then (if d.1 == 0 then 0 else if d.1 == -1 then 1 else 2)
    else if d.0 == 1 then (if d.1 == 0 then 3 else if d.1 == -1 then 4 else 5)
    else if d.1 == -1 then 6 else 7
  }

  /** Every entry of Directions is an offset, found again at its own place. */
  lemma DirectionAt(k: int)
    requires 0 <= k < |Directions|
    ensures IsOffset(Directions[k]) && DirectionIndex(Directions[k]) == k
  {
    if k == 0 {} else if k == 1 {} else if k == 2 {} else if k == 3 {}
    else if k == 4 {} else if k == 5 {} else if k == 6 {} else {}
  }

  /** The Directions from place k on start with the one at k. */
  lemma DirectionsFrom(k: int)
    requires 0 <= k < |Directions|
    ensures Directions[k..] != [] && Directions[k..][0] == Directions[k]
    ensures Directions[k..][1..] == Directions[k + 1..]
  {
  }

  /** The cells at the given offsets from (row, col) that lie on the grid, in
      the order of the offsets. */
  function Around(row: int, col: int, height: int, width: int, dirs: seq<(int, int)>): (ns: seq<Pos>)
    ensures |ns| <= |dirs|
  {
    if dirs == [] then []
    else
      var q := (row + dirs[0].0, col + dirs[0].1);
      (if InGrid(q, height, width) then [q] else []) + Around(row, col, height, width, dirs[1..])
  }

  /** The cell at offset k, as a list of one if it is on the grid. */
  function CellAt(row: int, col: int, height: int, width: int, k: int): seq<Pos>
    requires 0 <= k < |Directions|
  {
    var q := (row + Directions[k].0, col + Directions[k].1);
    if InGrid(q, height, width) then [q] else []
  }

  /** Listing from offset k: the cell at k, then the rest. */
  lemma AroundStep(row: int, col: int, height: int, width: int, k: nat)
    requires k < |Directions|
    ensures Around(row, col, height, width, Directions[k..]) ==
      CellAt(row, col, height, width, k) + Around(row, col, height, width, Directions[k + 1..])
  {
    DirectionsFrom(k);
  }

  /** A cell is listed along the Directions from place k on exactly when it is
      on the grid at an offset whose place is k or later. */
  lemma {:induction false} AroundMembers(row: int, col: int, height: int, width: int, k: nat, q: Pos)
    requires k <= |Directions|
    ensures q in Around(row, col, height, width, Directions[k..]) <==>
      InGrid(q, height, width) && IsOffset((q.0 - row, q.1 - col)) && k <= DirectionIndex((q.0 - row, q.1 - col))
    decreases |Directions| - k
  {
    if k < |Directions| {
      AroundStep(row, col, height, width, k);
      AroundMembers(row, col, height, width, k + 1, q);
      CellAtMembers(row, col, height, width, k, q);
    } else {
      assert Directions[k..] == [];
    }
  }

  /** The cell at offset k is q exactly when q is on the grid and k is the
      place of q's offset. */
  lemma CellAtMembers(row: int, col: int, height: int, width: int, k: nat, q: Pos)
    requires k < |Directions|
    ensures q in CellAt(row, col, height, width, k) <==>
      InGrid(q, height, width) && IsOffset((q.0 - row, q.1 - col)) && k == DirectionIndex((q.0 - row, q.1 - col))
  {
    DirectionAt(k);
    var d := (q.0 - row, q.1 - col);
    if IsOffset(d) {
      var i := DirectionIndex(d);
      assert i == k <==> d == Directions[k];
    }
  }

  /** Offsets at distinct places give distinct cells. */
  lemma {:induction false} AroundDistinct(row: int, col: int, height: int, width: int, k: nat)
    requires k <= |Directions|
    ensures NoDuplicates(Around(row, col, height, width, Directions[k..]))
    decreases |Directions| - k
  {
    if k < |Directions| {
      var head, rest := CellAt(row, col, height, width, k), Around(row, col, height, width, Directions[k + 1..]);
      AroundStep(row, col, height, width, k);
      AroundDistinct(row, col, height, width, k + 1);
      forall x | x in head ensures x !in rest {
        CellAtMembers(row, col, height, width, k, x);
        AroundMembers(row, col, height, width, k + 1, x);
      }
      NoDuplicatesAppend(head, rest);
    } else {
      assert Directions[k..] == [];
    }
  }

  /** The full list holds exactly the adjacent cells on the grid, once each. */
  lemma NeighbourMembers(row: int, col: int, height: int, width: int)
    ensures forall q :: q in Around(row, col, height, width, Directions) <==> InGrid(q, height, width) && Adjacent(q, (row, col))
    ensures NoDuplicates(Around(row, col, height, width, Directions))
  {
    assert Directions[0..] == Directions;
    forall q ensures q in Around(row, col, height, width, Directions) <==> InGrid(q, height, width) && Adjacent(q, (row, col)) {
      AroundMembers(row, col, height, width, 0, q);
    }
    AroundDistinct(row, col, height, width, 0);
  }

  /** The neighbours of (row, col), in the order the board lists them. */
  function NeighboursOf(row: int, col: int, height: int, width: int): (ns: seq<Pos>)
    requires InGrid((row, col), height, width)
    ensures forall q :: q in ns <==> InGrid(q, height, width) && Adjacent(q, (row, col))
    ensures (row, col) !in ns
    ensures NoDuplicates(ns)
    ensures |ns| <= 8
  {
    NeighbourMembers(row, col, height, width);
    Around(row, col, height, width, Directions)
  }

  /** Whether the board lists the neighbour at offset k of (row, col): the
      conditions of its branches, a row above (row > 0) or below
      (row < height - 1) for the first six offsets, and a column to the
      left (col > 0) or right (col < width - 1) where the offset steps
      sideways. */
  predicate BoardLists(row: int, col: int, height: int, width: int, k: int)
    requires 0 <= k < |Directions|
  {
    if k == 0 then row > 0
    else if k == 1 then row > 0 && col > 0
    else if k == 2 then row > 0 && col < width - 1
    else if k == 3 then row < height - 1
    else if k == 4 then row < height - 1 && col > 0
    else if k == 5 then row < height - 1 && col < width - 1
    else if k == 6 then col > 0
    else col < width - 1
  }

  /** The list the board builds branch by branch from offset k on: the cell
      at each offset, in order, only where its branch condition holds. */
  function ListedFrom(row: int, col: int, height: int, width: int, k: nat): seq<Pos>
    requires k <= |Directions|
    decreases |Directions| - k
  {
    if k == |Directions| then
      []
    else
      var cell := (row + Directions[k].0, col + Directions[k].1);
      (if BoardLists(row, col, height, width, k) then [cell] else []) + ListedFrom(row, col, height, width, k + 1)
  }

  /** For a cell on the grid, the board's branch conditions are exactly the
      tests that the neighbour is on the grid. */
  lemma BoardListsOnGrid(row: int, col: int, height: int, width: int, k: int)
    requires InGrid((row, col), height, width) && 0 <= k < |Directions|
    ensures BoardLists(row, col, height, width, k) <==> InGrid((row + Directions[k].0, col + Directions[k].1), height, width)
  {
    if k == 0 {} else if k == 1 {} else if k == 2 {} else if k == 3 {}
    else if k == 4 {} else if k == 5 {} else if k == 6 {} else {}
  }

  /** From offset k on, the neighbour list is the list the board builds. */
  lemma {:induction false} AroundAsListed(row: int, col: int, height: int, width: int, k: nat)
    requires InGrid((row, col), height, width) && k <= |Directions|
    ensures Around(row, col, height, width, Directions[k..]) == ListedFrom(row, col, height, width, k)
    decreases |Directions| - k
  {
    if k < |Directions| {
      var cell := (row + Directions[k].0, col + Directions[k].1);
      var head := CellAt(row, col, height, width, k);
      BoardListsOnGrid(row, col, height, width, k);
      assert head == if BoardLists(row, col, height, width, k) then [cell] else [];
      AroundStep(row, col, height, width, k);
      assert ListedFrom(row, col, height, width, k) == head + ListedFrom(row, col, height, width, k + 1);
      AroundAsListed(row, col, height, width, k + 1);
    } else {
      assert Directions[k..] == [];
    }
  }

  /** The neighbour list is the list the board builds branch by branch, in
      the same order. */
  lemma NeighboursAsListed(row: int, col: int, height: int, width: int)
    requires InGrid((row, col), height, width)
    ensures NeighboursOf(row, col, height, width) == ListedFrom(row, col, height, width, 0)
  {
    assert Directions[0..] == Directions;
    AroundAsListed(row, col, height, width, 0);
  }

  /** Adjacency on the grid is symmetric. */
  lemma NeighbourSymmetric(p: Pos, q: Pos, height: int, width: int)
    requires InGrid(p, height, width) && InGrid(q, height, width)
    ensures q in NeighboursOf(p.0, p.1, height, width) <==> p in NeighboursOf(q.0, q.1, height, width)
  {
    ListedIffAdjacent(p, q, height, width);
    ListedIffAdjacent(q, p, height, width);
  }

  lemma ListedIffAdjacent(p: Pos, q: Pos, height: int, width: int)
    requires InGrid(p, height, width) && InGrid(q, height, width)
    ensures q in NeighboursOf(p.0, p.1, height, width) <==> Adjacent(q, p)
  {
  }

  /** How many entries of ns are in mined. */
  function MinedAmong(ns: seq<Pos>, mined: set<Pos>): (k: nat)
    ensures k <= |ns|
  {
    if ns == [] then 0
    else (if ns[0] in mined then 1 else 0) + MinedAmong(ns[1..], mined)
  }

  /** The count is zero exactly when no entry is mined. */
  lemma {:induction false} MinedAmongZero(ns: seq<Pos>, mined: set<Pos>)
    ensures MinedAmong(ns, mined) == 0 <==> forall q :: q in ns ==> q !in mined
  {
    if ns != [] {
      MinedAmongZero(ns[1..], mined);
      assert forall q :: q in ns <==> q == ns[0] || q in ns[1..];
    }
  }

  /** On a list without duplicates the count is the number of mined cells in it. */
  lemma {:induction false} MinedAmongIsCardinality(ns: seq<Pos>, mined: set<Pos>)
    requires NoDuplicates(ns)
    ensures MinedAmong(ns, mined) == |Elements(ns) * mined|
  {
    if ns != [] {
      var rest := ns[1..];
      NoDuplicatesTail(ns);
      MinedAmongIsCardinality(rest, mined);
      ElementsCons(ns);
      var found := Elements(rest) * mined;
      if ns[0] in mined {
        assert Elements(ns) * mined == found + {ns[0]} && ns[0] !in found;
      } else {
        assert Elements(ns) * mined == found;
      }
    }
  }

  /** Adding one new mine raises the count by one exactly when the mine is in the list. */
  lemma {:induction false} MinedAmongInsert(ns: seq<Pos>, mined: set<Pos>, m: Pos)
    requires NoDuplicates(ns)
    requires m !in mined
    ensures MinedAmong(ns, mined + {m}) == MinedAmong(ns, mined) + (if m in ns then 1 else 0)
  {
    if ns != [] {
      var rest := ns[1..];
      NoDuplicatesTail(ns);
      MinedAmongInsert(rest, mined, m);
      assert m in ns <==> m == ns[0] || m in rest;
    }
  }

  // ---------------------------------------------------------------------
  // Turning a drawn number in [0, width * height) into a cell.

  /** Row-major decoding: the evidently intended reading of a drawn number. */
  function Decode(it: int, width: int): (p: Pos)
    requires width > 0
    ensures 0 <= p.1 < width && p.0 * width + p.1 == it
  {
    (it / width, it % width)
  }

  /** The inverse of Decode: the row-major number of a cell. */
  function Encode(p: Pos, width: int): int {
    p.0 * width + p.1
  }

  /** A number in [0, width * height) decodes to a cell of the grid and
      encodes back to itself; such a number exists only if there are columns. */
  lemma DecodeInGrid(it: int, height: int, width: int)
    requires width >= 0 && 0 <= it < width * height
    ensures width > 0
    ensures InGrid(Decode(it, width), height, width)
    ensures Encode(Decode(it, width), width) == it
  {
    var r := it / width;
    assert it == r * width + it % width;
    if r >= height {
      assert r * width >= height * width;
    }
  }

  lemma MulAtMost(a: int, b: int, c: int)
    requires a <= b && c >= 0
    ensures a * c <= b * c
  {
  }

  /** The quotient and remainder of Euclidean division are unique. */
  lemma DivModUnique(e: int, q: int, r: int, width: int)
    requires width > 0 && 0 <= r < width && e == q * width + r
    ensures e / width == q && e % width == r
  {
    var q', r' := e / width, e % width;
    assert (q - q') * width == r' - r;
    if q - q' >= 1 {
      MulAtMost(1, q - q', width);
    } else if q' - q >= 1 {
      MulAtMost(1, q' - q, width);
    }
  }

  lemma EncodeInRange(p: Pos, height: int, width: int)
    requires InGrid(p, height, width)
    ensures 0 <= Encode(p, width) < width * height
    ensures Decode(Encode(p, width), width) == p
  {
    MulAtMost(p.0, height - 1, width);
    MulAtMost(0, p.0, width);
    DivModUnique(Encode(p, width), p.0, p.1, width);
  }

  lemma DecodeInjective(a: int, b: int, width: int)
    requires width > 0
    requires Decode(a, width) == Decode(b, width)
    ensures a == b
  {
    assert a == (a / width) * width + a % width;
    assert b == (b / width) * width + b % width;
  }

  /** The cells a set of drawn numbers decodes to. */
  function Decoded(positions: set<int>, width: int): set<Pos>
    requires width > 0
  {
    set it | it in positions :: Decode(it, width)
  }

  /** Decoding one more, new, number adds one new cell. */
  lemma DecodedAdd(done: set<int>, it: int, width: int)
    requires width > 0 && it !in done
    ensures Decoded(done + {it}, width) == Decoded(done, width) + {Decode(it, width)}
    ensures Decode(it, width) !in Decoded(done, width)
  {
    forall y | y in done ensures Decode(y, width) != Decode(it, width) {
      if Decode(y, width) == Decode(it, width) {
        DecodeInjective(y, it, width);
      }
    }
  }

  /** Distinct numbers decode to distinct cells. */
  lemma {:induction false} DecodedSize(positions: set<int>, width: int)
    requires width > 0
    ensures |Decoded(positions, width)| == |positions|
    decreases |positions|
  {
    if positions != {} {
      // Supplies the witness for the `:|` that follows.
      if forall e :: e !in positions {
        assert false;
      }
      var d :| d in positions;
      var rest := positions - {d};
      DecodedSize(rest, width);
      assert Decoded(positions, width) == Decoded(rest, width) + {Decode(d, width)};
      forall y | y in rest ensures Decode(y, width) != Decode(d, width) {
        if Decode(y, width) == Decode(d, width) {
          DecodeInjective(d, y, width);
        }
      }
    }
  }

  /** The decoding as the board's constructor writes it: the row is divided by
      the height although the column is taken modulo the width. Draws are never
      negative, so Kotlin's truncating division and Dafny's Euclidean one agree here. */
  function DecodeAsWritten(it: int, height: int, width: int): (p: Pos)
    requires 0 <= it && height > 0 && width > 0
    ensures 0 <= p.1 < width && p.1 == Decode(it, width).1
    ensures p.0 * height <= it < p.0 * height + height
  {
    (it / height, it % width)
  }

  /** On a square board the two decodings agree. */
  lemma DecodeAsWrittenOnSquare(it: int, n: int)
    requires 0 <= it && n > 0
    ensures DecodeAsWritten(it, n, n) == Decode(it, n)
  {
  }

  /** On a 3-row, 2-column board the draws 0 and 2, which are distinct and
      both in the drawing range [0, 6), land on the same cell (0, 0). */
  lemma DecodeAsWrittenCollides()
    ensures DecodeAsWritten(0, 3, 2) == DecodeAsWritten(2, 3, 2) == (0, 0)
  {
  }

  /** On a 2-row, 3-column board the draw 4, which is in the drawing range
      [0, 6), decodes to row 2, outside the grid. */
  lemma DecodeAsWrittenLeavesGrid()
    ensures DecodeAsWritten(4, 2, 3) == (2, 1) && !InGrid(DecodeAsWritten(4, 2, 3), 2, 3)
  {
  }

  /** On a 10-row, 1-column board every draw in the drawing range [0, 10)
      lands on the cell (0, 0), whose neighbour (1, 0) is then counted once
      per mine. */
  lemma DecodeAsWrittenOneColumn(it: int)
    requires 0 <= it < 10
    ensures DecodeAsWritten(it, 10, 1) == (0, 0)
    ensures (1, 0) in NeighboursOf(0, 0, 10, 1)
  {
  }
}
