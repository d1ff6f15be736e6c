/** The win rule of the five-in-a-row game, stated on board values: the run of
    like pieces through a cell along one direction, its two boundary cells, and
    when such a run wins (exactly `SIZE` long, and not closed at both ends by
    pieces). `Gomoku.Game.CheckDirection` and `Gomoku.Game.TerminalTest` are
    proved against `Wins` and `HasWin`. */
module WinRule {
  import opened Grid

  /** The four line directions the terminal test examines: down a column, along a
      row, and the two diagonals. */
  const Directions: seq<(int, int)> := [(1, 0), (0, 1), (1, 1), (1, -1)]

  /** One step to a neighbouring cell: each coordinate moves by -1, 0 or 1, not both by 0. */
  predicate UnitStep(dr: int, dc: int) {
    -1 <= dr <= 1 && -1 <= dc <= 1 && (dr != 0 || dc != 0)
  }

  /** How many steps along (dr, dc) from (row, column) can still land on the board;
      it shrinks by one with each step taken from a position on the board. */
  function StepsLeft(height: nat, width: nat, row: int, column: int, dr: int, dc: int): int {
    if dr == 1 then height - row
    else if dr == -1 then row + 1
    else if dc == 1 then width - column
    else column + 1
  }

  /** The coordinate `x` moved `k` steps of `d`, for a step `d` of -1, 0 or 1: `x + k * d`,
      written by cases so that it stays linear. */
  function Shift(x: int, k: int, d: int): int {
    if d == 0 then x else if d > 0 then x + k else x - k
  }

  /** The position `k` steps of (dr, dc) from (row, column), one step at a time. */
  ghost function Reach(row: int, column: int, dr: int, dc: int, k: nat): Position
  {
    if k == 0 then (row, column)
    else var before := Reach(row, column, dr, dc, k - 1); (before.0 + dr, before.1 + dc)
  }

  /** Taking `k` steps one at a time lands where `Shift` says. */
  lemma {:induction false} ReachIsShift(row: int, column: int, dr: int, dc: int, k: nat)
    requires UnitStep(dr, dc)
    ensures Reach(row, column, dr, dc, k) == (Shift(row, k, dr), Shift(column, k, dc))
  {
    if k > 0 {
      ReachIsShift(row, column, dr, dc, k - 1);
      var before := Reach(row, column, dr, dc, k - 1);
      assert Reach(row, column, dr, dc, k) == (before.0 + dr, before.1 + dc);
      assert Shift(row, k - 1, dr) + dr == Shift(row, k, dr);
      assert Shift(column, k - 1, dc) + dc == Shift(column, k, dc);
    }
  }

  /** How many cells in a row, starting at (row, column) and stepping by (dr, dc), are
      on the board and hold `p`. */
  function Extent(cells: Cells, height: nat, width: nat, row: int, column: int, dr: int, dc: int, p: Piece): nat
    requires Shaped(cells, height, width) && UnitStep(dr, dc)
    decreases StepsLeft(height, width, row, column, dr, dc)
  {
    if Holds(cells, height, width, row, column, p)
    then 1 + Extent(cells, height, width, row + dr, column + dc, dr, dc, p)
    else 0
  }

  /** The `n` cells starting at (row, column) and stepping by (dr, dc) are on the board
      and hold `p`. */
  ghost predicate Segment(cells: Cells, height: nat, width: nat, row: int, column: int, dr: int, dc: int, n: nat, p: Piece)
    requires Shaped(cells, height, width)
  {
    forall k :: 0 <= k < n ==> Holds(cells, height, width, Shift(row, k, dr), Shift(column, k, dc), p)
  }

  /** A segment of `p` that cannot be lengthened at either end: the cell before its
      first cell and the cell after its last are off the board or hold something else. */
  ghost predicate MaximalRun(cells: Cells, height: nat, width: nat, row: int, column: int, dr: int, dc: int, n: nat, p: Piece)
    requires Shaped(cells, height, width)
  {
    Segment(cells, height, width, row, column, dr, dc, n, p)
    && !Holds(cells, height, width, Shift(row, -1, dr), Shift(column, -1, dc), p)
    && !Holds(cells, height, width, Shift(row, n, dr), Shift(column, n, dc), p)
  }

  /** The walk stops at the first point that is off the board or holds another piece. */
  lemma {:induction false} ExtentStops(cells: Cells, height: nat, width: nat, row: int, column: int, dr: int, dc: int, p: Piece)
    requires Shaped(cells, height, width) && UnitStep(dr, dc)
    ensures Segment(cells, height, width, row, column, dr, dc, Extent(cells, height, width, row, column, dr, dc, p), p)
    ensures var n := Extent(cells, height, width, row, column, dr, dc, p);
      !Holds(cells, height, width, Shift(row, n, dr), Shift(column, n, dc), p)
    decreases StepsLeft(height, width, row, column, dr, dc)
  {
    if Holds(cells, height, width, row, column, p) {
      ExtentStops(cells, height, width, row + dr, column + dc, dr, dc, p);
      var n := Extent(cells, height, width, row, column, dr, dc, p);
      ConsSegment(cells, height, width, row, column, dr, dc, n, p);
      assert Shift(row + dr, n - 1, dr) == Shift(row, n, dr);
      assert Shift(column + dc, n - 1, dc) == Shift(column, n, dc);
    }
  }

  /** Dropping the first cell of a segment leaves a segment one shorter. */
  lemma ShiftSegment(cells: Cells, height: nat, width: nat, row: int, column: int, dr: int, dc: int, n: nat, p: Piece)
    requires Shaped(cells, height, width) && UnitStep(dr, dc) && n > 0
    requires Segment(cells, height, width, row, column, dr, dc, n, p)
    ensures Holds(cells, height, width, row, column, p)
    ensures Segment(cells, height, width, row + dr, column + dc, dr, dc, n - 1, p)
  {
    assert Holds(cells, height, width, Shift(row, 0, dr), Shift(column, 0, dc), p);
    var r1, c1 := row + dr, column + dc;
    forall k | 0 <= k < n - 1
      ensures Holds(cells, height, width, Shift(r1, k, dr), Shift(c1, k, dc), p)
    {
      assert Holds(cells, height, width, Shift(row, k + 1, dr), Shift(column, k + 1, dc), p);
    }
  }

  /** A cell holding `p` followed by a segment of `p` is a segment one longer. */
  lemma ConsSegment(cells: Cells, height: nat, width: nat, row: int, column: int, dr: int, dc: int, n: nat, p: Piece)
    requires Shaped(cells, height, width) && UnitStep(dr, dc) && n > 0
    requires Holds(cells, height, width, row, column, p)
    requires Segment(cells, height, width, row + dr, column + dc, dr, dc, n - 1, p)
    ensures Segment(cells, height, width, row, column, dr, dc, n, p)
  {
    var r1, c1 := row + dr, column + dc;
    forall k | 0 <= k < n
      ensures Holds(cells, height, width, Shift(row, k, dr), Shift(column, k, dc), p)
    {
      if k > 0 {
        assert Holds(cells, height, width, Shift(r1, k - 1, dr), Shift(c1, k - 1, dc), p);
      }
    }
  }

  /** The `a` cells behind (row, column), the cell itself and the `b` cells ahead of it,
      all holding `p`, make one segment of `a + 1 + b` cells. */
  lemma JoinAt(cells: Cells, height: nat, width: nat, row: int, column: int, dr: int, dc: int, a: int, b: int, p: Piece)
    requires Shaped(cells, height, width) && UnitStep(dr, dc) && 0 <= a && 0 <= b
    requires Holds(cells, height, width, row, column, p)
    requires Segment(cells, height, width, row - dr, column - dc, -dr, -dc, a, p)
    requires Segment(cells, height, width, row + dr, column + dc, dr, dc, b, p)
    ensures Segment(cells, height, width, Shift(row, -a, dr), Shift(column, -a, dc), dr, dc, a + 1 + b, p)
  {
    var r0, c0 := Shift(row, -a, dr), Shift(column, -a, dc);
    var rb, cb, ndr, ndc := row - dr, column - dc, -dr, -dc;
    var rf, cf := row + dr, column + dc;
    forall k | 0 <= k < a + 1 + b
      ensures Holds(cells, height, width, Shift(r0, k, dr), Shift(c0, k, dc), p)
    {
      if k < a {
        assert Holds(cells, height, width, Shift(rb, a - 1 - k, ndr), Shift(cb, a - 1 - k, ndc), p);
      } else if k > a {
        assert Holds(cells, height, width, Shift(rf, k - a - 1, dr), Shift(cf, k - a - 1, dc), p);
      }
    }
  }

  /** Conversely, a walk whose first `n` cells hold `p` and whose next does not has
      extent exactly `n`. */
  lemma {:induction false} ExtentUnique(cells: Cells, height: nat, width: nat, row: int, column: int, dr: int, dc: int, n: nat, p: Piece)
    requires Shaped(cells, height, width) && UnitStep(dr, dc)
    requires Segment(cells, height, width, row, column, dr, dc, n, p)
    requires !Holds(cells, height, width, Shift(row, n, dr), Shift(column, n, dc), p)
    ensures Extent(cells, height, width, row, column, dr, dc, p) == n
    decreases n
  {
    if n > 0 {
      ShiftSegment(cells, height, width, row, column, dr, dc, n, p);
      assert Shift(row + dr, n - 1, dr) == Shift(row, n, dr);
      ExtentUnique(cells, height, width, row + dr, column + dc, dr, dc, n - 1, p);
    }
  }

  /** A walk whose first `n` cells hold `p` has extent at least `n`. */
  lemma {:induction false} ExtentAtLeast(cells: Cells, height: nat, width: nat, row: int, column: int, dr: int, dc: int, n: nat, p: Piece)
    requires Shaped(cells, height, width) && UnitStep(dr, dc)
    requires Segment(cells, height, width, row, column, dr, dc, n, p)
    ensures Extent(cells, height, width, row, column, dr, dc, p) >= n
    decreases n
  {
    if n > 0 {
      ShiftSegment(cells, height, width, row, column, dr, dc, n, p);
      ExtentAtLeast(cells, height, width, row + dr, column + dc, dr, dc, n - 1, p);
    }
  }

  /** A segment through (row, column), whose cell sits `a` cells from its start, splits
      into the `a` cells behind (row, column), the cell itself, and the cells ahead. */
  lemma SplitAt(cells: Cells, height: nat, width: nat, row: int, column: int, dr: int, dc: int, a: int, n: nat, p: Piece)
    requires Shaped(cells, height, width) && UnitStep(dr, dc) && 0 <= a < n
    requires Segment(cells, height, width, Shift(row, -a, dr), Shift(column, -a, dc), dr, dc, n, p)
    ensures Holds(cells, height, width, row, column, p)
    ensures Segment(cells, height, width, row - dr, column - dc, -dr, -dc, a, p)
    ensures Segment(cells, height, width, row + dr, column + dc, dr, dc, n - a - 1, p)
  {
    var r0, c0 := Shift(row, -a, dr), Shift(column, -a, dc);
    assert Holds(cells, height, width, Shift(r0, a, dr), Shift(c0, a, dc), p);
    var rb, cb, ndr, ndc := row - dr, column - dc, -dr, -dc;
    forall k | 0 <= k < a
      ensures Holds(cells, height, width, Shift(rb, k, ndr), Shift(cb, k, ndc), p)
    {
      assert Holds(cells, height, width, Shift(r0, a - 1 - k, dr), Shift(c0, a - 1 - k, dc), p);
    }
    var rf, cf := row + dr, column + dc;
    forall k | 0 <= k < n - a - 1
      ensures Holds(cells, height, width, Shift(rf, k, dr), Shift(cf, k, dc), p)
    {
      assert Holds(cells, height, width, Shift(r0, a + 1 + k, dr), Shift(c0, a + 1 + k, dc), p);
    }
  }

  /** How many cells behind (row, column), along -(dr, dc), continue its run. */
  function BackRun(cells: Cells, height: nat, width: nat, row: int, column: int, dr: int, dc: int): nat
    requires Shaped(cells, height, width) && IsLegalPosition(height, width, row, column) && UnitStep(dr, dc)
  {
    Extent(cells, height, width, row - dr, column - dc, -dr, -dc, cells[row][column])
  }

  /** How many cells ahead of (row, column), along (dr, dc), continue its run. */
  function ForthRun(cells: Cells, height: nat, width: nat, row: int, column: int, dr: int, dc: int): nat
    requires Shaped(cells, height, width) && IsLegalPosition(height, width, row, column) && UnitStep(dr, dc)
  {
    Extent(cells, height, width, row + dr, column + dc, dr, dc, cells[row][column])
  }

  /** The length of the run through (row, column) along (dr, dc): the cell itself and
      the like cells on either side of it. */
  function RunLength(cells: Cells, height: nat, width: nat, row: int, column: int, dr: int, dc: int): nat
    requires Shaped(cells, height, width) && IsLegalPosition(height, width, row, column) && UnitStep(dr, dc)
  {
    BackRun(cells, height, width, row, column, dr, dc) + 1 + ForthRun(cells, height, width, row, column, dr, dc)
  }

  /** `min_row, min_column`: the boundary point just behind the run. */
  function MinBoundary(cells: Cells, height: nat, width: nat, row: int, column: int, dr: int, dc: int): Position
    requires Shaped(cells, height, width) && IsLegalPosition(height, width, row, column) && UnitStep(dr, dc)
  {
    var a := BackRun(cells, height, width, row, column, dr, dc);
    (Shift(row - dr, a, -dr), Shift(column - dc, a, -dc))
  }

  /** `max_row, max_column`: the boundary point just ahead of the run. */
  function MaxBoundary(cells: Cells, height: nat, width: nat, row: int, column: int, dr: int, dc: int): Position
    requires Shaped(cells, height, width) && IsLegalPosition(height, width, row, column) && UnitStep(dr, dc)
  {
    var b := ForthRun(cells, height, width, row, column, dr, dc);
    (Shift(row + dr, b, dr), Shift(column + dc, b, dc))
  }

  /** A boundary point that does not block a run: off the board, or an empty cell. */
  predicate Unblocked(cells: Cells, height: nat, width: nat, at: Position)
    requires Shaped(cells, height, width)
  {
    !IsLegalPosition(height, width, at.0, at.1) || cells[at.0][at.1] == Empty
  }

  /** What `_check_direction` decides: the run through (row, column) along (dr, dc)
      is exactly `SIZE` long and at least one of its boundary points does not block it. */
  predicate Wins(cells: Cells, height: nat, width: nat, row: int, column: int, dr: int, dc: int)
    requires Shaped(cells, height, width) && IsLegalPosition(height, width, row, column) && UnitStep(dr, dc)
  {
    RunLength(cells, height, width, row, column, dr, dc) == SIZE
    && (Unblocked(cells, height, width, MinBoundary(cells, height, width, row, column, dr, dc))
        || Unblocked(cells, height, width, MaxBoundary(cells, height, width, row, column, dr, dc)))
  }

  /** Each boundary point is the first point, walking away from (row, column), that is
      off the board or holds a different piece; every cell passed on the way holds the
      piece at (row, column). */
  lemma BoundariesAreFirstStops(cells: Cells, height: nat, width: nat, row: int, column: int, dr: int, dc: int)
    requires Shaped(cells, height, width) && IsLegalPosition(height, width, row, column) && UnitStep(dr, dc)
    ensures Segment(cells, height, width, row - dr, column - dc, -dr, -dc,
                    BackRun(cells, height, width, row, column, dr, dc), cells[row][column])
    ensures Segment(cells, height, width, row + dr, column + dc, dr, dc,
                    ForthRun(cells, height, width, row, column, dr, dc), cells[row][column])
    ensures var lo := MinBoundary(cells, height, width, row, column, dr, dc);
      !Holds(cells, height, width, lo.0, lo.1, cells[row][column])
    ensures var hi := MaxBoundary(cells, height, width, row, column, dr, dc);
      !Holds(cells, height, width, hi.0, hi.1, cells[row][column])
  {
    var p := cells[row][column];
    ExtentStops(cells, height, width, row - dr, column - dc, -dr, -dc, p);
    ExtentStops(cells, height, width, row + dr, column + dc, dr, dc, p);
  }

  /** The run `RunLength` measures is a maximal run of the piece at (row, column),
      starting just past the minimum boundary point. */
  lemma RunThroughCell(cells: Cells, height: nat, width: nat, row: int, column: int, dr: int, dc: int)
    requires Shaped(cells, height, width) && IsLegalPosition(height, width, row, column) && UnitStep(dr, dc)
    ensures var a: int := BackRun(cells, height, width, row, column, dr, dc);
      MaximalRun(cells, height, width, Shift(row, -a, dr), Shift(column, -a, dc), dr, dc,
                 RunLength(cells, height, width, row, column, dr, dc), cells[row][column])
  {
    BoundariesAreFirstStops(cells, height, width, row, column, dr, dc);
    var a: int, b: int := BackRun(cells, height, width, row, column, dr, dc), ForthRun(cells, height, width, row, column, dr, dc);
    JoinAt(cells, height, width, row, column, dr, dc, a, b, cells[row][column]);
    var r0, c0 := Shift(row, -a, dr), Shift(column, -a, dc);
    assert Shift(r0, -1, dr) == Shift(row - dr, a, -dr) && Shift(c0, -1, dc) == Shift(column - dc, a, -dc);
    assert Shift(r0, a + 1 + b, dr) == Shift(row + dr, b, dr) && Shift(c0, a + 1 + b, dc) == Shift(column + dc, b, dc);
  }

  /** Behind (row, column), a maximal run through it `a` cells from its start has
      exactly `a` cells. */
  lemma BackRunOf(cells: Cells, height: nat, width: nat, row: int, column: int, dr: int, dc: int, a: int, n: nat)
    requires Shaped(cells, height, width) && IsLegalPosition(height, width, row, column) && UnitStep(dr, dc)
    requires 0 <= a < n && MaximalRun(cells, height, width, Shift(row, -a, dr), Shift(column, -a, dc), dr, dc, n, cells[row][column])
    ensures BackRun(cells, height, width, row, column, dr, dc) == a
  {
    var p := cells[row][column];
    SplitAt(cells, height, width, row, column, dr, dc, a, n, p);
    assert Shift(row - dr, a, -dr) == Shift(Shift(row, -a, dr), -1, dr);
    assert Shift(column - dc, a, -dc) == Shift(Shift(column, -a, dc), -1, dc);
    ExtentUnique(cells, height, width, row - dr, column - dc, -dr, -dc, a, p);
  }

  /** Ahead of (row, column), a maximal run of `n` cells through it `a` cells from its
      start has exactly `n - a - 1` cells. */
  lemma ForthRunOf(cells: Cells, height: nat, width: nat, row: int, column: int, dr: int, dc: int, a: int, n: nat)
    requires Shaped(cells, height, width) && IsLegalPosition(height, width, row, column) && UnitStep(dr, dc)
    requires 0 <= a < n && MaximalRun(cells, height, width, Shift(row, -a, dr), Shift(column, -a, dc), dr, dc, n, cells[row][column])
    ensures ForthRun(cells, height, width, row, column, dr, dc) == n - a - 1
  {
    var p := cells[row][column];
    SplitAt(cells, height, width, row, column, dr, dc, a, n, p);
    assert Shift(row + dr, n - a - 1, dr) == Shift(Shift(row, -a, dr), n, dr);
    assert Shift(column + dc, n - a - 1, dc) == Shift(Shift(column, -a, dc), n, dc);
    ExtentUnique(cells, height, width, row + dr, column + dc, dr, dc, n - a - 1, p);
  }

  /** Any maximal run of the piece at (row, column) that passes through it, `a` cells
      from its start, is the one `RunLength` measures: its length is the run length and
      its flanking cells are the two boundary points. */
  lemma RunLengthUnique(cells: Cells, height: nat, width: nat, row: int, column: int, dr: int, dc: int, a: int, n: nat)
    requires Shaped(cells, height, width) && IsLegalPosition(height, width, row, column) && UnitStep(dr, dc)
    requires 0 <= a < n && MaximalRun(cells, height, width, Shift(row, -a, dr), Shift(column, -a, dc), dr, dc, n, cells[row][column])
    ensures RunLength(cells, height, width, row, column, dr, dc) == n
    ensures MinBoundary(cells, height, width, row, column, dr, dc) == (Shift(row, -a - 1, dr), Shift(column, -a - 1, dc))
    ensures MaxBoundary(cells, height, width, row, column, dr, dc) == (Shift(row, n - a, dr), Shift(column, n - a, dc))
  {
    BackRunOf(cells, height, width, row, column, dr, dc, a, n);
    ForthRunOf(cells, height, width, row, column, dr, dc, a, n);
  }

  /** The win rule restated on runs: for the maximal run through (row, column), the
      direction wins exactly when that run has `SIZE` cells and the cell before it or
      the cell after it is off the board or empty. */
  lemma WinsIff(cells: Cells, height: nat, width: nat, row: int, column: int, dr: int, dc: int, a: int, n: nat)
    requires Shaped(cells, height, width) && IsLegalPosition(height, width, row, column) && UnitStep(dr, dc)
    requires 0 <= a < n && MaximalRun(cells, height, width, Shift(row, -a, dr), Shift(column, -a, dc), dr, dc, n, cells[row][column])
    ensures Wins(cells, height, width, row, column, dr, dc) <==>
      n == SIZE
      && (Unblocked(cells, height, width, (Shift(row, -a - 1, dr), Shift(column, -a - 1, dc)))
          || Unblocked(cells, height, width, (Shift(row, n - a, dr), Shift(column, n - a, dc))))
  {
    RunLengthUnique(cells, height, width, row, column, dr, dc, a, n);
  }

  /** Overlines never win: a line of more than `SIZE` like pieces through (row, column)
      makes that direction lose, whatever surrounds it. */
  lemma Overline(cells: Cells, height: nat, width: nat, row: int, column: int, dr: int, dc: int, a: int, n: nat)
    requires Shaped(cells, height, width) && IsLegalPosition(height, width, row, column) && UnitStep(dr, dc)
    requires 0 <= a < n && SIZE < n
    requires Segment(cells, height, width, Shift(row, -a, dr), Shift(column, -a, dc), dr, dc, n, cells[row][column])
    ensures RunLength(cells, height, width, row, column, dr, dc) >= n
    ensures !Wins(cells, height, width, row, column, dr, dc)
  {
    var p := cells[row][column];
    SplitAt(cells, height, width, row, column, dr, dc, a, n, p);
    ExtentAtLeast(cells, height, width, row - dr, column - dc, -dr, -dc, a, p);
    ExtentAtLeast(cells, height, width, row + dr, column + dc, dr, dc, n - a - 1, p);
  }

  /** A five closed at both ends by pieces (which, the run being maximal, are of the
      other colour) does not win. */
  lemma BlockedFiveLoses(cells: Cells, height: nat, width: nat, row: int, column: int, dr: int, dc: int, a: int)
    requires Shaped(cells, height, width) && IsLegalPosition(height, width, row, column) && UnitStep(dr, dc)
    requires 0 <= a < SIZE && MaximalRun(cells, height, width, Shift(row, -a, dr), Shift(column, -a, dc), dr, dc, SIZE, cells[row][column])
    requires !Unblocked(cells, height, width, (Shift(row, -a - 1, dr), Shift(column, -a - 1, dc)))
    requires !Unblocked(cells, height, width, (Shift(row, SIZE - a, dr), Shift(column, SIZE - a, dc)))
    ensures !Wins(cells, height, width, row, column, dr, dc)
  {
    WinsIff(cells, height, width, row, column, dr, dc, a, SIZE);
  }

  /** A five that reaches the edge of the board, or has an empty cell, at either end wins. */
  lemma OpenFiveWins(cells: Cells, height: nat, width: nat, row: int, column: int, dr: int, dc: int, a: int)
    requires Shaped(cells, height, width) && IsLegalPosition(height, width, row, column) && UnitStep(dr, dc)
    requires 0 <= a < SIZE && MaximalRun(cells, height, width, Shift(row, -a, dr), Shift(column, -a, dc), dr, dc, SIZE, cells[row][column])
    requires Unblocked(cells, height, width, (Shift(row, -a - 1, dr), Shift(column, -a - 1, dc)))
      || Unblocked(cells, height, width, (Shift(row, SIZE - a, dr), Shift(column, SIZE - a, dc)))
    ensures Wins(cells, height, width, row, column, dr, dc)
  {
    WinsIff(cells, height, width, row, column, dr, dc, a, SIZE);
  }

  /** What `terminal_test` reports: some non-empty cell wins in one of the four directions. */
  ghost predicate HasWin(cells: Cells, height: nat, width: nat)
    requires Shaped(cells, height, width)
  {
    exists row, column, i ::
      IsLegalPosition(height, width, row, column) && cells[row][column] != Empty
      && 0 <= i < |Directions| && UnitStep(Directions[i].0, Directions[i].1)
      && Wins(cells, height, width, row, column, Directions[i].0, Directions[i].1)
  }

  /** The board holds, along one of the four directions, a maximal run of exactly `SIZE`
      pieces of one colour that is open (off the board or empty) at one end at least. */
  ghost predicate FiveInRow(cells: Cells, height: nat, width: nat)
    requires Shaped(cells, height, width)
  {
    exists row, column, i, p ::
      p != Empty && 0 <= i < |Directions|
      && MaximalRun(cells, height, width, row, column, Directions[i].0, Directions[i].1, SIZE, p)
      && (Unblocked(cells, height, width, (Shift(row, -1, Directions[i].0), Shift(column, -1, Directions[i].1)))
          || Unblocked(cells, height, width, (Shift(row, SIZE, Directions[i].0), Shift(column, SIZE, Directions[i].1))))
  }

  /** A winning direction at a cell on the board exhibits an open five-in-a-row. */
  lemma WinGivesFive(cells: Cells, height: nat, width: nat, row: int, column: int, dr: int, dc: int)
    requires Shaped(cells, height, width) && IsLegalPosition(height, width, row, column) && UnitStep(dr, dc)
    requires Wins(cells, height, width, row, column, dr, dc)
    ensures var a: int := BackRun(cells, height, width, row, column, dr, dc);
      var r0, c0 := Shift(row, -a, dr), Shift(column, -a, dc);
      MaximalRun(cells, height, width, r0, c0, dr, dc, SIZE, cells[row][column])
      && (Unblocked(cells, height, width, (Shift(r0, -1, dr), Shift(c0, -1, dc)))
          || Unblocked(cells, height, width, (Shift(r0, SIZE, dr), Shift(c0, SIZE, dc))))
  {
    RunThroughCell(cells, height, width, row, column, dr, dc);
    var a: int := BackRun(cells, height, width, row, column, dr, dc);
    RunLengthUnique(cells, height, width, row, column, dr, dc, a, SIZE);
    var r0, c0 := Shift(row, -a, dr), Shift(column, -a, dc);
    assert Shift(r0, -1, dr) == Shift(row, -a - 1, dr) && Shift(c0, -1, dc) == Shift(column, -a - 1, dc);
    assert Shift(r0, SIZE, dr) == Shift(row, SIZE - a, dr) && Shift(c0, SIZE, dc) == Shift(column, SIZE - a, dc);
  }

  /** An open five-in-a-row wins at its first cell. */
  lemma FiveGivesWin(cells: Cells, height: nat, width: nat, row: int, column: int, dr: int, dc: int, p: Piece)
    requires Shaped(cells, height, width) && UnitStep(dr, dc)
    requires MaximalRun(cells, height, width, row, column, dr, dc, SIZE, p)
    requires Unblocked(cells, height, width, (Shift(row, -1, dr), Shift(column, -1, dc)))
      || Unblocked(cells, height, width, (Shift(row, SIZE, dr), Shift(column, SIZE, dc)))
    ensures IsLegalPosition(height, width, row, column) && cells[row][column] == p
    ensures Wins(cells, height, width, row, column, dr, dc)
  {
    assert Holds(cells, height, width, Shift(row, 0, dr), Shift(column, 0, dc), p);
    WinsIff(cells, height, width, row, column, dr, dc, 0, SIZE);
  }

  /** The terminal test's scan of every cell finds a win exactly when the board holds
      an open five-in-a-row. */
  lemma TerminalIffFive(cells: Cells, height: nat, width: nat)
    requires Shaped(cells, height, width)
    ensures HasWin(cells, height, width) <==> FiveInRow(cells, height, width)
  {
    if HasWin(cells, height, width) {
      var row, column, i :|
        IsLegalPosition(height, width, row, column) && cells[row][column] != Empty
        && 0 <= i < |Directions| && UnitStep(Directions[i].0, Directions[i].1)
        && Wins(cells, height, width, row, column, Directions[i].0, Directions[i].1);
      WinGivesFive(cells, height, width, row, column, Directions[i].0, Directions[i].1);
    }
    if FiveInRow(cells, height, width) {
      var row, column, i, p :|
        p != Empty && 0 <= i < |Directions|
        && MaximalRun(cells, height, width, row, column, Directions[i].0, Directions[i].1, SIZE, p)
        && (Unblocked(cells, height, width, (Shift(row, -1, Directions[i].0), Shift(column, -1, Directions[i].1)))
            || Unblocked(cells, height, width, (Shift(row, SIZE, Directions[i].0), Shift(column, SIZE, Directions[i].1))));
      assert UnitStep(Directions[i].0, Directions[i].1);
      FiveGivesWin(cells, height, width, row, column, Directions[i].0, Directions[i].1, p);
    }
  }

  /** A board whose top row starts with `SIZE` black pieces and has no room for more
      has been won: the row touches the board edge at both ends. */
  lemma TopRowOfFiveWins(cells: Cells, height: nat)
    requires Shaped(cells, height, SIZE) && height > 0
    requires forall k :: 0 <= k < SIZE ==> cells[0][k] == Black
    ensures HasWin(cells, height, SIZE)
  {
    var dr, dc := Directions[1].0, Directions[1].1;
    forall k | 0 <= k < SIZE ensures Holds(cells, height, SIZE, Shift(0, k, dr), Shift(0, k, dc), Black) {
    }
    assert MaximalRun(cells, height, SIZE, 0, 0, dr, dc, SIZE, Black);
    assert Unblocked(cells, height, SIZE, (Shift(0, -1, dr), Shift(0, -1, dc)));
    assert FiveInRow(cells, height, SIZE);
    TerminalIffFive(cells, height, SIZE);
  }

  /** A one-row board of six black pieces has not been won: the only line longer than
      one cell is an overline. */
  lemma SixInOneRowDoesNotWin(cells: Cells)
    requires Shaped(cells, 1, SIZE + 1)
    requires forall k :: 0 <= k < SIZE + 1 ==> cells[0][k] == Black
    ensures !HasWin(cells, 1, SIZE + 1)
  {
    var width := SIZE + 1;
    forall row, column, i |
      IsLegalPosition(1, width, row, column) && cells[row][column] != Empty
      && 0 <= i < |Directions| && UnitStep(Directions[i].0, Directions[i].1)
      ensures !Wins(cells, 1, width, row, column, Directions[i].0, Directions[i].1)
    {
      var dr, dc := Directions[i].0, Directions[i].1;
      if i == 1 {
        var r0, c0 := Shift(row, -column, dr), Shift(column, -column, dc);
        forall k | 0 <= k < width
          ensures Holds(cells, 1, width, Shift(r0, k, dr), Shift(c0, k, dc), Black)
        {
        }
        Overline(cells, 1, width, row, column, dr, dc, column, width);
      } else {
        assert !Holds(cells, 1, width, row - dr, column - dc, Black);
        assert !Holds(cells, 1, width, row + dr, column + dc, Black);
      }
    }
  }
}
