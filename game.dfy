/** The game state of the five-in-a-row game: a `height` by `width` grid of pieces
    and a move counter, changed in place by `MakeMove`. The queries are proved
    against the value-level specifications of `Grid` and `WinRule`. */
module Gomoku {
  import opened Grid
  import opened WinRule

  /** Python's `abs` on integers. */
  function Abs(x: int): nat {
    if x < 0 then -x else x
  }

  /** No non-empty cell wins in any of the four directions, among the pairs of a cell
      and a direction index that come before (row, column, k) in the order the
      terminal test visits them. */
  ghost predicate NoWinBefore(cells: Cells, height: nat, width: nat, row: int, column: int, k: int)
    requires Shaped(cells, height, width)
  {
    forall r, c, i ::
      IsLegalPosition(height, width, r, c) && cells[r][c] != Empty
      && 0 <= i < |Directions| && UnitStep(Directions[i].0, Directions[i].1)
      && (r < row || (r == row && (c < column || (c == column && i < k))))
      ==> !Wins(cells, height, width, r, c, Directions[i].0, Directions[i].1)
  }

  /** Given the two boundary points, the decision `_check_direction` makes from them is
      the win rule: the run length is one less than their distance along whichever
      coordinate the direction changes (the row when it does), and a run of `SIZE`
      wins when a boundary point is off the board or, both being on it, one is empty. */
  lemma DecisionIsWins(cells: Cells, height: nat, width: nat, row: int, column: int, dr: int, dc: int, lo: Position, hi: Position)
    requires Shaped(cells, height, width) && IsLegalPosition(height, width, row, column) && UnitStep(dr, dc)
    requires var a := Extent(cells, height, width, row - dr, column - dc, -dr, -dc, cells[row][column]);
      lo == (Shift(row - dr, a, -dr), Shift(column - dc, a, -dc))
    requires var b := Extent(cells, height, width, row + dr, column + dc, dr, dc, cells[row][column]);
      hi == (Shift(row + dr, b, dr), Shift(column + dc, b, dc))
    ensures var length := if dr != 0 then Abs(hi.0 - lo.0) - 1 else Abs(hi.1 - lo.1) - 1;
      length == RunLength(cells, height, width, row, column, dr, dc)
      && (Wins(cells, height, width, row, column, dr, dc) <==>
          if length != SIZE then false
          else if !IsLegalPosition(height, width, lo.0, lo.1) || !IsLegalPosition(height, width, hi.0, hi.1) then true
          else cells[lo.0][lo.1] == Empty || cells[hi.0][hi.1] == Empty)
  {
  }

  class Game {
    const height: nat
    const width: nat
    /** `cells[row][column]`: the grid, a list of rows. */
    var cells: Cells
    /** How many moves have been made. */
    var numMoves: nat

    /** The grid keeps the shape it was built with. */
    ghost predicate Valid()
      reads this
    {
      Shaped(cells, height, width)
    }

    /** The move counter equals the number of pieces on the board, that is, the
        number of cells that are not legal moves. */
    ghost predicate MovesMatchPieces()
      reads this
      requires Valid()
    {
      numMoves + |LegalPositions(cells, height, width)| == height * width
    }

    /** A new game: every cell empty, no move made, Black to play, every cell a legal move. */
    constructor (height: nat, width: nat)
      ensures Valid() && this.height == height && this.width == width
      ensures forall r, c :: IsLegalPosition(height, width, r, c) ==> cells[r][c] == Empty
      ensures numMoves == 0 && ToMove() == Black
      ensures |LegalPositions(cells, height, width)| == height * width
      ensures MovesMatchPieces()
    {
      this.height := height;
      this.width := width;
      cells := Blank(height, width);
      numMoves := 0;
      BlankCount(height, width);
    }

    /** The player whose move it is: Black after an even number of moves, White after
        an odd number. */
    function ToMove(): (p: Piece)
      reads this
      ensures p != Empty
      ensures p == Black <==> numMoves % 2 == 0
    {
      if numMoves % 2 == 0 then Black else White
    }

    /** Lists the empty cells, scanning the grid row by row. The list holds exactly the
        positions on the board whose cell is empty, each once, in row-major order. */
    method LegalMoves() returns (moves: seq<Position>)
      requires Valid()
      ensures moves == LegalPositions(cells, height, width)
      ensures forall m :: m in moves <==> IsLegalPosition(height, width, m.0, m.1) && cells[m.0][m.1] == Empty
      ensures RowMajor(moves)
    {
      moves := [];
      for row := 0 to height
        invariant moves == Empties(cells, height, width, row)
      {
        for col := 0 to width
          invariant moves == Empties(cells, height, width, row) + RowEmpties(cells[row], row, col)
        {
          if cells[row][col] == Empty {
            moves := moves + [(row, col)];
          }
        }
      }
      EmptiesExact(cells, height, width, height);
    }

    /** Writes the piece of the player to move into the cell at `move`, whatever it held,
        and counts the move. The number of legal moves drops by one when the cell was
        empty; from a consistent state, a move on an empty cell keeps the move counter
        equal to the number of pieces. */
    method MakeMove(move: Position)
      requires Valid() && IsLegalPosition(height, width, move.0, move.1)
      modifies this
      ensures Valid()
      ensures cells == Place(old(cells), height, width, move.0, move.1, old(ToMove()))
      ensures numMoves == old(numMoves) + 1
      ensures ToMove() != old(ToMove())
      ensures |LegalPositions(cells, height, width)| ==
        old(|LegalPositions(cells, height, width)|) - (if old(cells[move.0][move.1]) == Empty then 1 else 0)
      ensures old(cells[move.0][move.1]) == Empty && old(MovesMatchPieces()) ==> MovesMatchPieces()
    {
      var (row, col) := move;
      cells := cells[row := cells[row][col := ToMove()]];
      numMoves := numMoves + 1;
      PlaceCount(old(cells), height, width, row, col, old(ToMove()));
    }

    /** Starting at (row, column), steps along (dr, dc) for as long as the point is on
        the board and holds `piece`, and returns the first point that is not: it lies
        just past the run of `piece` that starts at (row, column). */
    method Boundary(row: int, column: int, dr: int, dc: int, piece: Piece) returns (r: int, c: int)
      requires Valid() && UnitStep(dr, dc)
      ensures var n := Extent(cells, height, width, row, column, dr, dc, piece);
        r == Shift(row, n, dr) && c == Shift(column, n, dc)
      ensures !Holds(cells, height, width, r, c, piece)
    {
      r, c := row, column;
      ghost var n := 0;
      while IsLegalPosition(height, width, r, c) && cells[r][c] == piece
        invariant 0 <= n
        invariant (r, c) == Reach(row, column, dr, dc, n)
        invariant n + Extent(cells, height, width, r, c, dr, dc, piece)
          == Extent(cells, height, width, row, column, dr, dc, piece)
        decreases Extent(cells, height, width, r, c, dr, dc, piece)
      {
        r := r + dr;
        c := c + dc;
        n := n + 1;
      }
      ReachIsShift(row, column, dr, dc, n);
    }

    /** Walks from (row, column) backwards and forwards along `direction` to the first
        point on each side that is off the board or holds another piece, measures the run
        between them, and reports whether it is a winning run: exactly `SIZE` long, and
        touching the board edge or an empty cell at one end at least. */
    method CheckDirection(row: int, column: int, direction: (int, int)) returns (win: bool)
      requires Valid() && IsLegalPosition(height, width, row, column)
      requires UnitStep(direction.0, direction.1)
      ensures win == Wins(cells, height, width, row, column, direction.0, direction.1)
    {
      var (dr, dc) := direction;
      var piece := cells[row][column];
      var minRow, minColumn := Boundary(row - dr, column - dc, -dr, -dc, piece);
      var maxRow, maxColumn := Boundary(row + dr, column + dc, dr, dc, piece);
      var length := if dr != 0 then Abs(maxRow - minRow) - 1 else Abs(maxColumn - minColumn) - 1;
      DecisionIsWins(cells, height, width, row, column, dr, dc, (minRow, minColumn), (maxRow, maxColumn));
      if length != SIZE {
        return false;
      }
      if !IsLegalPosition(height, width, minRow, minColumn) || !IsLegalPosition(height, width, maxRow, maxColumn) {
        return true;
      }
      return cells[minRow][minColumn] == Empty || cells[maxRow][maxColumn] == Empty;
    }

    /** Scans every non-empty cell in row-major order and every one of the four
        directions, stopping at the first winning run. There is no draw outcome: a full
        board without a winning run reports false. */
    method TerminalTest() returns (over: bool)
      requires Valid()
      ensures over == HasWin(cells, height, width)
      ensures over <==> FiveInRow(cells, height, width)
    {
      TerminalIffFive(cells, height, width);
      for row := 0 to height
        invariant NoWinBefore(cells, height, width, row, 0, 0)
      {
        for col := 0 to width
          invariant NoWinBefore(cells, height, width, row, col, 0)
        {
          if cells[row][col] != Empty {
            for k := 0 to |Directions|
              invariant NoWinBefore(cells, height, width, row, col, k)
            {
              var win := CheckDirection(row, col, Directions[k]);
              if win {
                return true;
              }
            }
          }
        }
      }
      return false;
    }
  }
}
