/** The five-in-a-row board as a value: pieces, the grid of cells, positions
    on it, and the row-major list of empty cells that `legal_moves` returns. */
module Grid {

  /** The length a line must have, exactly, to win. */
  const SIZE: nat := 5

  /** What a cell holds. */
  datatype Piece = Black | White | Empty

  type Cells = seq<seq<Piece>>

  /** A (row, column) pair. */
  type Position = (int, int)

  /** `cells` has `height` rows of `width` cells each. */
  predicate Shaped(cells: Cells, height: nat, width: nat) {
    |cells| == height && forall r :: 0 <= r < height ==> |cells[r]| == width
  }

  /** `is_legal_position`: the position lies on a `height` by `width` board. */
  predicate IsLegalPosition(height: int, width: int, row: int, column: int) {
    0 <= row < height && 0 <= column < width
  }

  /** The position lies on the board and its cell holds `p`. */
  predicate Holds(cells: Cells, height: nat, width: nat, row: int, column: int, p: Piece)
    requires Shaped(cells, height, width)
  {
    IsLegalPosition(height, width, row, column) && cells[row][column] == p
  }

  /** A fresh board: every cell empty. */
  function Blank(height: nat, width: nat): (cells: Cells)
    ensures Shaped(cells, height, width)
  {
    seq(height, _ => seq(width, _ => Empty))
  }

  /** The board after writing `p` into one cell. */
  function Place(cells: Cells, height: nat, width: nat, row: int, column: int, p: Piece): (after: Cells)
    requires Shaped(cells, height, width) && IsLegalPosition(height, width, row, column)
    ensures Shaped(after, height, width)
    ensures after[row][column] == p
    ensures forall r, c :: IsLegalPosition(height, width, r, c) && (r != row || c != column) ==>
      after[r][c] == cells[r][c]
  {
    cells[row := cells[row][column := p]]
  }

  /** `is_legal_position` agrees with the board a new game builds: a position is legal
      exactly when it is one of the moves a fresh `height` by `width` board offers. */
  lemma IsLegalPositionOnFreshBoard(height: nat, width: nat, row: int, column: int)
    ensures IsLegalPosition(height, width, row, column) <==>
      (row, column) in LegalPositions(Blank(height, width), height, width)
  {
    EmptiesExact(Blank(height, width), height, width, height);
  }

  /** `a` comes strictly before `b` in row-major order. */
  predicate Before(a: Position, b: Position) {
    a.0 < b.0 || (a.0 == b.0 && a.1 < b.1)
  }

  /** The positions are listed in strictly increasing row-major order (so each at most once). */
  predicate RowMajor(s: seq<Position>) {
    forall i, j :: 0 <= i < j < |s| ==> Before(s[i], s[j])
  }

  /** The empty cells among the first `n` cells of `line`, which is row `r`, left to right. */
  function RowEmpties(line: seq<Piece>, r: int, n: nat): seq<Position>
    requires n <= |line|
  {
    if n == 0 then []
    else RowEmpties(line, r, n - 1) + (if line[n - 1] == Empty then [(r, n - 1)] else [])
  }

  /** The empty cells among the first `n` rows, in row-major order. */
  function Empties(cells: Cells, height: nat, width: nat, n: nat): seq<Position>
    requires Shaped(cells, height, width) && n <= height
  {
    if n == 0 then []
    else Empties(cells, height, width, n - 1) + RowEmpties(cells[n - 1], n - 1, width)
  }

  /** What `legal_moves` returns for a board. */
  function LegalPositions(cells: Cells, height: nat, width: nat): seq<Position>
    requires Shaped(cells, height, width)
  {
    Empties(cells, height, width, height)
  }

  /** Row `r`'s list holds exactly its empty cells, left to right. */
  lemma {:induction false} RowEmptiesExact(line: seq<Piece>, r: int, n: nat)
    requires n <= |line|
    ensures forall m :: m in RowEmpties(line, r, n) <==> m.0 == r && 0 <= m.1 < n && line[m.1] == Empty
    ensures RowMajor(RowEmpties(line, r, n))
  {
    if n > 0 {
      RowEmptiesExact(line, r, n - 1);
      var front := RowEmpties(line, r, n - 1);
      var s := RowEmpties(line, r, n);
      forall i, j | 0 <= i < j < |s| ensures Before(s[i], s[j]) {
        if j >= |front| {
          assert s[i] in front;
        }
      }
    }
  }

  /** The list for the first `n` rows holds exactly their empty cells, in row-major order. */
  lemma {:induction false} EmptiesExact(cells: Cells, height: nat, width: nat, n: nat)
    requires Shaped(cells, height, width) && n <= height
    ensures forall m :: m in Empties(cells, height, width, n) <==>
      0 <= m.0 < n && 0 <= m.1 < width && cells[m.0][m.1] == Empty
    ensures RowMajor(Empties(cells, height, width, n))
  {
    if n > 0 {
      EmptiesExact(cells, height, width, n - 1);
      RowEmptiesExact(cells[n - 1], n - 1, width);
      var front := Empties(cells, height, width, n - 1);
      var back := RowEmpties(cells[n - 1], n - 1, width);
      var s := Empties(cells, height, width, n);
      assert s == front + back;
      forall m ensures m in s <==> 0 <= m.0 < n && 0 <= m.1 < width && cells[m.0][m.1] == Empty {
        assert m in s <==> m in front || m in back;
      }
      forall i, j | 0 <= i < j < |s| ensures Before(s[i], s[j]) {
        if i < |front| <= j {
          assert s[i] in front;
          assert s[j] in back;
        }
      }
    }
  }

  /** A row of `n` empty cells lists `n` positions. */
  lemma {:induction false} BlankRowCount(line: seq<Piece>, r: int, n: nat)
    requires n <= |line| && forall k :: 0 <= k < |line| ==> line[k] == Empty
    ensures |RowEmpties(line, r, n)| == n
  {
    if n > 0 {
      BlankRowCount(line, r, n - 1);
    }
  }

  /** The first `n` rows of a fresh board list `n * width` positions. */
  lemma {:induction false} BlankRowsCount(height: nat, width: nat, n: nat)
    requires n <= height
    ensures |Empties(Blank(height, width), height, width, n)| == n * width
  {
    if n > 0 {
      BlankRowsCount(height, width, n - 1);
      BlankRowCount(Blank(height, width)[n - 1], n - 1, width);
      assert (n - 1) * width + width == n * width;
    }
  }

  /** A fresh board offers every one of its `height * width` cells as a move. */
  lemma BlankCount(height: nat, width: nat)
    ensures |LegalPositions(Blank(height, width), height, width)| == height * width
  {
    BlankRowsCount(height, width, height);
  }

  /** Writing a non-empty piece into column `c` removes one entry from a row's list
      when that cell was empty and counted, and none otherwise. */
  lemma {:induction false} PlaceRowCount(line: seq<Piece>, r: int, c: int, p: Piece, n: nat)
    requires 0 <= c < |line| && n <= |line| && p != Empty
    ensures |RowEmpties(line[c := p], r, n)| ==
      |RowEmpties(line, r, n)| - (if c < n && line[c] == Empty then 1 else 0)
  {
    if n > 0 {
      PlaceRowCount(line, r, c, p, n - 1);
    }
  }

  /** Writing a non-empty piece into the cell at (row, column) shrinks row `i`'s list
      by one when `i` is that row and the cell was empty, and leaves it alone otherwise. */
  lemma PlaceOneRowCount(cells: Cells, height: nat, width: nat, row: int, column: int, p: Piece, i: nat)
    requires Shaped(cells, height, width) && IsLegalPosition(height, width, row, column)
    requires p != Empty && i < height
    ensures |RowEmpties(Place(cells, height, width, row, column, p)[i], i, width)| ==
      |RowEmpties(cells[i], i, width)| - (if i == row && cells[row][column] == Empty then 1 else 0)
  {
    if i == row {
      PlaceRowCount(cells[row], row, column, p, width);
    } else {
      assert Place(cells, height, width, row, column, p)[i] == cells[i];
    }
  }

  /** Writing a non-empty piece into the cell at (row, column) shrinks the list of the
      first `n` rows by one when that cell was empty and among them, and leaves its length
      alone otherwise. */
  lemma {:induction false} PlaceRowsCount(cells: Cells, height: nat, width: nat, row: int, column: int, p: Piece, n: nat)
    requires Shaped(cells, height, width) && IsLegalPosition(height, width, row, column)
    requires p != Empty && n <= height
    ensures |Empties(Place(cells, height, width, row, column, p), height, width, n)| ==
      |Empties(cells, height, width, n)| - (if row < n && cells[row][column] == Empty then 1 else 0)
  {
    if n > 0 {
      PlaceRowsCount(cells, height, width, row, column, p, n - 1);
      PlaceOneRowCount(cells, height, width, row, column, p, n - 1);
    }
  }

  /** Placing a piece on an empty cell leaves one legal move fewer; overwriting an
      occupied cell leaves the number unchanged. */
  lemma PlaceCount(cells: Cells, height: nat, width: nat, row: int, column: int, p: Piece)
    requires Shaped(cells, height, width) && IsLegalPosition(height, width, row, column)
    requires p != Empty
    ensures |LegalPositions(Place(cells, height, width, row, column, p), height, width)| ==
      |LegalPositions(cells, height, width)| - (if cells[row][column] == Empty then 1 else 0)
  {
    PlaceRowsCount(cells, height, width, row, column, p, height);
  }
}
