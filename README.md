# Five-in-a-row game state and win detection

This project models the `Game` class of the five-in-a-row (Gomoku) game in
`core_sub.py`. The class holds a `height` by `width` grid of pieces (`BLACK`,
`WHITE`, `EMPTY`) and a move counter. Black moves after an even number of moves
and White after an odd number. A move writes the mover's piece into a cell.
`legal_moves` lists the empty cells row by row. `terminal_test` scans every
non-empty cell in four directions. For each one, `_check_direction` walks out to
the first point on either side that is off the board or holds a different piece.
It then reports a win when the run between those two points is exactly `SIZE` (5)
long and is not closed by pieces at both ends.

The project has three modules:

- `Grid` (`grid.dfy`) works on board values. It defines the pieces and the
  grid of cells. It has the position test `is_legal_position`, the fresh board,
  the one-cell write, and `LegalPositions`, the row-major list of empty cells.
  It proves what that list contains, its order and its length.
- `WinRule` (`winrule.dfy`) states the win rule on board values:
  - `Extent` is how far a run of one piece reaches from a point.
  - `RunLength`, `MinBoundary` and `MaxBoundary` give the run through a cell
    and the two points just beyond it.
  - `Wins` is the decision made for one direction; `HasWin` covers the whole
    board.

  Independently of the scanning procedure, it defines `MaximalRun` and
  `FiveInRow` (an open five-in-a-row on the board). It proves that the two
  descriptions agree, and it proves the rules for overlines, blocked fives and
  open fives.
- `Gomoku` (`game.dfy`) holds `class Game`. Its grid is a field of type
  `seq<seq<Piece>>` that `MakeMove` reassigns, and its methods keep the loops
  of the source:
  - `LegalMoves` is proved equal to `LegalPositions`.
  - `Boundary` is one boundary walk of `_check_direction`, proved to stop where
    `Extent` says.
  - `CheckDirection` is proved equal to `Wins`.
  - `TerminalTest` is proved equal to `HasWin`, and so to `FiveInRow`.

Two behaviours of the code are kept as they are:

- `make_move` does not check that the cell is empty or that the game is
  over. It overwrites whatever the cell holds and counts the move, and
  `MakeMove` does the same. `MakeMove` does require the move to lie on the
  board; see `Gomoku.Game.MakeMove` under "## Left out".
- `terminal_test` has no draw outcome. A full board with no winning run
  reports `False`, and so does `TerminalTest`.

Properties proved:

- `legal_moves` on a fresh board lists `height * width` cells.
- A move on an empty cell shrinks that list by one.
- A line longer than `SIZE` never wins.
- A maximal run of exactly `SIZE` that is open at one end wins; one closed by
  pieces at both ends does not.
- On a board exactly `SIZE` wide, `SIZE` black pieces along the top row win.

## Model

| member | source | states |
|---|---|---|
| Grid.IsLegalPositionOnFreshBoard | core_sub.py:140-142 | a position is legal (`0 <= row < height` and `0 <= column < width`) exactly when it is one of the moves a freshly built board of that size offers |
| Grid.Place | core_sub.py:64-65 | writing a piece into one cell of the grid keeps its shape, puts the piece in that cell and changes no other cell |
| Grid.EmptiesExact | core_sub.py:55-60 | the list built from the first `n` rows holds a position exactly when it lies in those rows, on the board, and its cell is empty; the list is in strictly increasing row-major order, so it has no repeats |
| Grid.RowEmptiesExact | core_sub.py:57-59 | the list built from one row holds exactly that row's empty cells, left to right |
| Grid.BlankCount | core_sub.py:46-51 | a freshly built board offers all `height * width` cells as moves |
| Grid.BlankRowsCount | core_sub.py:49-50 | the first `n` rows of a fresh board list `n * width` empty cells |
| Grid.PlaceCount | core_sub.py:62-66 | writing a piece into an empty cell leaves exactly one legal move fewer; overwriting an occupied cell leaves the number of legal moves unchanged |
| Grid.PlaceRowsCount | core_sub.py:55-60 | the same count, for the list built from the first `n` rows |
| WinRule.ExtentStops | core_sub.py:89-98 | every point a boundary walk passes holds the piece, and the walk stops at the first point that is off the board or holds something else |
| WinRule.ExtentUnique | core_sub.py:89-98 | a walk whose first `n` points hold the piece and whose next point does not reaches exactly `n` cells |
| WinRule.ExtentAtLeast | core_sub.py:89-98 | a walk whose first `n` points hold the piece reaches at least `n` cells |
| WinRule.BoundariesAreFirstStops | core_sub.py:89-98 | `min_row, min_column` and `max_row, max_column` are each the first point, walking away from the cell, that is off the board or holds another piece, and every point passed holds the cell's piece |
| WinRule.RunThroughCell | core_sub.py:86-103 | the cells strictly between the two boundary points form a maximal run of the cell's piece, and its length is the streak length computed at lines 102-103 |
| WinRule.RunLengthUnique | core_sub.py:86-103 | any maximal run of the cell's piece through the cell is the one measured: same length, and its flanking cells are the two boundary points |
| WinRule.WinsIff | core_sub.py:105-115 | a direction wins exactly when the maximal run through the cell has `SIZE` cells and the cell before it or the cell after it is off the board or empty |
| WinRule.Overline | core_sub.py:102-106 | a line of more than `SIZE` like pieces through the cell makes the run length at least that long, so the direction does not win |
| WinRule.BlockedFiveLoses | core_sub.py:113-115 | a five with pieces at both ends does not win |
| WinRule.OpenFiveWins | core_sub.py:108-115 | a five that touches the board edge or an empty cell at one end wins |
| WinRule.WinGivesFive | core_sub.py:82-115 | a winning direction at a cell exhibits a maximal run of exactly `SIZE` of its pieces with an open end |
| WinRule.FiveGivesWin | core_sub.py:82-115 | an open maximal run of exactly `SIZE` pieces wins at its first cell |
| WinRule.TerminalIffFive | core_sub.py:72-80 | some non-empty cell wins in one of the four directions exactly when the board holds an open maximal run of exactly `SIZE` pieces of one colour along one of those directions |
| WinRule.TopRowOfFiveWins | core_sub.py:72-80 | on a board `SIZE` wide whose top row is all black, the terminal test's condition holds, since that row reaches the edge at both ends |
| WinRule.SixInOneRowDoesNotWin | core_sub.py:72-115 | a one-row board holding six black pieces is not won: the only line longer than one cell is an overline |
| WinRule.ReachIsShift | core_sub.py:92-98 | taking `k` unit steps one at a time lands `k` steps along the direction |
| Gomoku.DecisionIsWins | core_sub.py:100-115 | given the two boundary points, the length computed from the row difference (or the column difference for a horizontal direction) is the run length, and the three-way decision on the length and the boundary cells is exactly the win rule |
| Gomoku.Game.constructor | core_sub.py:46-51 | a new game has the given dimensions, an empty cell everywhere, no moves made, Black to move, every cell a legal move, and a move counter equal to the number of pieces |
| Gomoku.Game.ToMove | core_sub.py:117-119 | the player to move is never `EMPTY`; it is Black exactly when an even number of moves have been made, White otherwise |
| Gomoku.Game.LegalMoves | core_sub.py:53-60 | the returned list holds a position exactly when it is on the board and its cell is empty, each once, in row-major order |
| Gomoku.Game.MakeMove | core_sub.py:62-66 | the new grid is the old one with the old mover's piece written into the move's cell, the counter grows by one, and the turn passes to the other colour; a move on an empty cell removes exactly that cell from the legal moves and keeps the counter equal to the number of pieces |
| Gomoku.Game.Boundary | core_sub.py:89-98 | each boundary walk returns the point exactly `Extent` steps away, which is off the board or holds another piece |
| Gomoku.Game.CheckDirection | core_sub.py:82-115 | the result is the win rule `Wins` for that cell and direction |
| Gomoku.Game.TerminalTest | core_sub.py:72-80 | the scan reports true exactly when some non-empty cell wins in one of the four directions, and so exactly when the board holds an open five-in-a-row of one colour |

## Left out

- `Player.alphabeta_search` (core_sub.py:13-16) picks a random legal move. Randomness is not modelled; its only input is `legal_moves`, which is modelled.
- `play_gomoku` (core_sub.py:19-34) is a driver loop with console output and `sleep`. This is I/O and timing.
- `Game.display` (core_sub.py:121-128) prints the board. This is I/O.
- `Game.successors` (core_sub.py:130-135) calls `make_move` and `legal_moves` with an extra argument that they do not accept, so it cannot run. It is not part of this model.
- `Game.__repr__` (core_sub.py:144-145) is a debugging string.
- The Othello game in the rest of core_sub.py, the Tk front end (board.py) and a console driver (myboard.py) are not part of this model.
- Gomoku.Game.MakeMove: requires the move to lie on the board. Python raises `IndexError` for an index past the end and wraps a negative index to the other side of the grid; neither is modelled.
- Gomoku.Game.MakeMove: does not check that the cell is empty or that the game is over, because `make_move` does not. The count and counter properties are therefore stated for moves on empty cells.
- Gomoku.Game.constructor: takes the dimensions as natural numbers. Python would also accept a negative dimension and build an empty grid.
- Gomoku.Game.CheckDirection: requires a unit step (`UnitStep`: any of the eight neighbour directions, among them the four that `terminal_test` passes) and a cell on the board, which is how `terminal_test` calls it. A zero direction would make `_check_direction`'s walks loop forever.
- There is no draw outcome and no rejection of moves after a win, because the code has neither.
