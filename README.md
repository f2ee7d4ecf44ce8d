# Sudoku engine (`sudoku_game_v4.py`) in Dafny

This project models the engine of a tkinter Sudoku game, leaving out its
windows and widgets. The engine has four parts:

- **Placement check.** `is_valid_move` decides whether a digit may be written
  at a (row, col) position.
- **Grid-consistency check.** `row_correct`, `column_correct` and
  `block_correct` each check one unit. `sudoku_grid_correct` combines them over
  the 9 rows, the 9 columns and the 9 boxes of the board.
- **Backtracking solver.** `SudokuGame.solve` and `SudokuGame.find_empty` work
  in place on the board array. They fill the first empty cell in row-major
  order, trying digits 1..9, and undo a placement when the recursive call fails.
- **Generator.** `generate_sudoku` turns a difficulty string into a fill count
  and a remove count. It places that many valid digits on empty cells of a zero
  board, then zeroes randomly drawn cells.

Files:

- `grid.dfy` (module `Grids`): the board.
  - `Grid` is a 9×9 value snapshot, and `Cells` takes it from the `array2<int>`
    that the engine mutates.
  - `Write` is one cell assignment on a snapshot, and `SetCell` performs it on
    the array.
  - The module also counts filled cells.
- `validator.dfy` (module `Validator`): the unit checks, the grid check and
  `is_valid_move`.
  - The unit checks keep numpy's formulation: the number of distinct non-zero
    values equals the number of non-zero entries.
  - They are proved equivalent to "no non-zero value repeats".
  - The grid check is proved equivalent to `NoClash`, an independent cell-level
    statement of consistency.
- `solver.dfy` (module `Solver`): the search.
  - `FirstEmpty`, `Backtrack` and `TryDigits` give its outcome as functions of
    the board.
  - `FindEmpty`, `Solve`, `SolveAt`, `TryDigit` and `Place` run it in place on
    the array and are proved to agree with those functions.
  - Soundness and completeness of the search are proved about the functions.
- `generator.dfy` (module `Generator`): the difficulty table, the fill loop with
  its retry loop, and the removal loop.
  - Each loop has a specification function (`FillFrom`, `ClearAll`) and a
    method on the array (`FillCells`, `ClearCells`, `GenerateSudoku`).
- `wrappers.dfy`: `Option`.

Two points about the code's behaviour:

- **Fill and remove counts.** The counts are `int(81 * factor)`, which
  truncates. They are 48/16 for "Easy", 24/40 for "Hard" and 40/24 for any other
  string. Rounding would give 49 placements for "Easy".
- **Clashing givens.** `solve` never re-checks cells it did not fill. A full
  board is therefore reported solved even when its givens clash
  (`Solver.ClashingBoardSolved`). On a consistent board, success means the board
  has a consistent completion (`Solver.BacktrackSucceedsIff`).

## Model

| member | source | states |
|---|---|---|
| Validator.UnitCorrect | sudoku_game_v4.py:156-169 | The numpy test (number of distinct non-zero values equals the number of non-zero entries) holds exactly when no non-zero value occurs twice in the unit; zeros never make a unit fail |
| Validator.DistinctCount | sudoku_game_v4.py:158-159 | The distinct non-zero values never outnumber the non-zero entries, and the two counts are equal exactly when the non-zero entries are pairwise distinct |
| Validator.RowCorrect | sudoku_game_v4.py:156-159 | `row_correct` holds iff no two different cells of the row hold the same non-zero value |
| Validator.ColumnCorrect | sudoku_game_v4.py:161-164 | `column_correct` holds iff no two different cells of the column hold the same non-zero value |
| Validator.BlockCorrect | sudoku_game_v4.py:166-169 | `block_correct` holds iff no two different cells of the 3×3 block at the origin hold the same non-zero value |
| Validator.LinesCorrect | sudoku_game_v4.py:173-175 | The first loop of the grid check answers true iff every row and every column passes |
| Validator.BlocksCorrect | sudoku_game_v4.py:177-180 | The nested block loops answer true iff the block at every origin in {0,3,6}×{0,3,6} passes |
| Validator.SudokuGridCorrect | sudoku_game_v4.py:171-182 | `sudoku_grid_correct` answers true iff all rows, columns and the nine blocks pass, and equivalently iff no two distinct cells sharing a row, column or block hold the same non-zero value |
| Validator.GridCorrectIff | sudoku_game_v4.py:171-182 | The unit-by-unit grid check agrees, on every board, with the cell-level statement that no two cells of a common unit clash |
| Validator.EmptyGridCorrect | sudoku_game_v4.py:171-182 | The all-zero board the generator starts from passes the grid check |
| Validator.IsValidMove | sudoku_game_v4.py:137-154 | `is_valid_move` is true iff no cell in the position's row, column or 3×3 box (origin `3*(row//3), 3*(col//3)`) holds num; the cell itself counts, so a cell already holding num rejects it |
| Validator.PlaceKeepsCorrect | sudoku_game_v4.py:82-83 | Writing a digit that `is_valid_move` accepts keeps a consistent board consistent |
| Validator.ClearKeepsCorrect | sudoku_game_v4.py:131-133 | Zeroing any cell keeps a consistent board consistent |
| Grids.SetCell | sudoku_game_v4.py:83 | The assignment `board[row, col] = v` changes exactly that cell of the board |
| Grids.WriteUndo | sudoku_game_v4.py:83-86 | Writing the old value back over a tentative placement restores the board it was made on |
| Grids.FillShrinks | sudoku_game_v4.py:82-84 | Filling an empty cell removes exactly that cell from the set of empty cells, so every recursive `solve` starts with strictly fewer empty cells |
| Grids.WriteCount | sudoku_game_v4.py:128 | Writing a non-zero value over an empty cell adds exactly one filled cell; zeroing a filled cell removes exactly one |
| Grids.EmptyGridCount | sudoku_game_v4.py:122 | The zero board has no filled cell |
| Solver.FirstEmpty | sudoku_game_v4.py:90-95 | The position found holds 0 and every cell before it in row-major order is non-zero; there is none exactly when the board has no zero cell |
| Solver.FirstEmptyUnique | sudoku_game_v4.py:90-95 | Any empty cell with every earlier cell filled is the one the scan finds |
| Solver.FindEmpty | sudoku_game_v4.py:90-95 | The nested scan with early return yields exactly the first empty cell in row-major order, or None on a full board |
| Solver.Backtrack | sudoku_game_v4.py:75-88 | The outcome of `solve` on a board: the board itself when `find_empty` finds no zero cell, otherwise the digit loop at the first empty cell from 1; a board it returns has no zero cell |
| Solver.TryDigits | sudoku_game_v4.py:81-88 | The digit loop at an empty cell from digit num on: the first digit that `is_valid_move` accepts and whose recursive `solve` succeeds gives the result; None after 9; a board it returns has no zero cell |
| Solver.BacktrackSound | sudoku_game_v4.py:75-88 | When the search succeeds its board has no zero cell and keeps every non-zero cell of the input; from a consistent board the result is consistent |
| Solver.BacktrackCompletes | sudoku_game_v4.py:75-88 | A successful search keeps every given and leaves a digit 1..9 in every cell that was empty |
| Solver.TryDigitsCompletes | sudoku_game_v4.py:81-88 | The digit loop from any digit on, when it succeeds, yields a completion of the board |
| Solver.BacktrackKeepsCorrect | sudoku_game_v4.py:75-88 | Started from a consistent board, a successful search yields a consistent board |
| Solver.TryDigitsKeepsCorrect | sudoku_game_v4.py:81-88 | Started from a consistent board, the digit loop from any digit on yields a consistent board when it succeeds |
| Solver.CompletionDigitValid | sudoku_game_v4.py:82 | The digit a consistent completion puts at an empty cell passes `is_valid_move` on the unfinished board |
| Solver.TryDigitsHit | sudoku_game_v4.py:82-85 | The digit loop succeeds at a digit that `is_valid_move` accepts and whose recursive call succeeds |
| Solver.TryDigitsFallThrough | sudoku_game_v4.py:81-86 | When the loop succeeds from the next digit on, it succeeds from this one |
| Solver.TryDigitsReaches | sudoku_game_v4.py:81-86 | If the digit loop succeeds from digit d on, it succeeds from every earlier digit, in particular from 1 |
| Solver.BacktrackComplete | sudoku_game_v4.py:75-88 | Whenever some consistent full board extends the input, the search succeeds |
| Solver.BacktrackSucceedsIff | sudoku_game_v4.py:75-88 | On a consistent board, `solve` succeeds exactly when a consistent completion exists |
| Solver.BacktrackAcceptsFullBoard | sudoku_game_v4.py:76-78 | A board with no empty cell is returned solved and unchanged |
| Solver.ClashingBoardSolved | sudoku_game_v4.py:76-78 | The full board of ones clashes in every unit, yet the search accepts it as solved |
| Solver.EmptyBoardSolved | sudoku_game_v4.py:75-88 | Solving the all-zero board succeeds, and the board it yields is full and consistent |
| Solver.Solve | sudoku_game_v4.py:75-88 | `solve` returns true exactly when the search succeeds. The board then holds the search's result: full, with every given kept, and consistent when the input was. On false the board equals its value on entry. The recursion terminates |
| Solver.SolveAt | sudoku_game_v4.py:79-88 | The digit loop at the first empty cell succeeds exactly when the search from digit 1 does, leaving its board; on failure the board is unchanged |
| Solver.TryDigit | sudoku_game_v4.py:82-86 | One pass of the digit loop succeeds exactly when the loop's result stops at this digit, and then the board is that result; otherwise the board is unchanged and the loop's result is that of the next digit |
| Solver.Place | sudoku_game_v4.py:83-86 | A tentative placement followed by the recursive call: on success the board is the search's result for the placed board, on failure the placement is undone |
| Generator.Quotas | sudoku_game_v4.py:110-119 | "Easy" gives 48 placements and 16 removals, "Hard" 24 and 40, every other string 40 and 24 (the truncated `int(81 * factor)` counts) |
| Generator.Accepts | sudoku_game_v4.py:126 | The retry loop keeps a draw exactly when its digit passes `is_valid_move` at its cell and the cell is 0; writing a kept draw adds exactly one filled cell |
| Generator.FillFrom | sudoku_game_v4.py:124-128 | The fill loop placing n digits: each placement is the first remaining draw the retry loop keeps; it fails when the draws run out, and only while digits remain to place |
| Generator.ClearAll | sudoku_game_v4.py:131-133 | The removal loop zeroes the drawn cells in order; every cell ends as it was or 0 |
| Generator.Generate | sudoku_game_v4.py:110-135 | `generate_sudoku`: the difficulty's counts, the fill loop on the zero board, then the removal loop; it succeeds only when the draws cover both counts |
| Generator.FillFromSound | sudoku_game_v4.py:124-128 | A completed fill loop places exactly n digits (filled count rises by n), keeps every existing digit, needs at least n draws, and keeps consistency and the 0..9 range |
| Generator.ClearAllSound | sudoku_game_v4.py:131-133 | The removal loop never adds a filled cell, removes at most one per draw, leaves each cell as it was or 0, and keeps consistency and the 0..9 range |
| Generator.GenerateSound | sudoku_game_v4.py:110-135 | A generated board is consistent, holds only 0..9, and has between fill − remove and fill filled cells |
| Generator.FillSkip | sudoku_game_v4.py:126-127 | The fill loop passes over every draw the retry loop rejects |
| Generator.FillPlace | sudoku_game_v4.py:126-128 | The fill loop places the draw the retry loop accepts and moves on with one digit fewer to place |
| Generator.FillAdvance | sudoku_game_v4.py:125-128 | After the retry loop, the fill fails if the draws ran out, and otherwise continues from the accepted draw written onto the board |
| Generator.NextAccepted | sudoku_game_v4.py:125-127 | The retry loop stops at the first draw whose cell is empty and whose digit `is_valid_move` accepts; every draw it skips is rejected; what the fill does from here is the fill from that draw on |
| Generator.FillStep | sudoku_game_v4.py:125-128 | One pass of the fill loop fails only when the draws run out, and otherwise leaves one digit fewer to place from the next draw |
| Generator.FillCells | sudoku_game_v4.py:124-128 | The fill loop on the array succeeds exactly when the specification fill does, and then leaves its board |
| Generator.ClearCells | sudoku_game_v4.py:131-133 | The removal loop on the array leaves exactly the board the specification removal gives |
| Generator.GenerateSudoku | sudoku_game_v4.py:110-135 | `generate_sudoku` returns a fresh 9×9 board. When the supplied draws suffice, it is the board of the difficulty's fill-then-clear process, and it is consistent |

## Left out

- The tkinter interface: `StartupScreen`, the widgets of `SudokuGame`,
  `check_solution`, the widget updates and message boxes of `auto_solve`, and
  `MainApp` (sudoku_game_v4.py:5-73, 97-107, 184-197). They are presentation
  and event wiring.
- numpy's random source (sudoku_game_v4.py:125, 127, 132).
  - The draws of the fill loop, retries included, are supplied as the sequence
    `picks`. The draws of the removal loop are supplied as `spots`.
  - When a supplied sequence runs out, the model reports `complete == false`.
    The original would keep drawing; its retry loop has no termination
    guarantee of its own.
- The default argument `difficulty="Medium"` of `generate_sudoku`
  (sudoku_game_v4.py:110). `Quotas`, `Generate` and `GenerateSudoku` always take
  an explicit string; passing "Medium" gives the default's counts, 40 and 24.
- The float factors (sudoku_game_v4.py:112-119, 124, 131). They are replaced by
  the integer counts that `int(81 * factor)` produces.
- numpy slicing outside the board.
  - Positions are restricted to 0..8, and `BlockCorrect` takes only origins
    0..6.
  - numpy would accept negative indices and silently shorten a block cut off
    at the edge. The engine itself only calls `block_correct` with origins 0, 3
    and 6.
- Boards are required to be 9×9. The Python code follows `len(board)` and would
  accept other shapes.
- Solver.Solve: its loop body is split into the methods `SolveAt`, `TryDigit` and `Place`,
  and writes go through `Grids.SetCell`. The recursion, order of writes and undo
  are those of `solve`. The solver's `self` receiver carries no state it uses,
  so it is not modelled.
- Generator.GenerateSudoku: the fill loop is split into `FillCells`,
  `FillStep` and `NextAccepted`. It can report that the supplied draws ran out,
  which the original cannot; see the random source above.
- Validator.SudokuGridCorrect: the list-to-array conversion `np.array(sudoku)`
  is not modelled. The model takes the 9×9 board directly.
