# Sudoku backtracking solver — a verified Dafny model

This project models the backtracking Sudoku solver of `src/SudokuSolver.java`
and proves what it promises.

- **Copy.** The solver copies the caller's 9x9 board.
- **Frontier.** It pushes the coordinate of every empty (`0`) cell onto a stack, walking the board backwards.
- **Search.** It runs a recursive depth-first search. The search pops a cell and tries the digits 1..9 in ascending order. It places the first digit the legality check allows and recurses.
  - When the recursion fails, the search empties the cell again and tries the next digit.
  - When every digit fails, it pushes the cell back and reports failure.
- **Legality check.** A digit is allowed at a cell when it appears neither in the cell's row, nor in its column, nor in its 3x3 box. The box's top-left corner is `(row - row % 3, col - col % 3)`.

Modules:

- `SudokuGrid` (`grid.dfy`) covers the board as a value (`Grid = seq<seq<int>>`). It defines what a completion of a puzzle is:
  - `Extends`: every given cell is kept and every empty cell gets a digit 1..9.
  - `NoConflicts`: no two distinct cells sharing a row, column or box hold the same non-zero value.
  - `IsComplete`: the finished-board check from the repository's test.
- `ConstraintChecker` (`checker.dfy`) holds the four read-only checks as pure recursive scans, one index per step, as in the source's loops.
- `Frontier` (`frontier.dfy`) describes the stack that the frontier builder produces. It holds the empty cells in row-major order, and the stack's top is index 0.
- `Solver` (`solver.dfy`) contains the class `SudokuSolver` and the entry point `SolveSudoku`.
  - The class's fields are the working board (an `array2<int>`) and the stack (a `seq<Coord>`). The source's static fields `workingSudoku` and `allEmptyIndexes` become these per-call fields.
  - The copy, the frontier builder and the search are imperative methods on the class.
  - A result of `null` becomes `None`.

Main results:

- The search keeps one invariant between steps: the stack holds exactly the empty cells of the working board, each once.
- On success, the board is a completion of the board the search started from. It is also the least completion when the empty cells are compared in stack order.
- On failure, board and stack are exactly as on entry, and no completion exists.
- `SolveSudoku` returns `None` exactly when the puzzle has no completion.
- `SolveSudoku` never writes to the caller's board. A non-`None` result is a fresh array.

## Model

| member | source | states |
|---|---|---|
| `ConstraintChecker.RowScan` | src/SudokuSolver.java:120-125 | the loop over columns `i..8` of a row finds `number` iff some cell of the row from column `i` on holds it |
| `ConstraintChecker.ColScan` | src/SudokuSolver.java:129-134 | the loop over rows `i..8` of a column finds `number` iff some cell of the column from row `i` on holds it |
| `ConstraintChecker.BoxRowScan` | src/SudokuSolver.java:151-155 | the inner box loop over columns `j..c+2` of row `i` finds `number` iff one of those cells holds it |
| `ConstraintChecker.BoxScan` | src/SudokuSolver.java:150-157 | the outer box loop over rows `i..r+2` finds `number` iff some cell of the 3x3 block with corner `(r, c)` from row `i` on holds it |
| `ConstraintChecker.NumberInRow` | src/SudokuSolver.java:119-126 | true iff `number` occurs somewhere in row `rowIndex` |
| `ConstraintChecker.NumberInCol` | src/SudokuSolver.java:128-135 | true iff `number` occurs somewhere in column `colIndex` |
| `ConstraintChecker.NumberIn3By3Box` | src/SudokuSolver.java:146-158 | scanning from the corner `(row - row % 3, col - col % 3)` finds `number` iff it occurs in some cell of the same 3x3 box as `(row, col)`, where the box is defined by `r / 3` and `c / 3` |
| `ConstraintChecker.IsNumberAllowed` | src/SudokuSolver.java:113-117 | true iff no cell that shares a row, column or box with `(rowIndex, colIndex)` holds `number`; the cell itself is included |
| `ConstraintChecker.PlacementKeepsNoConflicts` | src/SudokuSolver.java:93-95 | writing an allowed non-zero digit into an empty cell of a conflict-free board leaves it conflict-free |
| `ConstraintChecker.SolutionDigitIsAllowed` | src/SudokuSolver.java:91-93 | the digit a completion puts into an empty cell passes the legality check on the current board, so trying every allowed digit skips no completion |
| `Frontier.EmptyInRowMembers` | src/SudokuSolver.java:52-56 | the cells pushed for one row, from column `c` on, are exactly that row's empty cells at columns `>= c` |
| `Frontier.EmptyInRowSorted` | src/SudokuSolver.java:52-56 | within one row the stack lists empty cells left to right from the top |
| `Frontier.EmptyFromRowMembers` | src/SudokuSolver.java:51-58 | the cells pushed for rows `r..8` are exactly the empty cells of those rows |
| `Frontier.EmptyFromRowSorted` | src/SudokuSolver.java:51-58 | the cells pushed for rows `r..8` are in strict row-major order from the top |
| `Frontier.EmptyInRowStep` | src/SudokuSolver.java:52-55 | one step of the backward column walk: the cell is pushed on top exactly when it is empty |
| `Frontier.EmptyCellsExact` | src/SudokuSolver.java:44-59 | the stack holds a coordinate iff it is an empty cell of the board, in strict row-major order from the top, each coordinate once |
| `Frontier.EmptyCellListed` | src/SudokuSolver.java:53-54 | every empty cell of the board is on the stack |
| `Frontier.ListedCellIsEmpty` | src/SudokuSolver.java:53-54 | every stack entry is an empty cell of the board |
| `Frontier.FirstPopIsFirstEmptyCell` | src/SudokuSolver.java:46-50 | the first coordinate popped is the row-major-first empty cell: no empty cell comes before it |
| `SudokuGrid.Snapshot` | src/SudokuSolver.java:13 | the value of the working array: same dimensions and the same number in every cell |
| `SudokuGrid.Place` | src/SudokuSolver.java:95 | the board after `workingSudoku[row][col] = v`: `v` at `(row, col)`, every other cell unchanged |
| `SudokuGrid.Extends` | tests/TestSolver.java:135-149 | every given (non-zero) cell of the puzzle is kept, as the test's `checkSameSudoku` demands, and every empty cell holds a digit 1..9 |
| `SudokuGrid.IsComplete` | tests/TestSolver.java:92-130 | the test's finished-board check: every cell holds a digit 1..9 and no row and no column holds a digit twice |
| `SudokuGrid.SolutionIsComplete` | tests/TestSolver.java:92-130 | a completion of a puzzle whose cells are all in 0..9 passes the test's finished-board check: digits 1..9 everywhere, no repeat in any row or column |
| `Solver.LexLeqAntisymmetric` | src/SudokuSolver.java:91 | two boards that are each lexicographically at most the other, over a list of cells, agree on every listed cell |
| `Solver.LeastSolutionIsUnique` | src/SudokuSolver.java:91-98 | the completion the search returns is determined by the puzzle: two least completions in the same stack order are the same board |
| `Solver.InitialFrontier` | src/SudokuSolver.java:26-27 | the stack built from a board holds exactly that board's empty cells, each once, which is the state the search starts from |
| `Solver.PlaceKeepsFrontier` | src/SudokuSolver.java:86-95 | after popping the top cell and writing a digit into it, the remaining stack holds exactly the board's empty cells |
| `Solver.SnapshotAfterWrite` | src/SudokuSolver.java:95-101 | an array written at one cell holds the previous board with that cell replaced |
| `Solver.PlaceUndone` | src/SudokuSolver.java:101 | emptying a cell that was empty before a placement restores the board exactly |
| `Solver.EmptyFrontierIsSolved` | src/SudokuSolver.java:110 | with an empty stack and no conflicts, the board is its own completion, and its only one |
| `Solver.DigitRuledOut` | src/SudokuSolver.java:91-103 | when a digit is rejected by the check or its recursion fails, every completion puts a larger digit at the popped cell |
| `Solver.AllDigitsRuledOut` | src/SudokuSolver.java:105-108 | when all of 1..9 are ruled out at an empty cell, the board has no completion |
| `Solver.PlacementSucceeded` | src/SudokuSolver.java:95-98 | the least completion after placing the smallest workable digit is the least completion of the board before the placement |
| `Solver.SudokuSolver.constructor` | src/SudokuSolver.java:35-42 | the working board is a fresh array, distinct from the caller's, with the same dimensions and the same contents; the stack starts empty |
| `Solver.SudokuSolver.EmptySpacesInRow` | src/SudokuSolver.java:52-56 | the backward walk over the columns of one row pushes exactly that row's empty cells, left to right from the top, onto what the rows below left |
| `Solver.SudokuSolver.EmptySpaces` | src/SudokuSolver.java:50-58 | the backward nested walk over rows and columns yields exactly the board's empty cells in row-major order from the top |
| `Solver.SudokuSolver.FindAllEmptySpaces` | src/SudokuSolver.java:44-59 | after the frontier builder the stack holds exactly the empty cells in row-major order from the top, and nothing but the stack changes |
| `Solver.SudokuSolver.SetCell` | src/SudokuSolver.java:95-101 | a write to one cell of the working board changes that cell only |
| `Solver.SudokuSolver.Search` | src/SudokuSolver.java:69-111 | on `true`: the stack is empty, and the board is a completion of the entry board that is least in stack order among all completions; on `false`: board and stack are exactly as on entry and the entry board has no completion |
| `Solver.SolveSudoku` | src/SudokuSolver.java:16-33 | for a 9x9 board without conflicts, the caller's board is unchanged; a result is a fresh array holding the least completion of the input; `None` is returned iff the input has no completion |

## Left out

- `tests/TestSolver.java`: reading the puzzle file, starting the Python generator and the JUnit harness are I/O. Only its finished-board check `isComplete` is modelled, as `SudokuGrid.IsComplete`. Its givens-kept check `checkSameSudoku` is part of `SudokuGrid.Extends`.
- `SudokuGrid.IsComplete` is false on a cell value outside 0..9. The test reads its used-flags at the value before checking the range, so it fails with an exception there instead.
- `src/Generator.py` is not part of this model: it uses random numbers and a foreign library, and writes a file.
- The third element `1` of each stack entry is never read, so a stack entry is a `(row, col)` pair.
- The Java `Deque`/`LinkedList` is a `seq<Coord>` with its top at index 0, so push and pop act on the front.
- The static fields become fields of a per-call `SudokuSolver` object. Sharing between calls and concurrent calls are not modelled.
- `int[][]` is modelled as one `array2<int>`. The source's copy duplicates each row, so no row of the result is shared with the caller. With a 2-D array there are no shared rows to model, so the row-by-row copy is a cell-by-cell copy here.
- `Solver.SudokuSolver.FindAllEmptySpaces` builds the stack in a local variable and stores it in the field once complete. The source pushes onto the field directly, and the final stack is the same. The source's nested loop is split in two: the loop over rows is `EmptySpaces`, and the loop over the columns of one row is `EmptySpacesInRow`.
- `Solver.SudokuSolver.Search`: the source's `while (!allEmptyIndexes.isEmpty())` always returns from its first iteration, so it is an `if` here. The cell write `workingSudoku[row][col] = …` is the helper `SetCell`.
- `Solver.SudokuSolver.Search` does not state running time. Only termination is proved, with the stack's length as the measure.
- Java's `%` truncates toward zero and Dafny's is Euclidean. They agree on the non-negative indices 0..8 that the box check receives.
- The source does not check its stated preconditions; it trusts its caller. `Solver.SolveSudoku` requires the board to be 9x9 and free of conflicts, as the source's documentation demands. A board with a conflict is outside the contract.
- `Solver.SolveSudoku` does not require cells to be in 0..9. A given value outside 1..9 then passes through unchanged. `SudokuGrid.SolutionIsComplete` states the finished-board property for puzzles whose cells are in 0..9.
