# Sudoku solver, modelled in Dafny

The source is one JavaScript file, `sudoku-solver.js`. It holds a board validator and a
depth-first backtracking solver. The solver fills the blank cells (`'.'`) of a 9x9 board of
characters in place. This project models all of it in two modules:

- `Validator` (`validator.dfy`) covers `validateSet`, `getCol`, `getGrid` and `validateBoard`.
  The board is an `array2<char>` of 9 by 9. `Snapshot` reads it as a value, a `Grid` of nine
  rows of nine characters. `NoRepeats`, `GetCol`, `GetGrid`, `Flat` and `BoardAccepted` say on
  that value what the checks compute. `ValidateSet` and `ValidateBoard` are the source's loops,
  proved against those definitions.
- `Solver` (`solver.dfy`) covers `emptyIndices`, `backtrack` and `solveSudoku`. `EmptyIndices`
  is the `indexOf` loop. `Backtrack` is the recursive method that writes into the board, with
  `modifies board`. `SolveSudoku` is the entry point.

The main result is the contract of `Backtrack` and `SolveSudoku`. A solution of a board is a
board that `validateBoard` accepts, holds a digit `'1'..'9'` in every blank cell of the
original, and keeps every other cell. When the search succeeds, the board holds the solution
that comes first in row-major order. This holds because digits are tried in ascending order and
the first success returns at once. When the search fails, the board is back as it was and no
solution exists. Failure is sound because writing digits into blanks can never turn a rejected
board into an accepted one (`AcceptedWhenBlanked`, `PrunedDigit`, `DigitRuledOut`).

Where the design description and the code disagree, the model follows the code:

- The design says `validateBoard` checks all nine 3x3 sub-grids. The code returns `true` at the
  end of the first pass of its outer `x` loop. So only the three sub-grids with `x = 0`
  (columns 0-2) are checked. `BoardAccepted` is what the code checks. `IsValidSudoku` is the
  full rule. `RightBlocksUnchecked` exhibits a board that `validateBoard` accepts although its
  top-middle sub-grid holds `'1'` twice. A "solution" in the solver's contracts is therefore a
  board that `BoardAccepted` accepts, not necessarily a valid Sudoku.
- The design says that solving a board with no blank leaves it unchanged. In the code,
  `backtrack` then reads `empty[0]` as `undefined` and throws a `TypeError` at
  `board[NaN][NaN] = ...`. This happens before any write. `SolveSudoku` reports it as the
  outcome `NoBlankCell` and the board is unchanged.
- The design treats `validateSet` as a check on digits `'1'..'9'`. The code counts any character
  that `parseInt` maps to 0..9, so `'0'` is counted too. Every other character maps to `NaN`,
  whose counter never exceeds 1, so it is ignored. `NoRepeats` states exactly this.

## Model

| member | source | states |
|---|---|---|
| `Validator.ValidateSet` | sudoku-solver.js:8-15 | the answer is true exactly when no character `'0'..'9'` occurs twice in the set; blanks and every other character are skipped |
| `Validator.CompleteSetMissingDigitRejected` | sudoku-solver.js:1-14 | a set of nine digits that lacks some digit is rejected, so a complete row, column or sub-grid that passes holds each of `'1'..'9'` exactly once |
| `Validator.GetCol` | sudoku-solver.js:23 | column n has one cell per row, and its r-th cell is cell n of row r |
| `Validator.GetGrid` | sudoku-solver.js:30-33 | a 3x3 block whose cell (k, j) is board cell ((y % 3) * 3 + k, (x % 3) * 3 + j); so getGrid(b, 1, 2) spans rows 6-8 and columns 3-5 |
| `Validator.GetGridPeriodic` | sudoku-solver.js:30-33 | getGrid(b, x + 3, y) and getGrid(b, x, y + 3) equal getGrid(b, x, y) |
| `Validator.FlatAt` | sudoku-solver.js:47 | in the flattened list of rows of width w, entry w * k + j is cell j of row k |
| `Validator.BlockAt` | sudoku-solver.js:47 | the flattened sub-grid has nine cells, and its k-th is board cell (top + k / 3, left + k % 3) |
| `Validator.ValidateBoard` | sudoku-solver.js:40-51 | true exactly when every row and every column is free of repeats and the three sub-grids in columns 0-2 are too; reads the board without modifying it |
| `Validator.RightBlocksUnchecked` | sudoku-solver.js:45-50 | the board with `'1'` at (0, 3) and (1, 4) and blanks elsewhere is accepted, though its sub-grid at x = 1, y = 0 repeats `'1'` and it breaks the rule of Sudoku |
| `Validator.ValidSudokuIsAccepted` | sudoku-solver.js:40-51 | every board obeying the full rule of Sudoku is accepted |
| `Validator.AcceptedWhenBlanked` | sudoku-solver.js:40-51 | blanking cells of an accepted board leaves it accepted |
| `Solver.IndexOf` | sudoku-solver.js:64 | the result is -1 when `c` does not occur from `from` on; otherwise it is the first position at or after `from` holding `c` |
| `Solver.EmptyIndices` | sudoku-solver.js:60-66 | the list is strictly increasing, lies in [0, 81), and holds 9 * r + c exactly when cell (r, c) is blank |
| `Solver.ListsBlanksUnique` | sudoku-solver.js:60-66 | only one list satisfies that description, so the scan's answer is determined by the board |
| `Solver.FirstBlank` | sudoku-solver.js:78-80 | the cell of empty[i] (row pos / 9, column pos % 9) is blank and no blank precedes it in row-major order |
| `Solver.BlanksAfterPut` | sudoku-solver.js:83-85 | after a digit is written into the cell of empty[i], empty[i + 1..] lists exactly the blanks left |
| `Solver.SolutionsAfterPut` | sudoku-solver.js:83-85 | the solutions of the board with digit d written at the current blank are exactly its solutions that hold d there |
| `Solver.PrunedDigit` | sudoku-solver.js:83-84 | if validateBoard rejects the board after d is written, no solution holds d in that cell |
| `Solver.DigitRuledOut` | sudoku-solver.js:82-87 | a digit is ruled out at the current blank (no solution holds it or anything smaller there) once validateBoard rejects it or the recursive search with it fails |
| `Solver.AllDigitsTried` | sudoku-solver.js:82-90 | when all nine digits are ruled out at a blank, the board has no solution, which is why backtrack may answer false |
| `Solver.FilledBoardOnlySolution` | sudoku-solver.js:85 | an accepted board with no blank is its own solution and no solution precedes it |
| `Solver.LeastAfterPut` | sudoku-solver.js:82-85 | if smaller digits have been ruled out, the least solution with d at the first blank is the least solution of the board |
| `Solver.Backtrack` | sudoku-solver.js:77-91 | on true: the board is a solution of the entry board and no solution precedes it in row-major order; on false: the board is restored and no solution exists |
| `Solver.SolveSudoku` | sudoku-solver.js:98-101 | NoBlankCell exactly when the board has no blank, with the board unchanged; Solved leaves the least solution; Unsolvable leaves the board unchanged and means no solution exists |
| `Solver.SolutionHasNoBlank` | sudoku-solver.js:82-85 | a solution holds no blank |
| `Solver.ForcedDigit` | sudoku-solver.js:42 | a blank whose row already holds the other eight digits gets the missing digit in every solution |

## Left out

- JavaScript value mechanics: `for...in` over array keys is a loop over indices. `parseInt` is
  `IsCounted` with `CounterIndex`, and `x.toString()` is `DigitChar`. `undefined` and `NaN`
  values are not modelled.
- Board shape: the board is a 9 by 9 `array2<char>`. The source's array of row arrays could hold
  one row array twice (aliasing) or have other sizes; neither is modelled.
- GetCol: a column index outside the rows (which yields `undefined` cells in the source) is
  excluded by its precondition. The source only asks for columns 0-8.
- GetGrid: the coordinates are natural numbers. For negative coordinates JavaScript's `%` and
  `slice` count from the end; the source only passes 0-2.
- ValidateBoard: the outer `x` loop is modelled as its single pass with `x = 0`, because its body
  always ends in `return true`.
- Backtrack: requires that `empty[i..]` lists exactly the blank cells of the board in increasing
  order, as its documentation says and as every call in the source ensures. Its behaviour on
  other lists is not modelled. Calling it with `i` beyond the list is excluded too; the source
  reaches that only through `solveSudoku` on a board with no blank, which `SolveSudoku` reports.
- SolveSudoku: the source returns nothing and discards backtrack's answer. The model returns an
  `Outcome` so that its contract can say what the board holds in each case.
- Running time, recursion depth and the cost of re-validating the whole board after every
  write are not modelled. There is no I/O and no concurrency in the source.
