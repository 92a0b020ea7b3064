# Sudoku game engine, modelled in Dafny

This project models the puzzle engine of the console Sudoku game in
`src/SudokuGame.java`. A game session (`SudokuEngine.SudokuGame`) holds three
9x9 arrays:

- `board`: what the player sees;
- `solution`: the full grid the puzzle was cut from;
- `isFixed`: the mask of given cells, which the player may not change.

Cells hold 0 for an empty cell and 1..9 for a digit. Coordinates are 0-based
inside the engine; the player types them 1-based.

The model follows the source's own shape. `SudokuGame` is a class with
`array2` fields, and its operations are methods with loops, early returns and
in-place writes. Each method is proved against value-level specifications
that live in module `SudokuGrid` (`grid.dfy`), where `Cells` reads
a 9x9 array (of values or of given flags) as a 9x9 sequence:

- `Admissible` is the row, column and box scan of the checker, with the
  target cell included.
- `Unique` is the reference notion: no *other* cell of the row, column or box
  holds the same value.
- `NoConflicts`, `Legal`, `Complete` and `Solved` are built from these.
- `BoardValid` is what the clear-check-restore validation computes.
- `Cleared` is a solution with the drawn coordinates emptied.
- `EmptyCells` and `FilledCells` are the sets of empty and filled coordinates.

Module `SudokuProperties` (`properties.dfy`) relates these notions to each
other. Module `Counting` (`counting.dfy`) holds the cardinality facts the
counting arguments need.

The source's three random choices are modelled as follows:

- The solver's digit order is produced by `Shuffle`. It swaps each position
  with an arbitrarily chosen position at or before it, so any permutation of
  1..9 can come out.
- The generator's removal count (40 plus a draw in 0..9) and its drawn
  coordinates are inputs to `GeneratePuzzle`.
- The hint's choice of cell is an arbitrary choice among the empty cells.

The generator's three commented phases are separate methods:
`CopySolution`, `RemoveCells` and `MarkGivens`. `GeneratePuzzle` calls them
in the source's order, after `ClearBoard` and the solver.

## Model

| member | source | states |
|---|---|---|
| `SudokuEngine.SudokuGame.constructor` | src/SudokuGame.java:13-18 | a new session has three fresh, distinct 9x9 arrays, all cells empty and nothing given |
| `SudokuEngine.SudokuGame.IsValidMove` | src/SudokuGame.java:198-226 | the result is true iff `num` occurs nowhere in the row, the column or the 3x3 box starting at `((row/3)*3, (col/3)*3)`, the target cell included; the grid is not modified (no `modifies`) |
| `SudokuGrid.BoxStartFacts` | src/SudokuGame.java:214-215 | the box start `(x/3)*3` of a coordinate in 0..8 is 0, 3 or 6, and the coordinate lies in `[start, start+3)` |
| `SudokuProperties.CellNeverAdmitsItsOwnValue` | src/SudokuGame.java:200-203 | because the row scan includes the target cell, the check never admits the value a cell already holds |
| `SudokuProperties.EmptyNeverAdmissibleAtEmptyCell` | src/SudokuGame.java:200-203 | because the scan includes the target cell, the check never admits the value 0 at an empty cell |
| `SudokuEngine.Shuffle` | src/SudokuGame.java:176-177 | the shuffled list is a permutation of its input (same length, same multiset, every element drawn from the input) |
| `SudokuEngine.DigitsAreDigits` | src/SudokuGame.java:176 | every element of the candidate list is a digit 1..9 |
| `SudokuEngine.SudokuGame.SolveSudoku` | src/SudokuGame.java:172-195 | on true the grid is complete and keeps every cell filled on entry, and it is a full solution when the entry grid was conflict-free with values in 0..9; on false the grid equals its entry state; termination by the number of empty cells |
| `SudokuGrid.FillOneCellCount` | src/SudokuGame.java:181-183 | filling an empty cell with a digit lowers the number of empty cells by exactly one, so each nested call sees fewer empty cells |
| `SudokuProperties.PlaceKeepsLegal` | src/SudokuGame.java:180-181 | writing an admissible digit into an empty cell of a conflict-free grid keeps it conflict-free |
| `SudokuProperties.PlaceKeepsOtherUnique` | src/SudokuGame.java:180-181 | after that write every other filled cell is still unique in its row, column and box |
| `SudokuProperties.PlaceMakesTargetUnique` | src/SudokuGame.java:180-181 | after that write the new digit is unique in its row, column and box |
| `SudokuProperties.PlaceThenExtend` | src/SudokuGame.java:180-184 | a placement followed by a successful extension extends the original grid, and solves it when the original was conflict-free |
| `SudokuProperties.SolvedRowDistinct` | src/SudokuGame.java:172-195 | in a solved grid each row holds nine distinct digits in 1..9 |
| `SudokuProperties.SolvedColumnDistinct` | src/SudokuGame.java:172-195 | in a solved grid each column holds nine distinct digits in 1..9 |
| `SudokuProperties.SolvedBoxDistinct` | src/SudokuGame.java:172-195 | in a solved grid each 3x3 box holds nine distinct digits in 1..9 |
| `SudokuProperties.SolvedUnitsHoldEveryDigit` | src/SudokuGame.java:172-195 | in a solved grid every digit 1..9 occurs in every row, column and box |
| `SudokuEngine.SudokuGame.ClearBoard` | src/SudokuGame.java:161-169 | afterwards the board and the solution are all empty and no cell is given |
| `SudokuEngine.SudokuGame.GeneratePuzzle` | src/SudokuGame.java:122-158 | the solution is a full solution or, had the solver failed, empty; the board is the solution with the drawn cells cleared; every filled board cell equals the solution; a cell is given exactly when it is filled; values stay in 0..9; with a full solution at least 81 - count >= 32 cells stay filled |
| `SudokuEngine.SudokuGame.CopySolution` | src/SudokuGame.java:129-134 | the board becomes equal to the solution |
| `SudokuEngine.SudokuGame.RemoveCells` | src/SudokuGame.java:140-148 | the board becomes its old value with every drawn coordinate cleared; a mark is dropped exactly at a drawn coordinate whose cell was filled |
| `SudokuEngine.SudokuGame.MarkGivens` | src/SudokuGame.java:150-157 | a cell is marked afterwards exactly when it was marked before or is filled |
| `SudokuProperties.ClearedAgrees` | src/SudokuGame.java:129-148 | every cell left filled keeps the solution's value; for a full solution the empty cells are exactly the drawn ones; values stay in 0..9; the filled cells, taken as givens, agree with the solution |
| `SudokuProperties.ClearedKeepsEnoughCells` | src/SudokuGame.java:138-148 | repeated draws clear nothing new: at most as many cells are empty as coordinates were drawn, so at least 81 minus that many stay filled |
| `SudokuEngine.SudokuGame.ProcessMove` | src/SudokuGame.java:94-113 | the verdict follows the checks in source order on the 0-based cell (position, then number 1..9, then given cell); only a placed move writes, and only the target cell; the session invariant is kept |
| `SudokuEngine.MovePlacedIff` | src/SudokuGame.java:98-111 | a move is placed iff the 1-based position is on the board, the number is 1..9 and the cell is not given; 0 is never placed |
| `SudokuEngine.EraseRequestRejected` | src/SudokuGame.java:103-106 | the input "1 1 0" on a board without givens is rejected as a bad number, although the help text's reading would erase the cell |
| `SudokuEngine.SudokuGame.ProcessMoveErasing` | src/SudokuGame.java:27 | the move as the help text describes it: as `ProcessMove`, except that 0 is accepted and erases the target cell |
| `SudokuEngine.EraseEmptiesCell` | src/SudokuGame.java:27 | under the help text's reading, erasing a free cell is placed, leaves it empty, and erasing a filled cell adds exactly one empty cell |
| `SudokuProperties.WriteKeepsGivens` | src/SudokuGame.java:108-113 | writing a value in 0..9 into a cell that is not given keeps values in 0..9 and keeps every given cell filled and equal to the solution |
| `SudokuEngine.SudokuGame.IsValidBoard` | src/SudokuGame.java:229-244 | the board is unchanged (temporary clear and restore); the result is the clear-check-restore verdict, and it is true iff no filled cell repeats its value in another cell of its row, column or box |
| `SudokuProperties.ClearedCheckIffUnique` | src/SudokuGame.java:232-239 | for one filled cell: clearing it and checking its own value succeeds iff the value occurs in no other cell of its row, column and box |
| `SudokuProperties.BoardValidIffNoConflicts` | src/SudokuGame.java:229-244 | the validation accepts a board iff it has no conflicts |
| `SudokuEngine.SudokuGame.IsBoardComplete` | src/SudokuGame.java:247-256 | the result is true iff no cell is empty |
| `SudokuProperties.WinIffSolved` | src/SudokuGame.java:65-66 | the win test (valid, then complete) holds of a board with values in 0..9 iff it is a full solution |
| `SudokuProperties.ClearedSolutionAdmitsOnlyItsDigit` | src/SudokuGame.java:198-226 | with one cell of a full solution cleared, the check admits there exactly the solution's digit |
| `SudokuProperties.WrongDigitFailsValidation` | src/SudokuGame.java:229-244 | a full solution with one cell changed to another digit is complete but fails validation |
| `SudokuEngine.SudokuGame.EmptyCellList` | src/SudokuGame.java:260-268 | the list holds exactly the empty cells, without repeats, in row-major order, and its length is the number of empty cells |
| `SudokuGrid.CompleteIffNoEmptyCells` | src/SudokuGame.java:270-273 | a grid is complete iff its set of empty cells is empty |
| `SudokuEngine.SudokuGame.GiveHint` | src/SudokuGame.java:259-282 | with no empty cell nothing changes; otherwise exactly one previously empty cell takes the solution's value, and nothing else changes; with a full solution the number of empty cells drops by one; the session invariant is kept |

## Left out

- `startGame`, `playGame` and `main` are left out. They are the console command loop over `Scanner` input. The only rule in them, that the win test is "valid, then complete", is kept as `WinIffSolved`.
- `printBoard` and `printSolution` are left out. They only render the board to the console.
- The text half of `processMove` is left out: splitting the line, `Integer.parseInt` and the `NumberFormatException` message. `ProcessMove` takes the three parsed integers. A parsed value at the bottom of Java's `int` range would wrap when 1 is subtracted, but it lands outside 1..9 and is rejected as a bad position either way.
- The `Scanner` field is not modelled.
- The distributions of `java.util.Random` and `Collections.shuffle` are not modelled.
  - Each shuffle swap and the hint's cell are arbitrary choices.
  - The removal count and the removal coordinates are inputs to `GeneratePuzzle`.
  - Its precondition states the ranges the draws guarantee: a count in 40..49 and coordinates in 0..8.
- SolveSudoku: not proved to succeed on the empty grid. That needs a completeness argument for backtracking, and the generator ignores the result. `GeneratePuzzle` therefore states its effect for both solver outcomes: a full solution, or a still-empty solution.
- Solution uniqueness and difficulty are not modelled, because the code computes neither.
- Java's `int[][]` rows are separate objects that could in principle alias. The model uses `array2`, whose rows cannot alias. `Valid` records that `board` and `solution` are distinct arrays, as the constructor makes them.

## Findings

| source | as written | input that shows it | evidently intended | confidence | as-written member | corrected member |
|---|---|---|---|---|---|---|
| src/SudokuGame.java:103-106 | the number check `num < 1 \|\| num > 9` rejects 0 | the move "1 1 0" on a cell that is not given | 0 erases the cell, as the help text at src/SudokuGame.java:27 and src/SudokuGame.java:55 says | high (the help text states it); not executed | `SudokuEngine.EraseRequestRejected` | `SudokuEngine.SudokuGame.ProcessMoveErasing` |
