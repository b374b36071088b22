# Sudoku solver and puzzle generator

This project models the two back-end classes of the Sudoku program in
`sudokuSolverVisualiser/instantSolver.java` and proves what they guarantee.

- `SudokuSolver` owns a 9x9 board. It fills the board in place by depth-first
  backtracking. It scans for the first empty cell in row-major order, tries
  1..9 in ascending order, and undoes a digit when the rest cannot be filled.
- `SudokuGenerator` builds a puzzle in three steps. It seeds the three
  diagonal boxes with permutations of 1..9. It completes the other 54 cells
  with the same backtracking, driven by a hand-written cursor. It then empties
  randomly drawn cells.

The model has three modules:

- `Grid` (Grid.dfy) states the board as a value (`Board = seq<seq<int>>`, 0 for
  an empty cell). It holds:
  - the validity rule (`Valid`, `NoConflict`, `SafeAt`);
  - what it means to complete a board (`Fills`, `Completion`, `Solvable`);
  - the carving relation between a puzzle and its solution (`SubBoard`,
    `Cleared`);
  - the lemmas about all of these that both classes share.
- `Solver` (Solver.dfy) is the `SudokuSolver` class. It has an `array2<int>`
  field, and `Solve` modifies that array in place.
- `Generator` (Generator.dfy) is the `SudokuGenerator` class, the cursor
  arithmetic of `fillRemaining` (`Advance`, `Pending`), and the lemmas that
  connect the three generation steps.

`Cells(board)` is the snapshot of an array as a `Board`. Every method is
specified by the snapshot before and after the call.

Main results:

- `Solve` returns true exactly when the board it was given has a
  completion. On true, the board holds such a completion: every clue is kept,
  and every empty cell now holds a digit 1..9 that repeats in no row, column
  or box. That completion is the least of all completions in row-major
  lexicographic order (`RowMajorLeq`), and there is only one such
  (`LeastCompletionUnique`), so the answer for a given board is always the
  same board. On false, the board is as it was. Termination follows because
  the set of empty cells strictly shrinks.
- `CompletionIsValid`: a completion of a valid board is valid and full.
- `FillSubgrid` writes a permutation of 1..9 into its box and nothing else.
- `FillRemaining`, started at (0, 3), writes only off-diagonal cells, and visits
  them in row-major order (`AdvanceFindsNext`). On success, every off-diagonal
  cell holds a conflict-free digit. On failure, every cell is as it was or 0.
  When the cells it has to fill start out empty, it succeeds exactly when they
  can be filled, and on failure the board is as it was (`Outcome`).
- `FillBoard`: when fillRemaining succeeds, the board is a complete solved
  grid. On a board whose off-diagonal cells are empty, as on a new generator,
  it succeeds exactly when some solved grid agrees with the seeding on the
  three diagonal boxes.
- `RemoveCells` leaves exactly the board, `count` and number of draws
  consumed that the reference function `RemoveFrom` computes from the board
  and the draws. It only writes 0 and never touches column 8. The cells it
  empties are previously filled cells, at most one per draw, and their number
  is `numCells - count`.
- `GeneratePuzzle`: the puzzle is `RemoveFrom` applied to the solution, so it
  is the solution with some cells emptied. When fillRemaining succeeded, the
  puzzle is valid and the solution is a completion of it.

The source's random numbers become inputs to the model:

- In `fillSubgrid`, the rejection-sampling draw is a nondeterministic choice
  (`:|`) of an unused digit. A pigeonhole lemma (`DigitsCount`) proves that
  one always exists.
- In `removeCells`, the stream of `random.nextInt(81)` values is the
  parameter `draws`.

The column a removal draw empties is `cellId % 9`, less one when that is
nonzero (`DrawColumn`). It always lies in 0..7, so column 8 is never emptied.
Column 0 is picked by two of the nine remainders, so it is drawn twice as
often as any other column (`DrawColumnHits`). `RemoveCells` and
`GeneratePuzzle` state this as "every changed cell lies in a column below 8".

## Model

| member | source | states |
|---|---|---|
| Grid.BoxStart | sudokuSolverVisualiser/instantSolver.java:107-109 | the first row (or column) of a cell's box, `k - k % 3`, is a multiple of 3 with k in its three rows |
| Grid.SafeAtIffUnitFree | sudokuSolverVisualiser/instantSolver.java:100-120 | the row loop and box loops of isSafe accept num exactly when no cell that shares a row, column or box with (row, col) holds num, in both directions |
| Grid.RowMajorAntisymmetric | sudokuSolverVisualiser/instantSolver.java:123-126 | of two different boards, at most one comes first in the row-major, ascending-digit order in which solve searches |
| Grid.PlaceExtends | sudokuSolverVisualiser/instantSolver.java:126-130 | soundness of one backtracking step: a digit that was safe, followed by a filling of the remaining cells, gives a filling of all of them from the board before the write |
| Grid.PlaceNarrows | sudokuSolverVisualiser/instantSolver.java:126-135 | completeness of one step: a filling with v at the cell is still a filling of the rest once v has been written there |
| Grid.UndoPlace | sudokuSolverVisualiser/instantSolver.java:128-133 | writing 0 back over a digit placed in an empty cell gives back exactly the board before the placement |
| Grid.UnsafeExcludes | sudokuSolverVisualiser/instantSolver.java:127 | a digit that isSafe rejects at an empty cell appears there in no completion |
| Grid.ZeroCellsAfterPlace | sudokuSolverVisualiser/instantSolver.java:125-129 | writing a digit into an empty cell removes exactly that cell from the empty cells, so the recursion of solve shrinks them strictly |
| Grid.CompletionIsValid | sudokuSolverVisualiser/instantSolver.java:129-140 | a completion of a valid board is valid and has no empty cell |
| Grid.FullIsOwnCompletion | sudokuSolverVisualiser/instantSolver.java:123-140 | a board without an empty cell is its own completion and its only one, which is why solve returns true for it unchanged |
| Grid.SubBoardOfSolution | sudokuSolverVisualiser/instantSolver.java:254-268 | a solved board with some cells emptied is valid, is solvable, and has the solved board as a completion |
| Grid.RangeMembers | sudokuSolverVisualiser/instantSolver.java:192-199 | membership in the recursive range lo..hi-1 is the interval test, the base of the digit counting behind used[] |
| Grid.SubsetOfRange | sudokuSolverVisualiser/instantSolver.java:192-199 | a subset of lo..hi-1 has at most hi - lo members, and with exactly that many it is the whole range |
| Grid.RangeMissing | sudokuSolverVisualiser/instantSolver.java:195-198 | a subset of lo..hi-1 with fewer than hi - lo members misses a member, which it returns |
| Grid.DigitsCount | sudokuSolverVisualiser/instantSolver.java:195-198 | pigeonhole over the used[] flags: fewer than nine used digits leave an unused one, so an unused digit can always be picked; nine used digits are all of 1..9 |
| Grid.DigitsMembers | sudokuSolverVisualiser/instantSolver.java:192 | the digits are exactly the indices 1..9 of used[] |
| Grid.PlacedUpdate | sudokuSolverVisualiser/instantSolver.java:263-266 | a board that differs from g0 only by v at (row, col) is g0 with that one cell updated, which ties the array write to the reference function of removeCells |
| Grid.ClearFirst | sudokuSolverVisualiser/instantSolver.java:263-266 | emptying a filled cell and then carving more clears that cell plus the cells cleared afterwards, one more than those, and keeps the result a carving of the original |
| Grid.ClearedOfFull | sudokuSolverVisualiser/instantSolver.java:174-178 | when the board being carved was full, the cells emptied are exactly the empty cells of the puzzle |
| Solver.SudokuSolver.constructor | sudokuSolverVisualiser/instantSolver.java:96-98 | the solver works on the very array it was given |
| Solver.SudokuSolver.GetBoard | sudokuSolverVisualiser/instantSolver.java:143-145 | hands back the solver's own array, not a copy |
| Solver.SudokuSolver.Put | sudokuSolverVisualiser/instantSolver.java:128-132 | writes the digit into that one cell and changes no other cell |
| Solver.SudokuSolver.IsSafe | sudokuSolverVisualiser/instantSolver.java:100-120 | returns true exactly when num is in neither the row, the column nor the box of the cell (the predicate SafeAt), and changes nothing |
| Solver.SudokuSolver.FindEmpty | sudokuSolverVisualiser/instantSolver.java:123-125 | finds the first empty cell in row-major order, with every earlier cell filled, or reports that the board is full |
| Solver.SudokuSolver.Solve | sudokuSolverVisualiser/instantSolver.java:122-141 | returns true iff the board has a completion; on true the board is a completion (clues kept, empty cells filled without conflict) and comes first in row-major lexicographic order among all completions; on false the board is unchanged; terminates because the empty cells shrink |
| Solver.FirstIsLeast | sudokuSolverVisualiser/instantSolver.java:123-130 | with the first empty cell found by the row-major scan and the first digit that leads to a completion, the least completion of the board with that digit written is the least completion of the board |
| Solver.LeastCompletionUnique | sudokuSolverVisualiser/instantSolver.java:122-141 | a board has only one least completion, so solve always returns the same board for the same input |
| Solver.SafeDigitSolves | sudokuSolverVisualiser/instantSolver.java:127-130 | a completion found after writing a safe digit completes the board as it was before the write |
| Solver.FailedDigitExcluded | sudokuSolverVisualiser/instantSolver.java:129-133 | when the board with num written has no completion, no completion of the board has num at that cell |
| Solver.UnsafeDigitExcluded | sudokuSolverVisualiser/instantSolver.java:127 | a digit rejected by isSafe is in no completion at that cell |
| Solver.NoDigitLeft | sudokuSolverVisualiser/instantSolver.java:126-136 | once digits 1..9 are ruled out at an empty cell, the board has no completion, so solve rightly answers false |
| Generator.Advance | sudokuSolverVisualiser/instantSolver.java:206-226 | the wrap-and-skip cursor at the head of fillRemaining, branch by branch; what it computes is stated by AdvanceFindsNext |
| Generator.AdvanceFindsNext | sudokuSolverVisualiser/instantSolver.java:206-226 | from every position fillRemaining is called with, the cursor moves to the first off-diagonal cell at or after it in row-major order, or finishes exactly when none is left |
| Generator.PendingAfter | sudokuSolverVisualiser/instantSolver.java:228-231 | the first pending cell at or after p is pending, and the cells pending after it are the others |
| Generator.PendingNone | sudokuSolverVisualiser/instantSolver.java:210-224 | with no off-diagonal cell at or after p nothing is pending |
| Generator.PendingStep | sudokuSolverVisualiser/instantSolver.java:206-232 | one cursor step takes exactly one cell off the pending cells, and the recursive call at (i, j + 1) is again at a valid position further on |
| Generator.PendingFromStart | sudokuSolverVisualiser/instantSolver.java:182 | from the start (0, 3) the pending cells are exactly the off-diagonal cells |
| Generator.OffDiagonalBands | sudokuSolverVisualiser/instantSolver.java:212-226 | the off-diagonal cells are columns 3-8 of rows 0-2, columns 0-2 and 6-8 of rows 3-5, and columns 0-5 of rows 6-8 |
| Generator.BoxFrame | sudokuSolverVisualiser/instantSolver.java:185-189 | a box whose cells are untouched keeps its permutation of 1..9 |
| Generator.SeedFrame | sudokuSolverVisualiser/instantSolver.java:180-183 | the diagonal seeding survives any change confined to off-diagonal cells |
| Generator.DiagonalPeersDiffer | sudokuSolverVisualiser/instantSolver.java:185-189 | two different diagonal-box cells that share a row, column or box lie in the same diagonal box, so a seeding gives them different digits |
| Generator.SeededFillIsSolution | sudokuSolverVisualiser/instantSolver.java:180-183 | a diagonal seeding whose off-diagonal cells are all filled without conflict is a solved board |
| Generator.SeedStep | sudokuSolverVisualiser/instantSolver.java:186-188 | filling the next diagonal box keeps the boxes filled before it |
| Generator.SeededAll | sudokuSolverVisualiser/instantSolver.java:185-189 | after the three boxes the board is seeded, and no off-diagonal cell was among those filled |
| Generator.TrackStep | sudokuSolverVisualiser/instantSolver.java:195-200 | writing an unused digit into the next box cell keeps the record of which digit went where, one cell further |
| Generator.TrackedFull | sudokuSolverVisualiser/instantSolver.java:192-203 | once all nine cells are written, the box holds each digit 1..9 exactly once and nothing outside it changed |
| Generator.NothingPending | sudokuSolverVisualiser/instantSolver.java:210-224 | with nothing left to fill, fillRemaining returns true on the unchanged board, which is a filling of nothing |
| Generator.RemainingStep | sudokuSolverVisualiser/instantSolver.java:228-232 | a successful recursive call after a safe write fills all pending cells from the board fillRemaining started from |
| Generator.ResetStep | sudokuSolverVisualiser/instantSolver.java:229-234 | resetting the cell to 0 after a failed recursive call keeps the loop invariant: non-pending cells as found, every cell as found or empty, and, from empty pending cells, the board as found with the digit tried ruled out |
| Generator.UnsafeStep | sudokuSolverVisualiser/instantSolver.java:229 | a digit rejected by isSafe keeps the loop invariant and, from empty pending cells, is ruled out |
| Generator.BlankAfterPlace | sudokuSolverVisualiser/instantSolver.java:230-231 | writing a digit into one empty pending cell leaves the cells pending after it empty |
| Generator.UnsafeRuled | sudokuSolverVisualiser/instantSolver.java:229 | a digit isSafe rejects at an empty pending cell appears there in no filling of the pending cells |
| Generator.FailedRuled | sudokuSolverVisualiser/instantSolver.java:230-233 | when the cells after the written digit cannot be filled, no filling of the pending cells has that digit there |
| Generator.NothingFits | sudokuSolverVisualiser/instantSolver.java:228-236 | after digits 1..9 have all been tried, returning false is what Outcome demands: from empty pending cells no filling exists and the board is as found |
| Generator.FillableIffExtendable | sudokuSolverVisualiser/instantSolver.java:180-183 | the off-diagonal cells of a diagonal seeding can be filled exactly when some solved board agrees with the seeding on the diagonal boxes, in both directions |
| Generator.DrawColumn | sudokuSolverVisualiser/instantSolver.java:259-261 | the column a removal draw picks lies in 0..7, so column 8 is never emptied |
| Generator.DrawColumnHits | sudokuSolverVisualiser/instantSolver.java:259-261 | column 0 is picked by the remainders 0 and 1, every other column c by the remainder c + 1 only |
| Generator.RemoveFrom | sudokuSolverVisualiser/instantSolver.java:254-268 | reference definition of removeCells over a draw sequence: it stops with count 0 or with the draws used up, count stays within 0..numCells for numCells >= 0, and a negative numCells uses up every draw |
| Generator.RemoveFromStep | sudokuSolverVisualiser/instantSolver.java:256-266 | one draw empties the drawn cell and decrements count when that cell is filled, and otherwise changes nothing |
| Generator.RemoveFromClears | sudokuSolverVisualiser/instantSolver.java:254-268 | removal only empties cells and never one in column 8; the cells it empties were filled, numCells - count of them, at most one per draw |
| Generator.SudokuGenerator.constructor | sudokuSolverVisualiser/instantSolver.java:169-172 | a new generator has a fresh, all-zero 9x9 board |
| Generator.SudokuGenerator.GeneratePuzzle | sudokuSolverVisualiser/instantSolver.java:174-178 | returns the generator's own board, which is exactly RemoveFrom applied to the seeded solution and the draws; only cells of columns 0-7 are emptied, emptyCells - count of them; count is 0 unless all draws were used; when fillRemaining succeeded the solution is solved, the puzzle valid and the number of empty cells emptyCells - count; on a board whose off-diagonal cells were empty, fillRemaining succeeded exactly when the seeding extends to a solved board |
| Generator.SudokuGenerator.FillBoard | sudokuSolverVisualiser/instantSolver.java:180-183 | leaves the three diagonal boxes seeded; when fillRemaining succeeds the board is solved; otherwise every off-diagonal cell is as before or 0; from empty off-diagonal cells it succeeds exactly when some solved board agrees with the seeding on the diagonal boxes |
| Generator.SudokuGenerator.FillDiagonalSubgrids | sudokuSolverVisualiser/instantSolver.java:185-189 | the boxes at (0, 0), (3, 3) and (6, 6) each hold a permutation of 1..9 and no off-diagonal cell changes |
| Generator.SudokuGenerator.FillSubgrid | sudokuSolverVisualiser/instantSolver.java:191-203 | the box at (row, col) holds each digit 1..9 exactly once and every cell outside it is unchanged |
| Generator.SudokuGenerator.DrawCell | sudokuSolverVisualiser/instantSolver.java:195-200 | returns a digit 1..9 that was not flagged in used[], flags it and nothing else, writes it into the box cell (a, b) and changes no other cell, and records it in the digit-to-cell map |
| Generator.SudokuGenerator.FillRemaining | sudokuSolverVisualiser/instantSolver.java:205-237 | never changes a cell outside the pending off-diagonal cells; on true every pending cell holds a digit 1..9 without conflict; on false every cell is as before or 0; when the pending cells start out empty it returns true exactly when they can be filled, and on false leaves the board as it was |
| Generator.SudokuGenerator.TryDigit | sudokuSolverVisualiser/instantSolver.java:229-234 | one pass of the digit loop: on true the pending cells are filled from the board fillRemaining started from; on false the loop invariant holds for the next digit |
| Generator.SudokuGenerator.Put | sudokuSolverVisualiser/instantSolver.java:230-233 | writes the digit into that one cell and changes no other cell |
| Generator.SudokuGenerator.IsSafe | sudokuSolverVisualiser/instantSolver.java:239-252 | the same predicate SafeAt as the solver's copy, so the two checks agree on every board |
| Generator.SudokuGenerator.RemoveCells | sudokuSolverVisualiser/instantSolver.java:254-268 | leaves exactly the board, count and draws consumed of RemoveFrom; only empties cells, never in column 8; empties numCells - count formerly filled cells, at most one per draw; stops with count 0 or with the draws used up, and a negative numCells never stops |

## Left out

- The Swing user interface `SudokuGUI` (lines 7-89), including its text-field
  parsing, is not part of this model. It is presentation code.
- `printBoard` (lines 147-159) is console output and is not modelled.
- `java.util.Random` is not modelled. The draw in `fillSubgrid` is a
  nondeterministic choice of an unused digit. The draws of `removeCells` are
  the input sequence `draws`. No distribution or uniformity is stated.
- `(int) Math.sqrt(SIZE)` is the constant 3 (`BoxSize`). Floating point is not
  modelled.
- Generator.SudokuGenerator.RemoveCells: the source keeps drawing until
  `count` reaches 0, forever if it never does. The model stops when the draws
  run out. Non-termination (a negative `numCells`, or more cells asked for
  than there are filled cells in columns 0-7) therefore shows as the draws
  being used up, not as a loop that never ends.
- Generator.SudokuGenerator.FillRemaining: the model does not prove that
  fillRemaining succeeds from every diagonal seeding. That is a combinatorial
  existence fact, and the code does not establish it. The model proves that,
  from empty off-diagonal cells, it succeeds exactly when the seeding extends
  to a solved board; the properties of the generated board are stated under
  the condition that it succeeded.
- Generator.SudokuGenerator.FillRemaining: "succeeds exactly when the pending
  cells can be filled" is stated only when those cells start out empty. On a
  reused board, isSafe also sees the leftover digits in later pending cells
  (and in the cell itself), so it can reject a digit that some filling uses.
- Generator.SudokuGenerator.TryDigit and Generator.SudokuGenerator.DrawCell:
  the bodies of the digit loop of fillRemaining and of the draw loop of
  fillSubgrid are separate methods. TryDigit and FillRemaining are mutually
  recursive. The order of the writes is the source's.
- Generator.SudokuGenerator.FillRemaining: the model admits only the argument
  pairs the generator itself passes: the start (0, 3) and the position just
  after an off-diagonal cell.
- Generator.SudokuGenerator.FillRemaining: the model does not prove that the
  off-diagonal cells number 54. They are characterized cell by cell by
  `OffDiagonalBands`.
- Generator.SudokuGenerator.FillBoard: the source discards fillRemaining's
  result. Here it is returned as a ghost value so that the contracts can
  depend on it. The caller-visible behaviour is the same.
- Generator.SudokuGenerator.GeneratePuzzle: the Java method returns only the
  board. `count` and the ghost `filled` and `solution` are extra results that
  expose what the source keeps internal. Repeated calls on one generator
  reuse the stale board, as the source does. The contract covers that case
  too, but does not describe the distribution of the resulting puzzles.
- Java's `int[][]` is an array of row arrays, which could be jagged or could
  share rows. It is modelled as one rectangular `array2<int>`. Sharing of the
  whole array is modelled: the solver keeps and returns the caller's array
  (lines 97, 144), and `GeneratePuzzle` returns the generator's own array.
- Solver.SudokuSolver.Solve: the model does not prove that the empty board,
  or any other particular board, is solvable. The contract says that solve
  succeeds exactly on solvable boards, without naming any.
- Solver.SudokuSolver.FindEmpty: the two nested scanning loops at the head of
  `solve` are modelled as this separate method, which `Solve` calls. Their
  early return into the digit loop is kept.
