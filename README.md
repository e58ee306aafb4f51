# Sudoku solver model

A Dafny model of the solver at the heart of KoffeinFlummi's SudokuSolver. A
grid is nine rows of nine integers, and 0 marks a blank cell. The model
covers three parts of `sudokusolver.py`:

- `isValidSolution` checks that the grid has nine rows and that every row,
  column and 3x3 cluster, once sorted, reads `[1, ..., 9]`.
- The accessors `same_row`, `same_column` and `same_cluster` give the values
  in the row, the column and the cluster of a cell.
- `solveSudoku` is a backtracking search. It finds the first blank in
  row-major order and tries the digits 1..9 that are absent from that
  cell's row, column and cluster. Each such digit is written into a deep
  copy, and the copy is solved recursively. Every non-None result goes into
  `solutions`, and the first result that passes `isValidSolution` is
  returned. A grid with no blank is returned when it is valid, and None is
  returned otherwise.

Modules:

- `Grids` (`grids.dfy`) holds the grid, the three regions and the accessors.
- `Validity` (`validity.dfy`) models Python's `sorted()` as an insertion
  sort. It also holds `ValidSolution`, the specification of
  `isValidSolution`, and the `IsValidSolution` method, which has the
  source's loops and early returns.
- `Solver` (`solver.dfy`) holds the specification function `Solve` and the
  methods `SolveSudoku`, `TryDigits` and `PickValid`. These follow the
  source's nested loops, its `solutions` list and its recursion on a copy.
  Each method is proved equal to its specification function.
- `SolverProperties` (`solver_properties.dfy`) proves what the search
  promises:
  - soundness and completeness;
  - that None is returned exactly when no valid completion exists;
  - that the returned grid is the least valid completion in row-major
    order;
  - that clashing givens give None.

The copy in lines 192-193 (`copy.deepcopy` followed by one assignment) is a
value update here, `Solver.Place`. So the caller's grid is never changed,
and the recursion owns an independent copy.

## Model

| member | source | states |
|---|---|---|
| Grids.RegionMembership | sudokusolver.py:176-181 | each accessor returns nine values; x is in same_row, same_column or same_cluster of (i, j) exactly when some cell of that row, column or 3x3 block holds x |
| Grids.ClusterMembership | sudokusolver.py:180-181 | same_cluster's slices cover exactly the nine cells of the 3x3 block containing (i, j) |
| Grids.ClusterSharedByBlock | sudokusolver.py:180-181 | all cells of one 3x3 block get the same cluster from same_cluster |
| Grids.BlockIndex | sudokusolver.py:180-181 | cell (r, c) sits at place 3*(r%3)+c%3 of its own cluster |
| Validity.SortSpec | sudokusolver.py:156 | the sorted() model returns an ascending rearrangement of its argument |
| Validity.SortIsDigitsIff | sudokusolver.py:156 | `sorted(xs) == [1..9]` holds exactly when xs has nine entries that include every digit 1..9 |
| Validity.SortsToDigits | sudokusolver.py:156 | the region test returns true exactly when the region is a permutation of 1..9 |
| Validity.RowsValid | sudokusolver.py:154-157 | the row loop answers true exactly when every row is a permutation of 1..9 |
| Validity.ColumnsValid | sudokusolver.py:159-165 | the list built cell by cell is column c; the loop answers true exactly when every column is a permutation of 1..9 |
| Validity.ClustersValid | sudokusolver.py:167-172 | the loop answers true exactly when each of the nine clusters is a permutation of 1..9 |
| Validity.IsValidSolution | sudokusolver.py:149-174 | returns ValidSolution(s): nine rows, and every row, column and cluster a permutation of 1..9; any grid, including one of the wrong length, is accepted |
| Validity.PermutationDistinct | sudokusolver.py:154-172 | a region that passes the test holds only digits 1..9 and no digit twice |
| Validity.ValidSolutionCells | sudokusolver.py:149-174 | a valid grid is 9x9 with a digit 1..9 in every cell, and two different cells of one row, column or cluster differ; so a grid with a 0 or a repeat is rejected |
| Solver.Place | sudokusolver.py:192-193 | writing candidate k into a blank: the copy is 9x9, holds k at (i, j), agrees with s elsewhere, and has exactly one blank fewer |
| Solver.ZeroCountBound | sudokusolver.py:182-209 | a 9x9 grid has at most 81 blanks, so the recursion, which removes one blank per call, is at most 81 deep |
| Solver.FirstZero | sudokusolver.py:187-189 | the cell where the nested loops stop is a blank and every earlier cell in row-major order is filled; None exactly when the grid has no blank |
| Solver.FirstValid | sudokusolver.py:202-205 | the result is the first collected grid that passes isValidSolution; None exactly when none passes |
| Solver.PickValid | sudokusolver.py:202-205 | the loop over `solutions` returns FirstValid(solutions) |
| Solver.SuccessesAppend | sudokusolver.py:195-196 | appending a non-None result adds it to the end of `solutions`; a None result adds nothing |
| Solver.TryDigits | sudokusolver.py:190-196 | after the digit loop, `solutions` holds the non-None results of the digits 1..9, in that order |
| Solver.SolveSudoku | sudokusolver.py:182-209 | the method with its loops and recursion returns Solve(s) |
| SolverProperties.CandidateIff | sudokusolver.py:191 | k passes the test exactly when no cell in the row, column or 3x3 block of (i, j) holds k |
| SolverProperties.PlaceKeepsConsistent | sudokusolver.py:191-194 | writing a candidate keeps a grid without clashes free of clashes |
| SolverProperties.CompletionDigitIsCandidate | sudokusolver.py:191-193 | the digit a valid completion h puts at a blank passes the test there, and h still completes the grid with that digit written in |
| SolverProperties.SuccessesOrigin | sudokusolver.py:195-196 | every grid in `solutions` came from one of the recursive calls |
| SolverProperties.SuccessesContains | sudokusolver.py:195-196 | every successful recursive call's grid is in `solutions` |
| SolverProperties.SuccessesHead | sudokusolver.py:195-196 | the first entry of `solutions` comes from the first successful call, and every earlier call returned None |
| SolverProperties.AttemptsIndex | sudokusolver.py:190 | the digits are tried in ascending order: outcome t belongs to digit t + 1 |
| SolverProperties.AttemptSound | sudokusolver.py:190-196 | a result collected for a digit is a valid solution that keeps every given of s |
| SolverProperties.SolveSound | sudokusolver.py:182-209 | a returned grid passes isValidSolution, has no blank and keeps every non-zero cell of the input |
| SolverProperties.SolveComplete | sudokusolver.py:182-209 | if any valid completion of s exists, the search returns a grid |
| SolverProperties.SolveNoneIff | sudokusolver.py:182-209 | the search returns None exactly when s has no valid completion |
| SolverProperties.CompletableIsConsistent | sudokusolver.py:149-174 | the givens of a grid that has a valid completion never clash |
| SolverProperties.ConflictingGivensUnsolvable | sudokusolver.py:182-209 | a grid whose givens clash in a row, column or cluster yields None |
| SolverProperties.SolveTakesHead | sudokusolver.py:202-205 | at the first blank, `solutions` is non-empty when a grid is returned, and the grid returned is its first entry |
| SolverProperties.SolveNoneIffNothingCollected | sudokusolver.py:190-205 | at the first blank, None is returned exactly when `solutions` is empty: every collected grid passes the final isValidSolution filter |
| SolverProperties.FirstSuccessfulDigit | sudokusolver.py:190-205 | the returned grid is what the least successful digit returns; every smaller digit failed the test or led to None |
| SolverProperties.LexLessAt | sudokusolver.py:187-189 | two grids that first differ at (i, j), where g is smaller, are ordered g before h |
| SolverProperties.SolveLeast | sudokusolver.py:187-205 | the returned grid comes first in row-major order among all valid completions of s |
| SolverProperties.SolveFullGrid | sudokusolver.py:207-209 | a grid without blanks is returned unchanged when valid, and None is returned otherwise |

## Left out

- The image, OCR and command-line functions are not part of this model: `projectImage`, `extractSudoku`, `findFreeFilename`, `debugImage`, `printSudoku` and `main`. They are I/O around the solver.
- The progress output in lines 198-200 is writing to stdout. The `toplevel` flag only switches it on, so neither is modelled.
- Solver.SolveSudoku: requires nine rows of nine cells. On other shapes Python raises IndexError or reads whatever rows exist, and that behaviour is not modelled. Cell values are unbounded integers, not arbitrary Python objects.
- Solver.TryDigits: the digit loop of lines 190-196 is a separate method called from `SolveSudoku`. Its statements are the same as the source's. Only the method boundary is new, and it keeps each proof small.
- Aliasing is not modelled. Grids are values, so `copy.deepcopy` is a plain value update, and a caller cannot observe any sharing.
- `sorted()` is modelled as an insertion sort. Only its result matters: it returns an ascending rearrangement of its argument.
- The code has two outcomes, a grid or None. It has no separate outcome for invalid input or for an unsolvable grid, so the model has none either:
  - Clashing givens produce None. See `SolverProperties.ConflictingGivensUnsolvable`.
  - A full but invalid grid produces None. See `SolverProperties.SolveFullGrid`.
  - The code collects every branch result and then filters them. Returning the first successful branch directly would give the same result. `SolverProperties.SolveTakesHead` shows that a returned grid is the first collected one, and `SolverProperties.SolveNoneIffNothingCollected` shows that None comes back exactly when nothing was collected.
