# Sudoku scripts: solver and creator, modelled in Dafny

The repository holds two independent implementations of the same puzzle logic.

1. **`SolveSudoku` in `sudoku_solver.py`.** This is a generic N×N solver, with N = w·w.
   - It keeps the grid as a flat list with index `r * N + c`, and 0 marks an empty cell.
   - For each cell it precomputes the peer indices: the cells sharing its row, its column or its w×w block.
   - It checks a line for repeated non-zero values, and checks the whole grid rows first, then columns, then blocks.
   - It fills every empty cell that has exactly one candidate, and repeats until a pass fills nothing.
   - Finally it backtracks in odometer fashion. The cursor walks the flat grid and skips the `leave_alone` cells. It raises the cell under the cursor until the grid is valid, and steps back when the value passes N.

2. **`CreateSudoku` in `sudoku_creator.py`.** This is a 9×9 creator. It keeps the grid as a list of rows, and −1 marks an empty cell. It has its own copies of the logic:
   - a uniqueness validator that reports the first failing row, column or block;
   - a "missing number" rule, applied to the column, then the row, then the block, then their union;
   - a solver that works on a copy: propagation, then backtracking over the row-major list of empty cells, returning a success flag;
   - a complete grid built from a permuted top row and its rotations by 3, 3, 1, 3, 3, 1, 3, 3, followed by row and column shuffles inside each band;
   - a removal loop that clears a random filled cell and writes it back when the solver fails.

The Dafny modules follow the two files.

- `SolverGrid` (solver_grid.dfy) covers the grid shape, the peer index and both checks.
- `SolverPropagation` (solver_propagation.dfy) covers the single-candidate rule and the propagation passes.
- `SolverSearch` (solver_search.dfy) covers `leave_alone`, the backtracking loop and `solve`.
- `CreatorBoard` (creator_board.dfy) covers the 9×9 board and its empty and filled cell lists.
- `CreatorChecks` (creator_checks.dfy) covers `check_only_unique`, the unit checks and `check_solution`.
- `CreatorSingle` (creator_single.dfy) covers `check_missing_num` and `check_if_single_solution`.
- `CreatorSolve` (creator_solve.dfy) covers the creator's `solve`.
- `CreatorBuild` (creator_build.dfy) covers `shift`, the shuffles and `create_filled_in`.
- `CreatorPick` (creator_pick.dfy) covers `get_non_empty` and the clearing of the cell it picks.
- `CreatorRemove` (creator_remove.dfy) covers the removal loop of `create_sudoku`.
- `Arith`, `Digits` and `Counting` hold supporting facts: index arithmetic, the base-b value that serves as the backtracking measure, and set cardinalities.

Every random choice is a parameter:
- the top-row permutation;
- the three row orders and the three column orders, one per band;
- a stream of draws `draws: seq<nat>`. The cell picked on attempt `t` is `draws[t] % |filled cells|`, as `random.choice` picks from the `np.where` list in row-major order.

Backtracking in the solver is a method with a loop. Its measure is the grid read as a base-(N+2) number, together with the cursor. Backtracking in the creator is a recursive function, so that `create_sudoku`'s contract can mention `solve`'s result. Its measure is an odometer value over the listed cells.

## Model

| member | source | states |
|---|---|---|
| SolverGrid.AssociatedIndices | sudoku_solver.py:45-70 | A flat index is in the result exactly when it shares the row, the column or the w×w block of (r, c) and is not (r, c) itself |
| SolverGrid.AssociatedIndicesCount | sudoku_solver.py:45-70 | The peer set has exactly 3N − 2w − 1 members (20 for a 9×9 grid) |
| SolverGrid.CountsIffNoRepeats | sudoku_solver.py:72-87 | Counting each non-zero value and demanding every count be below 2 is the same as no non-zero value appearing at two positions |
| SolverGrid.ArrayCorrect | sudoku_solver.py:72-87 | A line passes exactly when no non-zero value occurs twice; zeros are ignored |
| SolverGrid.UnitsIffConflictFree | sudoku_solver.py:89-130 | All rows, all columns and all blocks pass the line check exactly when no two peer cells hold the same non-zero value |
| SolverGrid.CheckSudokuCorrect | sudoku_solver.py:89-130 | Scanning rows, then columns, then blocks and stopping at the first failure returns true exactly when the grid is conflict-free |
| SolverPropagation.OneSolution | sudoku_solver.py:132-152 | The result is a value v in 1..N exactly when v is the only value of 1..N absent from the peers; otherwise it is 0 |
| SolverPropagation.AbsentAreCandidates | sudoku_solver.py:132-152 | The values the count array shows as absent, across the whole padded range, are exactly the cell's candidates in 1..N |
| SolverPropagation.OneSolutionSound | sudoku_solver.py:132-152 | Every solution extending the grid puts in the cell the value the rule returns |
| SolverPropagation.Pass | sudoku_solver.py:164-170 | One pass writes only cells that were 0, and cells from the pass start onward. The count of filled cells equals the drop in empty cells. A pass that fills nothing leaves the grid unchanged and proves no empty cell has a single candidate. A conflict-free grid stays conflict-free |
| SolverPropagation.PassKeepsSolutions | sudoku_solver.py:164-170 | Every solution extending the grid before a pass extends it after the pass |
| SolverPropagation.Fixpoint | sudoku_solver.py:163-172 | Reference definition: passes repeated until one fills nothing. What it reaches is a grid on which one more pass fills nothing |
| SolverPropagation.Propagate | sudoku_solver.py:163-172 | The result is exactly `Fixpoint` of the input: the grid that repeated passes reach when one fills nothing. No empty cell of it has a single candidate. It writes only empty cells, keeps exactly the same set of solutions, and keeps a conflict-free grid conflict-free |
| SolverSearch.LeaveAlone | sudoku_solver.py:28-42 | The list holds exactly the indices of non-zero cells, in increasing order |
| SolverSearch.PreviousFree | sudoku_solver.py:204-211 | The scan back stops at the nearest earlier cell outside `leave_alone`, or at −1 when every earlier cell is fixed |
| SolverSearch.TryDigit | sudoku_solver.py:212-217 | The cursor moves on exactly when the grid is conflict-free, and then nothing is written. Otherwise the cursor stays and the grid is the old one with the current cell raised by one, which strictly raises the grid's odometer value |
| SolverSearch.Advance | sudoku_solver.py:193-217 | An empty free cell is entered as 1. If the entered value is past N, the cursor moves back with the effect `StepBack` states: the cell is cleared and the nearest earlier free cell raised by one, or the cursor goes to −1 exactly when every earlier cell is a given. Otherwise the cursor moves on exactly when the grid with the entered value is conflict-free; if it stays, the grid is that one with the cell raised by one. Running off the front gives the starting grid with its last cell raised by one |
| SolverSearch.StepBack | sudoku_solver.py:200-211 | A value past N clears the cell and moves the cursor to the nearest earlier free cell: every cell strictly between is a given, and the grid differs from the old one only in the cleared cell and that cell raised by one, which raises the odometer value. The cursor goes to −1 exactly when every earlier cell is a given, and the result is then the starting grid with its last cell raised by one |
| SolverSearch.AdvanceBack | sudoku_solver.py:193-211 | A free cell whose entered value is past N is cleared, and the cursor moves to the nearest earlier free cell, raising it by one; it goes to −1 exactly when every earlier cell is a given |
| SolverSearch.AdvanceTry | sudoku_solver.py:193-217 | An entered value in 1..N moves the cursor on exactly when the grid with that value is conflict-free; otherwise the cell is raised by one |
| SolverSearch.Step | sudoku_solver.py:189-217 | One iteration keeps the cursor invariant: givens untouched, free cells before the cursor in 1..N, free cells after it 0. It strictly increases (odometer value, cursor) until the cursor leaves the grid |
| SolverSearch.Backtrack | sudoku_solver.py:177-217 | The loop ends with the cursor at −1 or at the length. At the length, the givens are kept, every cell holds 1..N, and the grid is conflict-free when some cell was free. At −1, the result is the starting grid with its last cell raised by one |
| SolverSearch.Solve | sudoku_solver.py:154-219 | A found grid is full, keeps every given, and solves the input when the input has no conflict. A full input is returned unchanged as found, whether or not it has a conflict. On exhaustion every given but the last cell's is kept |
| SolverSearch.FullGridWithConflict | sudoku_solver.py:185-187 | A full 4×4 grid of ones is well-formed and has no empty cell, yet it is not conflict-free; `Solve`'s contract for full inputs then makes it report the grid found, unchanged |
| SolverSearch.SolveChecked | sudoku_solver.py:212-219 | With the validity check also applied when no cell was free, "found" always means a solution that extends the input. A full conflict-free grid is still found |
| CreatorChecks.PositivesDistinct | sudoku_creator.py:215-220 | The positive entries are pairwise distinct exactly when no positive value appears at two positions |
| CreatorChecks.CheckOnlyUnique | sudoku_creator.py:215-220 | The result is true exactly when no positive entry repeats; −1 is ignored |
| CreatorChecks.CheckRow | sudoku_creator.py:226-228 | The flag is true exactly when row i has no repeated positive value; the row is returned alongside it |
| CreatorChecks.CheckColumn | sudoku_creator.py:222-224 | The flag is true exactly when column j has no repeated positive value; the column's values are returned alongside it |
| CreatorChecks.CheckBlock | sudoku_creator.py:230-234 | The flag is true exactly when the 3×3 window at (r1, c1) has no repeated positive value; its nine values in reading order are returned alongside it |
| CreatorChecks.FirstInvalid | sudoku_creator.py:243-263 | Scanning the 27 units from the k-th on gives Valid exactly when all of them pass. Otherwise it reports the first failing unit with its values |
| CreatorChecks.UnitsIffConflictFree | sudoku_creator.py:236-263 | All 27 units pass exactly when no two peer cells hold the same positive value |
| CreatorChecks.CheckSolution | sudoku_creator.py:236-263 | The result is Valid exactly when the board is conflict-free. Otherwise it names the first failing unit in the order rows, columns, blocks, with that unit's values |
| CreatorSingle.CheckMissingNumSpec | sudoku_creator.py:119-129 | For values in 1..9, the result is v exactly when v is the only value of 1..9 absent from the array; otherwise it is −1 |
| CreatorSingle.CheckMissingNumSetwise | sudoku_creator.py:119-129 | Two arrays holding the same values give the same result, so repeated entries do not matter |
| CreatorSingle.UnionDigits | sudoku_creator.py:156-160 | The union list holds exactly the values in the column, the row or the block |
| CreatorSingle.CheckIfSingleSolutionSpec | sudoku_creator.py:131-162 | A result other than −1 is the only value missing from the column, the row, the block or their union. It is −1 only when none of the four has exactly one missing value |
| CreatorSingle.SingleSolutionSound | sudoku_creator.py:131-162 | Every solution extending the board puts in the cell the value the rule returns |
| CreatorSingle.UnionStepNeeded | sudoku_creator.py:156-161 | On a board whose row holds 1–4, column 5–7 and block 8, the column, row and block checks all give −1 while the union gives 9 |
| CreatorSolve.PassOver | sudoku_creator.py:170-180 | One pass over the listed empty cells keeps the board well-formed, and the count of filled cells equals the drop in empty cells. A pass that fills nothing leaves the board unchanged |
| CreatorSolve.PassOverQuiet | sudoku_creator.py:170-180 | A pass that fills nothing found no listed cell with a single answer |
| CreatorSolve.PassOverSound | sudoku_creator.py:170-180 | Every solution extending the board before a pass extends it after the pass |
| CreatorSolve.PropagateFills | sudoku_creator.py:169-180 | Propagation changes only cells that were −1, giving each a value; every given is kept |
| CreatorSolve.PropagateFixed | sudoku_creator.py:169-180 | At exit `check_if_single_solution` answers −1 for every empty cell of the board |
| CreatorSolve.PropagateSound | sudoku_creator.py:169-180 | Every solution extending the board extends the propagated board |
| CreatorSolve.SearchNext | sudoku_creator.py:191-205 | One iteration keeps the cursor invariant: listed cells before `kn` in 1..9, after `kn` −1, other cells untouched. It strictly increases the odometer measure. The cursor passes the end only after `check_solution` accepts |
| CreatorSolve.Search | sudoku_creator.py:183-205 | The loop ends with `kn` at −1 or at the list's length and writes only listed cells. Reaching the end over a non-empty list leaves the board conflict-free |
| CreatorSolve.SearchOverEmpty | sudoku_creator.py:183-205 | Over the board's own empty cells, reaching the end leaves the board complete. Running off the front restores the board exactly. An empty list ends at once with the board unchanged |
| CreatorSolve.Solve | sudoku_creator.py:164-210 | True comes with a complete board. False comes with the propagated board, every backtracked cell reset to −1 |
| CreatorSolve.SolveExtends | sudoku_creator.py:164-210 | The result only fills cells that were −1, so it keeps every given of the argument |
| CreatorSolve.SolveConflict | sudoku_creator.py:179-189 | A true result whose board has a conflict is the propagated board itself: backtracking never ran |
| CreatorSolve.SolveSound | sudoku_creator.py:164-210 | For a board that some solution extends, a true result is a solution extending the board |
| CreatorSolve.SolveComplete | sudoku_creator.py:183-189 | A board with no empty cell is returned unchanged with true, even when it has a conflict |
| CreatorBuild.Shift | sudoku_creator.py:57-67 | Entry j of the rotated row is entry (j − k) mod n of the original; length and multiset are kept |
| CreatorBuild.ShiftMoves | sudoku_creator.py:57-67 | Rotating right by k moves entry i to position (i + k) mod n |
| CreatorBuild.BaseRow | sudoku_creator.py:96-98 | The row built after i rotations reads the top row at offset 0, 3, 6, 7, 1, 4, 5, 8, 2 for i = 0..8 |
| CreatorBuild.RotatedRows | sudoku_creator.py:91-98 | Writing the top row and then each successive rotation gives the grid of offsets, with the top row as row 0 |
| CreatorBuild.BaseGridSolution | sudoku_creator.py:91-98 | For any permutation of 1..9 as the top row, the rotated grid is a complete solution |
| CreatorBuild.ShuffleRows | sudoku_creator.py:69-76 | Row lo + i becomes old row perm[i] for i < 3. Other rows are unchanged, and the multiset of rows is kept |
| CreatorBuild.ShuffleColumns | sudoku_creator.py:78-85 | In every row, column lo + j becomes old column perm[j] for j < 3. Other columns are unchanged, and each row's multiset is kept |
| CreatorBuild.ShuffleRowsSolution | sudoku_creator.py:69-76 | Permuting the rows of one band keeps a complete solution a solution |
| CreatorBuild.ShuffleColumnsSolution | sudoku_creator.py:78-85 | Permuting the columns of one band keeps a complete solution a solution |
| CreatorBuild.CreateFilledInSolution | sudoku_creator.py:87-114 | The built grid is a complete solution and `check_solution` reports it Valid |
| CreatorPick.EmptyCountHasFilled | sudoku_creator.py:48-55 | A board with fewer than 81 empty cells has a filled cell, so `get_non_empty` has something to pick |
| CreatorPick.GetNonEmpty | sudoku_creator.py:48-55 | The pick is an on-board cell that is not −1 |
| CreatorPick.GetNonEmptyCovers | sudoku_creator.py:48-55 | Every filled cell is the pick of some draw |
| CreatorPick.ClearPick | sudoku_creator.py:31-33 | Clearing the picked cell only turns a filled cell into −1, leaving one more empty cell |
| CreatorRemove.Attempt | sudoku_creator.py:30-39 | The clearing is kept exactly when `solve` accepts the board with the drawn cell cleared; the board is then that clearing. Otherwise writing the old value back restores the previous board exactly |
| CreatorRemove.RemoveOne | sudoku_creator.py:28-41 | At most 201 draws are used, and `solve` rejected the clearing of every draw before the last. One more cell is empty exactly when it accepts the last draw's clearing, and the board is then that clearing. Otherwise all 201 draws were rejected and the board is unchanged. Board and draws used equal the reference `Round` |
| CreatorRemove.RoundKept | sudoku_creator.py:28-37 | When the draws from `start` up to one before `used` are all rejected and that last one is accepted, the reference round ends with that draw's clearing and `used` draws consumed |
| CreatorRemove.RoundRejected | sudoku_creator.py:38-41 | When all 201 draws from `start` are rejected, the reference round leaves the board unchanged with 201 draws consumed |
| CreatorRemove.RemoveCells | sudoku_creator.py:26-41 | The puzzle and the draws used are exactly the reference `Removal`: `nToRemove` rounds in sequence, each starting where the last stopped. The number removed is at most the target and equals the count of empty cells. No cell ever gains a value, and `solve` accepts the final puzzle and solves it |
| CreatorRemove.CreateSudoku | sudoku_creator.py:20-43 | The full grid is the built solution. The puzzle and the draws used are exactly the reference `Removal` of `nToRemove` rounds from that grid. The puzzle is the grid with some cells cleared, and the number removed is at most the target. `solve` returns true on the puzzle with a solution that extends it |

## Left out

- The OpenCV drawing and window functions (sudoku_creator.py:268-310) are user interface and are not modelled.
- Printing, timing and the `__main__` drivers are not modelled (sudoku_solver.py:222 onward, sudoku_creator.py:313-336). The creator's driver retries until 90% of the requested cells are removed; the model keeps this only as a note.
- The solver stores cells in a numpy string array and parses `''` and `"0"`, and it builds its index table with a float `linspace`. The model uses integer cells and the index `r * N + c` instead.
- Every random call becomes a parameter with a precondition: `random.shuffle` for the top row and the band orders, and `random.choice` in `get_non_empty`.
- `np.flip` and `np.rot90` in `create_filled_in` discard their results, so they are modelled as leaving the grid unchanged, and the random numbers feeding them are not parameters.
- CreatorPick.GetNonEmpty requires a board with at least one filled cell. On a board with none, the source prints an error and `random.choice` raises.
- CreatorRemove.CreateSudoku requires `nToRemove <= 81` and at least 201 draws per target removal. `n_to_remove` is a fraction of 81 rounded to an integer, and the float arithmetic computing it is not modelled.
- SolverSearch.Solve requires a well-formed grid, with every cell in 0..N. The source does not validate its input. A negative value would fail in `np.bincount`, and a value above N would widen the candidate range.
- SolverSearch.Solve and CreatorSolve.Solve are not proved complete, that is, that they find a solution whenever one exists. Consequently the driver's remark that solving a cleared puzzle "should never occur" to fail is not proved for every cleared grid. It is proved only for the puzzles `create_sudoku` keeps, whose acceptance it tests.
- The solver returns the reshaped grid without a flag. The model returns the flag `found` in place of the two printed messages.
- The solver's `num is not 0` compares identity. It is modelled as `!= 0`, which is what it does for the small integers involved.

## Findings

| source | as written | input that shows it | evidently intended | confidence | as-written member | corrected member |
|---|---|---|---|---|---|---|
| sudoku_solver.py:185-187 | When propagation leaves no empty cell, the backtracking loop runs off the end without ever calling `check_if_sudoku_correct`, and "Found a solution" is printed for a grid with a conflict | the full 4×4 grid of all ones (w = 2) | "found" only for a valid solution | not executed | SolverSearch.FullGridWithConflict | SolverSearch.SolveChecked |
