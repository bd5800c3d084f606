# Sudoku backtracking and constraint propagation, in Dafny

This project models the search engine of a small Python Sudoku solver and
proves what it promises. The board is an N-by-N grid of integers with
N = k*k and 0 marking an empty cell. The repository holds four near-identical
copies of a plain backtracking search and one constraint solver:

- `board.dfy` (module `Board`): the parts every copy shares.
  - `is_valid`: the row, column and k-by-k subgrid scan.
  - `is_unique` and `is_board_valid`: the whole-board duplicate check.
  - `find_empty`: the first empty cell in row-major order.
  - What a backtracking search needs to be sound and complete: `Completes`,
    `Completable`, `DeadEnd`, and the two lemmas that one placement extends
    a completion and that a completion chooses a placeable value.
- `backtracking.dfy` (module `Backtracking`): one run of the plain search
  as a value (`Trace`), shared by all four copies.
  - The functions `Search`, `Turns` and `Step` try the values 1..N in
    ascending order at the first empty cell in row-major order.
  - Lemmas prove what they mean: soundness and completeness, and at least
    one placement per empty cell on success.
  - Every solver method of the copies is proved equal to them: the same
    answer, the same final board and the same placements.
- `plain_solver.dfy` (module `PlainSolver`): `SudokuSolver.py`, the search
  with an `iterations` counter.
- `brute_force_tracker.dfy` (module `BruteForceTracker`):
  `Backtracking_Tracker_Brute_Force.py`, the same search that also counts
  `backtracks`.
- `tracked_solver.dfy` (module `TrackedSolver`): `sudoku_solver.py`, the
  search that logs every decision in `attempted_cells` and counts
  `recursive_calls`.
  - The methods are proved equal to `Search`, `Turns` and `Step`,
    including the appended log and both counters.
  - Lemmas prove the order of the log and counters that agree with it.
- `csp.dfy` (module `Csp`): the pure side of
  `Backtracking_Tracker_Propagation.py`:
  - the neighbours of a cell;
  - the domain map and its measure;
  - solutions and the domains they fit;
  - the revise rule, the forward-checking pass, the MRV choice and the
    initial domains;
  - lemmas that every propagation step loses no solution.
- `propagation_tracker.dfy` (module `PropagationTracker`): the class of
  `Backtracking_Tracker_Propagation.py`.
  - `revise`, `ac3` and `forward_check` update `domains` in place.
  - `backtrack_csp` saves and restores `domains`.
  - `solve_csp` writes the solved domains back to the board.
  - `solve_using_backtracking` is the nested plain search.

How the source maps to Dafny:

- The numpy board is an `array2<int>` that the solvers update in place.
  Contracts talk about it through `Board.Snapshot`, its value as a sequence
  of rows.
- The counters are `nat` fields.
- `attempted_cells` is a `seq` of `Attempt` records.
- The domain dictionary is a `map<Cell, set<int>>` field.
- Every recursive search is terminated by a measure:
  - the plain searches by the set of empty cells;
  - `backtrack_csp` by the set of (cell, value) candidates its domains
    allow, which every commitment strictly lowers and propagation never
    raises.

The constraint solver's `revise` does not do what its docstring says (see
Findings). `Revise` and the `ac3` built on it use the AC-3 rule the code
evidently means: the value the given neighbour's domain holds alone leaves
the cell's domain. `Csp.RemovalsAsWritten` keeps the rule as written, and
the discrepancy is proved about it.

## Model

| member | source | states |
|---|---|---|
| Board.PlaceableIffNoPeerHolds | sudoku_solver.py:17-28 | `is_valid` holds exactly when the cell itself and every cell sharing its row, column or subgrid do not hold the value |
| Board.RowContains | sudoku_solver.py:19 | `num in board[row, :]` is true exactly when the value occurs in the row |
| Board.ColumnContains | sudoku_solver.py:19 | `num in board[:, col]` is true exactly when the value occurs in the column |
| Board.BlockContains | sudoku_solver.py:22-27 | the subgrid loops find the value exactly when it occurs in the k-by-k block at the given origin |
| Board.IsValid | sudoku_solver.py:17-28 | the answer is true exactly when the value is absent from the row, the column and the subgrid whose origin is (row // k * k, col // k * k); the same method models `is_valid` of SudokuSolver.py:10-22 and Backtracking_Tracker_Brute_Force.py:15-27 and `is_valid_assignment` of Backtracking_Tracker_Propagation.py:157-166 |
| Board.Positives | sudoku_solver.py:47 | the elements kept are exactly the positive ones of the array |
| Board.CardinalityOfElements | sudoku_solver.py:48 | a sequence has no more distinct elements than entries, and as many exactly when its entries are pairwise distinct |
| Board.PositivesDistinct | sudoku_solver.py:44-48 | the positive entries are pairwise distinct exactly when no positive entry repeats later in the array |
| Board.IsUnique | sudoku_solver.py:44-48 | `is_unique` is true exactly when the non-zero elements are pairwise distinct |
| Board.UnitsUnique | sudoku_solver.py:33-41 | the checks of `is_board_valid`: every row, every column and every k-by-k subgrid at origins that are multiples of k passes `is_unique`; NoConflictsGivesUnits and UnitsGiveNoConflicts prove it equivalent to no two peers holding the same non-zero value |
| Board.NoConflictsGivesUnits | sudoku_solver.py:30-42 | a board where no two peers hold the same non-zero value passes every row, column and subgrid check |
| Board.UnitsGiveNoConflicts | sudoku_solver.py:30-42 | a board whose rows, columns and subgrids all pass `is_unique` has no two peers holding the same non-zero value |
| Board.SubgridConflictIsSeen | sudoku_solver.py:38-41 | two cells of one subgrid holding the same non-zero value make that subgrid fail `is_unique` |
| Board.IsBoardValid | sudoku_solver.py:30-42 | `is_board_valid` is true exactly when no row, column or subgrid (origins at multiples of k) repeats a non-zero value |
| Board.FirstZeroFrom | sudoku_solver.py:53-55 | the first zero of a row from a given column on, or None when that part of the row has none |
| Board.FirstEmptyFrom | sudoku_solver.py:52-56 | the first zero cell in row-major order from a given row on, or None when there is none |
| Board.FirstEmpty | sudoku_solver.py:50-56 | None exactly when the board has no zero; otherwise a zero cell with no zero before it in row-major order |
| Board.FirstEmptyUnique | sudoku_solver.py:50-56 | the first empty cell is unique |
| Board.FindEmpty | sudoku_solver.py:50-56 | the scan of the array returns FirstEmpty of the board; the same method models `find_empty` of SudokuSolver.py:24-30 and Backtracking_Tracker_Brute_Force.py:29-35 and the nested `select_unassigned_variable` of Backtracking_Tracker_Propagation.py:149-155 |
| Board.PlaceUndo | SudokuSolver.py:40-44 | placing a value and resetting the cell to its old value gives back the board |
| Board.ZeroCellsAfterPlace | SudokuSolver.py:40 | a placement in an empty cell removes exactly that cell from the empty cells, which lowers the search's measure |
| Board.PlacementExtends | SudokuSolver.py:38-43 | a completion of the board with a valid value placed, keeping its given cells, completes the board itself |
| Board.CompletionChoosesPlaceable | SudokuSolver.py:38-43 | every completion holds, at the empty cell, a value of 1..N that passes `is_valid` and completes the board with that value placed |
| Board.CompletableHasLiveValue | SudokuSolver.py:38-45 | a completable board has a value at its empty cell that is not a dead end, so a search that tries every value misses no completion |
| Board.CompletionKeepsNoConflicts | SudokuSolver.py:10-22 | a completion of a board without conflicts that keeps its given cells has no conflicts |
| PlainSolver.SudokuSolver.constructor | SudokuSolver.py:4-8 | the board is the given grid and `iterations` is 0 |
| PlainSolver.SudokuSolver.Solve | SudokuSolver.py:32-45 | answer, final board and `iterations` increment are those of Search on the entry board (values in ascending order at the first empty cell); so success exactly when the entry board can be completed, success leaves such a completion with the given cells kept, failure restores the entry board, and on success `iterations` grew by at least the number of empty cells |
| PlainSolver.SudokuSolver.TryValue | SudokuSolver.py:38-44 | answer, board and `iterations` increment are those of Step; success completes the board, and failure restores it and shows the value is a dead end |
| PlainSolver.SudokuSolver.PlaceAndSearch | SudokuSolver.py:40-44 | placing a valid value counts one iteration and then does what the search from the placed board does; a failure restores the board |
| PlainSolver.SudokuSolver.Retract | SudokuSolver.py:44 | the undo empties exactly the given cell |
| BruteForceTracker.SudokuSolver.constructor | Backtracking_Tracker_Brute_Force.py:5-12 | the board is the given grid and both counters are 0 |
| BruteForceTracker.SudokuSolver.Solve | Backtracking_Tracker_Brute_Force.py:37-55 | answer, final board and `iterations` increment are those of Search on the entry board, and `backtracks` grows by the placements not kept; hence the plain search's contract, equal growth of both counters on failure, and growths that differ by the number of empty cells at entry on success |
| BruteForceTracker.SudokuSolver.TryValue | Backtracking_Tracker_Brute_Force.py:44-53 | answer, board and both counters are those of Step; success completes the board, failure restores it, shows a dead end and raises both counters equally |
| BruteForceTracker.SudokuSolver.PlaceAndSearch | Backtracking_Tracker_Brute_Force.py:46-53 | placing a valid value counts one iteration and then does what the search from the placed board does; a failure restores the board and counts one more backtrack |
| BruteForceTracker.SudokuSolver.Retract | Backtracking_Tracker_Brute_Force.py:51-52 | the undo empties exactly the given cell and counts one backtrack, leaving `iterations` alone |
| TrackedSolver.AtCell | sudoku_solver.py:80 | the decisions of the log taken at one cell, no more than the log holds |
| TrackedSolver.ValidCount | sudoku_solver.py:82-84 | the number of accepted decisions, at most the length of the log |
| TrackedSolver.FirstTries | sudoku_solver.py:77-78 | the number of decisions that tried the value 1, at most the length of the log |
| TrackedSolver.LogAppend | sudoku_solver.py:80 | the per-cell log, the accepted count and the first-try count of a concatenation add up |
| TrackedSolver.Tries | sudoku_solver.py:78-80 | the decisions of values 1..m at a cell, with the answers of `is_valid`, one per value |
| Backtracking.Search | sudoku_solver.py:70-99 | `solve` as a value: the values 1..N in ascending order at the first empty cell; a failed search leaves the grid it started from |
| Backtracking.Turns | sudoku_solver.py:78-99 | the value loop as a value; when every value fails, the grid is the loop's starting grid |
| Backtracking.Step | sudoku_solver.py:79-97 | one turn as a value; a failed turn leaves the grid, and a successful one placed a value that passes `is_valid` |
| Backtracking.SearchCorrect | sudoku_solver.py:70-99 | the search succeeds exactly when the grid can be completed, and then its grid is a completion that keeps the given cells |
| Backtracking.TurnsCorrect | sudoku_solver.py:78-99 | once the values below num are dead ends, the loop from num succeeds exactly when the grid can be completed |
| Backtracking.StepCorrect | sudoku_solver.py:79-97 | a turn either completes the grid or shows its value is a dead end |
| Backtracking.SearchFills | SudokuSolver.py:32-45 | a successful search made at least one placement per empty cell of its grid |
| Backtracking.TurnsFills | SudokuSolver.py:37-45 | a successful value loop made at least one placement per empty cell |
| Backtracking.StepFills | SudokuSolver.py:38-43 | a successful turn made at least one placement per empty cell |
| TrackedSolver.SearchCounts | sudoku_solver.py:72-84 | every logged decision is at an empty cell with a value of 1..N; the placements equal the accepted decisions and the calls equal the decisions that tried 1 |
| TrackedSolver.TurnsCounts | sudoku_solver.py:78-84 | the value loop keeps log and counters in step |
| TrackedSolver.StepCounts | sudoku_solver.py:79-84 | one turn keeps log and counters in step |
| TrackedSolver.StepPlaced | sudoku_solver.py:82-93 | an accepted turn logs its own decision, then what the search from the placed grid logs; it counts one placement more than that search |
| TrackedSolver.StepAtCell | sudoku_solver.py:79-80 | at its own cell a turn logs exactly `(row, col, num, is_valid(row, col, num))` |
| TrackedSolver.TurnsInOrder | sudoku_solver.py:78-81 | at its cell the loop logs the values 1, 2, ... in order with the answers of `is_valid`; all N when it fails, and the last one accepted when it succeeds |
| TrackedSolver.SearchInOrder | sudoku_solver.py:72-81 | a search with no empty cell logs and counts nothing; otherwise it logs its first empty cell in the order of the loop |
| TrackedSolver.CountersFollowLog | sudoku_solver.py:77-84 | counters that match the log before a search still match it after: `iterations` counts accepted decisions and `recursive_calls` counts tries of the value 1 |
| TrackedSolver.SolvedBoardIsValid | sudoku_solver.py:171-176 | from a board that passes `is_board_valid`, a successful search leaves a full board that still passes it and keeps the given cells |
| TrackedSolver.SudokuSolver.constructor | sudoku_solver.py:8-15 | the board is the given grid, the counters are 0 and the log is empty |
| TrackedSolver.SudokuSolver.Solve | sudoku_solver.py:70-99 | answer, board, appended log and counter increments are those of Search on the entry board |
| TrackedSolver.SudokuSolver.TryValue | sudoku_solver.py:79-97 | answer, board, appended log and counter increments are those of Step |
| TrackedSolver.SudokuSolver.PlaceAndSearch | sudoku_solver.py:82-97 | placing a valid value counts one iteration and then does what the search from the placed board does; a failure restores the board |
| Csp.RowMajorOrder | Backtracking_Tracker_Propagation.py:123-127 | that order lists exactly the cells of the board, in strictly increasing row-major order |
| Csp.Neighbors | Backtracking_Tracker_Propagation.py:21-43 | `find_neighbors(row, col)` never contains the cell itself |
| Csp.SubgridNeighborsAre | Backtracking_Tracker_Propagation.py:35-41 | the subgrid loops add exactly the other on-board cells of the k-by-k subgrid |
| Csp.InBand | Backtracking_Tracker_Propagation.py:36-39 | `range(start, start + k)` with start = i // k * k holds exactly the on-board indices with the quotient of i |
| Csp.NeighborsArePeers | Backtracking_Tracker_Propagation.py:21-43 | the neighbours are exactly the on-board cells other than the cell that share its row, column or subgrid |
| Csp.NeighborsSymmetric | Backtracking_Tracker_Propagation.py:21-43 | y neighbours x exactly when x neighbours y |
| Csp.ShrinksCandidates | Backtracking_Tracker_Propagation.py:90-118 | shrinking domains never add candidates, and strictly remove some when a domain changed |
| Csp.Values | Backtracking_Tracker_Propagation.py:124 | `set(range(1, N + 1))` holds exactly 1..N |
| Csp.InitialDomains | Backtracking_Tracker_Propagation.py:123-127 | the initial map has exactly the cells of the board as keys; a given cell's domain is its value alone, and an empty cell's domain holds exactly 1..N |
| Csp.InitialDomainsFit | Backtracking_Tracker_Propagation.py:123-127 | a solution fits the initial domains exactly when it keeps the board's given cells |
| Csp.SolvedFromInitial | Backtracking_Tracker_Propagation.py:120-141 | solved domains shrunk from the initial ones keep a given cell's value and hold values of 1..N elsewhere |
| Csp.WrittenBackBoard | Backtracking_Tracker_Propagation.py:137-139 | the board written back from such domains keeps the given cells and has no empty cell |
| Csp.Unassigned | Backtracking_Tracker_Propagation.py:83 | the listed cells are exactly those whose domain has more than one value |
| Csp.UnassignedSorted | Backtracking_Tracker_Propagation.py:83 | the comprehension keeps row-major order |
| Csp.FirstMin | Backtracking_Tracker_Propagation.py:84 | `min` with a key: a position of smallest domain, with every earlier position strictly larger |
| Csp.IsSolved | Backtracking_Tracker_Propagation.py:86-88 | `is_solved`: every domain on the board holds exactly one value |
| Csp.SelectUnassigned | Backtracking_Tracker_Propagation.py:81-84 | `select_unassigned_variable`: `min` by domain size over the multi-valued cells in row-major order; SelectUnassignedIsFirstMrv states what it returns |
| Csp.SelectUnassignedIsFirstMrv | Backtracking_Tracker_Propagation.py:81-84 | None exactly when no domain has more than one value; otherwise a cell with more than one value, of smallest such domain, and the first of that size in row-major order |
| Csp.FirstMinIsFirstMrv | Backtracking_Tracker_Propagation.py:83-84 | `min` over the sorted list of multi-valued cells gives the first MRV cell |
| Csp.EmptyDomainUnsolvable | Backtracking_Tracker_Propagation.py:53-54 | an empty domain on the board means no solution fits, which justifies `ac3`'s failure |
| Csp.AssignFits | Backtracking_Tracker_Propagation.py:104 | committing a cell to {v} keeps exactly the fitting solutions that hold v there |
| Csp.AssignmentRefuted | Backtracking_Tracker_Propagation.py:102-116 | a commitment whose propagation, losing no solution, reaches unsolvable domains rules that value out for every fitting solution |
| Csp.SolvedKeepsCommitment | Backtracking_Tracker_Propagation.py:104-113 | a cell committed to {v} still holds exactly v in solved domains shrunk from that commitment |
| Csp.SmallerValuesRuledOut | Backtracking_Tracker_Propagation.py:102-116 | v is in the cell's domain and every smaller value of that domain is ruled out: no solution fitting the domains holds it at the cell (v itself may be ruled out too) |
| Csp.MrvCommitted | Backtracking_Tracker_Propagation.py:94-116 | after success from unsolved domains, the cell `select_unassigned_variable` chose holds a single value of its entry domain, and every smaller value of that domain is ruled out for every solution fitting the entry domains |
| Csp.AscendingRulesOutSmaller | Backtracking_Tracker_Propagation.py:102 | when the values of a domain are tried in ascending order and every value before position i is ruled out, every value of the domain smaller than the value at i is ruled out |
| Csp.StuckUnsolvable | Backtracking_Tracker_Propagation.py:97-99 | when `select_unassigned_variable` gives None on unsolved domains, some domain is empty and no solution fits |
| Csp.ZeroQueue | Backtracking_Tracker_Propagation.py:47 | the queue holds exactly the listed cells that are empty on the board |
| Csp.InitialQueue | Backtracking_Tracker_Propagation.py:47 | `ac3`'s initial queue holds exactly the empty cells of the board, all on the board |
| Csp.IntEqualsSet | Backtracking_Tracker_Propagation.py:65 | the comparison `value == self.domains[n]` of an int with a set, which Python always answers False |
| Csp.RemovalsAsWritten | Backtracking_Tracker_Propagation.py:63-66 | the values `revise` as written collects in `to_remove`: those of the cell's domain equal to every neighbour's domain |
| Csp.Removals | Backtracking_Tracker_Propagation.py:63-66 | the values the AC-3 rule removes for the arc to the given neighbour: those the neighbour's domain holds alone |
| Csp.RemovalsAreForcedValue | Backtracking_Tracker_Propagation.py:63-66 | the AC-3 rule removes nothing unless the neighbour's domain is a singleton held by the cell's domain, and then exactly that value |
| Csp.RemovalsAsWrittenEmpty | Backtracking_Tracker_Propagation.py:64-66 | as written, `revise` collects no value to remove on a board of size 4 or more |
| Csp.Revised | Backtracking_Tracker_Propagation.py:60-70 | `revise` only shrinks the revised cell's domain and leaves every other domain unchanged |
| Csp.ReviseAsWrittenMissesForcedValue | Backtracking_Tracker_Propagation.py:65 | when a neighbour's domain is {v} and the cell allows v, the AC-3 rule removes v and the rule as written does not |
| Csp.RevisedRemovesForcedValues | Backtracking_Tracker_Propagation.py:60-70 | the domain changes exactly when there is something to remove, and a value leaves only when the neighbour holds it alone |
| Csp.RevisedKeepsSolutions | Backtracking_Tracker_Propagation.py:60-70 | the AC-3 rule loses no solution |
| Csp.Visit | Backtracking_Tracker_Propagation.py:75-79 | visiting a cell shrinks the domains and keeps the visited cell's own domain |
| Csp.VisitAll | Backtracking_Tracker_Propagation.py:74-79 | visiting cells in order only shrinks the domains |
| Csp.ForwardChecked | Backtracking_Tracker_Propagation.py:72-79 | `forward_check` never enlarges a domain and keeps every cell |
| Csp.VisitKeepsSolutions | Backtracking_Tracker_Propagation.py:75-79 | one visit loses no solution |
| Csp.VisitAllKeepsSolutions | Backtracking_Tracker_Propagation.py:74-79 | visiting cells in order loses no solution |
| Csp.VisitRemoval | Backtracking_Tracker_Propagation.py:75-79 | one visit removes v from y only when y neighbours the visited cell and that cell holds exactly {v} |
| Csp.VisitAllRemovalJustified | Backtracking_Tracker_Propagation.py:72-79 | a value leaves a domain only when some neighbour held exactly that value alone when it was visited |
| Csp.VisitAllClearsSingletons | Backtracking_Tracker_Propagation.py:72-79 | a visited cell that holds {v} before and after the pass has no neighbour still holding v |
| Csp.VisitClears | Backtracking_Tracker_Propagation.py:77-79 | the visit of a cell holding {v} removes v from every neighbour |
| Csp.SingletonsCleared | Backtracking_Tracker_Propagation.py:72-79 | after `forward_check`, a cell that is {v} before and after has no neighbour holding v |
| Csp.ForwardCheckedKeepsSolutions | Backtracking_Tracker_Propagation.py:72-79 | `forward_check` loses no solution |
| PropagationTracker.Ascending | Backtracking_Tracker_Propagation.py:102 | `sorted(domain)` lists exactly the domain's values, strictly increasing |
| PropagationTracker.Requeue | Backtracking_Tracker_Propagation.py:55-57 | the cells queued again are exactly the neighbours other than the one just revised against |
| PropagationTracker.SudokuSolver.constructor | Backtracking_Tracker_Propagation.py:10-19 | the board is the given grid, the counters are 0 and the domain map is empty |
| PropagationTracker.SudokuSolver.Revise | Backtracking_Tracker_Propagation.py:60-70 | the new domains are Revised of the old, and the answer is true exactly when the cell's domain changed |
| PropagationTracker.SudokuSolver.ReviseCell | Backtracking_Tracker_Propagation.py:51-57 | revising a cell against its neighbours shrinks the domains and loses no solution; it queues only neighbours, nothing unless a domain changed, and fails only on an emptied domain |
| PropagationTracker.SudokuSolver.AC3 | Backtracking_Tracker_Propagation.py:45-58 | `ac3` only shrinks the domains and loses no solution; False means some domain on the board is empty |
| PropagationTracker.SudokuSolver.VisitCell | Backtracking_Tracker_Propagation.py:75-79 | the in-place removals of one visit give Visit of the entry domains |
| PropagationTracker.SudokuSolver.ForwardCheck | Backtracking_Tracker_Propagation.py:72-79 | the pass gives ForwardChecked of the entry domains, whose properties the Csp lemmas state |
| PropagationTracker.SudokuSolver.TryCspValue | Backtracking_Tracker_Propagation.py:102-116 | one committed value: success leaves solved domains shrunk from the entry ones with the cell still holding exactly that value; failure restores the entry domains and rules the value out for every fitting solution; `iterations` rises |
| PropagationTracker.SudokuSolver.BacktrackCsp | Backtracking_Tracker_Propagation.py:90-118 | domains only shrink; success means solved domains and MrvCommitted: when the entry domains were not solved, the cell SelectUnassigned chose ends holding a single value of its entry domain with every smaller value of that domain ruled out; False restores the entry domains and means no solution fits them; one recursive call per entry; solved domains on entry return True at once with nothing else changed |
| PropagationTracker.SudokuSolver.TryValues | Backtracking_Tracker_Propagation.py:102-118 | the values are tried in the given order: success commits the cell to some value of the list with every value before it ruled out; failure restores the entry domains and rules out every value tried |
| PropagationTracker.SudokuSolver.SolveCsp | Backtracking_Tracker_Propagation.py:120-141 | False leaves the board as it was, and no solution keeps its given cells; True gives solved domains whose values are written into the board, with the given cells kept and no cell left empty |
| PropagationTracker.SudokuSolver.WriteBack | Backtracking_Tracker_Propagation.py:137-139 | every cell with a singleton domain receives its value; other cells are left alone |
| PropagationTracker.SudokuSolver.SolveUsingBacktracking | Backtracking_Tracker_Propagation.py:143-196 | answer, final board and `iterations` increment are those of Search on the entry board; success exactly when the board can be completed, and then it is completed with the given cells kept; failure restores the board; there is one more recursive call than placements |
| PropagationTracker.SudokuSolver.Backtrack | Backtracking_Tracker_Propagation.py:168-188 | answer, final board and `iterations` increment are those of Search on the entry board, hence the plain search's contract, with `recursive_calls` one more than the placements made |
| PropagationTracker.SudokuSolver.AssignCell | Backtracking_Tracker_Propagation.py:178-188 | the value loop at the first empty cell does what Search does from the entry board, with one recursive call per placement |
| PropagationTracker.SudokuSolver.TryAssignment | Backtracking_Tracker_Propagation.py:178-185 | answer, board and `iterations` increment are those of Step; failure restores the board and shows a dead end; each placement leads to exactly one recursive call |
| PropagationTracker.SudokuSolver.PlaceAndSearch | Backtracking_Tracker_Propagation.py:180-185 | placing a valid value counts one iteration and then does what the search from the placed board does, with one recursive call per placement; a failure restores the board |
| PropagationTracker.SudokuSolver.Retract | Backtracking_Tracker_Propagation.py:185 | the undo empties exactly the given cell |

## Left out

- The GUIs (`SudokuGUI.py` and the `SudokuGUI` classes of `sudoku_solver.py` and `Backtracking_Tracker_Brute_Force.py`) are tkinter widgets, entry parsing and message boxes.
- `visualize` and the label updates inside `solve` are widget updates and sleeps. They change none of the solver's state, so they are modelled as doing nothing.
- Wall-clock data and plotting are not modelled: `timestamps`, `backtrack_timestamps`, the execution time that `solve_using_backtracking` returns next to its answer, the matplotlib plots, `solve_using_metrics` and PrettyTable. These are clock readings, floats and foreign libraries.
- `load_board` and the `__main__` blocks are file and JSON I/O.
- The constructors' default `size=9` (SudokuSolver.py:4, sudoku_solver.py:8, Backtracking_Tracker_Brute_Force.py:5, Backtracking_Tracker_Propagation.py:10) is not modelled: the size and subgrid size are explicit parameters.
- `int(np.sqrt(size))` is a float square root. The model takes the subgrid size k as a parameter with size == k*k.
- Python set iteration order is not modelled. Where the source iterates over a set (a domain, a neighbour set), the model takes the elements in an unspecified order (`PropagationTracker.Pick`), so the contracts hold for every order.
- `copy.deepcopy(self.domains)` is a copy of the map value. Dafny maps and sets are values, so saving and restoring is plain assignment.
- `backtracks` of the propagation class is declared and reset by `__init__` and never changed. The model keeps it as a field that no method changes.
- The nested `backtrack` unpacks `select_unassigned_variable()` before testing for None. It only runs once `is_solved` has failed, when an empty cell exists, so the failing unpack is unreachable and is not modelled.
- PropagationTracker.SudokuSolver.BacktrackCsp: states the counters only as bounds (`recursive_calls` rises by at least one, by exactly one on solved entry domains; `iterations` never falls), not the exact count of values tried across the recursion.
- PropagationTracker.SudokuSolver.AC3: is not specified as a function of its input, because its queue order follows set iteration. Its contract states shrinking, the loss of no solution and the reason for failure, and it uses the corrected revise rule (see Findings).
- PropagationTracker.SudokuSolver.SolveCsp: does not claim that a True result is a valid Sudoku. `is_solved` only checks that every domain is a singleton, and no property of `forward_check` or `ac3` proved here rules out two neighbours left with the same singleton. The contract states that the board keeps its givens and has no empty cell, and that False means no solution keeps the givens.

## Findings

| source | as written | input that shows it | evidently intended | confidence | as-written member | corrected member |
|---|---|---|---|---|---|---|
| Backtracking_Tracker_Propagation.py:65 | `revise` compares the int `value` with each neighbour's whole domain set. In Python this is always False, so for a cell with at least one neighbour nothing is removed and `ac3` never changes a domain. The `neighbor` argument is not used. | k = 2, a cell x whose domain holds 3 and a neighbour y of x with domain {3}: the AC-3 rule removes 3 from x, the code as written keeps it | remove a value v from the cell's domain when the given neighbour's domain is exactly {v} | not executed | Csp.ReviseAsWrittenMissesForcedValue | Csp.RevisedKeepsSolutions |
