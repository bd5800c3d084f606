/**
  `SudokuSolver.py`: the plain backtracking solver. It fills the first empty
  cell (row-major) with the smallest value that passes `is_valid`, recurses,
  and undoes the placement when the recursion fails; `iterations` counts
  placements.
*/
module PlainSolver {
  import opened Optional
  import opened Board
  import opened Backtracking

  class SudokuSolver {
    /** The numpy board, updated in place by `Solve`. */
    const board: array2<int>
    const size: nat
    const subgridSize: nat
    var iterations: nat

    /** The board is size-by-size and size is the square of the subgrid size. */
    predicate Valid()
      reads this
    {
      subgridSize > 0 && size == subgridSize * subgridSize &&
      board.Length0 == size && board.Length1 == size
    }

    /** `__init__`: a fresh copy of the given grid, with no placement counted yet. */
    constructor (grid: Grid, size: nat, subgridSize: nat)
      requires subgridSize > 0 && size == subgridSize * subgridSize && IsGrid(grid, size)
      ensures Valid() && fresh(board)
      ensures Snapshot(board) == grid && iterations == 0
    {
      this.board := new int[size, size]((i, j) requires 0 <= i < size && 0 <= j < size => grid[i][j]);
      this.size := size;
      this.subgridSize := subgridSize;
      this.iterations := 0;
      new;
      forall i | 0 <= i < size ensures Snapshot(board)[i] == grid[i] {
      }
    }

    /**
      `solve`: its answer, the board it leaves and the placements it counts
      are those of `Search` on the entry board, the search that tries the
      values 1..size in ascending order at the first empty cell. So it
      succeeds exactly when the entry board can be completed; on success the
      board is such a completion (no zero left, every empty cell filled with
      a value of 1..size differing from all its peers, the given cells kept)
      and at least one placement was counted per empty cell; on failure the
      board is back to its entry state.
    */
    method Solve() returns (solved: bool)
      requires Valid()
      modifies this, board
      decreases ZeroCells(Snapshot(board)), 2
      ensures var t := Search(old(Snapshot(board)), subgridSize);
        && solved == t.solved
        && Snapshot(board) == t.grid
        && iterations == old(iterations) + t.placements
      ensures solved <==> Completable(old(Snapshot(board)), subgridSize)
      ensures KeepsGivens(old(Snapshot(board)), Snapshot(board))
      ensures solved ==> Completes(old(Snapshot(board)), Snapshot(board), subgridSize)
      ensures !solved ==> Snapshot(board) == old(Snapshot(board))
      ensures solved ==> iterations - old(iterations) >= |ZeroCells(old(Snapshot(board)))|
    {
      ghost var g0 := Snapshot(board);
      SearchCorrect(g0, subgridSize);
      SearchFills(g0, subgridSize);
      var empty := FindEmpty(board);
      if empty.None? {
        return true;
      }
      var (row, col) := empty.value;
      ghost var acc := Trace(false, g0, [], 0, 1);
      for num := 1 to size + 1
        invariant Snapshot(board) == g0
        invariant acc.grid == g0 && !acc.solved
        invariant iterations == old(iterations) + acc.placements
        invariant Search(g0, subgridSize) == Turns(g0, subgridSize, row, col, num, acc)
      {
        ghost var s := Step(g0, subgridSize, row, col, num);
        solved := TryValue(row, col, num);
        acc := Then(acc, s);
        if solved {
          return true;
        }
      }
      return false;
    }

    /**
      One turn of `solve`'s loop: num goes into the empty cell (row, col) if it
      passes `is_valid`, and the search goes on from there; when it fails the
      cell is emptied again. Its answer, board and placements are those of
      `Step`: success completes the board, failure means num leads nowhere and
      leaves the board as it was.
    */
    method TryValue(row: int, col: int, num: int) returns (solved: bool)
      requires Valid() && InRange(size, (row, col)) && board[row, col] == 0 && 1 <= num <= size
      modifies this, board
      decreases ZeroCells(Snapshot(board)), 1
      ensures var t := Step(old(Snapshot(board)), subgridSize, row, col, num);
        && solved == t.solved
        && Snapshot(board) == t.grid
        && iterations == old(iterations) + t.placements
      ensures KeepsGivens(old(Snapshot(board)), Snapshot(board))
      ensures solved ==> Completes(old(Snapshot(board)), Snapshot(board), subgridSize)
      ensures !solved ==> Snapshot(board) == old(Snapshot(board))
      ensures !solved ==> DeadEnd(old(Snapshot(board)), subgridSize, row, col, num)
      ensures solved ==> iterations - old(iterations) >= |ZeroCells(old(Snapshot(board)))|
    {
      ghost var g0 := Snapshot(board);
      StepCorrect(g0, subgridSize, row, col, num);
      StepFills(g0, subgridSize, row, col, num);
      assert KeepsGivens(g0, g0);
      var ok := IsValid(board, subgridSize, row, col, num);
      if !ok {
        return false;
      }
      solved := PlaceAndSearch(row, col, num);
    }

    /**
      The accepted branch of a turn: num is written at (row, col) and counted,
      the search goes on from the new board, and a failed search empties the
      cell again. The answer, the board and the count follow the search from
      the placed grid.
    */
    method PlaceAndSearch(row: int, col: int, num: int) returns (solved: bool)
      requires Valid() && InRange(size, (row, col)) && board[row, col] == 0 && 1 <= num <= size
      modifies this, board
      decreases ZeroCells(Snapshot(board)), 0
      ensures var g0 := old(Snapshot(board));
        var o := Search(Place(g0, row, col, num), subgridSize);
        && solved == o.solved
        && Snapshot(board) == (if o.solved then o.grid else g0)
        && iterations == old(iterations) + 1 + o.placements
    {
      ghost var g0 := Snapshot(board);
      board[row, col] := num;
      iterations := iterations + 1;
      SnapshotAfterWrite(board, g0, row, col);
      ZeroCellsAfterPlace(g0, row, col, num);
      solved := Solve();
      if solved {
        return true;
      }
      Retract(row, col);
      PlaceUndo(g0, row, col, num);
    }

    /** A failed placement is taken back: the cell is emptied again, nothing else changes. */
    method Retract(row: int, col: int)
      requires Valid() && InRange(size, (row, col))
      modifies board
      ensures Snapshot(board) == Place(old(Snapshot(board)), row, col, 0)
    {
      ghost var g := Snapshot(board);
      board[row, col] := 0;
      SnapshotAfterWrite(board, g, row, col);
    }
  }
}
