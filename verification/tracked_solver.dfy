/**
  `sudoku_solver.py`: the backtracking solver driven by the GUI. Besides the
  board it keeps three records of the search: `iterations` counts placements,
  `recursiveCalls` counts the calls of `solve` that found an empty cell, and
  `attemptedCells` logs every (row, col, num, valid) decision in order.
*/
module TrackedSolver {
  import opened Optional
  import opened Board
  import opened Backtracking

  /** The decisions of the log taken at cell x, in log order. */
  function AtCell(log: seq<Attempt>, x: Cell): (s: seq<Attempt>)
    ensures |s| <= |log|
  {
    if log == [] then []
    else
      var last := log[|log| - 1];
      AtCell(log[..|log| - 1], x) + (if (last.row, last.col) == x then [last] else [])
  }

  /** Number of decisions of the log that `is_valid` accepted. */
  function ValidCount(log: seq<Attempt>): (n: nat)
    ensures n <= |log|
  {
    if log == [] then 0
    else ValidCount(log[..|log| - 1]) + (if log[|log| - 1].valid then 1 else 0)
  }

  /** Number of decisions of the log that tried the value 1: one per call of `solve` that found an empty cell. */
  function FirstTries(log: seq<Attempt>): (n: nat)
    ensures n <= |log|
  {
    if log == [] then 0
    else FirstTries(log[..|log| - 1]) + (if log[|log| - 1].num == 1 then 1 else 0)
  }

  /** The log of the counters is additive: the entries of a + b are those of a followed by those of b. */
  lemma {:induction false} LogAppend(a: seq<Attempt>, b: seq<Attempt>, x: Cell)
    ensures AtCell(a + b, x) == AtCell(a, x) + AtCell(b, x)
    ensures ValidCount(a + b) == ValidCount(a) + ValidCount(b)
    ensures FirstTries(a + b) == FirstTries(a) + FirstTries(b)
    decreases |b|
  {
    if b == [] {
      assert a + b == a;
    } else {
      var b' := b[..|b| - 1];
      assert (a + b)[..|a + b| - 1] == a + b';
      LogAppend(a, b', x);
    }
  }

  /** The counts of a one-entry log. */
  lemma LogOfOne(a: Attempt, x: Cell)
    ensures AtCell([a], x) == (if (a.row, a.col) == x then [a] else [])
    ensures ValidCount([a]) == (if a.valid then 1 else 0)
    ensures FirstTries([a]) == (if a.num == 1 then 1 else 0)
  {
    assert [a][..0] == [];
  }

  /** Logs are appended to in steps; grouping the steps does not matter. */
  lemma AppendAssoc(a: seq<Attempt>, b: seq<Attempt>, c: seq<Attempt>)
    ensures a + b + c == a + (b + c)
  {
  }

  /** A log none of whose decisions is at cell x has nothing at x. */
  lemma {:induction false} NothingAtCell(log: seq<Attempt>, x: Cell)
    requires forall e :: e in log ==> (e.row, e.col) != x
    ensures AtCell(log, x) == []
    decreases |log|
  {
    if log != [] {
      var front := log[..|log| - 1];
      assert forall e :: e in front ==> e in log;
      NothingAtCell(front, x);
    }
  }

  /**
    The decisions a call of `solve` takes at its own cell (r, c) of grid g
    when it has tried the values 1..m: num in increasing order, each with the
    answer of `is_valid` on g.
  */
  function Tries(g: Grid, k: nat, r: int, c: int, m: nat): (s: seq<Attempt>)
    requires k > 0 && IsGrid(g, k * k) && InRange(k * k, (r, c))
    ensures |s| == m
  {
    if m == 0 then [] else Tries(g, k, r, c, m - 1) + [Attempt(r, c, m, Placeable(g, k, r, c, m))]
  }

  /** Every decision of the log tries a value of 1..n at a cell that is empty in g. */
  ghost predicate AtEmptyCells(g: Grid, n: nat, log: seq<Attempt>) {
    forall e :: e in log ==>
      1 <= e.num <= n && 0 <= e.row < |g| && 0 <= e.col < |g[e.row]| && g[e.row][e.col] == 0
  }

  /** Decisions at empty cells of g with v placed at (r, c) are at empty cells of g other than (r, c). */
  lemma AtEmptyCellsOfPlace(g: Grid, n: nat, r: int, c: int, v: int, log: seq<Attempt>)
    requires 0 <= r < |g| && 0 <= c < |g[r]| && v != 0
    requires AtEmptyCells(Place(g, r, c, v), n, log)
    ensures AtEmptyCells(g, n, log)
    ensures forall e :: e in log ==> (e.row, e.col) != (r, c)
  {
  }

  /**
    What a call of `solve` from grid g logs at its cell x: the values 1..m
    in order for some m >= 1, all k*k of them when the call fails, and a
    last value `is_valid` accepted when it succeeds.
  */
  ghost predicate TriedInOrder(g: Grid, k: nat, x: Cell, added: seq<Attempt>, solved: bool)
    requires k > 0 && IsGrid(g, k * k) && InRange(k * k, x)
  {
    var s := AtCell(added, x);
    && 1 <= |s| <= k * k
    && s == Tries(g, k, x.0, x.1, |s|)
    && (solved ==> s[|s| - 1].valid)
    && (!solved ==> |s| == k * k)
  }

  /**
    The records of t agree with its log: every decision is at a cell that is
    empty in g with a value of 1..n, the placements are the accepted
    decisions, and the calls are the decisions that tried the value 1, plus
    extra.
  */
  ghost predicate Tallied(g: Grid, n: nat, t: Trace, extra: int) {
    && AtEmptyCells(g, n, t.log)
    && t.placements == ValidCount(t.log)
    && t.calls == FirstTries(t.log) + extra
  }

  /** Records that agree with their logs still do when one follows the other. */
  lemma ThenTallied(g: Grid, n: nat, acc: Trace, s: Trace, ea: int, es: int)
    requires Tallied(g, n, acc, ea) && Tallied(g, n, s, es)
    ensures Tallied(g, n, Then(acc, s), ea + es)
  {
    LogAppend(acc.log, s.log, (0, 0));
    forall e | e in acc.log + s.log ensures e in acc.log || e in s.log {
    }
  }

  /**
    What the search logs and counts: every decision is at a cell that is
    empty in g with a value of 1..k*k, the placements are the accepted
    decisions and the calls are the decisions that tried the value 1.
  */
  lemma {:induction false} SearchCounts(g: Grid, k: nat)
    requires k > 0 && IsGrid(g, k * k)
    decreases ZeroCells(g), 2, 0
    ensures Tallied(g, k * k, Search(g, k), 0)
  {
    match FirstEmpty(g)
    case None =>
    case Some(x) =>
      TurnsCounts(g, k, x.0, x.1, 1, Trace(false, g, [], 0, 1));
  }

  /** The loop keeps the log and the counters in step, the call of the loop counting once for its first decision. */
  lemma {:induction false} TurnsCounts(g: Grid, k: nat, r: int, c: int, num: nat, acc: Trace)
    requires k > 0 && IsGrid(g, k * k) && InRange(k * k, (r, c)) && g[r][c] == 0
    requires 1 <= num <= k * k + 1 && !acc.solved && acc.grid == g
    requires Tallied(g, k * k, acc, if num == 1 then 1 else 0)
    decreases ZeroCells(g), 1, k * k + 1 - num
    ensures Tallied(g, k * k, Turns(g, k, r, c, num, acc), 0)
  {
    if num <= k * k {
      var s := Step(g, k, r, c, num);
      var t := Then(acc, s);
      assert Tallied(g, k * k, t, 0) by {
        StepCounts(g, k, r, c, num);
        ThenTallied(g, k * k, acc, s, if num == 1 then 1 else 0, if num == 1 then -1 else 0);
      }
      if !s.solved {
        TurnsCounts(g, k, r, c, num + 1, t);
      }
    }
  }

  /** One turn logs and counts in step, its first decision being the one that tried the value 1 when num is 1. */
  lemma {:induction false} StepCounts(g: Grid, k: nat, r: int, c: int, num: nat)
    requires k > 0 && IsGrid(g, k * k) && InRange(k * k, (r, c)) && g[r][c] == 0
    requires 1 <= num <= k * k
    decreases ZeroCells(g), 0, 0
    ensures Tallied(g, k * k, Step(g, k, r, c, num), if num == 1 then -1 else 0)
  {
    var e := if num == 1 then -1 else 0;
    if !Placeable(g, k, r, c, num) {
      LogOfOne(Attempt(r, c, num, false), (r, c));
    } else {
      var a := Attempt(r, c, num, true);
      var own := Trace(false, g, [a], 1, 0);
      assert Tallied(g, k * k, own, e) by {
        LogOfOne(a, (r, c));
      }
      ZeroCellsAfterPlace(g, r, c, num);
      var g1 := Place(g, r, c, num);
      var o := Search(g1, k);
      assert Tallied(g, k * k, o, 0) by {
        SearchCounts(g1, k);
        AtEmptyCellsOfPlace(g, k * k, r, c, num, o.log);
      }
      ThenTallied(g, k * k, own, o, e, 0);
      StepPlaced(g, k, r, c, num);
    }
  }

  /** An accepted turn logs its own decision, then what the search from the placed grid logs and counts. */
  lemma StepPlaced(g: Grid, k: nat, r: int, c: int, num: nat)
    requires k > 0 && IsGrid(g, k * k) && InRange(k * k, (r, c)) && g[r][c] == 0
    requires 1 <= num <= k * k && Placeable(g, k, r, c, num)
    ensures var o := Search(Place(g, r, c, num), k);
      && Step(g, k, r, c, num).log == [Attempt(r, c, num, true)] + o.log
      && Step(g, k, r, c, num).placements == 1 + o.placements
      && Step(g, k, r, c, num).calls == o.calls
  {
    ZeroCellsAfterPlace(g, r, c, num);
  }

  /** What one turn logs at its own cell: its own decision, with the answer of `is_valid`. */
  lemma StepAtCell(g: Grid, k: nat, r: int, c: int, num: nat)
    requires k > 0 && IsGrid(g, k * k) && InRange(k * k, (r, c)) && g[r][c] == 0
    requires 1 <= num <= k * k
    ensures AtCell(Step(g, k, r, c, num).log, (r, c)) == [Attempt(r, c, num, Placeable(g, k, r, c, num))]
  {
    var a := Attempt(r, c, num, Placeable(g, k, r, c, num));
    LogOfOne(a, (r, c));
    if a.valid {
      ZeroCellsAfterPlace(g, r, c, num);
      var g1 := Place(g, r, c, num);
      var o := Search(g1, k);
      SearchCounts(g1, k);
      AtEmptyCellsOfPlace(g, k * k, r, c, num, o.log);
      NothingAtCell(o.log, (r, c));
      LogAppend([a], o.log, (r, c));
      assert Step(g, k, r, c, num).log == [a] + o.log;
    }
  }

  /**
    At its own cell the loop from num on logs the values in increasing order
    with the answers of `is_valid`, up to the value that succeeds, or up to
    k*k when none does.
  */
  lemma {:induction false} TurnsInOrder(g: Grid, k: nat, r: int, c: int, num: nat, acc: Trace)
    requires k > 0 && IsGrid(g, k * k) && InRange(k * k, (r, c)) && g[r][c] == 0
    requires 1 <= num <= k * k + 1 && !acc.solved && acc.grid == g
    requires AtCell(acc.log, (r, c)) == Tries(g, k, r, c, num - 1)
    decreases k * k + 1 - num
    ensures var t := Turns(g, k, r, c, num, acc);
      var s := AtCell(t.log, (r, c));
      && num - 1 <= |s| <= k * k
      && s == Tries(g, k, r, c, |s|)
      && (t.solved ==> |s| >= 1 && s[|s| - 1].valid)
      && (!t.solved ==> |s| == k * k)
  {
    if num <= k * k {
      var s := Step(g, k, r, c, num);
      assert AtCell(Then(acc, s).log, (r, c)) == Tries(g, k, r, c, num) by {
        StepAtCell(g, k, r, c, num);
        LogAppend(acc.log, s.log, (r, c));
      }
      if !s.solved {
        TurnsInOrder(g, k, r, c, num + 1, Then(acc, s));
      }
    }
  }

  /** A search from a grid with an empty cell logs its first empty cell in the order `solve` tries the values. */
  lemma SearchInOrder(g: Grid, k: nat)
    requires k > 0 && IsGrid(g, k * k)
    ensures FirstEmpty(g).None? ==> Search(g, k) == Trace(true, g, [], 0, 0)
    ensures FirstEmpty(g).Some? ==> TriedInOrder(g, k, FirstEmpty(g).value, Search(g, k).log, Search(g, k).solved)
  {
    if FirstEmpty(g).Some? {
      var x := FirstEmpty(g).value;
      TurnsInOrder(g, k, x.0, x.1, 1, Trace(false, g, [], 0, 1));
    }
  }

  /**
    Counters kept in step with the log stay so across a search: after
    `solve`, `iterations` is the number of accepted decisions in
    `attempted_cells` and `recursive_calls` the number of decisions that
    tried the value 1.
  */
  lemma CountersFollowLog(log: seq<Attempt>, iterations: nat, calls: nat, g: Grid, k: nat)
    requires k > 0 && IsGrid(g, k * k)
    requires iterations == ValidCount(log) && calls == FirstTries(log)
    ensures var t := Search(g, k);
      && iterations + t.placements == ValidCount(log + t.log)
      && calls + t.calls == FirstTries(log + t.log)
  {
    SearchCounts(g, k);
    LogAppend(log, Search(g, k).log, (0, 0));
  }

  /**
    The GUI checks the board with `is_board_valid` before solving: from a
    board without conflicts a successful search leaves a full board without
    conflicts that keeps the given cells.
  */
  lemma SolvedBoardIsValid(g: Grid, k: nat)
    requires k > 0 && IsGrid(g, k * k) && NoConflicts(g, k)
    ensures var t := Search(g, k);
      t.solved ==> ZeroCells(t.grid) == {} && NoConflicts(t.grid, k) && KeepsGivens(g, t.grid)
  {
    SearchCorrect(g, k);
    if Search(g, k).solved {
      CompletionKeepsNoConflicts(g, Search(g, k).grid, k);
    }
  }

  class SudokuSolver {
    /** The numpy board, updated in place by `Solve`. */
    const board: array2<int>
    const size: nat
    const subgridSize: nat
    var iterations: nat
    var recursiveCalls: nat
    var attemptedCells: seq<Attempt>

    /** The board is size-by-size and size is the square of the subgrid size. */
    predicate Valid()
      reads this
    {
      0 < subgridSize <= size && size == subgridSize * subgridSize &&
      board.Length0 == size && board.Length1 == size
    }

    /** `__init__`: a fresh copy of the given grid, empty counters and an empty log. */
    constructor (grid: Grid, size: nat, subgridSize: nat)
      requires subgridSize > 0 && size == subgridSize * subgridSize && IsGrid(grid, size)
      ensures Valid() && fresh(board)
      ensures Snapshot(board) == grid
      ensures iterations == 0 && recursiveCalls == 0 && attemptedCells == []
    {
      this.board := new int[size, size]((i, j) requires 0 <= i < size && 0 <= j < size => grid[i][j]);
      this.size := size;
      this.subgridSize := subgridSize;
      this.iterations := 0;
      this.recursiveCalls := 0;
      this.attemptedCells := [];
      new;
      forall i | 0 <= i < size ensures Snapshot(board)[i] == grid[i] {
      }
    }

    /**
      `solve`: its answer, the board it leaves, what it appends to the log
      and what it adds to the counters are those of Search on the entry
      board. The lemmas below say what that means.
    */
    method Solve() returns (solved: bool)
      requires Valid()
      modifies this, board
      decreases ZeroCells(Snapshot(board)), 2
      ensures var t := Search(old(Snapshot(board)), subgridSize);
        && solved == t.solved
        && Snapshot(board) == t.grid
        && attemptedCells == old(attemptedCells) + t.log
        && iterations == old(iterations) + t.placements
        && recursiveCalls == old(recursiveCalls) + t.calls
    {
      ghost var g0 := Snapshot(board);
      var empty := FindEmpty(board);
      if empty.None? {
        assert attemptedCells == attemptedCells + [];
        return true;
      }
      var (row, col) := empty.value;
      recursiveCalls := recursiveCalls + 1;
      ghost var acc := Trace(false, g0, [], 0, 1);
      assert attemptedCells == old(attemptedCells) + acc.log;
      for num := 1 to size + 1
        invariant Snapshot(board) == g0
        invariant acc.grid == g0 && !acc.solved
        invariant attemptedCells == old(attemptedCells) + acc.log
        invariant iterations == old(iterations) + acc.placements
        invariant recursiveCalls == old(recursiveCalls) + acc.calls
        invariant Search(g0, subgridSize) == Turns(g0, subgridSize, row, col, num, acc)
      {
        ghost var s := Step(g0, subgridSize, row, col, num);
        AppendAssoc(old(attemptedCells), acc.log, s.log);
        solved := TryValue(row, col, num);
        acc := Then(acc, s);
        if solved {
          return true;
        }
      }
      return false;
    }

    /**
      One turn of `solve`'s loop at the empty cell (row, col): its answer,
      the board it leaves and what it logs and counts are those of Step.
    */
    method TryValue(row: int, col: int, num: int) returns (solved: bool)
      requires Valid() && InRange(size, (row, col)) && board[row, col] == 0 && 1 <= num <= size
      modifies this, board
      decreases ZeroCells(Snapshot(board)), 1
      ensures var t := Step(old(Snapshot(board)), subgridSize, row, col, num);
        && solved == t.solved
        && Snapshot(board) == t.grid
        && attemptedCells == old(attemptedCells) + t.log
        && iterations == old(iterations) + t.placements
        && recursiveCalls == old(recursiveCalls) + t.calls
    {
      ghost var g0 := Snapshot(board);
      var valid := IsValid(board, subgridSize, row, col, num);
      attemptedCells := attemptedCells + [Attempt(row, col, num, valid)];
      if !valid {
        return false;
      }
      solved := PlaceAndSearch(row, col, num);
      AppendAssoc(old(attemptedCells), [Attempt(row, col, num, true)], Search(Place(g0, row, col, num), subgridSize).log);
    }

    /**
      The accepted branch of a turn: num is written at (row, col) and counted,
      the search goes on from the new board, and a failed search empties the
      cell again. The answer, the board and the records follow the search
      from the placed grid.
    */
    method PlaceAndSearch(row: int, col: int, num: int) returns (solved: bool)
      requires Valid() && InRange(size, (row, col)) && board[row, col] == 0 && 1 <= num <= size
      modifies this, board
      decreases ZeroCells(Snapshot(board)), 0
      ensures var g0 := old(Snapshot(board));
        var o := Search(Place(g0, row, col, num), subgridSize);
        && solved == o.solved
        && Snapshot(board) == (if o.solved then o.grid else g0)
        && attemptedCells == old(attemptedCells) + o.log
        && iterations == old(iterations) + 1 + o.placements
        && recursiveCalls == old(recursiveCalls) + o.calls
    {
      ghost var g0 := Snapshot(board);
      board[row, col] := num;
      iterations := iterations + 1;
      SnapshotAfterWrite(board, g0, row, col);
      ghost var g1 := Snapshot(board);
      ZeroCellsAfterPlace(g0, row, col, num);
      solved := Solve();
      if solved {
        return true;
      }
      board[row, col] := 0;
      SnapshotAfterWrite(board, g1, row, col);
      PlaceUndo(g0, row, col, num);
    }
  }
}
