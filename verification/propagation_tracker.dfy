/**
  `Backtracking_Tracker_Propagation.py`: two solvers over one board. The
  constraint solver `solve_csp` keeps a domain per cell, narrows the domains
  with `ac3` and `forward_check`, and searches by committing the MRV cell to
  each of its values in ascending order; `solve_using_backtracking` is the
  plain backtracking search over the board. The counters `iterations` and
  `recursive_calls` are shared by both.
*/
module PropagationTracker {
  import opened Optional
  import opened Board
  import opened Csp
  import opened Backtracking

  /**
    One element of a non-empty set, in whatever order Python's set iteration
    yields it: the model promises nothing about which.
  */
  method Pick<T>(s: set<T>) returns (x: T)
    requires s != {}
    ensures x in s
  {
    x :| x in s;
  }

  /** `min` over a non-empty set of values. */
  method Min(s: set<int>) returns (m: int)
    requires s != {}
    ensures m in s && forall v :: v in s ==> m <= v
  {
    m := Pick(s);
    var rest := s - {m};
    while rest != {}
      invariant rest <= s && m in s
      invariant forall v :: v in s && v !in rest ==> m <= v
      decreases rest
    {
      var v := Pick(rest);
      if v < m {
        m := v;
      }
      rest := rest - {v};
    }
  }

  /** `sorted(domain)`: the values of a finite set in strictly ascending order. */
  method Ascending(s: set<int>) returns (vs: seq<int>)
    ensures forall v :: v in vs <==> v in s
    ensures forall p, q :: 0 <= p < q < |vs| ==> vs[p] < vs[q]
  {
    vs := [];
    var rest := s;
    while rest != {}
      invariant rest <= s
      invariant forall v :: v in vs <==> v in s && v !in rest
      invariant forall p, q :: 0 <= p < q < |vs| ==> vs[p] < vs[q]
      invariant forall p, v :: 0 <= p < |vs| && v in rest ==> vs[p] < v
      decreases rest
    {
      var m := Min(rest);
      vs := vs + [m];
      rest := rest - {m};
    }
  }

  /**
    The cells `ac3` queues again after x's domain changed against neighbour
    y: the neighbours of x other than y, in set iteration order.
  */
  method Requeue(neighbors: set<Cell>, y: Cell) returns (more: seq<Cell>)
    ensures forall z :: z in more <==> z in neighbors && z != y
  {
    more := [];
    var pending := neighbors;
    while pending != {}
      invariant pending <= neighbors
      invariant forall z :: z in more <==> z in neighbors && z !in pending && z != y
      decreases pending
    {
      var n := Pick(pending);
      pending := pending - {n};
      if n != y {
        more := more + [n];
      }
    }
  }

  class SudokuSolver {
    /** The numpy board, updated in place by the solvers. */
    const board: array2<int>
    const size: nat
    const subgridSize: nat
    var iterations: nat
    var recursiveCalls: nat
    /** Declared and reset by `__init__`; no method of the class changes it. */
    var backtracks: nat
    /** `self.domains`: the values still possible at each cell. */
    var domains: Domains

    /** The board is size-by-size and size is the square of the subgrid size. */
    predicate Valid()
      reads this
    {
      subgridSize > 0 && size == subgridSize * subgridSize &&
      board.Length0 == size && board.Length1 == size
    }

    /** `__init__`: a fresh copy of the given grid, counters at zero, no domains yet. */
    constructor (grid: Grid, size: nat, subgridSize: nat)
      requires subgridSize > 0 && size == subgridSize * subgridSize && IsGrid(grid, size)
      ensures Valid() && fresh(board)
      ensures Snapshot(board) == grid && domains == map[]
      ensures iterations == 0 && recursiveCalls == 0 && backtracks == 0
    {
      this.board := new int[size, size]((i, j) requires 0 <= i < size && 0 <= j < size => grid[i][j]);
      this.size := size;
      this.subgridSize := subgridSize;
      this.iterations := 0;
      this.recursiveCalls := 0;
      this.backtracks := 0;
      this.domains := map[];
      new;
      forall i | 0 <= i < size ensures Snapshot(board)[i] == grid[i] {
      }
    }

    /**
      `revise(row, col, neighbor)`, with the AC-3 rule: x = (row, col) loses
      every value that the neighbour's domain holds alone, and the answer
      says whether x's domain changed.
    */
    method Revise(row: int, col: int, neighbor: Cell) returns (revised: bool)
      requires (row, col) in domains && neighbor in domains
      modifies this`domains
      ensures domains == Revised(old(domains), (row, col), neighbor)
      ensures revised <==> domains[(row, col)] != old(domains)[(row, col)]
    {
      var x := (row, col);
      var D := domains;
      var toRemove: set<int> := {};
      var rest := D[x];
      while rest != {}
        invariant domains == D && rest <= D[x]
        invariant toRemove == set v | v in D[x] && v !in rest && D[neighbor] == {v}
        decreases rest
      {
        var value := Pick(rest);
        if D[neighbor] == {value} {
          toRemove := toRemove + {value};
        }
        rest := rest - {value};
      }
      assert toRemove == Removals(D, x, neighbor);
      RevisedRemovesForcedValues(D, x, neighbor);
      revised := false;
      if toRemove != {} {
        domains := D[x := D[x] - toRemove];
        revised := true;
      } else {
        assert Revised(D, x, neighbor) == D;
      }
    }

    /**
      One turn of `ac3`'s loop: x = (row, col) is revised against each of its
      neighbours in turn. Each change queues the other neighbours again (the
      cells returned, in order); an emptied domain is failure. The domains
      only shrink and lose no solution, and nothing is queued unless they
      changed.
    */
    method ReviseCell(row: int, col: int) returns (ok: bool, added: seq<Cell>)
      requires Valid() && Covers(domains, size) && InRange(size, (row, col))
      modifies this`domains
      ensures Shrinks(domains, old(domains))
      ensures KeepsSolutions(domains, old(domains), subgridSize)
      ensures forall y :: y in added ==> y in Neighbors(subgridSize, (row, col))
      ensures domains == old(domains) ==> added == []
      ensures !ok ==> domains[(row, col)] == {}
    {
      var k := subgridSize;
      ghost var D0 := domains;
      added := [];
      var neighbors := Neighbors(k, (row, col));
      NeighborsArePeers(k, (row, col));
      var pending := neighbors;
      while pending != {}
        invariant Shrinks(domains, D0) && KeepsSolutions(domains, D0, k)
        invariant forall y :: y in added ==> y in neighbors
        invariant domains == D0 ==> added == []
        decreases pending
      {
        var neighbor := Pick(pending);
        pending := pending - {neighbor};
        ghost var D1 := domains;
        var revised := Revise(row, col, neighbor);
        RevisedKeepsSolutions(D1, k, (row, col), neighbor);
        KeepsSolutionsTrans(domains, D1, D0, k);
        if revised {
          if domains[(row, col)] == {} {
            return false, added;
          }
          var more := Requeue(neighbors, neighbor);
          added := added + more;
        }
      }
      return true, added;
    }

    /**
      `ac3`: the queue starts with the empty cells of the board in row-major
      order and each cell taken from it is revised against its neighbours
      (`ReviseCell`). The domains only shrink and lose no solution; failure
      leaves an empty domain on the board.
    */
    method AC3() returns (ok: bool)
      requires Valid() && Covers(domains, size)
      modifies this`domains
      ensures Shrinks(domains, old(domains))
      ensures KeepsSolutions(domains, old(domains), subgridSize)
      ensures !ok ==> exists i, j :: 0 <= i < size && 0 <= j < size && domains[(i, j)] == {}
    {
      var k := subgridSize;
      ghost var D0 := domains;
      var queue := InitialQueue(Snapshot(board), size);
      while queue != []
        invariant Shrinks(domains, D0) && KeepsSolutions(domains, D0, k)
        invariant forall x :: x in queue ==> InRange(size, x)
        decreases Candidates(domains), |queue|
      {
        var (row, col) := queue[0];
        queue := queue[1..];
        ghost var D1 := domains;
        var cellOk, added := ReviseCell(row, col);
        KeepsSolutionsTrans(domains, D1, D0, k);
        ShrinksCandidates(domains, D1);
        if !cellOk {
          return false;
        }
        NeighborsArePeers(k, (row, col));
        queue := queue + added;
      }
      return true;
    }

    /**
      The visit of x = (row, col) by `forward_check`: when x's domain holds a
      single value, that value leaves every neighbour's domain.
    */
    method VisitCell(row: int, col: int)
      requires Valid() && Covers(domains, size) && InRange(size, (row, col))
      modifies this`domains
      ensures domains == Visit(old(domains), subgridSize, (row, col))
    {
      var x := (row, col);
      var domain := domains[x];
      if |domain| == 1 {
        var value := Pick(domain);
        SingletonIs(domain, value);
        var neighbors := Neighbors(subgridSize, x);
        ghost var D := domains;
        assert forall y :: y in neighbors ==> y in D by {
          NeighborsArePeers(subgridSize, x);
        }
        var pending := neighbors;
        while pending != {}
          invariant pending <= neighbors
          invariant domains.Keys == D.Keys
          invariant forall y :: y in D ==> domains[y] == if y in neighbors && y !in pending then D[y] - {value} else D[y]
          decreases pending
        {
          var neighbor := Pick(pending);
          pending := pending - {neighbor};
          if value in domains[neighbor] {
            domains := domains[neighbor := domains[neighbor] - {value}];
          }
        }
        assert domains == RemoveFrom(D, neighbors, {value});
      }
    }

    /**
      `forward_check`: every cell visited once, in the dictionary's row-major
      order. The result is the function `ForwardChecked` of the entry domains.
    */
    method ForwardCheck()
      requires Valid() && Covers(domains, size)
      modifies this`domains
      ensures domains == ForwardChecked(old(domains), subgridSize)
    {
      var k := subgridSize;
      RowMajorOrder(size);
      var order := RowMajor(size);
      ghost var D0 := domains;
      assert OnBoard(D0, k, order);
      for i := 0 to |order|
        invariant OnBoard(D0, k, order[..i])
        invariant domains == VisitAll(D0, k, order[..i])
      {
        var (row, col) := order[i];
        assert order[..i + 1][..i] == order[..i];
        assert OnBoard(D0, k, order[..i + 1]);
        VisitCell(row, col);
      }
      assert order[..|order|] == order;
    }

    /**
      One turn of `backtrack_csp`'s loop: x = (row, col) is committed to
      value, then forward checking and `ac3` narrow the domains and the
      search recurses when `ac3` finds no empty domain. Success leaves solved
      domains shrunk from the entry ones; failure restores the entry domains
      and means no solution fitting them holds value at x.
    */
    method TryCspValue(row: int, col: int, value: int) returns (ok: bool)
      requires Valid() && Covers(domains, size) && InRange(size, (row, col))
      requires value in domains[(row, col)] && |domains[(row, col)]| > 1
      modifies this`domains, this`iterations, this`recursiveCalls
      decreases Candidates(domains), 0
      ensures Shrinks(domains, old(domains))
      ensures ok ==> IsSolved(domains, size) && domains[(row, col)] == {value}
      ensures !ok ==> domains == old(domains)
      ensures !ok ==> forall g :: Solution(g, subgridSize) && Fits(g, old(domains), size) ==> g[row][col] != value
      ensures iterations > old(iterations) && recursiveCalls >= old(recursiveCalls)
    {
      var k := subgridSize;
      var x := (row, col);
      ghost var D0 := domains;
      var localDomains := domains;
      domains := domains[x := {value}];
      ghost var D1 := domains;
      assert Shrinks(D1, D0) && D1 != D0;
      ForwardCheck();
      ForwardCheckedKeepsSolutions(D1, k);
      ghost var D2 := domains;
      iterations := iterations + 1;
      var consistent := AC3();
      ghost var D3 := domains;
      KeepsSolutionsTrans(D3, D2, D1, k);
      ShrinksTrans(D3, D2, D1);
      ShrinksTrans(D3, D1, D0);
      if consistent {
        ShrinksCandidates(D3, D1);
        ShrinksCandidates(D1, D0);
        ok := BacktrackCsp();
        if ok {
          ShrinksTrans(domains, D3, D0);
          ShrinksTrans(domains, D3, D1);
          SolvedKeepsCommitment(domains, D1, size, x, value);
          return true;
        }
      } else {
        ghost var i, j :| 0 <= i < size && 0 <= j < size && D3[(i, j)] == {};
        EmptyDomainUnsolvable(D3, k, (i, j));
      }
      AssignmentRefuted(D0, D3, k, x, value);
      domains := localDomains;
      return false;
    }

    /**
      `backtrack_csp`: solved domains are success; otherwise the MRV cell
      (`SelectUnassigned`) is committed to each of its values in ascending
      order. Success leaves solved domains shrunk from the entry ones, and
      when the search had to choose, the MRV cell holds a single value of its
      entry domain, every smaller value of which no solution fitting the
      entry domains holds there; failure
      leaves the entry domains and means no solution fits them. Every call
      counts one recursive call.
    */
    method BacktrackCsp() returns (ok: bool)
      requires Valid() && Covers(domains, size)
      modifies this`domains, this`iterations, this`recursiveCalls
      decreases Candidates(domains), 2
      ensures Shrinks(domains, old(domains))
      ensures ok ==> IsSolved(domains, size)
      ensures !ok ==> domains == old(domains) && !Solvable(old(domains), subgridSize)
      ensures recursiveCalls > old(recursiveCalls) && iterations >= old(iterations)
      ensures old(IsSolved(domains, size)) ==>
        ok && domains == old(domains) && iterations == old(iterations) && recursiveCalls == old(recursiveCalls) + 1
      ensures ok ==> MrvCommitted(old(domains), domains, subgridSize)
    {
      var k := subgridSize;
      recursiveCalls := recursiveCalls + 1;
      if IsSolved(domains, size) {
        return true;
      }
      var choice := SelectUnassigned(domains, size);
      SelectUnassignedIsFirstMrv(domains, size);
      if choice.None? {
        StuckUnsolvable(domains, k);
        return false;
      }
      var (row, col) := choice.value;
      var x := (row, col);
      var values := Ascending(domains[x]);
      ghost var D0 := domains;
      ok := TryValues(row, col, values);
      if !ok {
        AllValuesRefuted(D0, k, x);
        return;
      }
      ghost var i :| 0 <= i < |values| && domains[x] == {values[i]} &&
        forall g, v :: v in values[..i] && Solution(g, k) && Fits(g, D0, size) ==> g[row][col] != v;
      AscendingRulesOutSmaller(D0, k, x, values, i);
    }

    /**
      The loop of `backtrack_csp`: each value of the chosen cell, in the
      given order, is committed until one leads to solved domains. Success
      leaves the cell committed to the first value that did not fail, every
      value before it being ruled out; failure leaves the entry domains and
      rules out every value tried.
    */
    method TryValues(row: int, col: int, values: seq<int>) returns (ok: bool)
      requires Valid() && Covers(domains, size) && InRange(size, (row, col))
      requires |domains[(row, col)]| > 1 && forall v :: v in values ==> v in domains[(row, col)]
      modifies this`domains, this`iterations, this`recursiveCalls
      decreases Candidates(domains), 1
      ensures Shrinks(domains, old(domains))
      ensures ok ==> IsSolved(domains, size)
      ensures ok ==>
        exists i :: 0 <= i < |values| && domains[(row, col)] == {values[i]} &&
          forall g, v :: v in values[..i] && Solution(g, subgridSize) && Fits(g, old(domains), size) ==> g[row][col] != v
      ensures !ok ==> domains == old(domains)
      ensures !ok ==> forall g, v :: v in values && Solution(g, subgridSize) && Fits(g, old(domains), size) ==> g[row][col] != v
      ensures iterations >= old(iterations) && recursiveCalls >= old(recursiveCalls)
    {
      ghost var D0 := domains;
      for idx := 0 to |values|
        invariant domains == D0
        invariant iterations >= old(iterations) && recursiveCalls >= old(recursiveCalls)
        invariant forall g, v :: v in values[..idx] && Solution(g, subgridSize) && Fits(g, D0, size) ==> g[row][col] != v
      {
        ok := TryCspValue(row, col, values[idx]);
        if ok {
          assert domains[(row, col)] == {values[idx]};
          return true;
        }
        assert values[..idx + 1] == values[..idx] + [values[idx]];
      }
      assert values[..|values|] == values;
      return false;
    }

    /**
      `solve_csp`: the initial domains come from the board, `ac3` narrows
      them (its answer is not looked at) and `backtrack_csp` searches. On
      failure the board is unchanged and no solution keeps its given cells;
      on success every cell of the board holds the single value of its
      domain, the given cells are kept and no cell is left empty.
    */
    method SolveCsp() returns (ok: bool)
      requires Valid()
      modifies this`domains, this`iterations, this`recursiveCalls, board
      ensures !ok ==> Snapshot(board) == old(Snapshot(board))
      ensures !ok ==> forall g :: Solution(g, subgridSize) ==> !KeepsGivens(old(Snapshot(board)), g)
      ensures ok ==> Covers(domains, size) && IsSolved(domains, size)
      ensures ok ==> forall i, j :: 0 <= i < size && 0 <= j < size ==> domains[(i, j)] == {board[i, j]}
      ensures ok ==> KeepsGivens(old(Snapshot(board)), Snapshot(board)) && ZeroCells(Snapshot(board)) == {}
    {
      var k := subgridSize;
      ghost var g0 := Snapshot(board);
      domains := InitialDomains(Snapshot(board), size);
      ghost var Di := domains;
      var _ := AC3();
      ghost var Da := domains;
      ok := BacktrackCsp();
      if !ok {
        forall g | Solution(g, k) ensures !KeepsGivens(g0, g) {
          InitialDomainsFit(g0, g, k);
        }
        return false;
      }
      ShrinksTrans(domains, Da, Di);
      WriteBack();
      WrittenBackBoard(g0, Snapshot(board), domains, size);
    }

    /**
      The last loop of `solve_csp`: every cell whose domain holds a single
      value, visited row by row, receives that value on the board; the
      other cells are left as they are.
    */
    method WriteBack()
      requires Valid() && Covers(domains, size)
      modifies board
      ensures forall i, j :: 0 <= i < size && 0 <= j < size && |domains[(i, j)]| == 1 ==> domains[(i, j)] == {board[i, j]}
      ensures forall i, j :: 0 <= i < size && 0 <= j < size && |domains[(i, j)]| != 1 ==> board[i, j] == old(board[i, j])
    {
      for row := 0 to size
        invariant forall i, j :: 0 <= i < row && 0 <= j < size && |domains[(i, j)]| == 1 ==> domains[(i, j)] == {board[i, j]}
        invariant forall i, j :: 0 <= i < size && 0 <= j < size && (row <= i || |domains[(i, j)]| != 1) ==> board[i, j] == old(board[i, j])
      {
        for col := 0 to size
          invariant forall i, j :: 0 <= i < row && 0 <= j < size && |domains[(i, j)]| == 1 ==> domains[(i, j)] == {board[i, j]}
          invariant forall j :: 0 <= j < col && |domains[(row, j)]| == 1 ==> domains[(row, j)] == {board[row, j]}
          invariant forall i, j :: 0 <= i < size && 0 <= j < size && (row < i || (row == i && col <= j) || |domains[(i, j)]| != 1) ==> board[i, j] == old(board[i, j])
        {
          var values := domains[(row, col)];
          if |values| == 1 {
            var v := Pick(values);
            SingletonIs(values, v);
            board[row, col] := v;
          }
        }
      }
    }

    /**
      `solve_using_backtracking`: plain backtracking over the board (the
      timing it also returns is not modelled). It succeeds exactly when the
      board can be completed, and then the board is a completion; on failure
      the board is back to its entry state. There is one recursive call more
      than there are placements. The search is `Search`: values in ascending
      order at the first empty cell.
    */
    method SolveUsingBacktracking() returns (solved: bool)
      requires Valid()
      modifies this`iterations, this`recursiveCalls, board
      ensures var t := Search(old(Snapshot(board)), subgridSize);
        && solved == t.solved
        && Snapshot(board) == t.grid
        && iterations == old(iterations) + t.placements
      ensures solved <==> Completable(old(Snapshot(board)), subgridSize)
      ensures KeepsGivens(old(Snapshot(board)), Snapshot(board))
      ensures solved ==> Completes(old(Snapshot(board)), Snapshot(board), subgridSize)
      ensures !solved ==> Snapshot(board) == old(Snapshot(board))
      ensures recursiveCalls - old(recursiveCalls) == iterations - old(iterations) + 1
    {
      solved := Backtrack();
    }

    /**
      The nested `backtrack`: when the board has no zero left it is solved
      (`is_solved`); otherwise the first empty cell in row-major order
      (`select_unassigned_variable`, which finds one exactly when `is_solved`
      fails) takes each value of 1..size in ascending order that passes
      `is_valid_assignment`. Its answer, the board it leaves and the
      placements it counts are those of `Search` on the entry board, so it
      succeeds exactly when the board can be completed, and then with a
      completion that has at least one placement per empty cell.
    */
    method Backtrack() returns (solved: bool)
      requires Valid()
      modifies this`iterations, this`recursiveCalls, board
      decreases ZeroCells(Snapshot(board)), 3
      ensures var t := Search(old(Snapshot(board)), subgridSize);
        && solved == t.solved
        && Snapshot(board) == t.grid
        && iterations == old(iterations) + t.placements
      ensures solved <==> Completable(old(Snapshot(board)), subgridSize)
      ensures KeepsGivens(old(Snapshot(board)), Snapshot(board))
      ensures solved ==> Completes(old(Snapshot(board)), Snapshot(board), subgridSize)
      ensures !solved ==> Snapshot(board) == old(Snapshot(board))
      ensures iterations >= old(iterations)
      ensures solved ==> iterations - old(iterations) >= |ZeroCells(old(Snapshot(board)))|
      ensures recursiveCalls - old(recursiveCalls) == iterations - old(iterations) + 1
    {
      ghost var g0 := Snapshot(board);
      SearchCorrect(g0, subgridSize);
      SearchFills(g0, subgridSize);
      recursiveCalls := recursiveCalls + 1;
      var empty := FindEmpty(board);
      if empty.None? {
        return true;
      }
      var (row, col) := empty.value;
      solved := AssignCell(row, col);
    }

    /**
      The loop of `backtrack` at the cell that `select_unassigned_variable`
      chose, the first empty one: each value of 1..size in ascending order is
      tried until one leads to a solution, which is what `Search` does from
      the entry board.
    */
    method AssignCell(row: int, col: int) returns (solved: bool)
      requires Valid() && FirstEmpty(Snapshot(board)) == Some((row, col))
      modifies this`iterations, this`recursiveCalls, board
      decreases ZeroCells(Snapshot(board)), 2
      ensures var t := Search(old(Snapshot(board)), subgridSize);
        && solved == t.solved
        && Snapshot(board) == t.grid
        && iterations == old(iterations) + t.placements
        && recursiveCalls == old(recursiveCalls) + t.placements
    {
      ghost var g0 := Snapshot(board);
      ghost var acc := Trace(false, g0, [], 0, 1);
      for value := 1 to size + 1
        invariant Snapshot(board) == g0
        invariant acc.grid == g0 && !acc.solved
        invariant iterations == old(iterations) + acc.placements
        invariant recursiveCalls == old(recursiveCalls) + acc.placements
        invariant Search(g0, subgridSize) == Turns(g0, subgridSize, row, col, value, acc)
      {
        ghost var s := Step(g0, subgridSize, row, col, value);
        solved := TryAssignment(row, col, value);
        acc := Then(acc, s);
        if solved {
          return true;
        }
      }
      return false;
    }

    /**
      One turn of `backtrack`'s loop: value goes into the empty cell (row, col)
      when `is_valid_assignment` allows it, and the search recurses. Its
      answer, board and placements are those of `Step`: success completes the
      board; failure means the value leads nowhere and leaves the board as it
      was. Each placement is one iteration and leads to one recursive call.
    */
    method TryAssignment(row: int, col: int, value: int) returns (solved: bool)
      requires Valid() && InRange(size, (row, col)) && board[row, col] == 0 && 1 <= value <= size
      modifies this`iterations, this`recursiveCalls, board
      decreases ZeroCells(Snapshot(board)), 1
      ensures var t := Step(old(Snapshot(board)), subgridSize, row, col, value);
        && solved == t.solved
        && Snapshot(board) == t.grid
        && iterations == old(iterations) + t.placements
      ensures KeepsGivens(old(Snapshot(board)), Snapshot(board))
      ensures solved ==> Completes(old(Snapshot(board)), Snapshot(board), subgridSize)
      ensures !solved ==> Snapshot(board) == old(Snapshot(board))
      ensures !solved ==> DeadEnd(old(Snapshot(board)), subgridSize, row, col, value)
      ensures iterations >= old(iterations)
      ensures solved ==> iterations - old(iterations) >= |ZeroCells(old(Snapshot(board)))|
      ensures recursiveCalls - old(recursiveCalls) == iterations - old(iterations)
    {
      ghost var g0 := Snapshot(board);
      StepCorrect(g0, subgridSize, row, col, value);
      StepFills(g0, subgridSize, row, col, value);
      assert KeepsGivens(g0, g0);
      var ok := IsValid(board, subgridSize, row, col, value);
      if !ok {
        return false;
      }
      solved := PlaceAndSearch(row, col, value);
    }

    /**
      The accepted branch of a turn: value is written at (row, col) and
      counted, `backtrack` recurses on the new board, and a failed recursion
      empties the cell again. The answer, the board and the counters follow
      the search from the placed grid.
    */
    method PlaceAndSearch(row: int, col: int, value: int) returns (solved: bool)
      requires Valid() && InRange(size, (row, col)) && board[row, col] == 0 && 1 <= value <= size
      modifies this`iterations, this`recursiveCalls, board
      decreases ZeroCells(Snapshot(board)), 0
      ensures var g0 := old(Snapshot(board));
        var o := Search(Place(g0, row, col, value), subgridSize);
        && solved == o.solved
        && Snapshot(board) == (if o.solved then o.grid else g0)
        && iterations == old(iterations) + 1 + o.placements
        && recursiveCalls == old(recursiveCalls) + 1 + o.placements
    {
      ghost var g0 := Snapshot(board);
      board[row, col] := value;
      iterations := iterations + 1;
      SnapshotAfterWrite(board, g0, row, col);
      ZeroCellsAfterPlace(g0, row, col, value);
      solved := Backtrack();
      if solved {
        return true;
      }
      Retract(row, col);
      PlaceUndo(g0, row, col, value);
    }

    /** A failed assignment is taken back: the cell is emptied again, nothing else changes. */
    method Retract(row: int, col: int)
      requires Valid() && InRange(size, (row, col))
      modifies board
      ensures Snapshot(board) == Place(old(Snapshot(board)), row, col, 0)
    {
      ghost var g := Snapshot(board);
      board[row, col] := 0;
      SnapshotAfterWrite(board, g, row, col);
    }
  }
}
