/**
  The constraint model of `Backtracking_Tracker_Propagation.py`: every cell
  of the board has a domain, the set of values still possible there, kept in
  a dictionary from (row, col) to a set of ints. This module holds the pure
  parts of the engine: `find_neighbors`, the initial domains of `solve_csp`,
  `is_solved`, the MRV choice `select_unassigned_variable`, the removal rule
  of `revise`, and `forward_check` as a function of the domains, together
  with what they preserve.
*/
module Csp {
  import opened Optional
  import opened Board

  /** The `domains` dictionary: the values still possible at each cell. */
  type Domains = map<Cell, set<int>>

  /** Every cell of the n-by-n board. */
  function AllCells(n: nat): set<Cell> {
    set i, j | 0 <= i < n && 0 <= j < n :: (i, j)
  }

  /** D has a domain for every cell of the n-by-n board. */
  predicate Covers(D: Domains, n: nat) {
    forall i, j :: 0 <= i < n && 0 <= j < n ==> (i, j) in D
  }

  /**
    The cells of the n-by-n board in row-major order: the order in which
    `solve_csp` fills the dictionary, hence the order in which it is
    iterated.
  */
  function RowMajor(n: nat): (s: seq<Cell>)
    ensures |s| == n * n
  {
    seq(n * n, p requires 0 <= p < n * n => (p / n, p % n))
  }

  /** The flat index p of an n-by-n board names the cell (p / n, p % n) of the board. */
  lemma FlatCell(p: int, n: nat)
    requires 0 <= p < n * n
    ensures InRange(n, (p / n, p % n))
  {
    FlatIndex(0, 0, p, n);
  }

  /** Flat indices and row-major order agree. */
  lemma FlatOrder(p: int, q: int, n: nat)
    requires 0 <= p < q && n > 0
    ensures Before((p / n, p % n), (q / n, q % n))
  {
    DivModSplit(p, n);
    DivModSplit(q, n);
    if q / n < p / n {
      MulLe(q / n + 1, p / n, n);
    }
  }

  /** RowMajor lists exactly the cells of the board, each before the ones after it in row-major order. */
  lemma RowMajorOrder(n: nat)
    ensures forall x :: x in RowMajor(n) <==> InRange(n, x)
    ensures forall p, q :: 0 <= p < q < n * n ==> Before(RowMajor(n)[p], RowMajor(n)[q])
  {
    var s := RowMajor(n);
    forall x | InRange(n, x) ensures x in s {
      DivModOf(x.0, x.1, n);
      BelowSquare(x.0, x.1, n);
      assert s[x.0 * n + x.1] == x;
    }
    forall p | 0 <= p < n * n ensures InRange(n, s[p]) {
      FlatCell(p, n);
    }
    forall p, q | 0 <= p < q < n * n ensures Before(s[p], s[q]) {
      FlatOrder(p, q, n);
    }
  }

  // ---------------------------------------------------------------------
  // find_neighbors
  // ---------------------------------------------------------------------

  /**
    `find_neighbors(row, col)`: the union of the three loops' cells, the
    other cells of the row, of the column and of the k-by-k subgrid.
  */
  function Neighbors(k: nat, x: Cell): (s: set<Cell>)
    requires k > 0 && InRange(k * k, x)
    ensures x !in s
  {
    RowNeighbors(k * k, x) + ColumnNeighbors(k * k, x) + SubgridNeighbors(k, x)
  }

  /** The first loop of `find_neighbors`: the other cells of x's row. */
  function RowNeighbors(n: nat, x: Cell): (s: set<Cell>)
    ensures forall y :: y in s <==> y.0 == x.0 && 0 <= y.1 < n && y.1 != x.1
  {
    set c | 0 <= c < n && c != x.1 :: (x.0, c)
  }

  /** The second loop of `find_neighbors`: the other cells of x's column. */
  function ColumnNeighbors(n: nat, x: Cell): (s: set<Cell>)
    ensures forall y :: y in s <==> y.1 == x.1 && 0 <= y.0 < n && y.0 != x.0
  {
    set r | 0 <= r < n && r != x.0 :: (r, x.1)
  }

  /**
    The nested loop of `find_neighbors`: the other cells of the k-by-k
    subgrid whose origin is (Origin(row), Origin(col)).
  */
  function SubgridNeighbors(k: nat, x: Cell): set<Cell>
    requires k > 0
  {
    var r0 := Origin(x.0, k);
    var c0 := Origin(x.1, k);
    set r, c | r0 <= r < r0 + k && c0 <= c < c0 + k && (r, c) != x :: (r, c)
  }

  /** The subgrid loop yields exactly the other cells of the board in x's subgrid. */
  lemma SubgridNeighborsAre(k: nat, x: Cell, y: Cell)
    requires k > 0 && InRange(k * k, x)
    ensures y in SubgridNeighbors(k, x) <==> InRange(k * k, y) && y != x && SameSubgrid(k, x, y)
  {
    InBand(x.0, y.0, k);
    InBand(x.1, y.1, k);
  }

  /** j runs over the band of i in the subgrid loop exactly when j is on the board with the quotient of i by k. */
  lemma InBand(i: int, j: int, k: nat)
    requires k > 0 && 0 <= i < k * k
    ensures Origin(i, k) <= j < Origin(i, k) + k <==> 0 <= j < k * k && j / k == i / k
  {
    OriginFacts(i, k);
    assert 0 <= Origin(i, k) by {
      MulLe(0, i / k, k);
    }
    if 0 <= j {
      SameBand(i, j, k);
    }
  }

  /** The neighbours of x are exactly the cells of the board that are peers of x, x excluded. */
  lemma NeighborsArePeers(k: nat, x: Cell)
    requires k > 0 && InRange(k * k, x)
    ensures forall y :: y in Neighbors(k, x) <==> InRange(k * k, y) && y != x && Peers(k, x, y)
  {
    forall y
      ensures y in Neighbors(k, x) <==> InRange(k * k, y) && y != x && Peers(k, x, y)
    {
      SubgridNeighborsAre(k, x, y);
    }
  }

  /** Being neighbours is symmetric. */
  lemma NeighborsSymmetric(k: nat, x: Cell, y: Cell)
    requires k > 0 && InRange(k * k, x) && InRange(k * k, y)
    ensures y in Neighbors(k, x) <==> x in Neighbors(k, y)
  {
    NeighborsArePeers(k, x);
    NeighborsArePeers(k, y);
  }

  // ---------------------------------------------------------------------
  // Domains that shrink, and the solutions they keep
  // ---------------------------------------------------------------------

  /**
    The (cell, value) pairs D still allows; their number is the sum of the
    domain sizes, the measure that the search and the propagation lower.
  */
  function Candidates(D: Domains): set<(Cell, int)> {
    set x, v | x in D && v in D[x] :: (x, v)
  }

  /** D1 has the cells of D0, each with a domain no larger than before. */
  ghost predicate Shrinks(D1: Domains, D0: Domains) {
    D1.Keys == D0.Keys && forall x :: x in D0 ==> D1[x] <= D0[x]
  }

  /** Shrinking is a preorder: the propagation steps compose. */
  lemma ShrinksTrans(D2: Domains, D1: Domains, D0: Domains)
    requires Shrinks(D2, D1) && Shrinks(D1, D0)
    ensures Shrinks(D2, D0)
  {
  }

  /** A value of a set that a proper subset of it lacks. */
  lemma Lost<T>(B: set<T>, A: set<T>) returns (v: T)
    requires B <= A && B != A
    ensures v in A && v !in B
  {
    v :| v in A && v !in B;
  }

  /** Shrinking domains lose candidates, strictly so when some domain changed. */
  lemma ShrinksCandidates(D1: Domains, D0: Domains)
    requires Shrinks(D1, D0)
    ensures Candidates(D1) <= Candidates(D0)
    ensures D1 != D0 ==> Candidates(D1) < Candidates(D0)
  {
    if D1 != D0 {
      var x :| x in D0 && D1[x] != D0[x];
      var v := Lost(D1[x], D0[x]);
      assert (x, v) in Candidates(D0);
    }
  }

  /** A solved board: every cell holds a value of 1..k*k and no two peers hold the same value. */
  ghost predicate Solution(g: Grid, k: nat)
    requires k > 0
  {
    && IsGrid(g, k * k)
    && (forall i, j :: 0 <= i < k * k && 0 <= j < k * k ==> 1 <= g[i][j] <= k * k)
    && NoConflicts(g, k)
  }

  /** Every cell of g holds a value its domain in D allows. */
  ghost predicate Fits(g: Grid, D: Domains, n: nat)
    requires IsGrid(g, n)
  {
    forall i, j :: 0 <= i < n && 0 <= j < n ==> (i, j) in D && g[i][j] in D[(i, j)]
  }

  /** A domain map some solution fits. */
  ghost predicate Solvable(D: Domains, k: nat)
    requires k > 0
  {
    exists g :: Solution(g, k) && Fits(g, D, k * k)
  }

  /** In a solution two neighbours hold different values. */
  lemma SolutionNeighborsDiffer(g: Grid, k: nat, x: Cell, y: Cell)
    requires k > 0 && Solution(g, k) && InRange(k * k, x) && y in Neighbors(k, x)
    ensures InRange(k * k, y) && g[x.0][x.1] != g[y.0][y.1]
  {
    NeighborsArePeers(k, x);
  }

  // ---------------------------------------------------------------------
  // solve_csp's initial domains, is_solved, select_unassigned_variable
  // ---------------------------------------------------------------------

  /** The values 1..n, `set(range(1, n + 1))`. */
  function Values(n: nat): (s: set<int>)
    ensures forall v :: v in s <==> 1 <= v <= n
  {
    if n == 0 then {} else Values(n - 1) + {n}
  }

  /** `solve_csp`'s initial domains: the board value at a given cell, 1..n at an empty one. */
  function InitialDomains(g: Grid, n: nat): (D: Domains)
    requires IsGrid(g, n)
    ensures Covers(D, n) && D.Keys == AllCells(n)
    ensures forall i, j :: 0 <= i < n && 0 <= j < n && g[i][j] != 0 ==> D[(i, j)] == {g[i][j]}
    ensures forall i, j, v :: 0 <= i < n && 0 <= j < n && g[i][j] == 0 ==> (v in D[(i, j)] <==> 1 <= v <= n)
  {
    map x | x in AllCells(n) :: if g[x.0][x.1] != 0 then {g[x.0][x.1]} else Values(n)
  }

  /**
    The solutions that fit the initial domains are exactly the solutions
    that keep the board's given cells.
  */
  lemma InitialDomainsFit(g: Grid, s: Grid, k: nat)
    requires k > 0 && IsGrid(g, k * k) && Solution(s, k)
    ensures Fits(s, InitialDomains(g, k * k), k * k) <==> KeepsGivens(g, s)
  {
    var n := k * k;
    var D := InitialDomains(g, n);
    if KeepsGivens(g, s) {
      forall i, j | 0 <= i < n && 0 <= j < n ensures (i, j) in D && s[i][j] in D[(i, j)] {
        assert (i, j) in AllCells(n);
      }
    }
    if Fits(s, D, n) {
      forall i, j | 0 <= i < n && 0 <= j < n && g[i][j] != 0 ensures s[i][j] == g[i][j] {
        assert (i, j) in AllCells(n);
      }
    }
  }

  /**
    The domains a search may end with: shrunk from the initial domains of g
    and solved. A given cell keeps its value and an empty cell holds one
    value of 1..n.
  */
  lemma SolvedFromInitial(g: Grid, D: Domains, n: nat, x: Cell)
    requires IsGrid(g, n) && InRange(n, x) && Covers(D, n) && IsSolved(D, n)
    requires Shrinks(D, InitialDomains(g, n))
    ensures g[x.0][x.1] != 0 ==> D[x] == {g[x.0][x.1]}
    ensures g[x.0][x.1] == 0 ==> forall v :: v in D[x] ==> 1 <= v <= n
  {
    assert x in AllCells(n);
    assert |D[(x.0, x.1)]| == 1;
    if g[x.0][x.1] != 0 {
      var v := Lost({}, D[x]);
      SingletonIs(D[x], v);
    }
  }

  /**
    The board `solve_csp` writes back from solved domains that shrank from
    the initial domains of g0: it keeps the given cells of g0 and has no
    empty cell left.
  */
  lemma WrittenBackBoard(g0: Grid, g: Grid, D: Domains, n: nat)
    requires IsGrid(g0, n) && IsGrid(g, n) && Covers(D, n) && IsSolved(D, n)
    requires Shrinks(D, InitialDomains(g0, n))
    requires forall i, j :: 0 <= i < n && 0 <= j < n ==> D[(i, j)] == {g[i][j]}
    ensures KeepsGivens(g0, g) && ZeroCells(g) == {}
  {
    forall i, j | 0 <= i < n && 0 <= j < n
      ensures (g0[i][j] != 0 ==> g[i][j] == g0[i][j]) && g[i][j] != 0
    {
      SolvedFromInitial(g0, D, n, (i, j));
      assert g[i][j] in D[(i, j)];
    }
  }

  /** `is_solved`: every domain holds exactly one value. */
  predicate IsSolved(D: Domains, n: nat)
    requires Covers(D, n)
  {
    forall i, j :: 0 <= i < n && 0 <= j < n ==> |D[(i, j)]| == 1
  }

  /** The cells of s, in order, whose domain still holds more than one value. */
  function Unassigned(D: Domains, s: seq<Cell>): (u: seq<Cell>)
    requires forall x :: x in s ==> x in D
    ensures forall x :: x in u <==> x in s && |D[x]| > 1
  {
    if s == [] then []
    else (if |D[s[0]]| > 1 then [s[0]] else []) + Unassigned(D, s[1..])
  }

  /** s lists cells in strictly increasing row-major order. */
  ghost predicate Sorted(s: seq<Cell>) {
    forall p, q :: 0 <= p < q < |s| ==> Before(s[p], s[q])
  }

  /** The tail of a sorted sequence is sorted and comes after its head. */
  lemma SortedTail(s: seq<Cell>)
    requires Sorted(s) && s != []
    ensures Sorted(s[1..]) && forall t :: t in s[1..] ==> Before(s[0], t)
  {
    var rest := s[1..];
    forall p, q | 0 <= p < q < |rest| ensures Before(rest[p], rest[q]) {
      assert rest[p] == s[p + 1] && rest[q] == s[q + 1];
    }
    forall t | t in rest ensures Before(s[0], t) {
      var q :| 0 <= q < |rest| && rest[q] == t;
      assert s[q + 1] == t;
    }
  }

  /** A cell before every cell of a sorted sequence extends it to a sorted sequence. */
  lemma SortedCons(a: Cell, t: seq<Cell>)
    requires Sorted(t) && forall x :: x in t ==> Before(a, x)
    ensures Sorted([a] + t)
  {
    var u := [a] + t;
    forall p, q | 0 <= p < q < |u| ensures Before(u[p], u[q]) {
      assert u[q] == t[q - 1];
      if p > 0 {
        assert u[p] == t[p - 1];
      } else {
        assert u[p] == a && u[q] in t;
      }
    }
  }

  /** Filtering keeps a sequence sorted. */
  lemma {:induction false} UnassignedSorted(D: Domains, s: seq<Cell>)
    requires forall x :: x in s ==> x in D
    requires Sorted(s)
    ensures Sorted(Unassigned(D, s))
  {
    if s != [] {
      SortedTail(s);
      UnassignedSorted(D, s[1..]);
      var tail := Unassigned(D, s[1..]);
      if |D[s[0]]| > 1 {
        SortedCons(s[0], tail);
      } else {
        assert Unassigned(D, s) == tail;
      }
    }
  }

  /** In a sorted sequence a cell before another sits at a smaller position. */
  lemma SortedPositions(u: seq<Cell>, i: int, j: int)
    requires Sorted(u) && 0 <= i < |u| && 0 <= j < |u| && Before(u[j], u[i])
    ensures j < i
  {
  }

  /**
    Python's `min` with a key: the position of the first cell of u whose
    domain is smallest, scanning from the left and replacing the best only
    on a strictly smaller domain.
  */
  function FirstMin(D: Domains, u: seq<Cell>): (i: nat)
    requires u != [] && forall x :: x in u ==> x in D
    ensures i < |u|
    ensures forall j :: 0 <= j < |u| ==> |D[u[i]]| <= |D[u[j]]|
    ensures forall j :: 0 <= j < i ==> |D[u[j]]| > |D[u[i]]|
  {
    if |u| == 1 then 0
    else
      var m := 1 + FirstMin(D, u[1..]);
      if |D[u[0]]| <= |D[u[m]]| then 0 else m
  }

  /** `select_unassigned_variable`: the MRV cell, or None when no domain has more than one value. */
  function SelectUnassigned(D: Domains, n: nat): (r: Option<Cell>)
    requires Covers(D, n)
  {
    RowMajorOrder(n);
    var u := Unassigned(D, RowMajor(n));
    if u == [] then None else Some(u[FirstMin(D, u)])
  }

  /**
    The MRV choice: None exactly when no domain has more than one value;
    otherwise a cell with more than one value whose domain is smallest among
    those, and the first such cell in row-major order.
  */
  lemma SelectUnassignedIsFirstMrv(D: Domains, n: nat)
    requires Covers(D, n)
    ensures var r := SelectUnassigned(D, n);
      && (r.None? <==> forall i, j :: 0 <= i < n && 0 <= j < n ==> |D[(i, j)]| <= 1)
      && (r.Some? ==> InRange(n, r.value) && |D[r.value]| > 1)
      && (r.Some? ==> forall y :: InRange(n, y) && |D[y]| > 1 ==> |D[r.value]| <= |D[y]|)
      && (r.Some? ==> forall y :: InRange(n, y) && |D[y]| > 1 && Before(y, r.value) ==> |D[y]| > |D[r.value]|)
  {
    RowMajorOrder(n);
    var s := RowMajor(n);
    var u := Unassigned(D, s);
    if u == [] {
      forall i, j | 0 <= i < n && 0 <= j < n ensures |D[(i, j)]| <= 1 {
        assert (i, j) in s;
      }
    } else {
      assert Sorted(s);
      UnassignedSorted(D, s);
      FirstMinIsFirstMrv(D, n, u);
    }
  }

  /**
    In a sorted list of exactly the cells with more than one value, the
    first cell of smallest domain is the MRV choice and comes first among
    the cells of that domain size.
  */
  lemma FirstMinIsFirstMrv(D: Domains, n: nat, u: seq<Cell>)
    requires Covers(D, n) && u != [] && Sorted(u) && forall x :: x in u ==> x in D
    requires forall x :: x in u <==> InRange(n, x) && |D[x]| > 1
    ensures var r := u[FirstMin(D, u)];
      && InRange(n, r) && |D[r]| > 1
      && (forall y :: InRange(n, y) && |D[y]| > 1 ==> |D[r]| <= |D[y]|)
      && (forall y :: InRange(n, y) && |D[y]| > 1 && Before(y, r) ==> |D[y]| > |D[r]|)
  {
    var i := FirstMin(D, u);
    var r := u[i];
    assert r in u;
    forall y | InRange(n, y) && |D[y]| > 1 ensures |D[r]| <= |D[y]| {
      assert y in u;
    }
    forall y | InRange(n, y) && |D[y]| > 1 && Before(y, r) ensures |D[y]| > |D[r]| {
      assert y in u;
      var j :| 0 <= j < |u| && u[j] == y;
      SortedPositions(u, i, j);
    }
  }

  // ---------------------------------------------------------------------
  // Propagation keeps every solution
  // ---------------------------------------------------------------------

  /** Every solution that fits D0 fits D1: a propagation step from D0 to D1 loses no solution. */
  ghost predicate KeepsSolutions(D1: Domains, D0: Domains, k: nat)
    requires k > 0
  {
    forall g :: Solution(g, k) && Fits(g, D0, k * k) ==> Fits(g, D1, k * k)
  }

  /** Steps that lose no solution compose. */
  lemma KeepsSolutionsTrans(D2: Domains, D1: Domains, D0: Domains, k: nat)
    requires k > 0 && KeepsSolutions(D2, D1, k) && KeepsSolutions(D1, D0, k)
    ensures KeepsSolutions(D2, D0, k)
  {
  }

  /** A domain map with an empty domain on the board has no solution. */
  lemma EmptyDomainUnsolvable(D: Domains, k: nat, x: Cell)
    requires k > 0 && InRange(k * k, x) && x in D && D[x] == {}
    ensures !Solvable(D, k)
  {
  }

  /** A singleton domain fixes the value of every solution that fits. */
  lemma SingletonFixes(g: Grid, D: Domains, n: nat, x: Cell, v: int)
    requires IsGrid(g, n) && Fits(g, D, n) && InRange(n, x) && D[x] == {v}
    ensures g[x.0][x.1] == v
  {
    assert g[x.0][x.1] in D[(x.0, x.1)];
  }

  /**
    Committing x to a value v of its domain, `self.domains[(row, col)] = {value}`,
    keeps exactly the solutions that hold v at x.
  */
  lemma AssignFits(g: Grid, D: Domains, n: nat, x: Cell, v: int)
    requires IsGrid(g, n) && InRange(n, x) && x in D && v in D[x]
    ensures Fits(g, D[x := {v}], n) <==> Fits(g, D, n) && g[x.0][x.1] == v
  {
    if Fits(g, D[x := {v}], n) {
      assert g[x.0][x.1] in D[x := {v}][(x.0, x.1)];
    }
  }

  /**
    A value whose commitment leads, through steps that lose no solution, to
    domains no solution fits, is held at x by no solution of D.
  */
  lemma AssignmentRefuted(D: Domains, D': Domains, k: nat, x: Cell, v: int)
    requires k > 0 && InRange(k * k, x) && x in D && v in D[x]
    requires KeepsSolutions(D', D[x := {v}], k) && !Solvable(D', k)
    ensures forall g :: Solution(g, k) && Fits(g, D, k * k) ==> g[x.0][x.1] != v
  {
    forall g | Solution(g, k) && Fits(g, D, k * k) ensures g[x.0][x.1] != v {
      AssignFits(g, D, k * k, x, v);
    }
  }

  /**
    When no domain holds more than one value and some domain does not hold
    exactly one, some domain is empty and no solution fits.
  */
  lemma StuckUnsolvable(D: Domains, k: nat)
    requires k > 0 && Covers(D, k * k) && !IsSolved(D, k * k)
    requires forall i, j :: 0 <= i < k * k && 0 <= j < k * k ==> |D[(i, j)]| <= 1
    ensures !Solvable(D, k)
  {
    var i, j :| 0 <= i < k * k && 0 <= j < k * k && |D[(i, j)]| != 1;
    EmptyDomainUnsolvable(D, k, (i, j));
  }

  /**
    `ac3`'s initial queue: the cells of s, in order, that are empty (zero)
    on the board g.
  */
  function ZeroQueue(g: Grid, n: nat, s: seq<Cell>): (q: seq<Cell>)
    requires IsGrid(g, n) && forall x :: x in s ==> InRange(n, x)
    ensures forall x :: x in q <==> x in s && x in ZeroCells(g)
  {
    if s == [] then []
    else
      var x := s[0];
      assert InRange(n, x);
      (if g[x.0][x.1] == 0 then [x] else []) + ZeroQueue(g, n, s[1..])
  }

  /** `ac3`'s initial queue over the whole board: it holds exactly the empty cells. */
  function InitialQueue(g: Grid, n: nat): (q: seq<Cell>)
    requires IsGrid(g, n)
    ensures forall x :: x in q <==> x in ZeroCells(g)
    ensures forall x :: x in q ==> InRange(n, x)
  {
    RowMajorOrder(n);
    ZeroQueue(g, n, RowMajor(n))
  }

  // ---------------------------------------------------------------------
  // revise
  // ---------------------------------------------------------------------

  /**
    Python compares an int with a set as unequal, whatever their contents:
    the comparison `value == self.domains[n]` of `revise` as written.
  */
  function IntEqualsSet(v: int, s: set<int>): bool {
    false
  }

  /**
    The values `revise` collects in `to_remove` as written: those v of x's
    domain for which `value == self.domains[n]` holds for every neighbour n
    of x (the `neighbor` argument is not used).
  */
  function RemovalsAsWritten(D: Domains, k: nat, x: Cell): set<int>
    requires k > 0 && InRange(k * k, x) && x in D
    requires forall y :: y in Neighbors(k, x) ==> y in D
  {
    set v | v in D[x] && forall y :: y in Neighbors(k, x) ==> IntEqualsSet(v, D[y])
  }

  /**
    As written, `revise` removes nothing from the domain of a cell that has a
    neighbour, which every cell of a board of size 4 or more has: `ac3` then
    never changes a domain.
  */
  lemma RemovalsAsWrittenEmpty(D: Domains, k: nat, x: Cell)
    requires k > 1 && InRange(k * k, x) && x in D
    requires forall y :: y in Neighbors(k, x) ==> y in D
    ensures RemovalsAsWritten(D, k, x) == {}
  {
    var y := if x.1 == 0 then (x.0, 1) else (x.0, 0);
    assert 1 < k * k by {
      MulLe(2, k, k);
    }
    NeighborsArePeers(k, x);
    assert y in Neighbors(k, x);
  }

  /**
    The values the AC-3 rule removes from x's domain for the arc to its
    neighbour y: a value that y's domain holds alone, since y must then take
    it and x cannot.
  */
  function Removals(D: Domains, x: Cell, y: Cell): set<int>
    requires x in D && y in D
  {
    set v | v in D[x] && D[y] == {v}
  }

  /** The AC-3 rule removes at most one value: y's single value, when x's domain holds it. */
  lemma RemovalsAreForcedValue(D: Domains, x: Cell, y: Cell)
    requires x in D && y in D
    ensures Removals(D, x, y) == (if |D[y]| == 1 && D[y] <= D[x] then D[y] else {})
  {
    forall v | v in D[y] && |D[y]| == 1 {
      SingletonIs(D[y], v);
    }
  }

  /** `revise(x, y)` with the AC-3 rule: x's domain loses the removals, no other domain changes. */
  function Revised(D: Domains, x: Cell, y: Cell): (D': Domains)
    requires x in D && y in D
    ensures Shrinks(D', D)
    ensures forall z :: z in D && z != x ==> D'[z] == D[z]
  {
    D[x := D[x] - Removals(D, x, y)]
  }

  /**
    Discrepancy of `revise` as written: when a neighbour y of x holds only a
    value v that x still allows, the AC-3 rule removes v from x and the code
    as written does not.
  */
  lemma ReviseAsWrittenMissesForcedValue(D: Domains, k: nat, x: Cell, y: Cell, v: int)
    requires k > 1 && InRange(k * k, x) && x in D && y in Neighbors(k, x)
    requires forall z :: z in Neighbors(k, x) ==> z in D
    requires v in D[x] && D[y] == {v}
    ensures v !in Revised(D, x, y)[x]
    ensures v !in RemovalsAsWritten(D, k, x)
  {
    RemovalsAsWrittenEmpty(D, k, x);
  }

  /**
    What `revise` promises: it reports a change exactly when x's domain lost
    a value, and a value leaves only when the neighbour y holds it alone.
  */
  lemma RevisedRemovesForcedValues(D: Domains, x: Cell, y: Cell)
    requires x in D && y in D
    ensures Revised(D, x, y)[x] != D[x] <==> Removals(D, x, y) != {}
    ensures forall v :: v in D[x] && v !in Revised(D, x, y)[x] ==> D[y] == {v}
  {
    var R := Removals(D, x, y);
    if R != {} {
      var v := Lost({}, R);
      assert v !in Revised(D, x, y)[x];
    }
  }

  /** The AC-3 rule loses no solution: in a solution, x differs from its neighbour y. */
  lemma RevisedKeepsSolutions(D: Domains, k: nat, x: Cell, y: Cell)
    requires k > 0 && InRange(k * k, x) && y in Neighbors(k, x) && x in D && y in D
    ensures KeepsSolutions(Revised(D, x, y), D, k)
  {
    forall g | Solution(g, k) && Fits(g, D, k * k) ensures Fits(g, Revised(D, x, y), k * k) {
      SolutionNeighborsDiffer(g, k, x, y);
      if D[y] == {g[x.0][x.1]} {
        SingletonFixes(g, D, k * k, y, g[x.0][x.1]);
      }
    }
  }

  // ---------------------------------------------------------------------
  // forward_check
  // ---------------------------------------------------------------------

  /** Every cell of s is on the board and has a domain in D. */
  predicate OnBoard(D: Domains, k: nat, s: seq<Cell>) {
    forall x :: x in s ==> InRange(k * k, x) && x in D
  }

  /**
    The visit of cell x by `forward_check`: when x's domain holds a single
    value at that moment, every neighbour of x loses that value.
  */
  function Visit(D: Domains, k: nat, x: Cell): (D': Domains)
    requires k > 0 && InRange(k * k, x) && x in D
    ensures Shrinks(D', D) && D'[x] == D[x]
  {
    if |D[x]| == 1 then RemoveFrom(D, Neighbors(k, x), D[x]) else D
  }

  /** D with the values of R taken out of the domains of the cells of N. */
  function RemoveFrom(D: Domains, N: set<Cell>, R: set<int>): (D': Domains)
    ensures D'.Keys == D.Keys
    ensures forall y :: y in D ==> D'[y] == if y in N then D[y] - R else D[y]
  {
    map y | y in D :: if y in N then D[y] - R else D[y]
  }

  /** The domains after `forward_check` has visited the cells of s in order. */
  function VisitAll(D: Domains, k: nat, s: seq<Cell>): (D': Domains)
    requires k > 0 && OnBoard(D, k, s)
    ensures Shrinks(D', D)
  {
    if s == [] then D
    else
      var D1 := VisitAll(D, k, s[..|s| - 1]);
      Visit(D1, k, s[|s| - 1])
  }

  /** `forward_check`: every cell visited once, in the row-major order of the dictionary. */
  function ForwardChecked(D: Domains, k: nat): (D': Domains)
    requires k > 0 && Covers(D, k * k)
    ensures Shrinks(D', D)
  {
    RowMajorOrder(k * k);
    VisitAll(D, k, RowMajor(k * k))
  }

  /** Visiting a cell loses no solution: the neighbours of a singleton {v} cannot hold v. */
  lemma VisitKeepsSolutions(D: Domains, k: nat, x: Cell)
    requires k > 0 && InRange(k * k, x) && x in D
    ensures KeepsSolutions(Visit(D, k, x), D, k)
  {
    if |D[x]| == 1 {
      var v := Lost({}, D[x]);
      SingletonIs(D[x], v);
      var D' := Visit(D, k, x);
      forall g | Solution(g, k) && Fits(g, D, k * k) ensures Fits(g, D', k * k) {
        SingletonFixes(g, D, k * k, x, v);
        forall i, j | 0 <= i < k * k && 0 <= j < k * k ensures (i, j) in D' && g[i][j] in D'[(i, j)] {
          assert g[i][j] in D[(i, j)];
          if (i, j) in Neighbors(k, x) {
            SolutionNeighborsDiffer(g, k, x, (i, j));
          }
        }
      }
    }
  }

  /** A cell committed to v keeps exactly v in any solved domains shrunk from that commitment. */
  lemma SolvedKeepsCommitment(D: Domains, D1: Domains, n: nat, x: Cell, v: int)
    requires Covers(D, n) && IsSolved(D, n) && InRange(n, x)
    requires Shrinks(D, D1) && D1[x] == {v}
    ensures D[x] == {v}
  {
    assert |D[x]| == 1;
    var w :| w in D[x];
    SingletonIs(D[x], w);
  }

  /** A set of one element is that element's singleton. */
  lemma SingletonIs<T>(s: set<T>, v: T)
    requires |s| == 1 && v in s
    ensures s == {v}
  {
    var rest := s - {v};
    assert s == rest + {v};
  }

  /** `forward_check` loses no solution. */
  lemma {:induction false} VisitAllKeepsSolutions(D: Domains, k: nat, s: seq<Cell>)
    requires k > 0 && OnBoard(D, k, s)
    ensures KeepsSolutions(VisitAll(D, k, s), D, k)
  {
    if s != [] {
      var front := s[..|s| - 1];
      assert OnBoard(D, k, front);
      VisitAllKeepsSolutions(D, k, front);
      VisitKeepsSolutions(VisitAll(D, k, front), k, s[|s| - 1]);
    }
  }

  /** Visiting s and then t is visiting s + t. */
  lemma {:induction false} VisitAllAppend(D: Domains, k: nat, s: seq<Cell>, t: seq<Cell>)
    requires k > 0 && OnBoard(D, k, s + t)
    ensures OnBoard(D, k, s) && OnBoard(VisitAll(D, k, s), k, t)
    ensures VisitAll(D, k, s + t) == VisitAll(VisitAll(D, k, s), k, t)
    decreases |t|
  {
    assert OnBoard(D, k, s);
    if t == [] {
      assert s + t == s;
    } else {
      var t' := t[..|t| - 1];
      assert (s + t)[..|s + t| - 1] == s + t';
      assert (s + t)[|s + t| - 1] == t[|t| - 1];
      VisitAllAppend(D, k, s, t');
    }
  }

  /** One visit removes v from y only when y neighbours the visited cell and that cell holds {v}. */
  lemma VisitRemoval(D: Domains, k: nat, x: Cell, y: Cell, v: int)
    requires k > 0 && InRange(k * k, x) && x in D && y in D
    requires v in D[y] && v !in Visit(D, k, x)[y]
    ensures y in Neighbors(k, x) && D[x] == {v}
  {
    SingletonIs(D[x], v);
  }

  /** Visiting s, cell s[i] held {v} alone and neighbours y. */
  ghost predicate RemovedBy(D: Domains, k: nat, s: seq<Cell>, y: Cell, v: int, i: int)
    requires k > 0 && OnBoard(D, k, s)
  {
    0 <= i < |s| && y in Neighbors(k, s[i]) &&
    (assert OnBoard(D, k, s[..i]); VisitAll(D, k, s[..i])[s[i]] == {v})
  }

  /**
    A value leaves a cell's domain only when a neighbour held exactly that
    value, alone, at the moment `forward_check` visited it.
  */
  lemma {:induction false} VisitAllRemovalJustified(D: Domains, k: nat, s: seq<Cell>, y: Cell, v: int)
    requires k > 0 && OnBoard(D, k, s) && y in D
    requires v in D[y] && v !in VisitAll(D, k, s)[y]
    ensures exists i :: RemovedBy(D, k, s, y, v, i)
  {
    var last := |s| - 1;
    var front := s[..last];
    assert OnBoard(D, k, front);
    var D1 := VisitAll(D, k, front);
    if v !in D1[y] {
      VisitAllRemovalJustified(D, k, front, y, v);
      var i :| RemovedBy(D, k, front, y, v, i);
      assert front[..i] == s[..i];
      assert RemovedBy(D, k, s, y, v, i);
    } else {
      VisitRemoval(D1, k, s[last], y, v);
      assert RemovedBy(D, k, s, y, v, last);
    }
  }

  /**
    Once a cell that holds {v} is visited, its neighbours no longer hold v:
    a cell visited in s that holds {v} before and after has no neighbour
    whose domain still holds v.
  */
  lemma VisitAllClearsSingletons(D: Domains, k: nat, s: seq<Cell>, i: int, v: int, y: Cell)
    requires k > 0 && OnBoard(D, k, s) && 0 <= i < |s| && y in D
    requires D[s[i]] == {v} && VisitAll(D, k, s)[s[i]] == {v} && y in Neighbors(k, s[i])
    ensures v !in VisitAll(D, k, s)[y]
  {
    VisitAllAt(D, k, s, i);
    var Dx := VisitAll(D, k, s[..i]);
    assert Dx[s[i]] == {v};
    VisitClears(Dx, k, s[i], y, v);
  }

  /** Visiting s is visiting s[..i], then s[i], then the rest. */
  lemma VisitAllAt(D: Domains, k: nat, s: seq<Cell>, i: int)
    requires k > 0 && OnBoard(D, k, s) && 0 <= i < |s|
    ensures OnBoard(D, k, s[..i]) && OnBoard(D, k, s[..i + 1])
    ensures OnBoard(VisitAll(D, k, s[..i + 1]), k, s[i + 1..])
    ensures VisitAll(D, k, s[..i + 1]) == Visit(VisitAll(D, k, s[..i]), k, s[i])
    ensures VisitAll(D, k, s) == VisitAll(VisitAll(D, k, s[..i + 1]), k, s[i + 1..])
  {
    assert s == s[..i + 1] + s[i + 1..];
    VisitAllAppend(D, k, s[..i + 1], s[i + 1..]);
    assert s[..i + 1][..i] == s[..i];
    assert OnBoard(D, k, s[..i]);
  }

  /** The visit of a cell that holds {v} removes v from every neighbour. */
  lemma VisitClears(D: Domains, k: nat, x: Cell, y: Cell, v: int)
    requires k > 0 && InRange(k * k, x) && x in D && y in D
    requires D[x] == {v} && y in Neighbors(k, x)
    ensures v !in Visit(D, k, x)[y]
  {
  }


  /**
    After `forward_check`, a cell that holds {v} before and after has no
    neighbour whose domain still holds v.
  */
  lemma SingletonsCleared(D: Domains, k: nat, x: Cell, v: int, y: Cell)
    requires k > 0 && Covers(D, k * k) && InRange(k * k, x) && InRange(k * k, y) && y in Neighbors(k, x)
    requires D[x] == {v} && ForwardChecked(D, k)[x] == {v}
    ensures v !in ForwardChecked(D, k)[y]
  {
    RowMajorOrder(k * k);
    var s := RowMajor(k * k);
    var i :| 0 <= i < |s| && s[i] == x;
    NeighborsArePeers(k, x);
    VisitAllClearsSingletons(D, k, s, i, v, y);
  }

  /** `forward_check` over the whole board loses no solution. */
  lemma ForwardCheckedKeepsSolutions(D: Domains, k: nat)
    requires k > 0 && Covers(D, k * k)
    ensures KeepsSolutions(ForwardChecked(D, k), D, k)
  {
    RowMajorOrder(k * k);
    VisitAllKeepsSolutions(D, k, RowMajor(k * k));
  }

  /**
    The search's dead end at cell x: when no value of x's domain is held at x
    by a solution, no solution fits at all.
  */
  lemma AllValuesRefuted(D: Domains, k: nat, x: Cell)
    requires k > 0 && InRange(k * k, x) && x in D
    requires forall g, v :: v in D[x] && Solution(g, k) && Fits(g, D, k * k) ==> g[x.0][x.1] != v
    ensures !Solvable(D, k)
  {
  }

  /**
    v belongs to x's domain in D and every smaller value of that domain is
    ruled out: no solution fitting D holds it at x. Nothing is said about v
    itself, which may be ruled out as well.
  */
  ghost predicate SmallerValuesRuledOut(D: Domains, k: nat, x: Cell, v: int)
    requires k > 0
  {
    && InRange(k * k, x) && x in D && v in D[x]
    && forall w, g :: w in D[x] && w < v && Solution(g, k) && Fits(g, D, k * k) ==> g[x.0][x.1] != w
  }

  /**
    What a successful `backtrack_csp` leaves when D0 was not solved: the
    cell `select_unassigned_variable` chose in D0 holds, in D, a single value
    of its D0 domain, and every smaller value of that domain is ruled out.
  */
  ghost predicate MrvCommitted(D0: Domains, D: Domains, k: nat)
    requires k > 0 && Covers(D0, k * k)
  {
    !IsSolved(D0, k * k) ==>
      && SelectUnassigned(D0, k * k).Some?
      && var x := SelectUnassigned(D0, k * k).value;
      && x in D
      && exists v :: D[x] == {v} && SmallerValuesRuledOut(D0, k, x, v)
  }

  /**
    Values of x's domain tried in ascending order: when every value before
    position i is ruled out, every value of the domain smaller than the
    value at i is ruled out.
  */
  lemma AscendingRulesOutSmaller(D: Domains, k: nat, x: Cell, vs: seq<int>, i: int)
    requires k > 0 && InRange(k * k, x) && x in D && 0 <= i < |vs|
    requires forall v :: v in vs <==> v in D[x]
    requires forall p, q :: 0 <= p < q < |vs| ==> vs[p] < vs[q]
    requires forall g, v :: v in vs[..i] && Solution(g, k) && Fits(g, D, k * k) ==> g[x.0][x.1] != v
    ensures SmallerValuesRuledOut(D, k, x, vs[i])
  {
    forall w, g | w in D[x] && w < vs[i] && Solution(g, k) && Fits(g, D, k * k) ensures g[x.0][x.1] != w {
      var p :| 0 <= p < |vs| && vs[p] == w;
      assert vs[..i][p] == w;
      assert w in vs[..i];
    }
  }
}
