/** The usual Some/None datatype, for the solver's "no such cell" answers. */
module Optional {
  datatype Option<+T> = None | Some(value: T)
}

/**
  The validity oracle shared by every solver: the board as a square grid of
  integers (0 is an empty cell), the placement check `is_valid`, the
  whole-board check `is_board_valid` with its helper `is_unique`, and the
  row-major scan `find_empty`.

  Each solver keeps its board in an `array2<int>`; what the board holds at a
  given moment is `Snapshot(board)`, a sequence of rows, and every
  specification below is stated on that value.
*/
module Board {
  import opened Optional

  type Cell = (int, int)
  type Grid = seq<seq<int>>

  /** g has n rows of n columns each. */
  predicate IsGrid(g: Grid, n: nat) {
    |g| == n && forall i :: 0 <= i < n ==> |g[i]| == n
  }

  /** Cell x lies on the n-by-n board. */
  predicate InRange(n: nat, x: Cell) {
    0 <= x.0 < n && 0 <= x.1 < n
  }

  /** The contents of a board array, row by row. */
  function Snapshot(b: array2<int>): (g: Grid)
    reads b
    ensures |g| == b.Length0
    ensures forall i :: 0 <= i < b.Length0 ==> |g[i]| == b.Length1
    ensures forall i, j :: 0 <= i < b.Length0 && 0 <= j < b.Length1 ==> g[i][j] == b[i, j]
  {
    seq(b.Length0, i requires 0 <= i < b.Length0 reads b =>
      seq(b.Length1, j requires 0 <= j < b.Length1 reads b => b[i, j]))
  }

  /** The grid with cell (r, c) set to v. */
  function Place(g: Grid, r: int, c: int, v: int): Grid
    requires 0 <= r < |g| && 0 <= c < |g[r]|
  {
    g[r := g[r][c := v]]
  }

  // ---------------------------------------------------------------------
  // Subgrids. The source finds the subgrid of index i from its origin
  // (i // k) * k; two cells share a subgrid when both indices agree after
  // division by k.
  // ---------------------------------------------------------------------

  /** First row (or column) of the k-wide band that holds index i. */
  function Origin(i: int, k: nat): int
    requires k > 0
  {
    (i / k) * k
  }

  /** a and b lie in the same k-by-k subgrid. */
  predicate SameSubgrid(k: nat, a: Cell, b: Cell)
    requires k > 0
  {
    a.0 / k == b.0 / k && a.1 / k == b.1 / k
  }

  /** a and b share a row, a column or a subgrid: a not-equal constraint binds them. */
  predicate Peers(k: nat, a: Cell, b: Cell)
    requires k > 0
  {
    a.0 == b.0 || a.1 == b.1 || SameSubgrid(k, a, b)
  }

  lemma DivBlock(i: int, m: int, k: int)
    requires k > 0 && 0 <= i
    ensures i / k == m <==> m * k <= i < m * k + k
  {
    var q, r := i / k, i % k;
    assert i == q * k + r && 0 <= r < k;
    if q < m {
      assert (m - q) * k >= k by { assert m - q >= 1; }
    } else if q > m {
      assert (q - m) * k >= k by { assert q - m >= 1; }
    }
  }

  lemma DivModOf(i: int, j: int, k: int)
    requires k > 0 && 0 <= i && 0 <= j < k
    ensures (i * k + j) / k == i && (i * k + j) % k == j
  {
    DivBlock(i * k + j, i, k);
  }

  lemma DivModSplit(p: int, k: int)
    requires k > 0
    ensures p == (p / k) * k + p % k
  {
  }

  lemma BelowSquare(i: int, j: int, k: int)
    requires 0 <= i < k && 0 <= j < k
    ensures 0 <= i * k + j < k * k
  {
    assert (k - 1 - i) * k >= 0;
  }

  lemma MulLe(a: int, b: int, k: int)
    requires a <= b && 0 <= k
    ensures a * k <= b * k
  {
    var d := b - a;
    assert d * k >= 0;
    assert b * k == a * k + d * k;
  }

  /** Either a < b, or multiplying by k >= 0 keeps b below a. */
  lemma MulCases(a: int, b: int, k: int)
    requires 0 <= k
    ensures a < b || b * k <= a * k
  {
    if b <= a {
      MulLe(b, a, k);
    }
  }

  /** The band of index i (for 0 <= i < k*k) starts at a multiple of k and fits in the board. */
  lemma OriginFacts(i: int, k: nat)
    requires k > 0 && 0 <= i < k * k
    ensures 0 <= i / k < k
    ensures Origin(i, k) <= i < Origin(i, k) + k <= k * k
  {
    var q := i / k;
    DivBlock(i, q, k);
    MulCases(q, k, k);
    MulCases(-1, q, k);
    MulLe(q + 1, k, k);
    assert (q + 1) * k == q * k + k;
  }

  /** j lies in the band of i exactly when i and j have the same quotient by k. */
  lemma SameBand(i: int, j: int, k: nat)
    requires k > 0 && 0 <= i && 0 <= j
    ensures Origin(i, k) <= j < Origin(i, k) + k <==> j / k == i / k
  {
    DivBlock(j, i / k, k);
  }

  // ---------------------------------------------------------------------
  // is_valid
  // ---------------------------------------------------------------------

  /** num occurs nowhere in row `row`. */
  predicate NotInRow(g: Grid, n: nat, row: int, num: int)
    requires IsGrid(g, n) && 0 <= row < n
  {
    forall j :: 0 <= j < n ==> g[row][j] != num
  }

  /** num occurs nowhere in column `col`. */
  predicate NotInColumn(g: Grid, n: nat, col: int, num: int)
    requires IsGrid(g, n) && 0 <= col < n
  {
    forall i :: 0 <= i < n ==> g[i][col] != num
  }

  /** num occurs nowhere in the k-by-k block with top-left cell (r0, c0), clipped to the board. */
  predicate NotInBlock(g: Grid, n: nat, k: nat, r0: int, c0: int, num: int)
    requires IsGrid(g, n)
  {
    forall i, j :: r0 <= i < r0 + k && c0 <= j < c0 + k && 0 <= i < n && 0 <= j < n ==> g[i][j] != num
  }

  /**
    The condition `is_valid(row, col, num)` computes: num occurs nowhere in
    row `row`, nowhere in column `col`, and nowhere in the k-by-k subgrid whose
    origin is (Origin(row), Origin(col)). The cell (row, col) itself is
    inspected too.
  */
  predicate Placeable(g: Grid, k: nat, row: int, col: int, num: int)
    requires k > 0 && IsGrid(g, k * k) && InRange(k * k, (row, col))
  {
    && NotInRow(g, k * k, row, num)
    && NotInColumn(g, k * k, col, num)
    && NotInBlock(g, k * k, k, Origin(row, k), Origin(col, k), num)
  }

  /**
    Partner of Placeable: the row, column and origin-based subgrid scans
    together cover exactly the cell itself and its peers.
  */
  lemma {:induction false} PlaceableIffNoPeerHolds(g: Grid, k: nat, row: int, col: int, num: int)
    requires k > 0 && IsGrid(g, k * k) && InRange(k * k, (row, col))
    ensures Placeable(g, k, row, col, num) <==>
      (g[row][col] != num &&
       forall i, j :: 0 <= i < k * k && 0 <= j < k * k && Peers(k, (i, j), (row, col)) ==> g[i][j] != num)
  {
    var r0, c0 := Origin(row, k), Origin(col, k);
    if Placeable(g, k, row, col, num) {
      forall i, j | 0 <= i < k * k && 0 <= j < k * k && Peers(k, (i, j), (row, col))
        ensures g[i][j] != num
      {
        if i != row && j != col {
          SameBand(row, i, k);
          SameBand(col, j, k);
        }
      }
    } else {
      OriginFacts(row, k);
      OriginFacts(col, k);
      if exists i, j :: r0 <= i < r0 + k && c0 <= j < c0 + k && 0 <= i < k * k && 0 <= j < k * k && g[i][j] == num {
        var i, j :| r0 <= i < r0 + k && c0 <= j < c0 + k && 0 <= i < k * k && 0 <= j < k * k && g[i][j] == num;
        SameBand(row, i, k);
        SameBand(col, j, k);
        assert Peers(k, (i, j), (row, col)) || (i, j) == (row, col);
      }
    }
  }

  /** `num in board[row, :]` */
  method RowContains(b: array2<int>, row: int, num: int) returns (found: bool)
    requires b.Length0 == b.Length1 && 0 <= row < b.Length0
    ensures found == !NotInRow(Snapshot(b), b.Length0, row, num)
  {
    for j := 0 to b.Length1
      invariant forall j' :: 0 <= j' < j ==> b[row, j'] != num
    {
      if b[row, j] == num {
        return true;
      }
    }
    return false;
  }

  /** `num in board[:, col]` */
  method ColumnContains(b: array2<int>, col: int, num: int) returns (found: bool)
    requires b.Length0 == b.Length1 && 0 <= col < b.Length1
    ensures found == !NotInColumn(Snapshot(b), b.Length0, col, num)
  {
    for i := 0 to b.Length0
      invariant forall i' :: 0 <= i' < i ==> b[i', col] != num
    {
      if b[i, col] == num {
        return true;
      }
    }
    return false;
  }

  /** The nested loops over the subgrid with top-left cell (r0, c0). */
  method BlockContains(b: array2<int>, k: nat, r0: int, c0: int, num: int) returns (found: bool)
    requires b.Length0 == b.Length1
    requires 0 <= r0 && r0 + k <= b.Length0 && 0 <= c0 && c0 + k <= b.Length1
    ensures found == !NotInBlock(Snapshot(b), b.Length0, k, r0, c0, num)
  {
    for i := r0 to r0 + k
      invariant forall i', j' :: r0 <= i' < i && c0 <= j' < c0 + k ==> b[i', j'] != num
    {
      for j := c0 to c0 + k
        invariant forall j' :: c0 <= j' < j ==> b[i, j'] != num
      {
        if b[i, j] == num {
          return true;
        }
      }
    }
    return false;
  }

  /** `is_valid(row, col, num)`: row, then column, then subgrid, stopping at the first hit. */
  method IsValid(b: array2<int>, k: nat, row: int, col: int, num: int) returns (ok: bool)
    requires k > 0 && b.Length0 == k * k && b.Length1 == k * k
    requires InRange(k * k, (row, col))
    ensures ok == Placeable(Snapshot(b), k, row, col, num)
  {
    var inRow := RowContains(b, row, num);
    if inRow {
      return false;
    }
    var inColumn := ColumnContains(b, col, num);
    if inColumn {
      return false;
    }
    var startRow, startCol := (row / k) * k, (col / k) * k;
    OriginFacts(row, k);
    OriginFacts(col, k);
    var inBlock := BlockContains(b, k, startRow, startCol, num);
    return !inBlock;
  }

  // ---------------------------------------------------------------------
  // is_unique and is_board_valid
  // ---------------------------------------------------------------------

  /** The positive entries of s, in order: numpy's `array[array > 0]`. */
  function Positives(s: seq<int>): (p: seq<int>)
    ensures forall x :: x in p <==> x in s && x > 0
  {
    if s == [] then [] else (if s[0] > 0 then [s[0]] else []) + Positives(s[1..])
  }

  /** No value occurs twice in p. */
  predicate Distinct(p: seq<int>) {
    forall i, j :: 0 <= i < j < |p| ==> p[i] != p[j]
  }

  /** No positive value occurs twice in s. */
  predicate DistinctPositives(s: seq<int>) {
    forall i, j :: 0 <= i < j < |s| && s[i] > 0 ==> s[i] != s[j]
  }

  /** Python's `set(p)`. */
  function Elements(p: seq<int>): set<int> {
    set x | x in p
  }

  lemma DistinctCons(p: seq<int>)
    requires p != []
    ensures Distinct(p) <==> p[0] !in p[1..] && Distinct(p[1..])
  {
    if p[0] !in p[1..] && Distinct(p[1..]) {
      forall i, j | 0 <= i < j < |p| ensures p[i] != p[j] {
        if i == 0 {
          assert p[j] == p[1..][j - 1];
        } else {
          assert p[i] == p[1..][i - 1] && p[j] == p[1..][j - 1];
        }
      }
    }
  }

  lemma DistinctPositivesCons(s: seq<int>)
    requires s != []
    ensures DistinctPositives(s) <==> (s[0] > 0 ==> s[0] !in s[1..]) && DistinctPositives(s[1..])
  {
    if (s[0] > 0 ==> s[0] !in s[1..]) && DistinctPositives(s[1..]) {
      forall i, j | 0 <= i < j < |s| && s[i] > 0 ensures s[i] != s[j] {
        if i == 0 {
          assert s[j] == s[1..][j - 1];
        } else {
          assert s[i] == s[1..][i - 1] && s[j] == s[1..][j - 1];
        }
      }
    }
  }

  /** A sequence has as many distinct elements as entries exactly when no entry repeats. */
  lemma {:induction false} CardinalityOfElements(p: seq<int>)
    ensures |Elements(p)| <= |p|
    ensures |Elements(p)| == |p| <==> Distinct(p)
  {
    if p != [] {
      CardinalityOfElements(p[1..]);
      DistinctCons(p);
      assert Elements(p) == {p[0]} + Elements(p[1..]);
      if p[0] in p[1..] {
        assert Elements(p) == Elements(p[1..]);
      } else {
        assert |Elements(p)| == 1 + |Elements(p[1..])|;
      }
    } else {
      assert Elements(p) == {};
    }
  }

  /** The positive entries are pairwise distinct exactly when no positive value repeats in s. */
  lemma {:induction false} PositivesDistinct(s: seq<int>)
    ensures Distinct(Positives(s)) <==> DistinctPositives(s)
  {
    if s != [] {
      PositivesDistinct(s[1..]);
      DistinctPositivesCons(s);
      var rest := Positives(s[1..]);
      if s[0] > 0 {
        assert Positives(s) == [s[0]] + rest;
        DistinctCons([s[0]] + rest);
        assert ([s[0]] + rest)[1..] == rest;
      } else {
        assert Positives(s) == rest;
      }
    }
  }

  /**
    `is_unique(array)`: the positive entries, counted with and without
    repetition, agree in number; that is, no positive value occurs twice.
  */
  function IsUnique(s: seq<int>): (r: bool)
    ensures r <==> DistinctPositives(s)
  {
    CardinalityOfElements(Positives(s));
    PositivesDistinct(s);
    |Positives(s)| == |Elements(Positives(s))|
  }

  /** Column col of the grid: `board[:, col]`. */
  function Column(g: Grid, n: nat, col: int): (s: seq<int>)
    requires IsGrid(g, n) && 0 <= col < n
    ensures |s| == n && forall i :: 0 <= i < n ==> s[i] == g[i][col]
  {
    seq(n, i requires 0 <= i < n => g[i][col])
  }

  lemma FlatIndex(a: int, b: int, p: int, k: nat)
    requires k > 0 && 0 <= a < k && 0 <= b < k && 0 <= p < k * k
    ensures 0 <= p / k < k && 0 <= p % k < k
    ensures 0 <= a * k + p / k < k * k && 0 <= b * k + p % k < k * k
  {
    OriginFacts(p, k);
    BelowSquare(a, p / k, k);
    BelowSquare(b, p % k, k);
  }

  /**
    The subgrid whose origin is (a*k, b*k), flattened in row-major order:
    `board[a*k : a*k+k, b*k : b*k+k].flatten()`.
  */
  function Subgrid(g: Grid, k: nat, a: int, b: int): (s: seq<int>)
    requires k > 0 && IsGrid(g, k * k) && 0 <= a < k && 0 <= b < k
    ensures |s| == k * k
  {
    seq(k * k, p requires 0 <= p < k * k =>
      FlatIndex(a, b, p, k);
      g[a * k + p / k][b * k + p % k])
  }

  /** No two distinct peer cells hold the same positive value. */
  predicate NoConflicts(g: Grid, k: nat)
    requires k > 0 && IsGrid(g, k * k)
  {
    forall r1, c1, r2, c2 ::
      0 <= r1 < k * k && 0 <= c1 < k * k && 0 <= r2 < k * k && 0 <= c2 < k * k &&
      (r1, c1) != (r2, c2) && Peers(k, (r1, c1), (r2, c2)) && g[r1][c1] > 0 ==>
        g[r1][c1] != g[r2][c2]
  }

  /** The row, column and subgrid checks of `is_board_valid`, in the source's order. */
  predicate UnitsUnique(g: Grid, k: nat)
    requires k > 0 && IsGrid(g, k * k)
  {
    && (forall i :: 0 <= i < k * k ==> IsUnique(g[i]) && IsUnique(Column(g, k * k, i)))
    && (forall a, b :: 0 <= a < k && 0 <= b < k ==> IsUnique(Subgrid(g, k, a, b)))
  }

  lemma {:induction false} NoConflictsGivesUnits(g: Grid, k: nat)
    requires k > 0 && IsGrid(g, k * k) && NoConflicts(g, k)
    ensures UnitsUnique(g, k)
  {
    var n := k * k;
    forall i | 0 <= i < n ensures IsUnique(g[i]) && IsUnique(Column(g, n, i)) {
      forall c1, c2 | 0 <= c1 < c2 < n && g[i][c1] > 0 ensures g[i][c1] != g[i][c2] {
        assert Peers(k, (i, c1), (i, c2));
      }
      var col := Column(g, n, i);
      forall r1, r2 | 0 <= r1 < r2 < n && col[r1] > 0 ensures col[r1] != col[r2] {
        assert Peers(k, (r1, i), (r2, i));
      }
    }
    forall a, b | 0 <= a < k && 0 <= b < k ensures IsUnique(Subgrid(g, k, a, b)) {
      var s := Subgrid(g, k, a, b);
      forall p, q | 0 <= p < q < n && s[p] > 0 ensures s[p] != s[q] {
        SubgridPairDiffers(g, k, a, b, p, q);
      }
    }
  }

  lemma SubgridPairDiffers(g: Grid, k: nat, a: int, b: int, p: int, q: int)
    requires k > 0 && IsGrid(g, k * k) && NoConflicts(g, k)
    requires 0 <= a < k && 0 <= b < k && 0 <= p < q < k * k
    ensures Subgrid(g, k, a, b)[p] > 0 ==> Subgrid(g, k, a, b)[p] != Subgrid(g, k, a, b)[q]
  {
    FlatIndex(a, b, p, k);
    FlatIndex(a, b, q, k);
    SubgridPositionsArePeers(k, a, b, p, q);
    var r1, c1 := a * k + p / k, b * k + p % k;
    var r2, c2 := a * k + q / k, b * k + q % k;
    var s := Subgrid(g, k, a, b);
    assert s[p] == g[r1][c1] && s[q] == g[r2][c2];
  }

  /** Cell (r, c) sits at position p of the flattened subgrid (r / k, c / k). */
  lemma PositionInSubgrid(k: nat, r: int, c: int) returns (p: int)
    requires k > 0 && 0 <= r < k * k && 0 <= c < k * k
    ensures 0 <= r / k < k && 0 <= c / k < k && 0 <= p < k * k
    ensures 0 <= p / k < k && 0 <= p % k < k
    ensures (r / k) * k + p / k == r && (c / k) * k + p % k == c
  {
    var a, b := r / k, c / k;
    OriginFacts(r, k);
    OriginFacts(c, k);
    var i, j := r - a * k, c - b * k;
    BelowSquare(i, j, k);
    DivModOf(i, j, k);
    p := i * k + j;
  }

  lemma SubgridConflictIsSeen(g: Grid, k: nat, r1: int, c1: int, r2: int, c2: int)
    requires k > 0 && IsGrid(g, k * k)
    requires InRange(k * k, (r1, c1)) && InRange(k * k, (r2, c2)) && (r1, c1) != (r2, c2)
    requires SameSubgrid(k, (r1, c1), (r2, c2)) && g[r1][c1] > 0
    requires 0 <= r1 / k < k && 0 <= c1 / k < k
    requires IsUnique(Subgrid(g, k, r1 / k, c1 / k))
    ensures g[r1][c1] != g[r2][c2]
  {
    var p := PositionInSubgrid(k, r1, c1);
    var q := PositionInSubgrid(k, r2, c2);
    var s := Subgrid(g, k, r1 / k, c1 / k);
    assert s[p] == g[r1][c1];
    assert s[q] == g[r2][c2];
    if p < q {
      assert s[p] > 0 ==> s[p] != s[q];
    } else if q < p {
      assert s[q] > 0 ==> s[q] != s[p];
    }
  }

  /** Two positions of one flattened subgrid name two distinct peer cells. */
  lemma SubgridPositionsArePeers(k: nat, a: int, b: int, p: int, q: int)
    requires k > 0 && 0 <= a < k && 0 <= b < k && 0 <= p < q < k * k
    ensures 0 <= p / k < k && 0 <= q / k < k
    ensures (a * k + p / k, b * k + p % k) != (a * k + q / k, b * k + q % k)
    ensures Peers(k, (a * k + p / k, b * k + p % k), (a * k + q / k, b * k + q % k))
  {
    OriginFacts(p, k);
    OriginFacts(q, k);
    DivModSplit(p, k);
    DivModSplit(q, k);
    DivModOf(a, p / k, k); DivModOf(a, q / k, k);
    DivModOf(b, p % k, k); DivModOf(b, q % k, k);
  }

  lemma {:induction false} UnitsGiveNoConflicts(g: Grid, k: nat)
    requires k > 0 && IsGrid(g, k * k) && UnitsUnique(g, k)
    ensures NoConflicts(g, k)
  {
    var n := k * k;
    forall r1, c1, r2, c2 |
      0 <= r1 < n && 0 <= c1 < n && 0 <= r2 < n && 0 <= c2 < n &&
      (r1, c1) != (r2, c2) && Peers(k, (r1, c1), (r2, c2)) && g[r1][c1] > 0
      ensures g[r1][c1] != g[r2][c2]
    {
      if r1 == r2 {
        assert IsUnique(g[r1]);
        if c1 > c2 { assert g[r1][c2] > 0 || g[r1][c2] != g[r1][c1]; }
      } else if c1 == c2 {
        var col := Column(g, n, c1);
        assert IsUnique(col);
        assert col[r1] == g[r1][c1] && col[r2] == g[r2][c2];
        if r1 > r2 { assert col[r2] > 0 || col[r2] != col[r1]; }
      } else {
        OriginFacts(r1, k);
        OriginFacts(c1, k);
        SubgridConflictIsSeen(g, k, r1, c1, r2, c2);
      }
    }
  }

  /**
    `is_board_valid`: every row, every column and every k-by-k subgrid (origins
    at multiples of k) is free of repeated positive values; equivalently, no two
    peer cells hold the same positive value.
  */
  function IsBoardValid(g: Grid, k: nat): (r: bool)
    requires k > 0 && IsGrid(g, k * k)
    ensures r <==> NoConflicts(g, k)
  {
    if UnitsUnique(g, k) then UnitsGiveNoConflicts(g, k); true
    else (if NoConflicts(g, k) then NoConflictsGivesUnits(g, k); false else false)
  }

  // ---------------------------------------------------------------------
  // find_empty
  // ---------------------------------------------------------------------

  /** Cell a comes before cell b in row-major order. */
  predicate Before(a: Cell, b: Cell) {
    a.0 < b.0 || (a.0 == b.0 && a.1 < b.1)
  }

  /** x is a zero cell of g and every cell before it in row-major order is non-zero. */
  predicate IsFirstEmpty(g: Grid, x: Cell) {
    && 0 <= x.0 < |g| && 0 <= x.1 < |g[x.0]| && g[x.0][x.1] == 0
    && forall i, j :: 0 <= i < |g| && 0 <= j < |g[i]| && Before((i, j), x) ==> g[i][j] != 0
  }

  /** The set of empty cells: the measure that every placement of the search shrinks. */
  function ZeroCells(g: Grid): set<Cell> {
    set i, j | 0 <= i < |g| && 0 <= j < |g[i]| && g[i][j] == 0 :: (i, j)
  }

  /** The first zero of row at an index at least j. */
  function FirstZeroFrom(row: seq<int>, j: nat): (r: Option<nat>)
    requires j <= |row|
    decreases |row| - j
    ensures r.None? ==> forall t :: j <= t < |row| ==> row[t] != 0
    ensures r.Some? ==> j <= r.value < |row| && row[r.value] == 0
    ensures r.Some? ==> forall t :: j <= t < r.value ==> row[t] != 0
  {
    if j == |row| then None
    else if row[j] == 0 then Some(j)
    else FirstZeroFrom(row, j + 1)
  }

  /** The first zero cell, in row-major order, of the rows from i on. */
  function FirstEmptyFrom(g: Grid, i: nat): (e: Option<Cell>)
    requires i <= |g|
    decreases |g| - i
    ensures e.None? ==> forall r, c :: i <= r < |g| && 0 <= c < |g[r]| ==> g[r][c] != 0
    ensures e.Some? ==> i <= e.value.0 < |g| && 0 <= e.value.1 < |g[e.value.0]|
    ensures e.Some? ==> g[e.value.0][e.value.1] == 0
    ensures e.Some? ==> forall r, c :: i <= r < |g| && 0 <= c < |g[r]| && Before((r, c), e.value) ==> g[r][c] != 0
  {
    if i == |g| then None
    else match FirstZeroFrom(g[i], 0)
      case Some(j) => Some((i, j))
      case None => FirstEmptyFrom(g, i + 1)
  }

  /**
    `find_empty`: the first cell in row-major order whose value is 0, and None
    exactly when the grid has no zero at all.
  */
  function FirstEmpty(g: Grid): (e: Option<Cell>)
    ensures e.None? <==> ZeroCells(g) == {}
    ensures e.Some? ==> IsFirstEmpty(g, e.value) && e.value in ZeroCells(g)
  {
    var e := FirstEmptyFrom(g, 0);
    assert e.None? ==> forall x :: x !in ZeroCells(g);
    assert e.Some? ==> e.value in ZeroCells(g);
    e
  }

  /** There is only one first empty cell. */
  lemma FirstEmptyUnique(g: Grid, x: Cell, y: Cell)
    requires IsFirstEmpty(g, x) && IsFirstEmpty(g, y)
    ensures x == y
  {
  }

  /** `find_empty` over the board array: nested scan with an early return. */
  method FindEmpty(b: array2<int>) returns (e: Option<Cell>)
    ensures e == FirstEmpty(Snapshot(b))
  {
    ghost var g := Snapshot(b);
    for i := 0 to b.Length0
      invariant forall r, c :: 0 <= r < i && 0 <= c < b.Length1 ==> b[r, c] != 0
    {
      for j := 0 to b.Length1
        invariant forall r, c :: 0 <= r < i && 0 <= c < b.Length1 ==> b[r, c] != 0
        invariant forall c :: 0 <= c < j ==> b[i, c] != 0
      {
        if b[i, j] == 0 {
          assert IsFirstEmpty(g, (i, j));
          FirstEmptyUnique(g, (i, j), FirstEmpty(g).value);
          return Some((i, j));
        }
      }
    }
    assert ZeroCells(g) == {};
    return None;
  }

  /** Writing back the old value of a cell undoes a placement. */
  lemma PlaceUndo(g: Grid, r: int, c: int, v: int)
    requires 0 <= r < |g| && 0 <= c < |g[r]|
    ensures Place(Place(g, r, c, v), r, c, g[r][c]) == g
  {
    assert Place(g, r, c, v)[r][c := g[r][c]] == g[r];
  }

  /** Writing one cell of the board array changes its snapshot in that cell only. */
  lemma SnapshotAfterWrite(b: array2<int>, before: Grid, r: int, c: int)
    requires |before| == b.Length0 && forall i :: 0 <= i < |before| ==> |before[i]| == b.Length1
    requires 0 <= r < b.Length0 && 0 <= c < b.Length1
    requires forall i, j :: 0 <= i < b.Length0 && 0 <= j < b.Length1 && (i, j) != (r, c) ==> b[i, j] == before[i][j]
    ensures Snapshot(b) == Place(before, r, c, b[r, c])
  {
    var after := Snapshot(b);
    var placed := Place(before, r, c, b[r, c]);
    forall i | 0 <= i < |before| ensures after[i] == placed[i] {
      assert |after[i]| == |placed[i]|;
    }
  }

  // ---------------------------------------------------------------------
  // What a backtracking search may do to the board
  // ---------------------------------------------------------------------

  /**
    g1 has the shape of g0 and agrees with it on every cell that is non-zero
    in g0: the given cells are never overwritten.
  */
  ghost predicate KeepsGivens(g0: Grid, g1: Grid) {
    && |g0| == |g1|
    && (forall i :: 0 <= i < |g0| ==> |g0[i]| == |g1[i]|)
    && forall i, j :: 0 <= i < |g0| && 0 <= j < |g0[i]| && g0[i][j] != 0 ==> g1[i][j] == g0[i][j]
  }

  /**
    g1 is a completion of g0 by the search: no zero is left, every cell that
    was empty in g0 holds a value in 1..k*k, and each such value differs from
    the values of all the cell's peers.
  */
  ghost predicate Completes(g0: Grid, g1: Grid, k: nat)
    requires k > 0
  {
    && IsGrid(g0, k * k) && IsGrid(g1, k * k)
    && ZeroCells(g1) == {}
    && (forall i, j :: 0 <= i < k * k && 0 <= j < k * k && g0[i][j] == 0 ==> 1 <= g1[i][j] <= k * k)
    && (forall r1, c1, r2, c2 ::
          0 <= r1 < k * k && 0 <= c1 < k * k && 0 <= r2 < k * k && 0 <= c2 < k * k &&
          g0[r1][c1] == 0 && (r1, c1) != (r2, c2) && Peers(k, (r1, c1), (r2, c2)) ==>
            g1[r1][c1] != g1[r2][c2])
  }

  /** Placing v in an empty cell removes exactly that cell from the empty cells. */
  lemma ZeroCellsAfterPlace(g: Grid, r: int, c: int, v: int)
    requires 0 <= r < |g| && 0 <= c < |g[r]| && g[r][c] == 0 && v != 0
    ensures (r, c) in ZeroCells(g)
    ensures ZeroCells(Place(g, r, c, v)) == ZeroCells(g) - {(r, c)}
    ensures |ZeroCells(Place(g, r, c, v))| == |ZeroCells(g)| - 1
  {
    var g' := Place(g, r, c, v);
    forall x ensures x in ZeroCells(g') <==> x in ZeroCells(g) - {(r, c)} {
      if x in ZeroCells(g') {
        var i, j :| 0 <= i < |g'| && 0 <= j < |g'[i]| && g'[i][j] == 0 && x == (i, j);
        assert g[i][j] == 0;
      }
      if x in ZeroCells(g) - {(r, c)} {
        var i, j :| 0 <= i < |g| && 0 <= j < |g[i]| && g[i][j] == 0 && x == (i, j);
        assert g'[i][j] == 0;
      }
    }
  }

  /**
    The step of every backtracking search: if the value v placed in the empty
    cell (r, c) passes `is_valid`, and the search then completes the resulting
    grid without touching its non-zero cells, it has completed the original grid.
  */
  lemma {:induction false} PlacementExtends(g0: Grid, g: Grid, k: nat, r: int, c: int, v: int)
    requires k > 0 && IsGrid(g0, k * k) && IsGrid(g, k * k) && InRange(k * k, (r, c))
    requires g0[r][c] == 0 && 1 <= v <= k * k && Placeable(g0, k, r, c, v)
    requires KeepsGivens(Place(g0, r, c, v), g) && Completes(Place(g0, r, c, v), g, k)
    ensures KeepsGivens(g0, g) && Completes(g0, g, k)
  {
    var n := k * k;
    var g1 := Place(g0, r, c, v);
    assert g[r][c] == v;
    PlaceableIffNoPeerHolds(g0, k, r, c, v);
    forall r1, c1, r2, c2 |
      0 <= r1 < n && 0 <= c1 < n && 0 <= r2 < n && 0 <= c2 < n &&
      g0[r1][c1] == 0 && (r1, c1) != (r2, c2) && Peers(k, (r1, c1), (r2, c2))
      ensures g[r1][c1] != g[r2][c2]
    {
      if (r1, c1) == (r, c) {
        if g0[r2][c2] != 0 {
          assert g[r2][c2] == g0[r2][c2];
        } else {
          assert g1[r2][c2] == 0 && Peers(k, (r2, c2), (r1, c1));
        }
      } else {
        assert g1[r1][c1] == 0;
      }
    }
  }

  /** Some grid completes g0 while keeping its given cells. */
  ghost predicate Completable(g0: Grid, k: nat)
    requires k > 0
  {
    exists g :: KeepsGivens(g0, g) && Completes(g0, g, k)
  }

  /** Value v at the empty cell (r, c) leads nowhere: it fails `is_valid` or leaves a grid no completion exists for. */
  ghost predicate DeadEnd(g0: Grid, k: nat, r: int, c: int, v: int)
    requires k > 0 && IsGrid(g0, k * k) && InRange(k * k, (r, c))
  {
    Placeable(g0, k, r, c, v) ==> !Completable(Place(g0, r, c, v), k)
  }

  /**
    The converse step: a completion g of g0 puts at the empty cell (r, c) a
    value of 1..k*k that passes `is_valid` on g0, and g also completes the grid
    with that value placed. So a search that tries every such value misses no
    completion.
  */
  lemma CompletionChoosesPlaceable(g0: Grid, g: Grid, k: nat, r: int, c: int)
    requires k > 0 && IsGrid(g0, k * k) && IsGrid(g, k * k) && InRange(k * k, (r, c))
    requires g0[r][c] == 0 && KeepsGivens(g0, g) && Completes(g0, g, k)
    ensures 1 <= g[r][c] <= k * k && Placeable(g0, k, r, c, g[r][c])
    ensures KeepsGivens(Place(g0, r, c, g[r][c]), g) && Completes(Place(g0, r, c, g[r][c]), g, k)
  {
    var n := k * k;
    var v := g[r][c];
    forall i, j | 0 <= i < n && 0 <= j < n && (i, j) != (r, c) && Peers(k, (r, c), (i, j))
      ensures g0[i][j] != v
    {
      if g0[i][j] != 0 {
        assert g[i][j] == g0[i][j];
      }
    }
    PlaceableIffNoPeerHolds(g0, k, r, c, v);
  }

  /**
    If g0 can be completed, some value of 1..k*k at its empty cell (r, c) is
    not a dead end; a search that finds every value a dead end may therefore
    report that no completion exists.
  */
  lemma CompletableHasLiveValue(g0: Grid, k: nat, r: int, c: int)
    requires k > 0 && IsGrid(g0, k * k) && InRange(k * k, (r, c)) && g0[r][c] == 0
    ensures Completable(g0, k) ==> exists v :: 1 <= v <= k * k && !DeadEnd(g0, k, r, c, v)
  {
    if Completable(g0, k) {
      var g :| KeepsGivens(g0, g) && Completes(g0, g, k);
      CompletionChoosesPlaceable(g0, g, k, r, c);
      assert !DeadEnd(g0, k, r, c, g[r][c]);
    }
  }

  /** A completion of a board without conflicts has no conflicts either. */
  lemma CompletionKeepsNoConflicts(g0: Grid, g: Grid, k: nat)
    requires k > 0 && IsGrid(g0, k * k) && IsGrid(g, k * k)
    requires NoConflicts(g0, k) && KeepsGivens(g0, g) && Completes(g0, g, k)
    ensures NoConflicts(g, k)
  {
    var n := k * k;
    forall r1, c1, r2, c2 |
      0 <= r1 < n && 0 <= c1 < n && 0 <= r2 < n && 0 <= c2 < n &&
      (r1, c1) != (r2, c2) && Peers(k, (r1, c1), (r2, c2)) && g[r1][c1] > 0
      ensures g[r1][c1] != g[r2][c2]
    {
      if g0[r1][c1] == 0 {
      } else if g0[r2][c2] == 0 {
        assert Peers(k, (r2, c2), (r1, c1));
      } else {
        assert g0[r1][c1] > 0;
      }
    }
  }
}
