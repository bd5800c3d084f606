/**
  The search that every backtracking copy performs, as a value: `solve`
  fills the first empty cell (row-major) with the values 1..N in ascending
  order, each one that passes `is_valid` placed and searched from, and stops
  at the first success. `Search` records the answer, the grid left behind,
  the decisions taken and the placements and calls made; the solver classes
  are proved to do what it describes.
*/
module Backtracking {
  import opened Optional
  import opened Board
  /** One logged decision: value num was tried at (row, col) and `is_valid` answered valid. */
  datatype Attempt = Attempt(row: int, col: int, num: int, valid: bool)

  /**
    What a call of `solve` does, as a value: its answer, the board it leaves,
    the decisions it appends to `attempted_cells`, and by how much it raises
    `iterations` (placements) and `recursive_calls` (calls that found an empty
    cell).
  */
  datatype Trace = Trace(solved: bool, grid: Grid, log: seq<Attempt>, placements: nat, calls: nat)

  /**
    `solve` on grid g, as a function: with no empty cell it succeeds at once
    and records nothing; otherwise it counts one call and tries the values at
    the first empty cell.
  */
  function Search(g: Grid, k: nat): (t: Trace)
    requires k > 0 && IsGrid(g, k * k)
    decreases ZeroCells(g), 2, 0
    ensures IsGrid(t.grid, k * k)
    ensures !t.solved ==> t.grid == g
  {
    match FirstEmpty(g)
    case None => Trace(true, g, [], 0, 0)
    case Some(x) => Turns(g, k, x.0, x.1, 1, Trace(false, g, [], 0, 1))
  }

  /**
    The loop of `solve` at the empty cell (r, c) from value num on, with acc
    what the earlier turns produced: the turns are added up in order and the
    loop stops at the first that succeeds. When every value fails the grid is
    the one the loop started from.
  */
  function Turns(g: Grid, k: nat, r: int, c: int, num: nat, acc: Trace): (t: Trace)
    requires k > 0 && IsGrid(g, k * k) && InRange(k * k, (r, c)) && g[r][c] == 0
    requires 1 <= num <= k * k + 1 && !acc.solved && acc.grid == g
    decreases ZeroCells(g), 1, k * k + 1 - num
    ensures IsGrid(t.grid, k * k)
    ensures !t.solved ==> t.grid == g
  {
    if num > k * k then acc
    else
      var s := Step(g, k, r, c, num);
      if s.solved then Then(acc, s) else Turns(g, k, r, c, num + 1, Then(acc, s))
  }

  /** The records of acc followed by those of s, with the answer and the grid of s. */
  function Then(acc: Trace, s: Trace): Trace {
    Trace(s.solved, s.grid, acc.log + s.log, acc.placements + s.placements, acc.calls + s.calls)
  }

  /**
    One turn of the loop of `solve`: num is logged at the empty cell (r, c)
    with the answer of `is_valid`; an accepted value is placed (one
    placement) and searched from. A failed turn leaves the grid as it was.
  */
  function Step(g: Grid, k: nat, r: int, c: int, num: nat): (t: Trace)
    requires k > 0 && IsGrid(g, k * k) && InRange(k * k, (r, c)) && g[r][c] == 0
    requires 1 <= num <= k * k
    decreases ZeroCells(g), 0, 0
    ensures IsGrid(t.grid, k * k)
    ensures !t.solved ==> t.grid == g
    ensures t.solved ==> Placeable(g, k, r, c, num)
  {
    if !Placeable(g, k, r, c, num) then Trace(false, g, [Attempt(r, c, num, false)], 0, 0)
    else
      ZeroCellsAfterPlace(g, r, c, num);
      var o := Search(Place(g, r, c, num), k);
      Trace(o.solved, if o.solved then o.grid else g,
            [Attempt(r, c, num, true)] + o.log, 1 + o.placements, o.calls)
  }

  /**
    Soundness and completeness of the search: it succeeds exactly when the
    grid can be completed, and then its grid is such a completion.
  */
  lemma {:induction false} SearchCorrect(g: Grid, k: nat)
    requires k > 0 && IsGrid(g, k * k)
    decreases ZeroCells(g), 2, 0
    ensures Search(g, k).solved <==> Completable(g, k)
    ensures Search(g, k).solved ==> KeepsGivens(g, Search(g, k).grid) && Completes(g, Search(g, k).grid, k)
  {
    match FirstEmpty(g)
    case None =>
      assert KeepsGivens(g, g) && Completes(g, g, k);
    case Some(x) =>
      TurnsCorrect(g, k, x.0, x.1, 1, Trace(false, g, [], 0, 1));
  }

  /** The loop from value num on succeeds exactly when the grid can be completed, given that the values below num lead nowhere. */
  lemma {:induction false} TurnsCorrect(g: Grid, k: nat, r: int, c: int, num: nat, acc: Trace)
    requires k > 0 && IsGrid(g, k * k) && InRange(k * k, (r, c)) && g[r][c] == 0
    requires 1 <= num <= k * k + 1 && !acc.solved && acc.grid == g
    requires forall v :: 1 <= v < num ==> DeadEnd(g, k, r, c, v)
    decreases ZeroCells(g), 1, k * k + 1 - num
    ensures Turns(g, k, r, c, num, acc).solved <==> Completable(g, k)
    ensures var t := Turns(g, k, r, c, num, acc);
      t.solved ==> KeepsGivens(g, t.grid) && Completes(g, t.grid, k)
  {
    if num > k * k {
      CompletableHasLiveValue(g, k, r, c);
    } else {
      StepCorrect(g, k, r, c, num);
      var s := Step(g, k, r, c, num);
      if !s.solved {
        TurnsCorrect(g, k, r, c, num + 1, Then(acc, s));
      }
    }
  }

  /** A turn succeeds with a completion of the grid, or shows that its value leads nowhere. */
  lemma {:induction false} StepCorrect(g: Grid, k: nat, r: int, c: int, num: nat)
    requires k > 0 && IsGrid(g, k * k) && InRange(k * k, (r, c)) && g[r][c] == 0
    requires 1 <= num <= k * k
    decreases ZeroCells(g), 0, 0
    ensures var t := Step(g, k, r, c, num);
      t.solved ==> KeepsGivens(g, t.grid) && Completes(g, t.grid, k)
    ensures !Step(g, k, r, c, num).solved ==> DeadEnd(g, k, r, c, num)
  {
    if Placeable(g, k, r, c, num) {
      ZeroCellsAfterPlace(g, r, c, num);
      var g1 := Place(g, r, c, num);
      SearchCorrect(g1, k);
      if Search(g1, k).solved {
        PlacementExtends(g, Search(g1, k).grid, k, r, c, num);
      }
    }
  }

  /** A successful search places at least one value per empty cell of the grid. */
  lemma {:induction false} SearchFills(g: Grid, k: nat)
    requires k > 0 && IsGrid(g, k * k)
    decreases ZeroCells(g), 2, 0
    ensures Search(g, k).solved ==> Search(g, k).placements >= |ZeroCells(g)|
  {
    match FirstEmpty(g)
    case None =>
    case Some(x) =>
      TurnsFills(g, k, x.0, x.1, 1, Trace(false, g, [], 0, 1));
  }

  /** A successful loop places at least one value per empty cell of the grid. */
  lemma {:induction false} TurnsFills(g: Grid, k: nat, r: int, c: int, num: nat, acc: Trace)
    requires k > 0 && IsGrid(g, k * k) && InRange(k * k, (r, c)) && g[r][c] == 0
    requires 1 <= num <= k * k + 1 && !acc.solved && acc.grid == g
    decreases ZeroCells(g), 1, k * k + 1 - num
    ensures var t := Turns(g, k, r, c, num, acc); t.solved ==> t.placements >= |ZeroCells(g)|
  {
    if num <= k * k {
      StepFills(g, k, r, c, num);
      var s := Step(g, k, r, c, num);
      if !s.solved {
        TurnsFills(g, k, r, c, num + 1, Then(acc, s));
      }
    }
  }

  /** A successful turn places its own value and one per remaining empty cell. */
  lemma {:induction false} StepFills(g: Grid, k: nat, r: int, c: int, num: nat)
    requires k > 0 && IsGrid(g, k * k) && InRange(k * k, (r, c)) && g[r][c] == 0
    requires 1 <= num <= k * k
    decreases ZeroCells(g), 0, 0
    ensures var t := Step(g, k, r, c, num); t.solved ==> t.placements >= |ZeroCells(g)|
  {
    if Placeable(g, k, r, c, num) {
      ZeroCellsAfterPlace(g, r, c, num);
      SearchFills(Place(g, r, c, num), k);
    }
  }
}
