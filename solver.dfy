/**
 The backtracking solver run by the "Solve" button (SudokuSolver.java, class
 `Solver`).

 The solver works on the grid of text fields. A field is empty ("") or holds
 some text; here the grid is a 9x9 `array2<int>` holding the value each
 field stands for (`Board.FieldValue`: 0 for "", the digits 1..9 for the
 texts "1".."9", 10 for any other text). The integer `IsValid` stands for
 the text overload (see `Board.TextAgreesWithValues`).

 The `solving` flag is switched by the "Stop" button from another thread.
 It is modelled by `Flag`: a stream of readings supplied from outside, of
 which each check of the flag consumes one.
 */
module Solver {
  import opened Board

  /** The `volatile boolean solving` flag, as seen by the solver thread. */
  class Flag {
    const readings: nat -> bool
    var polls: nat

    constructor (readings: nat -> bool)
      ensures this.readings == readings && polls == 0
    {
      this.readings := readings;
      polls := 0;
    }

    /** The value of the k-th check of the flag. */
    function Reading(k: nat): bool {
      readings(k)
    }

    /** One check of `solving`. */
    method Poll() returns (on: bool)
      modifies this
      ensures on == Reading(old(polls))
      ensures polls == old(polls) + 1
    {
      on := Reading(polls);
      polls := polls + 1;
    }

    /** The flag was on at every check from the from-th to before the to-th. */
    ghost predicate AllOn(from: nat, to: nat) {
      forall k :: from <= k < to ==> Reading(k)
    }

    lemma AllOnSplit(a: nat, b: nat, c: nat)
      requires a <= b <= c
      ensures AllOn(a, c) <==> AllOn(a, b) && AllOn(b, c)
    {
    }
  }

  /**
   g' is what a successful search from row-major position p leaves on g:
   empty cells filled with digits, cells before p untouched, and no empty
   cell from p on.
   */
  ghost predicate Completes(g: Grid, g': Grid, p: int) {
    Fills(g, g') && SameBefore(g, g', p) && FullFrom(g', p)
  }

  /**
   No solution of g from position p comes before g' in row-major
   lexicographic order, which is how trying digits in ascending order
   shows. It does not say that g' is itself a solution.
   */
  ghost predicate Least(g: Grid, g': Grid, p: int)
    requires IsGrid(g')
  {
    forall h {:trigger SolutionFrom(g, h, p)} :: SolutionFrom(g, h, p) ==> !Precedes(h, g', p)
  }

  /**
   What a search of g from row-major position p promises when it leaves g'
   and answers `solved`; `stayedOn` tells whether the flag was on at every
   check during the search.
   - false: g' is g, whether the search was stopped or exhausted; if the
     flag stayed on, no solution of g keeps the cells before p.
   - true: g' completes g from p; it holds no duplicate if g held none; if
     the flag stayed on, no solution that keeps the cells before p comes
     before g'.
   */
  ghost predicate Searched(g: Grid, g': Grid, p: int, solved: bool, stayedOn: bool) {
    && IsGrid(g')
    && (!solved ==> g' == g)
    && (!solved && stayedOn ==> NoSolutionFrom(g, p))
    && (solved ==> Completes(g, g', p))
    && (solved && Consistent(g) ==> Consistent(g'))
    && (solved && stayedOn ==> Least(g, g', p))
  }

  /**
   solveSudoku(row, col): returns false at once when the flag is off, true
   once past the last row, moves to the next row after the last column,
   skips non-empty cells, and otherwise tries 1..9 at the cell. The outcome
   is stated by `Searched` from the position of (row, col); a true answer
   always follows an on reading, so a stopped search never answers true.
   */
  method SolveSudoku(grid: array2<int>, flag: Flag, row: int, col: int) returns (solved: bool)
    requires grid.Length0 == SIZE && grid.Length1 == SIZE
    requires 0 <= row <= SIZE && 0 <= col <= SIZE
    modifies grid, flag
    ensures flag.polls > old(flag.polls)
    ensures !flag.Reading(old(flag.polls)) ==> !solved && flag.polls == old(flag.polls) + 1
    ensures solved ==> flag.Reading(flag.polls - 1)
    ensures Searched(old(Snapshot(grid)), Snapshot(grid), Index(row, col), solved,
                     flag.AllOn(old(flag.polls), flag.polls))
    decreases SIZE - row, SIZE + 1 - col, 2
  {
    ghost var g0 := Snapshot(grid);
    ghost var k0 := flag.polls;
    var on := flag.Poll();
    if !on {
      assert !flag.AllOn(k0, flag.polls);
      return false;
    }
    if row == SIZE {
      PastTheEnd(g0, Index(row, col), flag.AllOn(k0, flag.polls));
      return true;
    }
    if col == SIZE {
      assert Index(row + 1, 0) == Index(row, col);
      solved := SolveSudoku(grid, flag, row + 1, 0);
      flag.AllOnSplit(k0, k0 + 1, flag.polls);
      return;
    }
    if grid[row, col] != 0 {
      assert Index(row, col + 1) == Index(row, col) + 1;
      solved := SolveSudoku(grid, flag, row, col + 1);
      flag.AllOnSplit(k0, k0 + 1, flag.polls);
      SkipClue(g0, Snapshot(grid), row, col, solved, flag.AllOn(k0 + 1, flag.polls));
      return;
    }
    solved := SolveCell(grid, flag, row, col);
    flag.AllOnSplit(k0, k0 + 1, flag.polls);
  }

  /**
   The loop of solveSudoku at an empty cell: each digit 1..9 in ascending
   order that `isValid` accepts is placed and the search continues at the
   next cell, until one succeeds.
   */
  method SolveCell(grid: array2<int>, flag: Flag, row: int, col: int) returns (solved: bool)
    requires grid.Length0 == SIZE && grid.Length1 == SIZE
    requires InBoard(row, col) && grid[row, col] == 0
    modifies grid, flag
    ensures flag.polls >= old(flag.polls)
    ensures solved ==> flag.polls > old(flag.polls) && flag.Reading(flag.polls - 1)
    ensures Searched(old(Snapshot(grid)), Snapshot(grid), Index(row, col), solved,
                     flag.AllOn(old(flag.polls), flag.polls))
    decreases SIZE - row, SIZE + 1 - col, 1
  {
    ghost var g0 := Snapshot(grid);
    ghost var k0 := flag.polls;
    ghost var p := Index(row, col);
    for num := 1 to SIZE + 1
      invariant Snapshot(grid) == g0
      invariant flag.polls >= k0
      invariant flag.AllOn(k0, flag.polls) ==> forall d :: 1 <= d < num ==> Excluded(g0, p, row, col, d)
    {
      var valid := IsValid(grid, row, col, num);
      ghost var k1 := flag.polls;
      if valid {
        solved := PlaceAndSolve(grid, flag, row, col, num);
        flag.AllOnSplit(k0, k1, flag.polls);
        if solved {
          SolvedAfterPlace(g0, Snapshot(grid), row, col, num, flag.AllOn(k0, k1), flag.AllOn(k1, flag.polls));
          return true;
        }
      } else {
        RejectedIsExcluded(g0, p, row, col, num);
      }
    }
    if flag.AllOn(k0, flag.polls) {
      AllExcluded(g0, p, row, col);
    }
    return false;
  }

  /**
   One pass of the loop body for a digit `isValid` accepted: set the cell,
   search on from the next cell, and clear the cell again if that fails.
   On false the grid is as on entry and, if the flag stayed on, no solution
   holds the digit at the cell; on true the search from the next cell
   succeeded on the grid with the digit placed.
   */
  method PlaceAndSolve(grid: array2<int>, flag: Flag, row: int, col: int, num: int) returns (solved: bool)
    requires grid.Length0 == SIZE && grid.Length1 == SIZE
    requires InBoard(row, col) && grid[row, col] == 0 && 1 <= num <= 9
    modifies grid, flag
    ensures flag.polls >= old(flag.polls)
    ensures solved ==> flag.polls > old(flag.polls) && flag.Reading(flag.polls - 1)
    ensures !solved ==> Snapshot(grid) == old(Snapshot(grid))
    ensures !solved && flag.AllOn(old(flag.polls), flag.polls) ==>
      Excluded(old(Snapshot(grid)), Index(row, col), row, col, num)
    ensures solved ==> Searched(Set(old(Snapshot(grid)), row, col, num), Snapshot(grid), Index(row, col) + 1,
                                true, flag.AllOn(old(flag.polls), flag.polls))
    decreases SIZE - row, SIZE + 1 - col, 0
  {
    ghost var g0 := Snapshot(grid);
    ghost var p := Index(row, col);
    ghost var g1 := Set(g0, row, col, num);
    grid[row, col] := num;
    GridEq(Snapshot(grid), g1);
    assert Index(row, col + 1) == p + 1;
    solved := SolveSudoku(grid, flag, row, col + 1);
    if !solved {
      grid[row, col] := 0;
      GridEq(Snapshot(grid), g0);
      if flag.AllOn(old(flag.polls), flag.polls) {
        FailedIsExcluded(g0, p, p + 1, row, col, num);
      }
    }
  }

  /**
   run(): solveSudoku(0, 0), its result dropped. The grid ends unchanged or
   filled completely, and unchanged when the flag is off at the first check.
   For a grid of digits without duplicates, a filled grid is a solution of
   the puzzle; if the flag stayed on, the grid is filled iff the puzzle has
   a solution, and then with the least one.
   */
  method Run(grid: array2<int>, flag: Flag)
    requires grid.Length0 == SIZE && grid.Length1 == SIZE
    modifies grid, flag
    ensures Snapshot(grid) == old(Snapshot(grid)) ||
      (Full(Snapshot(grid)) && Fills(old(Snapshot(grid)), Snapshot(grid)))
    ensures Digits(old(Snapshot(grid))) && Consistent(old(Snapshot(grid))) && Full(Snapshot(grid)) ==>
      Solution(old(Snapshot(grid)), Snapshot(grid))
    ensures (Digits(old(Snapshot(grid))) && Consistent(old(Snapshot(grid))) &&
             flag.AllOn(old(flag.polls), flag.polls)) ==>
      (Full(Snapshot(grid)) <==> HasSolution(old(Snapshot(grid))))
    ensures (Digits(old(Snapshot(grid))) && Consistent(old(Snapshot(grid))) &&
             flag.AllOn(old(flag.polls), flag.polls) && Full(Snapshot(grid))) ==>
      Least(old(Snapshot(grid)), Snapshot(grid), 0)
    ensures !flag.Reading(old(flag.polls)) ==> Snapshot(grid) == old(Snapshot(grid))
  {
    ghost var g0 := Snapshot(grid);
    var solved := SolveSudoku(grid, flag, 0, 0);
    ghost var g := Snapshot(grid);
    if solved {
      assert Full(g);
      if Digits(g0) && Consistent(g0) {
        FillsIsSolution(g0, g, 0);
        assert Solution(g0, g);
      }
    } else if Digits(g0) && Consistent(g0) && Full(g0) {
      FillsRefl(g0);
      FillsIsSolution(g0, g0, 0);
      assert Solution(g0, g0);
    }
  }

  // ---------------------------------------------------------------------
  // Proof steps

  /** Past the last cell the grid is its own completion, and no solution comes before it. */
  lemma PastTheEnd(g: Grid, p: int, stayedOn: bool)
    requires IsGrid(g) && p >= 81
    ensures Searched(g, g, p, true, stayedOn)
  {
    FillsRefl(g);
  }

  /**
   h comes before g' from position p, at the cell at p or later: either h is
   smaller at the cell at p, or equal there and before g' from p + 1.
   */
  lemma {:induction false} PrecedesStep(h: Grid, g': Grid, row: int, col: int)
    requires IsGrid(h) && IsGrid(g') && InBoard(row, col)
    ensures Precedes(h, g', Index(row, col)) ==>
      h[row][col] < g'[row][col] || (h[row][col] == g'[row][col] && Precedes(h, g', Index(row, col) + 1))
  {
    var p := Index(row, col);
    if Precedes(h, g', p) {
      var r, c :| InBoard(r, c) && p <= Index(r, c) && h[r][c] < g'[r][c] &&
        forall r', c' :: InBoard(r', c') && p <= Index(r', c') < Index(r, c) ==> h[r'][c'] == g'[r'][c'];
      if Index(r, c) == p {
        assert r == row && c == col;
      } else {
        assert h[row][col] == g'[row][col];
      }
    }
  }

  /** Row-major positions of cells on the board are distinct. */
  lemma IndexInjective(r: int, c: int, r': int, c': int)
    requires InBoard(r, c) && InBoard(r', c') && Index(r, c) == Index(r', c')
    ensures r == r' && c == c'
  {
  }

  /**
   A non-empty cell at position p is skipped: results from p + 1 are results
   from p.
   */
  lemma {:induction false} SkipClue(g: Grid, g': Grid, row: int, col: int, solved: bool, stayedOn: bool)
    requires IsGrid(g) && InBoard(row, col) && g[row][col] != 0
    ensures Searched(g, g', Index(row, col) + 1, solved, stayedOn) ==> Searched(g, g', Index(row, col), solved, stayedOn)
  {
    SkipClueCompletes(g, g', row, col);
    SkipClueNoSolution(g, row, col);
    SkipClueLeast(g, g', row, col);
  }

  lemma {:induction false} SkipClueCompletes(g: Grid, g': Grid, row: int, col: int)
    requires IsGrid(g) && InBoard(row, col) && g[row][col] != 0
    ensures Completes(g, g', Index(row, col) + 1) ==> Completes(g, g', Index(row, col))
  {
    var p := Index(row, col);
    if Completes(g, g', p + 1) {
      forall r, c | InBoard(r, c) && p <= Index(r, c) ensures g'[r][c] != 0 {
        if Index(r, c) == p {
          IndexInjective(r, c, row, col);
        }
      }
    }
  }

  lemma {:induction false} SkipClueNoSolution(g: Grid, row: int, col: int)
    requires IsGrid(g) && InBoard(row, col) && g[row][col] != 0
    ensures NoSolutionFrom(g, Index(row, col) + 1) ==> NoSolutionFrom(g, Index(row, col))
  {
    forall h ensures SolutionFrom(g, h, Index(row, col)) ==> SolutionFrom(g, h, Index(row, col) + 1) {
      ClueKept(g, h, row, col);
    }
  }

  lemma {:induction false} SkipClueLeast(g: Grid, g': Grid, row: int, col: int)
    requires IsGrid(g) && InBoard(row, col) && g[row][col] != 0
    ensures IsGrid(g') && SameBefore(g, g', Index(row, col) + 1) && Least(g, g', Index(row, col) + 1) ==>
      Least(g, g', Index(row, col))
  {
    var p := Index(row, col);
    if IsGrid(g') && SameBefore(g, g', p + 1) && Least(g, g', p + 1) {
      forall h | SolutionFrom(g, h, p) ensures !Precedes(h, g', p) {
        ClueKept(g, h, row, col);
        PrecedesStep(h, g', row, col);
      }
    }
  }

  /** A solution from position p keeps the clue at p, so it is one from p + 1. */
  lemma {:induction false} ClueKept(g: Grid, h: Grid, row: int, col: int)
    requires IsGrid(g) && InBoard(row, col) && g[row][col] != 0
    ensures SolutionFrom(g, h, Index(row, col)) ==> SolutionFrom(g, h, Index(row, col) + 1)
  {
    var p := Index(row, col);
    if SolutionFrom(g, h, p) {
      forall r, c | InBoard(r, c) && (g[r][c] != 0 || Index(r, c) < p + 1) ensures h[r][c] == g[r][c] {
        if Index(r, c) == p {
          IndexInjective(r, c, row, col);
        }
      }
    }
  }

  /**
   A digit placed at the empty cell at position p, followed by a successful
   search from p + 1, is a successful search from p.
   */
  lemma {:induction false} PlacedThenSolved(g: Grid, g': Grid, row: int, col: int, d: int)
    requires IsGrid(g) && InBoard(row, col) && g[row][col] == 0 && 1 <= d <= 9
    requires Completes(Set(g, row, col, d), g', Index(row, col) + 1)
    requires Consistent(Set(g, row, col, d)) ==> Consistent(g')
    ensures Completes(g, g', Index(row, col)) && g'[row][col] == d
    ensures Consistent(g) && CanPlace(g, row, col, d) ==> Consistent(g')
  {
    var g1 := Set(g, row, col, d);
    FillsTrans(g, g1, g');
    assert g'[row][col] == g1[row][col];
    if Consistent(g) && CanPlace(g, row, col, d) {
      PlaceKeepsConsistent(g, row, col, d);
    }
  }

  /**
   Ascending digit order: when every smaller digit is excluded at the cell
   and no solution with d there comes before g', no solution from the cell
   comes before g'.
   */
  lemma {:induction false} LeastAfterPlace(g: Grid, g': Grid, row: int, col: int, d: int)
    requires IsGrid(g) && IsGrid(g') && InBoard(row, col) && g[row][col] == 0 && g'[row][col] == d
    requires forall e :: 1 <= e < d ==> Excluded(g, Index(row, col), row, col, e)
    requires Least(Set(g, row, col, d), g', Index(row, col) + 1)
    ensures Least(g, g', Index(row, col))
  {
    var p := Index(row, col);
    forall h | SolutionFrom(g, h, p) ensures !Precedes(h, g', p) {
      PrecedesStep(h, g', row, col);
      assert h[row][col] < d ==> Excluded(g, p, row, col, h[row][col]);
      PlacedSolution(g, p, row, col, d, h);
    }
  }

  /**
   The loop of solveSudoku succeeding with digit d: a successful search from
   the next cell with d placed is a successful search from the cell; when
   every smaller digit is excluded there, no solution from the cell comes
   before its fill.
   */
  lemma {:induction false} SolvedAfterPlace(g: Grid, g': Grid, row: int, col: int, d: int,
                                           earlier: bool, later: bool)
    requires IsGrid(g) && InBoard(row, col) && g[row][col] == 0 && 1 <= d <= 9
    requires CanPlace(g, row, col, d)
    requires earlier ==> forall e :: 1 <= e < d ==> Excluded(g, Index(row, col), row, col, e)
    requires Searched(Set(g, row, col, d), g', Index(row, col) + 1, true, later)
    ensures Searched(g, g', Index(row, col), true, earlier && later)
  {
    PlacedThenSolved(g, g', row, col, d);
    if earlier && later {
      LeastAfterPlace(g, g', row, col, d);
    }
  }
}
