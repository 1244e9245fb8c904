/**
 The 9x9 Sudoku board shared by the generator and the solver.

 The source keeps the board as an `int[][]` (0 for an empty cell) while
 generating, and as a grid of text fields ("" for an empty cell, "d" for the
 digit d) while solving. Both become an `array2<int>` here. A text field
 stands for the integer `FieldValue` gives (10 for text that is no digit),
 and `TextAgreesWithValues` shows that the text overload of `isValid`
 answers as the integer one does on those values; `Render` is the text view
 of a board of digits.

 Specifications speak about a `Grid`, the value of the board as nine rows of
 nine cells. Cell (r, c) is the `Index(r, c)`-th cell in row-major order.
 */
module Board {

  const SIZE := 9

  datatype Option<T> = None | Some(value: T)

  type Grid = seq<seq<int>>

  ghost predicate IsGrid(g: Grid) {
    |g| == 9 && forall r :: 0 <= r < 9 ==> |g[r]| == 9
  }

  predicate InBoard(r: int, c: int) {
    0 <= r < 9 && 0 <= c < 9
  }

  /** Position of cell (r, c) in row-major order; column 9 of a row is column 0 of the next. */
  function Index(r: int, c: int): int {
    9 * r + c
  }

  /** Every cell is empty or holds a digit. */
  ghost predicate Digits(g: Grid) {
    IsGrid(g) && forall r, c :: InBoard(r, c) ==> 0 <= g[r][c] <= 9
  }

  /** No cell is empty. */
  ghost predicate Full(g: Grid) {
    IsGrid(g) && forall r, c :: InBoard(r, c) ==> g[r][c] != 0
  }

  /** No cell at or after row-major position p is empty. */
  ghost predicate FullFrom(g: Grid, p: int) {
    IsGrid(g) && forall r, c :: InBoard(r, c) && p <= Index(r, c) ==> g[r][c] != 0
  }

  /** First row (or column) of the 3x3 box band holding row (or column) x. */
  function BoxStart(x: int): (s: int)
    requires 0 <= x < SIZE
    ensures s == 0 || s == 3 || s == 6
    ensures s <= x < s + 3
  {
    (x / 3) * 3
  }

  /** Cells (r1, c1) and (r2, c2) share a row, a column or a 3x3 box. */
  predicate SameUnit(r1: int, c1: int, r2: int, c2: int)
    requires InBoard(r1, c1) && InBoard(r2, c2)
  {
    r1 == r2 || c1 == c2 || (BoxStart(r1) == BoxStart(r2) && BoxStart(c1) == BoxStart(c2))
  }

  /**
   The check made by `isValid`: `num` is not in row `row`, not in column `col`
   and not in the 3x3 box whose top-left cell is (BoxStart(row), BoxStart(col)).
   The target cell itself is scanned too.
   */
  ghost predicate CanPlace(g: Grid, row: int, col: int, num: int)
    requires IsGrid(g) && InBoard(row, col)
  {
    (forall i :: 0 <= i < 9 ==> g[row][i] != num && g[i][col] != num) &&
    (forall r, c :: 0 <= r < 3 && 0 <= c < 3 ==> BoxCell(g, row, col, r, c) != num)
  }

  /** The cell at offset (r, c) from the top-left cell of the box holding (row, col). */
  function BoxCell(g: Grid, row: int, col: int, r: int, c: int): int
    requires IsGrid(g) && InBoard(row, col) && 0 <= r < 3 && 0 <= c < 3
  {
    g[BoxStart(row) + r][BoxStart(col) + c]
  }

  /** No digit occurs twice in a row, a column or a box. */
  ghost predicate Consistent(g: Grid) {
    IsGrid(g) &&
    forall r1, c1, r2, c2 ::
      InBoard(r1, c1) && InBoard(r2, c2) && (r1 != r2 || c1 != c2) &&
      SameUnit(r1, c1, r2, c2) && g[r1][c1] != 0
      ==> g[r1][c1] != g[r2][c2]
  }

  /** A completely solved board: every cell a digit 1..9, no duplicates. */
  ghost predicate Solved(h: Grid) {
    IsGrid(h) && Consistent(h) && forall r, c :: InBoard(r, c) ==> 1 <= h[r][c] <= 9
  }

  /**
   h is a solved board that keeps every clue of g and every cell of g before
   row-major position p (those cells the search has already decided).
   */
  ghost predicate SolutionFrom(g: Grid, h: Grid, p: int) {
    IsGrid(g) && Solved(h) &&
    forall r, c :: InBoard(r, c) && (g[r][c] != 0 || Index(r, c) < p) ==> h[r][c] == g[r][c]
  }

  ghost predicate Solution(g: Grid, h: Grid) {
    SolutionFrom(g, h, 0)
  }

  ghost predicate HasSolution(g: Grid) {
    exists h :: Solution(g, h)
  }

  /** g has no solution from position p. */
  ghost predicate NoSolutionFrom(g: Grid, p: int) {
    forall h :: !SolutionFrom(g, h, p)
  }

  /** No solution of g from position p holds d at (r, c). */
  ghost predicate Excluded(g: Grid, p: int, r: int, c: int, d: int)
    requires InBoard(r, c)
  {
    forall h {:trigger SolutionFrom(g, h, p)} :: SolutionFrom(g, h, p) ==> h[r][c] != d
  }

  /** g' is g with some empty cells filled by digits 1..9, and nothing else changed. */
  ghost predicate Fills(g: Grid, g': Grid) {
    IsGrid(g) && IsGrid(g') &&
    forall r, c :: InBoard(r, c) ==> g'[r][c] == g[r][c] || (g[r][c] == 0 && 1 <= g'[r][c] <= 9)
  }

  /** g' is g with some cells cleared to 0, and nothing else changed. */
  ghost predicate Carves(g: Grid, g': Grid) {
    IsGrid(g) && IsGrid(g') &&
    forall r, c :: InBoard(r, c) ==> g'[r][c] == g[r][c] || g'[r][c] == 0
  }

  /** g and g' agree on every cell before row-major position p. */
  ghost predicate SameBefore(g: Grid, g': Grid, p: int) {
    IsGrid(g) && IsGrid(g') &&
    forall r, c :: InBoard(r, c) && Index(r, c) < p ==> g'[r][c] == g[r][c]
  }

  /**
   h comes strictly before g in row-major lexicographic order, comparing the
   cells from position p on.
   */
  ghost predicate Precedes(h: Grid, g: Grid, p: int)
    requires IsGrid(h) && IsGrid(g)
  {
    exists r, c :: InBoard(r, c) && p <= Index(r, c) && h[r][c] < g[r][c] &&
      forall r', c' :: InBoard(r', c') && p <= Index(r', c') < Index(r, c) ==> h[r'][c'] == g[r'][c']
  }

  /** The board after `g[r][c] = v`. */
  function Set(g: Grid, r: int, c: int, v: int): (g': Grid)
    requires IsGrid(g) && InBoard(r, c)
    ensures IsGrid(g')
    ensures g'[r][c] == v
    ensures forall r', c' :: InBoard(r', c') && (r' != r || c' != c) ==> g'[r'][c'] == g[r'][c']
  {
    g[r := g[r][c := v]]
  }

  /** g holds exactly what the 9x9 array a holds. */
  ghost predicate Holds(a: array2<int>, g: Grid)
    requires a.Length0 == SIZE && a.Length1 == SIZE
    reads a
  {
    IsGrid(g) && forall r, c :: InBoard(r, c) ==> g[r][c] == a[r, c]
  }

  lemma SnapshotExists(a: array2<int>)
    requires a.Length0 == SIZE && a.Length1 == SIZE
    ensures exists g :: Holds(a, g)
  {
    var g := seq(9, r requires 0 <= r < 9 reads a => seq(9, c requires 0 <= c < 9 reads a => a[r, c]));
    assert Holds(a, g);
  }

  /** The value of a 9x9 board. */
  ghost function Snapshot(a: array2<int>): (g: Grid)
    requires a.Length0 == SIZE && a.Length1 == SIZE
    reads a
    ensures IsGrid(g)
    ensures forall r, c :: InBoard(r, c) ==> g[r][c] == a[r, c]
  {
    SnapshotExists(a);
    var g :| Holds(a, g); g
  }

  lemma GridEq(g: Grid, g': Grid)
    requires IsGrid(g) && IsGrid(g')
    requires forall r, c :: InBoard(r, c) ==> g[r][c] == g'[r][c]
    ensures g == g'
  {
    forall r | 0 <= r < 9 ensures g[r] == g'[r] {
      assert forall c :: 0 <= c < 9 ==> g[r][c] == g'[r][c] by {
        forall c | 0 <= c < 9 ensures g[r][c] == g'[r][c] { assert InBoard(r, c); }
      }
    }
  }

  // ---------------------------------------------------------------------
  // The validity check

  /**
   `CanPlace` as a statement about units: num is placeable at (row, col) iff
   no cell in the same row, column or box (the target cell included) holds it.
   */
  lemma {:induction false} CanPlaceIff(g: Grid, row: int, col: int, num: int)
    requires IsGrid(g) && InBoard(row, col)
    ensures CanPlace(g, row, col, num) <==>
      forall r, c :: InBoard(r, c) && SameUnit(r, c, row, col) ==> g[r][c] != num
  {
    var bs, bc := BoxStart(row), BoxStart(col);
    if CanPlace(g, row, col, num) {
      forall r, c | InBoard(r, c) && SameUnit(r, c, row, col) ensures g[r][c] != num {
        if r == row {
          assert g[row][c] != num;
        } else if c == col {
          assert g[r][col] != num;
        } else {
          var i, j := r - bs, c - bc;
          assert 0 <= i < 3 && 0 <= j < 3;
          assert BoxCell(g, row, col, i, j) != num;
        }
      }
    }
    if forall r, c :: InBoard(r, c) && SameUnit(r, c, row, col) ==> g[r][c] != num {
      forall i | 0 <= i < 9 ensures g[row][i] != num && g[i][col] != num {
        assert SameUnit(row, i, row, col);
        assert SameUnit(i, col, row, col);
      }
      forall i, j | 0 <= i < 3 && 0 <= j < 3 ensures BoxCell(g, row, col, i, j) != num {
        assert BoxStart(bs + i) == bs && BoxStart(bc + j) == bc;
        assert SameUnit(bs + i, bc + j, row, col);
      }
    }
  }

  /**
   isValid (the integer overload): returns true iff num occurs nowhere in
   the row, the column or the box of (row, col). Every index it reads is on
   the board.
   */
  method IsValid(board: array2<int>, row: int, col: int, num: int) returns (ok: bool)
    requires board.Length0 == SIZE && board.Length1 == SIZE
    requires InBoard(row, col)
    ensures ok == CanPlace(Snapshot(board), row, col, num)
  {
    ghost var g := Snapshot(board);
    for i := 0 to SIZE
      invariant forall k :: 0 <= k < i ==> g[row][k] != num && g[k][col] != num
    {
      if board[row, i] == num || board[i, col] == num {
        return false;
      }
    }
    var boxRowStart := (row / 3) * 3;
    var boxColStart := (col / 3) * 3;
    assert boxRowStart == BoxStart(row) && boxColStart == BoxStart(col);
    for r := 0 to 3
      invariant forall r', c' :: 0 <= r' < r && 0 <= c' < 3 ==> BoxCell(g, row, col, r', c') != num
    {
      for c := 0 to 3
        invariant forall c' :: 0 <= c' < c ==> BoxCell(g, row, col, r, c') != num
      {
        if board[boxRowStart + r, boxColStart + c] == num {
          assert BoxCell(g, row, col, r, c) == num;
          return false;
        }
      }
    }
    return true;
  }

  /** Placing a digit that `isValid` accepted keeps the board free of duplicates. */
  lemma {:induction false} PlaceKeepsConsistent(g: Grid, row: int, col: int, d: int)
    requires Consistent(g) && InBoard(row, col) && CanPlace(g, row, col, d)
    ensures Consistent(Set(g, row, col, d))
  {
    CanPlaceIff(g, row, col, d);
    var g' := Set(g, row, col, d);
    forall r1, c1, r2, c2 |
      InBoard(r1, c1) && InBoard(r2, c2) && (r1 != r2 || c1 != c2) &&
      SameUnit(r1, c1, r2, c2) && g'[r1][c1] != 0
      ensures g'[r1][c1] != g'[r2][c2]
    {
      if r1 == row && c1 == col {
        assert SameUnit(r2, c2, row, col);
      } else if r2 == row && c2 == col {
        assert SameUnit(r1, c1, row, col);
      }
    }
  }

  /** Clearing cells never creates a duplicate. */
  lemma {:induction false} CarveKeepsConsistent(g: Grid, g': Grid)
    requires Consistent(g) && Carves(g, g')
    ensures Consistent(g')
  {
    forall r1, c1, r2, c2 |
      InBoard(r1, c1) && InBoard(r2, c2) && (r1 != r2 || c1 != c2) &&
      SameUnit(r1, c1, r2, c2) && g'[r1][c1] != 0
      ensures g'[r1][c1] != g'[r2][c2]
    {
      assert g'[r1][c1] == g[r1][c1];
    }
  }

  /** Clearing one more cell of a carved board is still a carving of the original. */
  lemma CarvesClear(g: Grid, g': Grid, r: int, c: int)
    requires Carves(g, g') && InBoard(r, c)
    ensures Carves(g, Set(g', r, c, 0))
  {
  }

  /** A solution of a board stays a solution once some of its clues are cleared. */
  lemma {:induction false} CarveKeepsSolution(g: Grid, g': Grid, h: Grid)
    requires Carves(g, g') && Solution(g, h)
    ensures Solution(g', h)
  {
    forall r, c | InBoard(r, c) && g'[r][c] != 0 ensures h[r][c] == g'[r][c] {
      assert g'[r][c] == g[r][c];
    }
  }

  /** A digit that `isValid` rejects at an empty cell can be in no solution there. */
  lemma {:induction false} RejectedIsExcluded(g: Grid, p: int, row: int, col: int, d: int)
    requires IsGrid(g) && InBoard(row, col) && g[row][col] == 0 && d != 0
    requires !CanPlace(g, row, col, d)
    ensures Excluded(g, p, row, col, d)
  {
    CanPlaceIff(g, row, col, d);
    var r, c :| InBoard(r, c) && SameUnit(r, c, row, col) && g[r][c] == d;
    forall h | SolutionFrom(g, h, p) ensures h[row][col] != d {
      assert h[r][c] == d;
      assert r != row || c != col;
    }
  }

  /**
   A solution from position p holding d at (row, col) is a solution of the
   board with d placed there; when (row, col) is position p itself, it is one
   from position p + 1 as well.
   */
  lemma PlacedSolution(g: Grid, p: int, row: int, col: int, d: int, h: Grid)
    requires IsGrid(g) && InBoard(row, col)
    ensures SolutionFrom(g, h, p) && h[row][col] == d ==> SolutionFrom(Set(g, row, col, d), h, p)
    ensures SolutionFrom(g, h, p) && h[row][col] == d && p == Index(row, col) ==>
      SolutionFrom(Set(g, row, col, d), h, p + 1)
  {
  }

  /**
   If the board with d placed at (row, col) has no solution (from p, or from
   p + 1 when (row, col) is position p), no solution from p holds d there.
   */
  lemma {:induction false} FailedIsExcluded(g: Grid, p: int, q: int, row: int, col: int, d: int)
    requires IsGrid(g) && InBoard(row, col)
    requires q == p || (p == Index(row, col) && q == p + 1)
    requires NoSolutionFrom(Set(g, row, col, d), q)
    ensures Excluded(g, p, row, col, d)
  {
    forall h | IsGrid(h) && h[row][col] == d ensures !SolutionFrom(g, h, p) {
      PlacedSolution(g, p, row, col, d, h);
    }
  }

  /** If every digit is excluded at a cell, there is no solution at all. */
  lemma {:induction false} AllExcluded(g: Grid, p: int, row: int, col: int)
    requires InBoard(row, col)
    requires forall d :: 1 <= d <= 9 ==> Excluded(g, p, row, col, d)
    ensures NoSolutionFrom(g, p)
  {
    forall h | IsGrid(h) && 1 <= h[row][col] <= 9 ensures !SolutionFrom(g, h, p) {
      assert Excluded(g, p, row, col, h[row][col]);
    }
  }

  /** A solved-from-p board that keeps g's decided cells is a solution from p. */
  lemma {:induction false} FillsIsSolution(g: Grid, g': Grid, p: int)
    requires Digits(g) && Consistent(g) && Fills(g, g') && Consistent(g')
    requires SameBefore(g, g', p) && FullFrom(g', p)
    requires forall r, c :: InBoard(r, c) && Index(r, c) < p ==> g[r][c] != 0
    ensures SolutionFrom(g, g', p)
  {
    forall r, c | InBoard(r, c) ensures 1 <= g'[r][c] <= 9 {
      if Index(r, c) < p {
        assert g'[r][c] == g[r][c];
      }
    }
  }

  lemma FillsRefl(g: Grid)
    requires IsGrid(g)
    ensures Fills(g, g)
  {
  }

  lemma {:induction false} FillsTrans(g: Grid, g': Grid, g'': Grid)
    requires Fills(g, g') && Fills(g', g'')
    ensures Fills(g, g'')
  {
    forall r, c | InBoard(r, c)
      ensures g''[r][c] == g[r][c] || (g[r][c] == 0 && 1 <= g''[r][c] <= 9)
    {
      assert g'[r][c] == g[r][c] || (g[r][c] == 0 && 1 <= g'[r][c] <= 9);
    }
  }

  // ---------------------------------------------------------------------
  // Counting clues

  function RowClues(s: seq<int>): (n: nat)
    ensures n <= |s|
  {
    if s == [] then 0 else RowClues(s[..|s| - 1]) + (if s[|s| - 1] != 0 then 1 else 0)
  }

  /** The number of non-empty cells. */
  function Clues(g: Grid): (n: nat)
    requires forall r :: 0 <= r < |g| ==> |g[r]| == 9
    ensures n <= 9 * |g|
  {
    if g == [] then 0 else Clues(g[..|g| - 1]) + RowClues(g[|g| - 1])
  }

  lemma {:induction false} RowCluesSet(s: seq<int>, i: int, v: int)
    requires 0 <= i < |s|
    ensures RowClues(s[i := v]) == RowClues(s) - (if s[i] != 0 then 1 else 0) + (if v != 0 then 1 else 0)
  {
    var n := |s|;
    if i < n - 1 {
      assert s[i := v][..n - 1] == s[..n - 1][i := v];
      RowCluesSet(s[..n - 1], i, v);
    } else {
      assert s[i := v][..n - 1] == s[..n - 1];
    }
  }

  lemma {:induction false} CluesSetRow(g: Grid, r: int, row: seq<int>)
    requires forall i :: 0 <= i < |g| ==> |g[i]| == 9
    requires 0 <= r < |g| && |row| == 9
    ensures Clues(g[r := row]) == Clues(g) - RowClues(g[r]) + RowClues(row)
  {
    var n := |g|;
    if r < n - 1 {
      assert g[r := row][..n - 1] == g[..n - 1][r := row];
      CluesSetRow(g[..n - 1], r, row);
    } else {
      assert g[r := row][..n - 1] == g[..n - 1];
    }
  }

  /** Writing v into cell (r, c) changes the clue count by the change in emptiness of that cell. */
  lemma CluesSet(g: Grid, r: int, c: int, v: int)
    requires IsGrid(g) && InBoard(r, c)
    ensures Clues(Set(g, r, c, v)) == Clues(g) - (if g[r][c] != 0 then 1 else 0) + (if v != 0 then 1 else 0)
  {
    RowCluesSet(g[r], c, v);
    CluesSetRow(g, r, g[r][c := v]);
  }

  lemma {:induction false} RowCluesFull(s: seq<int>)
    requires forall i :: 0 <= i < |s| ==> s[i] != 0
    ensures RowClues(s) == |s|
  {
    if s != [] {
      RowCluesFull(s[..|s| - 1]);
    }
  }

  lemma {:induction false} CluesFullRows(g: Grid)
    requires forall r :: 0 <= r < |g| ==> |g[r]| == 9
    requires forall r, c :: 0 <= r < |g| && 0 <= c < 9 ==> g[r][c] != 0
    ensures Clues(g) == 9 * |g|
  {
    if g != [] {
      CluesFullRows(g[..|g| - 1]);
      RowCluesFull(g[|g| - 1]);
    }
  }

  /** A full board has all 81 clues. */
  lemma FullClues(g: Grid)
    requires Full(g)
    ensures Clues(g) == 81
  {
    CluesFullRows(g);
  }

  /** A board with some clue has a non-empty cell; this finds one. */
  lemma {:induction false} SomeClue(g: Grid) returns (r: int, c: int)
    requires forall i :: 0 <= i < |g| ==> |g[i]| == 9
    requires Clues(g) > 0
    ensures 0 <= r < |g| && 0 <= c < 9 && g[r][c] != 0
  {
    var n := |g|;
    if RowClues(g[n - 1]) > 0 {
      var last := g[n - 1];
      if forall i :: 0 <= i < 9 ==> last[i] == 0 {
        RowCluesOfZeros(last);
      }
      r := n - 1;
      c :| 0 <= c < 9 && last[c] != 0;
    } else {
      r, c := SomeClue(g[..n - 1]);
    }
  }

  lemma {:induction false} RowCluesOfZeros(s: seq<int>)
    requires forall i :: 0 <= i < |s| ==> s[i] == 0
    ensures RowClues(s) == 0
  {
    if s != [] {
      RowCluesOfZeros(s[..|s| - 1]);
    }
  }

  // ---------------------------------------------------------------------
  // The text grid of the solver

  /** `String.valueOf(d)` for a digit 1..9. */
  function ValueOf(d: int): (s: string)
    requires 1 <= d <= 9
    ensures |s| == 1 && '1' <= s[0] <= '9' && s[0] as int - '0' as int == d
  {
    [('0' as int + d) as char]
  }

  /** The text shown for a cell: "" for an empty cell, "d" for the digit d. */
  function CellText(v: int): string
    requires 0 <= v <= 9
  {
    if v == 0 then "" else ValueOf(v)
  }

  function Render(g: Grid): (t: seq<seq<string>>)
    requires Digits(g)
    ensures |t| == 9 && forall r :: 0 <= r < 9 ==> |t[r]| == 9
    ensures forall r, c :: InBoard(r, c) ==> t[r][c] == CellText(g[r][c])
  {
    seq(9, r requires 0 <= r < 9 => seq(9, c requires 0 <= c < 9 => CellText(g[r][c])))
  }

  /** The text overload of `isValid`: compares String.valueOf(num) with each cell's text. */
  ghost predicate TextCanPlace(t: seq<seq<string>>, row: int, col: int, num: int)
    requires |t| == 9 && (forall r :: 0 <= r < 9 ==> |t[r]| == 9) && InBoard(row, col)
    requires 1 <= num <= 9
  {
    (forall i :: 0 <= i < 9 ==> ValueOf(num) != t[row][i] && ValueOf(num) != t[i][col]) &&
    (forall r, c :: 0 <= r < 3 && 0 <= c < 3 ==> ValueOf(num) != TextBoxCell(t, row, col, r, c))
  }

  function TextBoxCell(t: seq<seq<string>>, row: int, col: int, r: int, c: int): string
    requires |t| == 9 && (forall r :: 0 <= r < 9 ==> |t[r]| == 9) && InBoard(row, col)
    requires 0 <= r < 3 && 0 <= c < 3
  {
    t[BoxStart(row) + r][BoxStart(col) + c]
  }

  /**
   The integer a text field stands for: 0 for "", d for the text of the
   digit d, and 10 for any other text, which no digit's text equals.
   */
  function FieldValue(s: string): (v: int)
    ensures 0 <= v <= 10
  {
    if s == "" then 0
    else if |s| == 1 && '1' <= s[0] <= '9' then s[0] as int - '0' as int
    else 10
  }

  /** String.valueOf(num) equals a field's text exactly when the field stands for num. */
  lemma {:induction false} FieldValueIs(s: string, num: int)
    requires 1 <= num <= 9
    ensures (ValueOf(num) == s) <==> (FieldValue(s) == num)
    ensures (s == "") <==> (FieldValue(s) == 0)
  {
    if FieldValue(s) == num {
      assert s == [s[0]];
    }
  }

  /** The integer grid a 9x9 grid of text fields stands for. */
  function Values(t: seq<seq<string>>): (g: Grid)
    requires |t| == 9 && forall r :: 0 <= r < 9 ==> |t[r]| == 9
    ensures IsGrid(g) && forall r, c :: InBoard(r, c) ==> 0 <= g[r][c] <= 10
    ensures forall r, c :: InBoard(r, c) ==> g[r][c] == FieldValue(t[r][c])
  {
    seq(9, r requires 0 <= r < 9 => seq(9, c requires 0 <= c < 9 => FieldValue(t[r][c])))
  }

  /** Reading the text view of a board of digits gives the board back. */
  lemma {:induction false} ValuesOfRender(g: Grid)
    requires Digits(g)
    ensures Values(Render(g)) == g
  {
    var t := Render(g);
    forall r, c | InBoard(r, c) ensures Values(t)[r][c] == g[r][c] {
      if g[r][c] != 0 {
        FieldValueIs(t[r][c], g[r][c]);
      }
    }
    assert forall r | 0 <= r < 9 :: Values(t)[r] == g[r];
  }

  /**
   Both overloads of `isValid` agree on any grid of text fields: the text
   check answers as the integer check does on the values the fields stand
   for, and a field is "" iff it stands for 0.
   */
  lemma {:induction false} TextAgreesWithValues(t: seq<seq<string>>, row: int, col: int, num: int)
    requires |t| == 9 && (forall r :: 0 <= r < 9 ==> |t[r]| == 9)
    requires InBoard(row, col) && 1 <= num <= 9
    ensures TextCanPlace(t, row, col, num) == CanPlace(Values(t), row, col, num)
    ensures (t[row][col] == "") <==> (Values(t)[row][col] == 0)
  {
    var g := Values(t);
    var bs, bc := BoxStart(row), BoxStart(col);
    forall i | 0 <= i < 9
      ensures (ValueOf(num) != t[row][i]) == (g[row][i] != num)
      ensures (ValueOf(num) != t[i][col]) == (g[i][col] != num)
    {
      FieldValueIs(t[row][i], num);
      FieldValueIs(t[i][col], num);
    }
    forall r, c | 0 <= r < 3 && 0 <= c < 3
      ensures (ValueOf(num) != TextBoxCell(t, row, col, r, c)) == (BoxCell(g, row, col, r, c) != num)
    {
      FieldValueIs(t[bs + r][bc + c], num);
    }
    FieldValueIs(t[row][col], num);
  }

  /**
   On the text view of a board of digits, the text check answers as the
   integer check does on the board, and a cell's text is empty iff it is 0.
   */
  lemma {:induction false} TextAgreesWithInt(g: Grid, row: int, col: int, num: int)
    requires Digits(g) && InBoard(row, col) && 1 <= num <= 9
    ensures TextCanPlace(Render(g), row, col, num) == CanPlace(g, row, col, num)
    ensures (Render(g)[row][col] == "") <==> (g[row][col] == 0)
  {
    ValuesOfRender(g);
    TextAgreesWithValues(Render(g), row, col, num);
  }
}
