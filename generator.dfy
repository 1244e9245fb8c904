/**
 The puzzle generator: fill an empty board by randomised backtracking, then
 carve cells back to empty (SudokuSolver.java, `randomFillGrid` and the
 helpers it uses).
 */
module Generator {
  import opened Board
  import opened Rand

  /** Number of cells `randomFillGrid` clears (40 of 81 stay filled). */
  const Removals := 41

  // ---------------------------------------------------------------------
  // findEmptyLocation

  /**
   The first empty cell in row-major order, or None when the board has no
   empty cell.
   */
  method FindEmptyLocation(board: array2<int>) returns (loc: Option<(int, int)>)
    requires board.Length0 == SIZE && board.Length1 == SIZE
    ensures loc.None? <==> Full(Snapshot(board))
    ensures loc.Some? ==>
      InBoard(loc.value.0, loc.value.1) && Snapshot(board)[loc.value.0][loc.value.1] == 0 &&
      forall r, c :: InBoard(r, c) && Index(r, c) < Index(loc.value.0, loc.value.1) ==> Snapshot(board)[r][c] != 0
  {
    ghost var g := Snapshot(board);
    for row := 0 to SIZE
      invariant forall r, c :: InBoard(r, c) && r < row ==> g[r][c] != 0
    {
      for col := 0 to SIZE
        invariant forall r, c :: InBoard(r, c) && Index(r, c) < Index(row, col) ==> g[r][c] != 0
      {
        if board[row, col] == 0 {
          return Some((row, col));
        }
      }
    }
    return None;
  }

  // ---------------------------------------------------------------------
  // generateRandomNumbers

  const Ordered: seq<int> := [1, 2, 3, 4, 5, 6, 7, 8, 9]

  /**
   s lists the digits 1..9, each exactly once: nine entries, all digits,
   pairwise distinct, and every digit present.
   */
  ghost predicate DigitPermutation(s: seq<int>) {
    && |s| == 9
    && (forall k :: 0 <= k < |s| ==> 1 <= s[k] <= 9)
    && (forall k, m :: 0 <= k < m < |s| ==> s[k] != s[m])
    && (forall d :: 1 <= d <= 9 ==> d in s)
  }

  lemma OrderedDigits()
    ensures DigitPermutation(Ordered)
  {
    forall k | 0 <= k < 9 ensures Ordered[k] == k + 1 { }
    forall d | 1 <= d <= 9 ensures d in Ordered {
      assert Ordered[d - 1] == d;
    }
  }

  /** s with the elements at positions i and j exchanged. */
  function Swap(s: seq<int>, i: int, j: int): (t: seq<int>)
    requires 0 <= i < |s| && 0 <= j < |s|
    ensures |t| == |s|
  {
    s[i := s[j]][j := s[i]]
  }

  /** Exchanging two entries keeps a permutation of the digits one. */
  lemma {:induction false} SwapPermutes(s: seq<int>, i: int, j: int)
    requires 0 <= i < |s| && 0 <= j < |s|
    requires DigitPermutation(s)
    ensures DigitPermutation(Swap(s, i, j))
  {
    var t := Swap(s, i, j);
    forall k, m | 0 <= k < m < |t| ensures t[k] != t[m] {
      var k' := if k == i then j else if k == j then i else k;
      var m' := if m == i then j else if m == j then i else m;
      assert t[k] == s[k'] && t[m] == s[m'] && k' != m';
      if k' < m' { } else { }
    }
    forall d | 1 <= d <= 9 ensures d in t {
      assert d in s;
      var k :| 0 <= k < |s| && s[k] == d;
      if k == i { assert t[j] == d; } else if k == j { assert t[i] == d; } else { assert t[k] == d; }
    }
  }

  /**
   The shuffle of `generateRandomNumbers` after its first n steps: step i
   swaps position i with position js[i].
   */
  function Shuffled(s: seq<int>, js: seq<int>, n: nat): (t: seq<int>)
    requires n <= |s| && n <= |js|
    requires forall k :: 0 <= k < n ==> 0 <= js[k] < |s|
    ensures |t| == |s|
  {
    if n == 0 then s else Swap(Shuffled(s, js, n - 1), n - 1, js[n - 1])
  }

  /** However the partners are chosen, shuffling a permutation of the digits gives one. */
  lemma {:induction false} ShuffledPermutes(s: seq<int>, js: seq<int>, n: nat)
    requires n <= |s| && n <= |js|
    requires forall k :: 0 <= k < n ==> 0 <= js[k] < |s|
    requires DigitPermutation(s)
    ensures DigitPermutation(Shuffled(s, js, n))
  {
    if n > 0 {
      ShuffledPermutes(s, js, n - 1);
      SwapPermutes(Shuffled(s, js, n - 1), n - 1, js[n - 1]);
    }
  }

  /** The swap partners `nextInt(9)` picks during one shuffle starting at stream position k. */
  function Choices(rng: Random, k: nat, n: nat): (js: seq<int>)
    ensures |js| == n && forall i :: 0 <= i < n ==> 0 <= js[i] < 9 && js[i] == rng.Draw(k + i) % 9
  {
    if n == 0 then [] else Choices(rng, k, n - 1) + [rng.Draw(k + n - 1) % 9]
  }

  /**
   generateRandomNumbers: the digits 1..9, shuffled by swapping each position
   i with a position j drawn from all of 0..8. The result is a permutation of
   1..9 (the shuffle is not Fisher-Yates, so not uniform).
   */
  method GenerateRandomNumbers(rng: Random) returns (numbers: array<int>)
    modifies rng
    ensures fresh(numbers) && numbers.Length == SIZE
    ensures rng.pos == old(rng.pos) + SIZE
    ensures numbers[..] == Shuffled(Ordered, Choices(rng, old(rng.pos), SIZE), SIZE)
    ensures DigitPermutation(numbers[..])
  {
    numbers := new int[SIZE];
    for i := 0 to SIZE
      modifies numbers
      invariant forall k :: 0 <= k < i ==> numbers[k] == k + 1
    {
      numbers[i] := i + 1;
    }
    assert numbers[..] == Ordered;
    ghost var js := Choices(rng, rng.pos, SIZE);
    ghost var p0 := rng.pos;
    for i := 0 to SIZE
      invariant rng.pos == p0 + i
      invariant numbers[..] == Shuffled(Ordered, js, i)
    {
      ghost var before := numbers[..];
      var j := rng.NextInt(SIZE);
      assert j == js[i];
      var temp := numbers[i];
      numbers[i] := numbers[j];
      numbers[j] := temp;
      assert numbers[..] == Swap(before, i, j);
    }
    ShuffledDigits(js);
  }

  /**
   What `generateRandomNumbers` returns holds exactly the digits 1..9, each
   once, whatever the stream supplied.
   */
  lemma ShuffledDigits(js: seq<int>)
    requires |js| == 9 && forall k :: 0 <= k < 9 ==> 0 <= js[k] < 9
    ensures DigitPermutation(Shuffled(Ordered, js, 9))
  {
    OrderedDigits();
    ShuffledPermutes(Ordered, js, 9);
  }

  // ---------------------------------------------------------------------
  // fillBoard

  /**
   fillBoard: fills the empty cells by backtracking, trying the digits of
   each cell in the order `generateRandomNumbers` gives. On success the board
   is full and only empty cells were written, each with a digit `isValid`
   accepted; on failure the board is as on entry and has no solution.
   */
  method FillBoard(board: array2<int>, rng: Random) returns (ok: bool)
    requires board.Length0 == SIZE && board.Length1 == SIZE
    modifies board, rng
    ensures ok ==> Full(Snapshot(board)) && Fills(old(Snapshot(board)), Snapshot(board))
    ensures !ok ==> Snapshot(board) == old(Snapshot(board))
    ensures Consistent(old(Snapshot(board))) ==> Consistent(Snapshot(board))
    ensures !ok ==> NoSolutionFrom(old(Snapshot(board)), 0)
    decreases 81 - Clues(Snapshot(board)), 2
  {
    var rowCol := FindEmptyLocation(board);
    if rowCol.None? {
      FillsRefl(Snapshot(board));
      return true;
    }
    var row, col := rowCol.value.0, rowCol.value.1;
    var numbers := GenerateRandomNumbers(rng);
    ok := TryDigits(board, rng, row, col, numbers);
    if !ok {
      NoDigitFits(Snapshot(board), row, col, numbers[..]);
    }
  }

  /**
   The loop of fillBoard over the shuffled digits of one empty cell: each
   digit `isValid` accepts is placed and the rest filled recursively, until
   one succeeds. On failure the board is as on entry and every digit tried
   is excluded from every solution at that cell.
   */
  method TryDigits(board: array2<int>, rng: Random, row: int, col: int, numbers: array<int>) returns (ok: bool)
    requires board.Length0 == SIZE && board.Length1 == SIZE
    requires InBoard(row, col) && board[row, col] == 0
    requires numbers.Length == SIZE && forall j :: 0 <= j < SIZE ==> 1 <= numbers[j] <= 9
    modifies board, rng
    ensures ok ==> Full(Snapshot(board)) && Fills(old(Snapshot(board)), Snapshot(board))
    ensures ok && Consistent(old(Snapshot(board))) ==> Consistent(Snapshot(board))
    ensures !ok ==> Snapshot(board) == old(Snapshot(board))
    ensures !ok ==> forall j :: 0 <= j < SIZE ==> Excluded(old(Snapshot(board)), 0, row, col, numbers[j])
    decreases 81 - Clues(Snapshot(board)), 1
  {
    ghost var g0 := Snapshot(board);
    for k := 0 to SIZE
      modifies board, rng
      invariant Snapshot(board) == g0
      invariant forall j :: 0 <= j < k ==> Excluded(g0, 0, row, col, numbers[j])
    {
      var num := numbers[k];
      var valid := IsValid(board, row, col, num);
      if valid {
        ok := PlaceAndFill(board, rng, row, col, num);
        if ok {
          return true;
        }
      } else {
        RejectedIsExcluded(g0, 0, row, col, num);
      }
    }
    return false;
  }

  /**
   The body of fillBoard's loop for a digit `isValid` accepted: place it,
   fill the rest recursively, and clear the cell again if that fails. On
   success the board is a full fill of the one on entry, free of duplicates
   if that one was; on failure it is as on entry, and no solution holds the
   digit at that cell.
   */
  method PlaceAndFill(board: array2<int>, rng: Random, row: int, col: int, num: int) returns (ok: bool)
    requires board.Length0 == SIZE && board.Length1 == SIZE
    requires InBoard(row, col) && board[row, col] == 0 && 1 <= num <= 9
    modifies board, rng
    ensures ok ==> Full(Snapshot(board)) && Fills(old(Snapshot(board)), Snapshot(board))
    ensures ok && Consistent(old(Snapshot(board))) && CanPlace(old(Snapshot(board)), row, col, num) ==>
      Consistent(Snapshot(board))
    ensures !ok ==> Snapshot(board) == old(Snapshot(board))
    ensures !ok ==> Excluded(old(Snapshot(board)), 0, row, col, num)
    decreases 81 - Clues(Snapshot(board)), 0
  {
    ghost var g0 := Snapshot(board);
    board[row, col] := num;
    ghost var g1 := Set(g0, row, col, num);
    GridEq(Snapshot(board), g1);
    CluesSet(g0, row, col, num);
    ok := FillBoard(board, rng);
    if ok {
      PlacedThenFilled(g0, Snapshot(board), row, col, num);
    } else {
      board[row, col] := 0;
      GridEq(Snapshot(board), g0);
      FailedIsExcluded(g0, 0, 0, row, col, num);
    }
  }

  /**
   A digit placed at an empty cell, followed by a fill of the rest, is a fill
   of the original board; when the digit passed `isValid`, it keeps the board
   free of duplicates.
   */
  lemma {:induction false} PlacedThenFilled(g: Grid, g': Grid, row: int, col: int, d: int)
    requires IsGrid(g) && InBoard(row, col) && g[row][col] == 0 && 1 <= d <= 9
    requires Fills(Set(g, row, col, d), g')
    requires Consistent(Set(g, row, col, d)) ==> Consistent(g')
    ensures Fills(g, g')
    ensures Consistent(g) && CanPlace(g, row, col, d) ==> Consistent(g')
  {
    FillsTrans(g, Set(g, row, col, d), g');
    if Consistent(g) && CanPlace(g, row, col, d) {
      PlaceKeepsConsistent(g, row, col, d);
    }
  }

  /**
   A full fill of a board of digits that is free of duplicates is a solution
   of it: what a successful fillBoard leaves is a solution of what it was given.
   */
  lemma FilledIsSolution(g: Grid, g': Grid)
    requires Digits(g) && Consistent(g) && Full(g') && Fills(g, g') && Consistent(g')
    ensures Solution(g, g')
  {
    FillsIsSolution(g, g', 0);
  }

  /** Every digit 1..9 excluded at one cell: the board has no solution. */
  lemma {:induction false} NoDigitFits(g: Grid, row: int, col: int, digits: seq<int>)
    requires InBoard(row, col)
    requires forall d :: 1 <= d <= 9 ==> d in digits
    requires forall j :: 0 <= j < |digits| ==> Excluded(g, 0, row, col, digits[j])
    ensures NoSolutionFrom(g, 0)
  {
    forall d | 1 <= d <= 9 ensures Excluded(g, 0, row, col, d) {
      assert d in digits;
    }
    AllExcluded(g, 0, row, col);
  }

  // ---------------------------------------------------------------------
  // removeCells

  /** A later pair of draws that lands on a non-empty cell of g. */
  lemma NextHit(rng: Random, k0: nat, it: nat, g: Grid) returns (t: nat, r: int, c: int)
    requires rng.Fair() && IsGrid(g) && Clues(g) > 0
    ensures it <= t && (r, c) == rng.Drawn(k0, t)
    ensures InBoard(r, c) && g[r][c] != 0
  {
    r, c := SomeClue(g);
    assert rng.AllCellsLater(k0 + 2 * it);
    assert rng.DrawnLater(k0 + 2 * it, r, c);
    var i: nat :| rng.Drawn(k0 + 2 * it, i) == (r, c);
    rng.DrawnShift(k0 + 2 * it, i);
    rng.DrawnShift(k0, it + i);
    t := it + i;
  }

  /**
   removeCells: clears randomly drawn cells until `count` non-empty cells have
   been cleared; a drawn cell that is already empty is skipped. It writes only
   zeros, and the number of clues drops by exactly `count` (none when `count`
   is 0 or less). With `count` above the number of clues the loop never
   stops. For a positive `count` the model also requires a stream that keeps
   picking every cell (`Fair`), the condition under which it proves the loop
   stops; runs on other streams, which may stop or not, are not covered.
   */
  method RemoveCells(board: array2<int>, count: int, rng: Random)
    requires board.Length0 == SIZE && board.Length1 == SIZE
    requires count <= Clues(Snapshot(board))
    requires count > 0 ==> rng.Fair()
    modifies board, rng
    ensures Carves(old(Snapshot(board)), Snapshot(board))
    ensures Clues(Snapshot(board)) == Clues(old(Snapshot(board))) - (if count > 0 then count else 0)
  {
    ghost var g0 := Snapshot(board);
    ghost var g := g0;
    ghost var p0 := rng.pos;
    ghost var it: nat := 0;
    ghost var target: nat, tr, tc := 0, 0, 0;
    var left := count;
    if left > 0 {
      target, tr, tc := NextHit(rng, p0, 0, g0);
    }
    while left > 0
      invariant Snapshot(board) == g
      invariant rng.pos == p0 + 2 * it
      invariant Carves(g0, g)
      invariant count <= 0 ==> left == count
      invariant count > 0 ==> 0 <= left
      invariant Clues(g) == Clues(g0) - (count - left)
      invariant left > 0 ==> it <= target && (tr, tc) == rng.Drawn(p0, target)
      invariant left > 0 ==> InBoard(tr, tc) && g[tr][tc] != 0
      decreases left, target - it
    {
      var row, col := rng.NextCell();
      rng.DrawnShift(p0, it);
      if board[row, col] != 0 {
        board[row, col] := 0;
        CarvesClear(g0, g, row, col);
        CluesSet(g, row, col, 0);
        g := Set(g, row, col, 0);
        GridEq(Snapshot(board), g);
        left := left - 1;
        if left > 0 {
          target, tr, tc := NextHit(rng, p0, it + 1, g);
        }
      } else {
        assert left > 0 ==> (row, col) != (tr, tc) && it != target;
      }
      it := it + 1;
    }
  }

  // ---------------------------------------------------------------------
  // A solved board, so that filling from empty provably succeeds

  /** Row offset of the pattern solution: 0, 3, 6, 1, 4, 7, 2, 5, 8. */
  function Shift(r: int): int {
    3 * (r % 3) + r / 3
  }

  /** Cell (r, c) of a fixed solved board: (Shift(r) + c) mod 9, plus one. */
  function Pattern(r: int, c: int): int {
    var x := Shift(r) + c;
    (if x < 9 then x else x - 9) + 1
  }

  ghost function Witness(): (w: Grid)
    ensures IsGrid(w) && forall r, c :: InBoard(r, c) ==> w[r][c] == Pattern(r, c)
  {
    seq(9, r => seq(9, c => Pattern(r, c)))
  }

  lemma {:induction false} PatternDistinct(r1: int, c1: int, r2: int, c2: int)
    requires InBoard(r1, c1) && InBoard(r2, c2) && (r1 != r2 || c1 != c2)
    requires SameUnit(r1, c1, r2, c2)
    ensures Pattern(r1, c1) != Pattern(r2, c2)
  {
    assert 0 <= Shift(r1) < 9 && 0 <= Shift(r2) < 9;
    if r1 == r2 {
    } else if c1 == c2 {
      assert Shift(r1) != Shift(r2);
    } else {
      assert r1 / 3 == r2 / 3 && c1 / 3 == c2 / 3;
      assert Shift(r1) - Shift(r2) == 3 * (r1 - r2);
      assert -2 <= r1 - r2 <= 2 && -2 <= c1 - c2 <= 2;
    }
  }

  lemma WitnessSolved()
    ensures Solved(Witness())
  {
    var w := Witness();
    forall r1, c1, r2, c2 |
      InBoard(r1, c1) && InBoard(r2, c2) && (r1 != r2 || c1 != c2) &&
      SameUnit(r1, c1, r2, c2) && w[r1][c1] != 0
      ensures w[r1][c1] != w[r2][c2]
    {
      PatternDistinct(r1, c1, r2, c2);
    }
  }

  /** An empty board has a solution. */
  lemma EmptyHasSolution(g: Grid)
    requires IsGrid(g) && forall r, c :: InBoard(r, c) ==> g[r][c] == 0
    ensures Solution(g, Witness())
  {
    WitnessSolved();
  }

  // ---------------------------------------------------------------------
  // randomFillGrid

  /**
   randomFillGrid without its display part: fill a fresh zero board, then
   clear `Removals` cells. The fill always succeeds, so the puzzle has exactly
   81 - Removals clues, no duplicates, and the filled board as a solution.
   */
  method RandomFillGrid(rng: Random) returns (board: array2<int>, ghost solution: Grid)
    requires rng.Fair()
    modifies rng
    ensures fresh(board) && board.Length0 == SIZE && board.Length1 == SIZE
    ensures Digits(Snapshot(board)) && Consistent(Snapshot(board))
    ensures Clues(Snapshot(board)) == 81 - Removals
    ensures Solution(Snapshot(board), solution)
  {
    board := new int[SIZE, SIZE]((_, _) => 0);
    ghost var empty := Snapshot(board);
    EmptyHasSolution(empty);
    assert Consistent(empty);
    var filled := FillBoard(board, rng);
    assert filled;
    solution := Snapshot(board);
    FilledIsSolution(empty, solution);
    FullClues(solution);
    RemoveCells(board, Removals, rng);
    assert Solution(solution, solution);
    CarveKeepsSolution(solution, Snapshot(board), solution);
    CarveKeepsConsistent(solution, Snapshot(board));
  }
}
