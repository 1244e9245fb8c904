# Sudoku engine of SudokuSolver.java, in Dafny

This project models the puzzle engine of a Swing Sudoku application, a single
Java class `SudokuSolver`, and proves what it does. The engine has four parts.

- **Board** (`board.dfy`, module `Board`) is the 9x9 board and the `isValid`
  check: may a digit go into a cell, given its row, column and 3x3 box?
  - The generator's `int[][]` becomes an `array2<int>` with 0 for an empty
    cell.
  - The solver works on the grid of text fields. It is the same kind of
    array, holding the value each field stands for (`FieldValue`): 0 for
    "", d for the text of the digit d, and 10 for any other text.
  - Specifications speak about the board's value, a `Grid` of nine rows,
    taken with `Snapshot`.
  - `TextAgreesWithValues` proves that, on any grid of text fields, the
    text overload of `isValid` answers as the integer one does on the
    fields' values. `Render` gives the text view of a board of digits, and
    reading it back gives the board.
- **Random** (`random.dfy`, module `Rand`) stands in for `java.util.Random`.
  - The values are a stream supplied from outside. The k-th value reduced
    into `0..bound-1` stands for the result of the k-th `nextInt(bound)`
    call, and `pos` counts the calls made. Every call in the source has
    bound 9, and since the stream is arbitrary this covers whatever
    `java.util.Random` returns, its internal redraws included.
- **Generator** (`generator.dfy`, module `Generator`) holds:
  - `findEmptyLocation`;
  - `generateRandomNumbers`, an in-place shuffle of 1..9;
  - `fillBoard`, randomised backtracking;
  - `removeCells`, random carving;
  - `randomFillGrid`, which composes them.
- **Solver** (`solver.dfy`, module `Solver`) holds the cancellable
  backtracking `solveSudoku` and `run`.
  - The `volatile boolean solving` flag is a `Flag` object.
  - Its readings are a stream supplied from outside, and each check of the
    flag takes the next reading.

## What is proved

- `isValid` answers true exactly when the digit is in no cell of the row, the
  column or the box. The target cell is one of the cells scanned. Every index
  it reads is on the board.
- `findEmptyLocation` returns nothing exactly when the board is full.
  Otherwise it returns the first empty cell in row-major order.
- `generateRandomNumbers` returns the digits 1..9, each exactly once, whatever
  the stream supplies. Its result is pinned down as the swap sequence the
  code performs.
- `fillBoard`:
  - On success the board is full. Only empty cells were written, each with a
    digit 1..9, and a board without duplicates still has none. When the
    board on entry holds only digits and no duplicates, the result is a
    solution of it.
  - On failure the board is exactly as on entry, and that board has no
    solution. The failure is therefore genuine, not an artefact of the
    random digit order.
- `removeCells` writes only zeros, and the number of clues drops by exactly
  `count` (none when `count` is 0 or less). It is proved to terminate when
  `count` is at most the number of clues and the stream keeps picking every
  cell.
- `randomFillGrid`:
  - Filling the empty board provably succeeds. The model shows one fixed
    solved board, so the empty board has a solution and `fillBoard` cannot
    report failure.
  - The puzzle has 40 clues and no duplicates, and the filled board is a
    solution of it.
- `solveSudoku(row, col)`:
  - If the flag is off at the call's first check, it answers false at once,
    after that one check.
  - On false the grid is exactly as on entry, whether the search was stopped
    or exhausted.
  - A true answer always follows an on reading of the flag, so a stopped
    search never answers true.
  - On true, every empty cell from (row, col) on is filled with a digit.
    Nothing before (row, col) and no non-empty cell changed, and no
    duplicate was added to a grid that had none.
  - If the flag stayed on during the call, false means no solution keeps
    the cells before (row, col).
  - If the flag stayed on and the answer is true, no solution keeping the
    cells before (row, col) comes before the fill in row-major
    lexicographic order. This is how the ascending order of the digits
    shows. For a grid of digits without duplicates, searched from (0, 0),
    the fill is that least solution (see `run`).
- `run` leaves the grid unchanged or completely filled, and unchanged when
  the flag is off at the first check. For a grid of digits without
  duplicates, a filled grid is a solution. For a grid of digits without
  duplicates, with the flag on throughout, the grid ends up filled exactly
  when the puzzle has a solution, and then with the least one. A grid with
  a duplicate among its clues can end up filled all the same: a grid of
  81 clues is skipped cell by cell and reported solved.

The code does not match some natural descriptions of this program. The model
follows the code:

- The shuffle in `generateRandomNumbers` (SudokuSolver.java:153-158) swaps
  position i with a position drawn from all of 0..8. It is not the
  Fisher-Yates swap with a later position, so it is not uniform. The model
  claims only that the result is a permutation.
- Stopping the solver does not leave partial digits on the grid. A stopped
  call returns false, and every caller then clears its cell at line 228.
  The caller's digit loop still goes on to its remaining digits, so a stop
  unwinds more than one frame: each level keeps placing and clearing digits
  until all the calls return. `SolveSudoku` proves that the grid is restored
  on every false answer.
- `isValid` scans the target cell as well (lines 162-176). Both callers only
  ask about empty cells, where this makes no difference. `CanPlace` includes
  the target cell, as the code does.
- `solveSudoku` returns a boolean, and `run` drops it. "Stopped" and "no
  solution" are both false.

Splits made for the proofs:

- The loop of `fillBoard` over the shuffled digits is the method
  `TryDigits`, and the loop body for an accepted digit is `PlaceAndFill`.
- The digit loop of `solveSudoku` is `SolveCell`, and its body is
  `PlaceAndSolve`.
- These methods call each other mutually recursively. Their order of
  statements and their branches are the source's.

## Model

| member | source | states |
|---|---|---|
| Board.BoxStart | SudokuSolver.java:167-168 | the box origin `(x / 3) * 3` is 0, 3 or 6 and at most x, with x within the box's three rows, so every index `isValid` reads is in 0..8 |
| Board.IsValid | SudokuSolver.java:161-177 | answers true iff `CanPlace`: num is not in the row, not in the column and not in the box of (row, col), the target cell included |
| Board.CanPlaceIff | SudokuSolver.java:162-176 | the three scans of `isValid` accept num iff no cell sharing a row, column or box with (row, col) holds it |
| Board.ValueOf | SudokuSolver.java:179 | `String.valueOf(d)` for a digit d: the single character '1'..'9' whose code is d above '0' |
| Board.TextCanPlace | SudokuSolver.java:178-195 | the text overload's check: String.valueOf(num) is the text of none of the row's, the column's and the box's fields |
| Board.FieldValueIs | SudokuSolver.java:179-181 | `String.valueOf(num).equals(text)` holds for a field iff the field's value is num, and the text is "" iff the value is 0 |
| Board.TextAgreesWithValues | SudokuSolver.java:178-195 | on any 9x9 grid of text fields, the text overload of `isValid` gives the integer overload's answer on the fields' values, and a field is "" iff its value is 0 |
| Board.Render | SudokuSolver.java:94-101 | the field text of each cell after `resetGrid` and the copy loop: "" for 0, String.valueOf(d) for the digit d |
| Board.ValuesOfRender | SudokuSolver.java:94-101 | the values of the text view of a board of digits are the board itself |
| Board.TextAgreesWithInt | SudokuSolver.java:178-195 | on the text view of a board of digits, the text overload of `isValid` gives the integer overload's answer on the board, and a field's text is empty iff its cell is 0 |
| Board.PlaceKeepsConsistent | SudokuSolver.java:113-114 | writing a digit that `isValid` accepted into a board without duplicates leaves it without duplicates |
| Board.RejectedIsExcluded | SudokuSolver.java:113 | a digit `isValid` rejects at an empty cell is in no solution at that cell |
| Board.PlacedSolution | SudokuSolver.java:114-115 | a solution holding d at (row, col) is a solution of the board with d written there |
| Board.FailedIsExcluded | SudokuSolver.java:114-118 | a digit whose placement leaves no solution is in no solution of the board before the placement |
| Board.AllExcluded | SudokuSolver.java:112-121 | when every digit 1..9 is excluded at a cell the board has no solution, so a false return after the digit loop is genuine |
| Board.FillsIsSolution | SudokuSolver.java:104-122 | a duplicate-free fill of a duplicate-free board of digits whose cells before p are set, equal to it before p and full from p on, is a solution from p |
| Board.FillsTrans | SudokuSolver.java:114-115 | a fill of a fill is a fill of the original board |
| Board.CarvesClear | SudokuSolver.java:129-130 | clearing one more cell keeps the board a carving of the original |
| Board.CarveKeepsConsistent | SudokuSolver.java:129-130 | clearing cells never creates a duplicate |
| Board.CarveKeepsSolution | SudokuSolver.java:91-92 | a solution of the filled board is a solution of any board carved from it |
| Board.CluesSet | SudokuSolver.java:129-131 | writing 0 into a non-empty cell lowers the clue count by exactly one |
| Board.FullClues | SudokuSolver.java:91-92 | a full board has 81 clues |
| Board.SomeClue | SudokuSolver.java:126-129 | a board with a clue has a non-empty cell on the board |
| Rand.Random.NextInt | SudokuSolver.java:127-128 | the result of the next `nextInt(bound)` call is the next stream value reduced into 0..bound-1, and the call count advances by one |
| Rand.Random.NextCell | SudokuSolver.java:127-128 | the two `nextInt(9)` calls pick the cell given by the next pair of stream values and advance the stream by two |
| Generator.FindEmptyLocation | SudokuSolver.java:136-145 | returns None iff the board is full; otherwise an empty cell with no empty cell before it in row-major order |
| Generator.OrderedDigits | SudokuSolver.java:148-151 | the initial array 1..9 holds each digit exactly once |
| Generator.Swap | SudokuSolver.java:155-157 | the exchange of entries i and j through `temp`; the length is kept |
| Generator.Shuffled | SudokuSolver.java:153-158 | the array after the first n passes of the swap loop, pass i exchanging entry i with its drawn partner; the length is kept |
| Generator.SwapPermutes | SudokuSolver.java:155-157 | one exchange of two entries keeps a list of the digits 1..9, each once |
| Generator.ShuffledPermutes | SudokuSolver.java:153-158 | however the partners are drawn, the swap loop keeps a permutation of the digits a permutation |
| Generator.ShuffledDigits | SudokuSolver.java:147-160 | the shuffle of 1..9 holds each digit exactly once, for every choice of partners in 0..8 |
| Generator.GenerateRandomNumbers | SudokuSolver.java:147-160 | returns a fresh array equal to the swap sequence of the code on the next nine stream values, a permutation of 1..9; the stream advances by nine |
| Generator.FillBoard | SudokuSolver.java:104-122 | true: the board is full and only empty cells were written with digits; false: the board is as on entry and has no solution; no duplicates are introduced |
| Generator.TryDigits | SudokuSolver.java:112-121 | the digit loop: on true as `FillBoard`; on false the board is as on entry and every digit of the array is excluded at the cell |
| Generator.PlaceAndFill | SudokuSolver.java:113-119 | an accepted digit is written and the rest filled, or the cell is reset to 0 and the digit is in no solution at the cell |
| Generator.PlacedThenFilled | SudokuSolver.java:114-116 | a digit written at an empty cell followed by a fill of the rest is a fill of the board, and free of duplicates when the digit passed `isValid` |
| Generator.NoDigitFits | SudokuSolver.java:112-121 | when the nine shuffled digits are all excluded at the cell, the board has no solution |
| Generator.FilledIsSolution | SudokuSolver.java:104-122 | what a successful `fillBoard` leaves on a duplicate-free board of digits is a solution of it |
| Generator.NextHit | SudokuSolver.java:126-133 | on a stream that keeps picking every cell, a later pair of draws lands on a non-empty cell: the loop's next decrement of count |
| Generator.RemoveCells | SudokuSolver.java:124-134 | only zeros are written and the clue count drops by exactly count (none when count is at most 0) |
| Generator.WitnessSolved | SudokuSolver.java:91 | the fixed pattern board is solved: every cell a digit, no row, column or box duplicate |
| Generator.EmptyHasSolution | SudokuSolver.java:90-91 | the empty board has a solution, so filling it succeeds |
| Generator.RandomFillGrid | SudokuSolver.java:88-93 | fill a zero board, then clear 41 cells: the puzzle has 40 clues, all digits, no duplicates, and the filled board as a solution |
| Solver.Flag.Poll | SudokuSolver.java:204 | one check of `solving` returns the next reading and consumes it |
| Solver.Flag.AllOnSplit | SudokuSolver.java:204-206 | the flag was on throughout an interval iff it was on throughout both halves |
| Solver.SolveSudoku | SudokuSolver.java:203-232 | `Searched` from (row, col): false leaves the grid as on entry and, with the flag on throughout, means no solution keeps the cells before (row, col); true completes the grid from (row, col) and follows an on reading, and with the flag on throughout no solution keeping the cells before (row, col) comes before the fill; a flag off at the first check answers false after that one check; polls the flag at least once |
| Solver.SolveCell | SudokuSolver.java:216-231 | the digit loop from 1 to 9 at an empty cell, with the same outcome as `SolveSudoku`; true follows an on reading |
| Solver.PlaceAndSolve | SudokuSolver.java:217-229 | an accepted digit is written and the search goes on at the next cell; on failure the cell is cleared, the grid is as on entry and, with the flag on, the digit is in no solution at the cell; true follows an on reading |
| Solver.Run | SudokuSolver.java:199-201 | the grid ends unchanged or full; unchanged when the flag is off at the first check; a full grid solves a duplicate-free grid of digits; for a duplicate-free grid of digits with the flag on, full iff a solution exists, and then the least one |
| Solver.PastTheEnd | SudokuSolver.java:207-209 | past the last row the search succeeds with the grid unchanged, and no solution comes before it |
| Solver.SkipClue | SudokuSolver.java:213-215 | skipping a non-empty cell: an outcome from the next cell is the outcome from this cell |
| Solver.SkipClueCompletes | SudokuSolver.java:213-215 | a completion from the cell after a clue is a completion from the clue |
| Solver.SkipClueNoSolution | SudokuSolver.java:213-215 | no solution from the cell after a clue means no solution from the clue |
| Solver.SkipClueLeast | SudokuSolver.java:213-215 | when no solution from the cell after a clue comes before the fill, none from the clue does |
| Solver.ClueKept | SudokuSolver.java:213-215 | a solution from a clue's position keeps the clue |
| Solver.PrecedesStep | SudokuSolver.java:216 | a board before another from a cell is smaller at the cell, or equal there and before it from the next cell |
| Solver.PlacedThenSolved | SudokuSolver.java:218-226 | a digit written at an empty cell followed by a successful search from the next cell is a successful search from the cell |
| Solver.LeastAfterPlace | SudokuSolver.java:216-226 | digits tried in ascending order: with every smaller digit excluded, if no solution after placing d comes before the fill, none from the cell does |
| Solver.SolvedAfterPlace | SudokuSolver.java:216-227 | a successful return from inside the digit loop meets `Searched` at the cell |

## Left out

- The Swing interface is not modelled: the window, the buttons and their
  listeners, `resetGrid`, colours and fonts (SudokuSolver.java:13-86). The
  loop that copies the carved board onto the text fields (lines 94-101) is
  not modelled as a step of its own. `Render` is the text it produces, and
  `ValuesOfRender` shows that the solver's values are then the carved board.
- Threads are not modelled. That covers the solver thread, the cross-thread
  handoff of the `volatile` flag (lines 11, 52-53, 60) and
  `Thread.sleep(100)` (lines 220-224). The flag is a stream of readings, one
  per check. `Flag.AllOn` says the flag was on throughout a call.
- The colour changes of the solver (line 219) are not modelled.
- `java.util.Random` is not modelled. Its values are a stream supplied from
  the outside, and nothing is claimed about their distribution. The source
  creates a new `Random` in each call (lines 125, 152). The model draws all
  values from one stream, since only the values drawn matter.
- Text typed into a field that is not a digit is not kept as text. Its
  value is 10, so the solver treats it as a non-empty cell that no digit
  equals, as the source does.
- Generator.RemoveCells: requires `count` to be at most the number of clues,
  and, for a positive `count`, a stream that keeps picking every cell
  (`Random.Fair`), the condition under which the model proves the loop
  stops. With `count` above the clue count the source loops for ever. On a
  stream that is not fair the source may stop or loop for ever, and the
  model covers none of those runs. A `count` of 0 or less needs neither, as
  the loop never runs.
- Generator.RandomFillGrid: requires a `Random.Fair` stream, which it passes
  on to `RemoveCells`; runs on other streams are not covered.
- The puzzle `randomFillGrid` makes is not checked for a unique solution, and
  neither does the source check it.
- `main` (lines 235-242) is not modelled.

