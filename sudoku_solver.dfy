/** The backtracking solver of src/Sudoku_Solver.py: the rules it checks,
    the scan for an empty cell, the search (as a specification and as the
    in-place recursive method) and the ASCII rendering of a board. */
module SudokuSolver {

  datatype Option<T> = None | Some(value: T)

  /** One row of a board: nine numbers, 0 marking an empty cell. */
  type Row = s: seq<int> | |s| == 9 witness [0, 0, 0, 0, 0, 0, 0, 0, 0]

  /** A 9x9 board, as the list of its nine rows. */
  type Grid = g: seq<Row> | |g| == 9 witness seq<Row>(9, _ => [0, 0, 0, 0, 0, 0, 0, 0, 0])

  /** The grid that results from writing `v` into cell (row, column). */
  function Place(g: Grid, row: int, column: int, v: int): (h: Grid)
    requires 0 <= row < 9 && 0 <= column < 9
    ensures forall r, c :: 0 <= r < 9 && 0 <= c < 9 ==>
      h[r][c] == if r == row && c == column then v else g[r][c]
  {
    g[row := g[row][column := v]]
  }

  // ---------------------------------------------------------------------
  // The rules of Sudoku
  // ---------------------------------------------------------------------

  /** Index of the 3x3 band holding row (or column) `i`: `i // 3`. */
  function Box(i: int): int
  {
    i / 3
  }

  /** `i // 3 * 3`: the first row (or column) of the box holding `i`;
      the box is exactly the three indices from there on. */
  function BoxStart(i: int): (start: int)
    requires 0 <= i < 9
    ensures start % 3 == 0 && 0 <= start <= i < start + 3 <= 9
    ensures forall k :: 0 <= k < 9 ==> (Box(k) == Box(i) <==> start <= k < start + 3)
  {
    i / 3 * 3
  }

  /** `v` occurs somewhere in row `row`. */
  predicate InRow(g: Grid, row: int, v: int)
    requires 0 <= row < 9
  {
    exists c :: 0 <= c < 9 && g[row][c] == v
  }

  /** `v` occurs somewhere in column `column`. */
  predicate InColumn(g: Grid, column: int, v: int)
    requires 0 <= column < 9
  {
    exists r :: 0 <= r < 9 && g[r][column] == v
  }

  /** `v` occurs somewhere in the 3x3 box of cell (row, column). */
  predicate InBox(g: Grid, row: int, column: int, v: int)
    requires 0 <= row < 9 && 0 <= column < 9
  {
    exists r, c :: 0 <= r < 9 && 0 <= c < 9 && Box(r) == Box(row) && Box(c) == Box(column) && g[r][c] == v
  }

  /** The rule `is_valid_guess` enforces: `v` is nowhere in the row, the column
      or the box of (row, column), that cell itself included. */
  predicate Allowed(g: Grid, v: int, row: int, column: int)
    requires 0 <= row < 9 && 0 <= column < 9
  {
    !InRow(g, row, v) && !InColumn(g, column, v) && !InBox(g, row, column, v)
  }

  /** Two cells share a row, a column or a box. */
  predicate Peers(r1: int, c1: int, r2: int, c2: int)
  {
    r1 == r2 || c1 == c2 || (Box(r1) == Box(r2) && Box(c1) == Box(c2))
  }

  /** No digit is repeated between two different cells of a row, a column or a box. */
  predicate NoConflict(g: Grid)
  {
    forall r1, c1, r2, c2 ::
      0 <= r1 < 9 && 0 <= c1 < 9 && 0 <= r2 < 9 && 0 <= c2 < 9 &&
      (r1 != r2 || c1 != c2) && Peers(r1, c1, r2, c2) && g[r1][c1] != 0
      ==> g[r1][c1] != g[r2][c2]
  }

  /** Every cell is filled. */
  predicate NoZeros(g: Grid)
  {
    forall r, c :: 0 <= r < 9 && 0 <= c < 9 ==> g[r][c] != 0
  }

  /** `s` keeps every filled cell of `g` and puts a digit 1..9 into every empty one. */
  predicate Extends(g: Grid, s: Grid)
  {
    forall r, c :: 0 <= r < 9 && 0 <= c < 9 ==>
      (g[r][c] != 0 ==> s[r][c] == g[r][c]) && (g[r][c] == 0 ==> 1 <= s[r][c] <= 9)
  }

  /** Cell (r1, c1) comes strictly before (r2, c2) in row-major order. */
  predicate RowMajorBefore(r1: int, c1: int, r2: int, c2: int)
  {
    r1 < r2 || (r1 == r2 && c1 < c2)
  }

  /** The empty cells of a grid. */
  function EmptyCells(g: Grid): set<(int, int)>
  {
    set r, c | 0 <= r < 9 && 0 <= c < 9 && g[r][c] == 0 :: (r, c)
  }

  /** Filling an empty cell removes exactly that cell from the empty cells:
      each descent of the search sees one empty cell fewer. */
  lemma PlaceShrinksEmptyCells(g: Grid, row: int, column: int, v: int)
    requires 0 <= row < 9 && 0 <= column < 9 && g[row][column] == 0 && v != 0
    ensures (row, column) in EmptyCells(g)
    ensures EmptyCells(Place(g, row, column, v)) == EmptyCells(g) - {(row, column)}
    ensures |EmptyCells(Place(g, row, column, v))| == |EmptyCells(g)| - 1
  {
    var h := Place(g, row, column, v);
    forall p | p in EmptyCells(h)
      ensures p in EmptyCells(g) - {(row, column)}
    {
      var r, c :| 0 <= r < 9 && 0 <= c < 9 && h[r][c] == 0 && p == (r, c);
    }
    forall p | p in EmptyCells(g) - {(row, column)}
      ensures p in EmptyCells(h)
    {
      var r, c :| 0 <= r < 9 && 0 <= c < 9 && g[r][c] == 0 && p == (r, c);
      assert h[r][c] == 0;
    }
  }

  // ---------------------------------------------------------------------
  // is_valid_guess
  // ---------------------------------------------------------------------

  /** `is_valid_guess`: the row scan, the column scan and the scan of the box
      starting at (row // 3 * 3, column // 3 * 3); the guess is refused exactly
      when one of them meets it. */
  method IsValidGuess(g: Grid, guess: int, row: int, column: int) returns (ok: bool)
    requires 0 <= row < 9 && 0 <= column < 9
    ensures ok <==> Allowed(g, guess, row, column)
  {
    for i := 0 to 9
      invariant forall c :: 0 <= c < i ==> g[row][c] != guess
    {
      if g[row][i] == guess {
        return false;
      }
    }
    for i := 0 to 9
      invariant forall r :: 0 <= r < i ==> g[r][column] != guess
    {
      if g[i][column] == guess {
        return false;
      }
    }
    var boxRow := row / 3;
    var boxColumn := column / 3;
    var startingRow := boxRow * 3;
    var startingColumn := boxColumn * 3;
    assert startingRow == BoxStart(row) && startingColumn == BoxStart(column);
    for i := 0 to 3
      invariant forall r, c :: startingRow <= r < startingRow + i && startingColumn <= c < startingColumn + 3 ==> g[r][c] != guess
    {
      ghost var line := g[startingRow + i];
      for j := 0 to 3
        invariant forall c :: startingColumn <= c < startingColumn + j ==> line[c] != guess
      {
        if g[startingRow + i][startingColumn + j] == guess {
          assert Box(startingRow + i) == Box(row) && Box(startingColumn + j) == Box(column);
          return false;
        }
      }
    }
    return true;
  }

  // ---------------------------------------------------------------------
  // find_next_empty_cell
  // ---------------------------------------------------------------------

  /** The row-major scan for a 0, resumed at cell (row, column). */
  function FirstEmptyFrom(g: Grid, row: int, column: int): (cell: (int, int))
    requires 0 <= row <= 9 && 0 <= column <= 9
    decreases 9 - row, 9 - column
    ensures cell == (-1, -1) || (0 <= cell.0 < 9 && 0 <= cell.1 < 9 && g[cell.0][cell.1] == 0)
  {
    if row == 9 then (-1, -1)
    else if column == 9 then FirstEmptyFrom(g, row + 1, 0)
    else if g[row][column] == 0 then (row, column)
    else FirstEmptyFrom(g, row, column + 1)
  }

  /** The first empty cell in row-major order, or (-1, -1). */
  function FirstEmpty(g: Grid): (cell: (int, int))
    ensures cell == (-1, -1) || (0 <= cell.0 < 9 && 0 <= cell.1 < 9 && g[cell.0][cell.1] == 0)
  {
    FirstEmptyFrom(g, 0, 0)
  }

  /** The resumed scan skips no empty cell: it stops at the first one from
      (row, column) on, and reports (-1, -1) only when there is none. */
  lemma {:induction false} FirstEmptyFromIsFirst(g: Grid, row: int, column: int)
    requires 0 <= row <= 9 && 0 <= column <= 9
    decreases 9 - row, 9 - column
    ensures var cell := FirstEmptyFrom(g, row, column);
      cell == (-1, -1) || !RowMajorBefore(cell.0, cell.1, row, column)
    ensures var cell := FirstEmptyFrom(g, row, column);
      forall r, c ::
        (0 <= r < 9 && 0 <= c < 9 && !RowMajorBefore(r, c, row, column) &&
         (cell == (-1, -1) || RowMajorBefore(r, c, cell.0, cell.1))) ==> g[r][c] != 0
  {
    if row == 9 {
    } else if column == 9 {
      FirstEmptyFromIsFirst(g, row + 1, 0);
    } else if g[row][column] != 0 {
      FirstEmptyFromIsFirst(g, row, column + 1);
    }
  }

  /** `find_next_empty_cell` returns the first empty cell in row-major order,
      and (-1, -1) exactly when the board has no empty cell. */
  lemma FirstEmptyIsFirst(g: Grid)
    ensures FirstEmpty(g) == (-1, -1) <==> NoZeros(g)
    ensures var cell := FirstEmpty(g);
      cell != (-1, -1) ==>
        0 <= cell.0 < 9 && 0 <= cell.1 < 9 && g[cell.0][cell.1] == 0 &&
        forall r, c :: 0 <= r < 9 && 0 <= c < 9 && RowMajorBefore(r, c, cell.0, cell.1) ==> g[r][c] != 0
  {
    FirstEmptyFromIsFirst(g, 0, 0);
  }

  /** `find_next_empty_cell`: the nested row-major scan, returning at the first 0. */
  method FindNextEmptyCell(g: Grid) returns (row: int, column: int)
    ensures (row, column) == FirstEmpty(g)
  {
    for r := 0 to 9
      invariant FirstEmptyFrom(g, r, 0) == FirstEmpty(g)
    {
      for c := 0 to 9
        invariant FirstEmptyFrom(g, r, c) == FirstEmpty(g)
      {
        if g[r][c] == 0 {
          return r, c;
        }
      }
    }
    return -1, -1;
  }

  // ---------------------------------------------------------------------
  // solve_sudoku, as a pure specification
  // ---------------------------------------------------------------------

  /** The search of `solve_sudoku` on the grid `g`: the grid it leaves behind
      on success, or None when every candidate fails. */
  function Solve(g: Grid): Option<Grid>
    decreases |EmptyCells(g)|, 1, 0
  {
    var (row, column) := FirstEmpty(g);
    if row == -1 && column == -1 then Some(g)
    else TrySolve(g, row, column, 1)
  }

  /** The candidate loop of `solve_sudoku` at the empty cell (row, column),
      from candidate `guess` on. */
  function TrySolve(g: Grid, row: int, column: int, guess: int): Option<Grid>
    requires 0 <= row < 9 && 0 <= column < 9 && g[row][column] == 0 && 1 <= guess <= 10
    decreases |EmptyCells(g)|, 0, 10 - guess
  {
    if guess == 10 then None
    else if Allowed(g, guess, row, column) then
      var next := Place(g, row, column, guess);
      PlaceShrinksEmptyCells(g, row, column, guess);
      var solved := Solve(next);
      if solved.Some? then solved
      else TrySolve(g, row, column, guess + 1)
    else TrySolve(g, row, column, guess + 1)
  }

  /** The search starts at the first empty cell, and ends at once when
      there is none. */
  lemma SolveAtFirstEmpty(g: Grid)
    ensures FirstEmpty(g) == (-1, -1) ==> Solve(g) == Some(g)
    ensures FirstEmpty(g) != (-1, -1) ==> Solve(g) == TrySolve(g, FirstEmpty(g).0, FirstEmpty(g).1, 1)
  {
  }

  /** One candidate of the loop: the search ends with the candidate's
      result when it is allowed and leads to a solution, and moves on to the
      next candidate otherwise. */
  lemma TrySolveStep(g: Grid, row: int, column: int, guess: int)
    requires 0 <= row < 9 && 0 <= column < 9 && g[row][column] == 0 && 1 <= guess <= 9
    ensures Allowed(g, guess, row, column) && Solve(Place(g, row, column, guess)).Some? ==>
      TrySolve(g, row, column, guess) == Solve(Place(g, row, column, guess))
    ensures !(Allowed(g, guess, row, column) && Solve(Place(g, row, column, guess)).Some?) ==>
      TrySolve(g, row, column, guess) == TrySolve(g, row, column, guess + 1)
  {
  }

  /** Writing a guess that `is_valid_guess` accepts cannot create a duplicate. */
  lemma PlaceKeepsNoConflict(g: Grid, row: int, column: int, v: int)
    requires 0 <= row < 9 && 0 <= column < 9
    requires Allowed(g, v, row, column)
    ensures NoConflict(g) ==> NoConflict(Place(g, row, column, v))
  {
    var h := Place(g, row, column, v);
    if NoConflict(g) {
      forall r1, c1, r2, c2 |
        0 <= r1 < 9 && 0 <= c1 < 9 && 0 <= r2 < 9 && 0 <= c2 < 9 &&
        (r1 != r2 || c1 != c2) && Peers(r1, c1, r2, c2) && h[r1][c1] != 0
        ensures h[r1][c1] != h[r2][c2]
      {
        if r1 == row && c1 == column {
          assert g[r2][c2] != v;
        } else if r2 == row && c2 == column {
          assert g[r1][c1] != v;
        }
      }
    }
  }

  /** Emptying a cell that was empty, whatever was written there meanwhile,
      gives back the grid. */
  lemma PlaceUndo(g: Grid, row: int, column: int, v: int)
    requires 0 <= row < 9 && 0 <= column < 9 && g[row][column] == 0
    ensures Place(Place(g, row, column, v), row, column, 0) == g
    ensures Place(g, row, column, 0) == g
  {
    var h := Place(g, row, column, v);
    assert h[row][column := 0] == g[row];
    assert g[row][column := 0] == g[row];
  }

  /** Emptying a cell cannot create a duplicate. */
  lemma PlaceZeroKeepsNoConflict(g: Grid, row: int, column: int)
    requires 0 <= row < 9 && 0 <= column < 9
    ensures NoConflict(g) ==> NoConflict(Place(g, row, column, 0))
  {
    var h := Place(g, row, column, 0);
    if NoConflict(g) {
      forall r1, c1, r2, c2 |
        0 <= r1 < 9 && 0 <= c1 < 9 && 0 <= r2 < 9 && 0 <= c2 < 9 &&
        (r1 != r2 || c1 != c2) && Peers(r1, c1, r2, c2) && h[r1][c1] != 0
        ensures h[r1][c1] != h[r2][c2]
      {
        if !(r2 == row && c2 == column) {
          assert g[r1][c1] != g[r2][c2];
        }
      }
    }
  }

  /** Writing a digit 1..9 into an empty cell of `g` on the way to `s` keeps `s` an extension. */
  lemma ExtendsAfterPlace(g: Grid, s: Grid, row: int, column: int, v: int)
    requires 0 <= row < 9 && 0 <= column < 9 && g[row][column] == 0 && 1 <= v <= 9
    ensures Extends(Place(g, row, column, v), s) ==> Extends(g, s)
    ensures Extends(g, s) && s[row][column] == v ==> Extends(Place(g, row, column, v), s)
  {
  }

  /** Soundness of the search: what it returns is a full board that keeps the
      given cells, fills the empty ones with digits 1..9, and has no duplicate
      if the given cells had none. */
  lemma {:induction false} SolveSound(g: Grid)
    decreases |EmptyCells(g)|, 1, 0
    ensures Solve(g).Some? ==> NoZeros(Solve(g).value) && Extends(g, Solve(g).value)
    ensures Solve(g).Some? && NoConflict(g) ==> NoConflict(Solve(g).value)
  {
    var (row, column) := FirstEmpty(g);
    if row == -1 && column == -1 {
      FirstEmptyIsFirst(g);
    } else {
      TrySolveSound(g, row, column, 1);
    }
  }

  /** Soundness of the candidate loop: each accepted candidate is a digit 1..9
      that `is_valid_guess` allows, written into the empty cell. */
  lemma {:induction false} TrySolveSound(g: Grid, row: int, column: int, guess: int)
    requires 0 <= row < 9 && 0 <= column < 9 && g[row][column] == 0 && 1 <= guess <= 10
    decreases |EmptyCells(g)|, 0, 10 - guess
    ensures TrySolve(g, row, column, guess).Some? ==>
      NoZeros(TrySolve(g, row, column, guess).value) && Extends(g, TrySolve(g, row, column, guess).value)
    ensures TrySolve(g, row, column, guess).Some? && NoConflict(g) ==>
      NoConflict(TrySolve(g, row, column, guess).value)
  {
    if guess < 10 {
      var next := Place(g, row, column, guess);
      if Allowed(g, guess, row, column) && Solve(next).Some? {
        PlaceShrinksEmptyCells(g, row, column, guess);
        SolveSound(next);
        ExtendsAfterPlace(g, Solve(next).value, row, column, guess);
        PlaceKeepsNoConflict(g, row, column, guess);
      } else {
        TrySolveSound(g, row, column, guess + 1);
      }
    }
  }

  /** Two different peer cells of a grid without conflicts do not hold the same digit. */
  lemma NoConflictAt(s: Grid, r1: int, c1: int, r2: int, c2: int)
    requires NoConflict(s)
    requires 0 <= r1 < 9 && 0 <= c1 < 9 && 0 <= r2 < 9 && 0 <= c2 < 9
    requires (r1 != r2 || c1 != c2) && Peers(r1, c1, r2, c2) && s[r1][c1] != 0
    ensures s[r1][c1] != s[r2][c2]
  {
  }

  /** In a solution `s` of `g`, the digit at an empty cell of `g` is a guess
      that `is_valid_guess` accepts on `g`. */
  lemma SolutionDigitIsAllowed(g: Grid, s: Grid, row: int, column: int)
    requires 0 <= row < 9 && 0 <= column < 9 && g[row][column] == 0
    requires Extends(g, s) && NoConflict(s)
    ensures 1 <= s[row][column] <= 9
    ensures Allowed(g, s[row][column], row, column)
  {
    var v := s[row][column];
    assert 1 <= v <= 9;
    if InRow(g, row, v) {
      var c :| 0 <= c < 9 && g[row][c] == v;
      NoConflictAt(s, row, column, row, c);
    }
    if InColumn(g, column, v) {
      var r :| 0 <= r < 9 && g[r][column] == v;
      NoConflictAt(s, row, column, r, column);
    }
    if InBox(g, row, column, v) {
      var r, c :| 0 <= r < 9 && 0 <= c < 9 && Box(r) == Box(row) && Box(c) == Box(column) && g[r][c] == v;
      NoConflictAt(s, row, column, r, c);
    }
  }

  /** Completeness of the search: whenever `g` has a solution, the search succeeds.
      So a reported failure means that the puzzle has no solution. */
  lemma {:induction false} SolveFindsSolution(g: Grid, s: Grid)
    requires Extends(g, s) && NoConflict(s)
    decreases |EmptyCells(g)|, 1, 0
    ensures Solve(g).Some?
  {
    var (row, column) := FirstEmpty(g);
    if !(row == -1 && column == -1) {
      TrySolveFindsSolution(g, row, column, 1, s);
    }
  }

  /** Completeness of the candidate loop: no candidate up to the solution's
      digit can make it give up. */
  lemma {:induction false} TrySolveFindsSolution(g: Grid, row: int, column: int, guess: int, s: Grid)
    requires 0 <= row < 9 && 0 <= column < 9 && g[row][column] == 0
    requires Extends(g, s) && NoConflict(s)
    requires 1 <= guess <= s[row][column]
    decreases |EmptyCells(g)|, 0, 10 - guess
    ensures TrySolve(g, row, column, guess).Some?
  {
    var next := Place(g, row, column, guess);
    if guess == s[row][column] {
      SolutionDigitIsAllowed(g, s, row, column);
      ExtendsAfterPlace(g, s, row, column, guess);
      PlaceShrinksEmptyCells(g, row, column, guess);
      SolveFindsSolution(next, s);
    } else if Allowed(g, guess, row, column) && Solve(next).Some? {
    } else {
      TrySolveFindsSolution(g, row, column, guess + 1, s);
    }
  }

  /** On a grid whose given cells hold no duplicate, the search succeeds
      exactly when the puzzle has a solution, and what it returns is one. */
  lemma SolveCorrect(g: Grid)
    requires NoConflict(g)
    ensures Solve(g).Some? <==> exists s :: Extends(g, s) && NoConflict(s)
    ensures Solve(g).Some? ==> NoZeros(Solve(g).value) && Extends(g, Solve(g).value) && NoConflict(Solve(g).value)
  {
    SolveSound(g);
    if s :| Extends(g, s) && NoConflict(s) {
      SolveFindsSolution(g, s);
    }
  }

  /** A board with no empty cell is reported solved and left as it is. */
  lemma SolveFilledIsIdentity(g: Grid)
    requires NoZeros(g)
    ensures Solve(g) == Some(g)
  {
    FirstEmptyIsFirst(g);
  }

  /** A number repeated among its peers in `g` is kept by every board that
      extends `g`, so such a board has no solution. */
  lemma RepeatedGivenUnsolvable(g: Grid)
    requires !NoConflict(g)
    ensures !exists s :: Extends(g, s) && NoConflict(s)
  {
    var r1, c1, r2, c2 :|
      0 <= r1 < 9 && 0 <= c1 < 9 && 0 <= r2 < 9 && 0 <= c2 < 9 &&
      (r1 != r2 || c1 != c2) && Peers(r1, c1, r2, c2) && g[r1][c1] != 0 &&
      g[r1][c1] == g[r2][c2];
    forall s: Grid | Extends(g, s)
      ensures !NoConflict(s)
    {
      assert s[r1][c1] == g[r1][c1] && s[r2][c2] == g[r2][c2];
    }
  }

  /** The classic puzzle filled in, with the 3 of its first row replaced by
      a second 5. */
  const RepeatedFive: Grid := [
    [5, 5, 4, 6, 7, 8, 9, 1, 2],
    [6, 7, 2, 1, 9, 5, 3, 4, 8],
    [1, 9, 8, 3, 4, 2, 5, 6, 7],
    [8, 5, 9, 7, 6, 1, 4, 2, 3],
    [4, 2, 6, 8, 5, 3, 7, 9, 1],
    [7, 1, 3, 9, 2, 4, 8, 5, 6],
    [9, 6, 1, 5, 3, 7, 2, 8, 4],
    [2, 8, 7, 4, 1, 9, 6, 3, 5],
    [3, 4, 5, 2, 8, 6, 1, 7, 9]]

  /** The search as written on a board whose given numbers repeat: it
      reports the board solved and leaves it as it is, although no solution
      exists, against the promise to return False in that case. */
  lemma SolveAcceptsRepeatedGiven()
    ensures Solve(RepeatedFive) == Some(RepeatedFive)
    ensures !exists s :: Extends(RepeatedFive, s) && NoConflict(s)
  {
    SolveFilledIsIdentity(RepeatedFive);
    assert RepeatedFive[0][0] == RepeatedFive[0][1] && Peers(0, 0, 0, 1);
    RepeatedGivenUnsolvable(RepeatedFive);
  }

  /** The search as documented: a board whose given numbers already repeat
      among peers is reported unsolvable up front; any other board is
      searched. It succeeds exactly when a solution exists, and then returns
      one. */
  function SolveChecked(g: Grid): (r: Option<Grid>)
    ensures r.Some? <==> exists s :: Extends(g, s) && NoConflict(s)
    ensures r.Some? ==> NoZeros(r.value) && Extends(g, r.value) && NoConflict(r.value)
  {
    if NoConflict(g) then
      SolveCorrect(g);
      Solve(g)
    else
      RepeatedGivenUnsolvable(g);
      None
  }

  // ---------------------------------------------------------------------
  // solve_sudoku, in place
  // ---------------------------------------------------------------------

  /** `solve_sudoku` on a board whose nine rows are held in place: it reports
      whether Solve succeeds, on success leaves Solve's grid on the board and
      on failure leaves the board exactly as it found it. */
  method SolveSudoku(board: array<Row>) returns (solved: bool)
    requires board.Length == 9
    modifies board
    decreases |EmptyCells(board[..])|, 1
    ensures solved == Solve(old(board[..])).Some?
    ensures board[..] == if solved then Solve(old(board[..])).value else old(board[..])
  {
    ghost var start: Grid := board[..];
    SolveAtFirstEmpty(start);
    var row, column := FindNextEmptyCell(board[..]);
    if row == -1 && column == -1 {
      return true;
    }
    for guess := 1 to 10
      invariant board[..] == start
      invariant TrySolve(start, row, column, guess) == Solve(start)
    {
      TrySolveStep(start, row, column, guess);
      solved := TryPlacing(board, row, column, guess);
      if solved {
        return;
      }
    }
    return false;
  }

  /** One turn of the guessing loop of `solve_sudoku`: an allowed guess is
      written into the empty cell and the search goes on from there; unless
      that search succeeds, the cell is emptied again. */
  method TryPlacing(board: array<Row>, row: int, column: int, guess: int) returns (solved: bool)
    requires board.Length == 9 && 0 <= row < 9 && 0 <= column < 9 && board[row][column] == 0
    requires 1 <= guess <= 9
    modifies board
    decreases |EmptyCells(board[..])|, 0
    ensures solved == (Allowed(old(board[..]), guess, row, column) && Solve(Place(old(board[..]), row, column, guess)).Some?)
    ensures board[..] == if solved then Solve(Place(old(board[..]), row, column, guess)).value else old(board[..])
  {
    ghost var start: Grid := board[..];
    var valid := IsValidGuess(board[..], guess, row, column);
    if valid {
      board[row] := board[row][column := guess];
      assert board[..] == Place(start, row, column, guess);
      PlaceShrinksEmptyCells(start, row, column, guess);
      solved := SolveSudoku(board);
      if solved {
        return;
      }
    }
    PlaceUndo(start, row, column, guess);
    ghost var tried := board[..];
    board[row] := board[row][column := 0];
    assert board[..] == Place(tried, row, column, 0);
    solved := false;
  }

  // ---------------------------------------------------------------------
  // create_ASCII_board
  // ---------------------------------------------------------------------

  /** The separator line the rendering puts before rows 3 and 6. */
  const Separator: string := "- - - - - - - - - - -"

  function DigitChar(d: int): (ch: char)
    requires 0 <= d < 10
    ensures '0' <= ch <= '9'
  {
    (48 + d) as char
  }

  /** The size that falls on every step of the decimal conversion. */
  function TextSize(n: int): nat
  {
    if n < 0 then 1 - n else n
  }

  /** Python's `str` of an integer: a single digit, or the text of a
      longer or negative number. */
  function IntToString(n: int): (s: string)
    decreases TextSize(n), 1
  {
    if 0 <= n < 10 then [DigitChar(n)] else LongIntToString(n)
  }

  /** The text of a negative number or one of two or more digits: a minus
      sign before the magnitude, or the leading digits before the last one. */
  function LongIntToString(n: int): (s: string)
    requires !(0 <= n < 10)
    decreases TextSize(n), 0
  {
    if n < 0 then "-" + IntToString(-n) else IntToString(n / 10) + IntToString(n % 10)
  }

  /** A number's text holds no newline. */
  lemma {:induction false} IntToStringNoNewline(n: int)
    decreases TextSize(n)
    ensures '\n' !in IntToString(n)
  {
    if n < 0 {
      IntToStringNoNewline(-n);
    } else if n >= 10 {
      IntToStringNoNewline(n / 10);
      IntToStringNoNewline(n % 10);
    }
  }

  /** A number and the space after it. */
  function Cell(n: int): string
  {
    IntToString(n) + " "
  }

  /** A board row as text: the nine numbers separated by spaces, with `| `
      before the numbers of columns 3 and 6. */
  function DigitRow(row: Row): string
  {
    Cell(row[0]) + Cell(row[1]) + Cell(row[2]) + "| " +
    Cell(row[3]) + Cell(row[4]) + Cell(row[5]) + "| " +
    Cell(row[6]) + Cell(row[7]) + IntToString(row[8])
  }

  /** A line of the rendered board: a separator, or the numbers of one row. */
  datatype Line = Rule | Numbers(row: Row)

  /** The lines of the rendered board: three rows, a separator, three rows,
      a separator, three rows. */
  function Layout(g: Grid): (lines: seq<Line>)
    ensures |lines| == 11
  {
    seq(11, k requires 0 <= k < 11 => LayoutLine(g, k))
  }

  /** Line `k` of the layout. */
  function LayoutLine(g: Grid, k: int): Line
    requires 0 <= k < 11
  {
    if k < 3 then Numbers(g[k])
    else if k == 3 then Rule
    else if k < 7 then Numbers(g[k - 1])
    else if k == 7 then Rule
    else Numbers(g[k - 2])
  }

  /** The text of one line, without its newline. */
  function LineText(line: Line): string
  {
    match line
    case Rule => Separator
    case Numbers(row) => DigitRow(row)
  }

  /** The texts of the lines. */
  function Texts(lines: seq<Line>): (texts: seq<string>)
    ensures |texts| == |lines|
  {
    if lines == [] then [] else [LineText(lines[0])] + Texts(lines[1..])
  }

  /** Each line's text followed by a newline. */
  function Render(lines: seq<Line>): string
  {
    if lines == [] then "" else LineText(lines[0]) + "\n" + Render(lines[1..])
  }

  /** Index of the first newline of `s` at or after `i`, or |s| if there is none. */
  function NextNewline(s: string, i: nat): (k: nat)
    requires i <= |s|
    decreases |s| - i
    ensures i <= k <= |s|
  {
    if i == |s| || s[i] == '\n' then i else NextNewline(s, i + 1)
  }

  /** Cuts a text into lines at its newlines (a last line without a newline is kept). */
  function SplitLines(s: string): seq<string>
    decreases |s|
  {
    if s == [] then []
    else
      var k := NextNewline(s, 0);
      if k == |s| then [s] else [s[..k]] + SplitLines(s[k + 1..])
  }

  // Small facts about strings and sequences.

  lemma AppendAssoc(a: string, b: string, c: string)
    ensures a + (b + c) == a + b + c
  {
  }

  lemma TakeSnoc<T>(s: seq<T>, n: int)
    requires 0 <= n < |s|
    ensures s[..n + 1] == s[..n] + [s[n]]
  {
  }

  lemma AppendEmpty(a: string)
    ensures "" + a == a && a + "" == a
  {
  }

  lemma {:induction false} NewlineAt(s: string, i: nat, k: nat)
    requires i <= k < |s| && s[k] == '\n'
    requires forall j :: i <= j < k ==> s[j] != '\n'
    decreases k - i
    ensures NextNewline(s, i) == k
  {
    if i < k {
      NewlineAt(s, i + 1, k);
    }
  }

  /** A newline-free line followed by a newline is split off as one line. */
  lemma SplitLinesCons(first: string, rest: string)
    requires '\n' !in first
    ensures SplitLines(first + "\n" + rest) == [first] + SplitLines(rest)
  {
    var s := first + "\n" + rest;
    assert forall j :: 0 <= j < |first| ==> s[j] == first[j];
    NewlineAt(s, 0, |first|);
    assert s[..|first|] == first;
  }

  /** Splitting the rendered text gives back the lines' texts. */
  lemma {:induction false} SplitRender(lines: seq<Line>)
    decreases |lines|
    ensures SplitLines(Render(lines)) == Texts(lines)
  {
    if lines != [] {
      LineTextNoNewline(lines[0]);
      SplitLinesCons(LineText(lines[0]), Render(lines[1..]));
      SplitRender(lines[1..]);
    }
  }

  /** Rendering one more line appends its text and a newline. */
  lemma {:induction false} RenderSnoc(lines: seq<Line>, line: Line)
    decreases |lines|
    ensures Render(lines + [line]) == Render(lines) + (LineText(line) + "\n")
  {
    if lines == [] {
      assert [line][1..] == [];
      AppendEmpty(LineText(line) + "\n");
    } else {
      assert (lines + [line])[1..] == lines[1..] + [line];
      RenderSnoc(lines[1..], line);
      AppendAssoc(LineText(lines[0]) + "\n", Render(lines[1..]), LineText(line) + "\n");
    }
  }

  /** A rendered row has no newline of its own. */
  lemma DigitRowNoNewline(row: Row)
    ensures '\n' !in DigitRow(row)
  {
    forall c | 0 <= c < 9
      ensures '\n' !in Cell(row[c])
    {
      IntToStringNoNewline(row[c]);
    }
    IntToStringNoNewline(row[8]);
    assert '\n' !in "| ";
  }

  /** For digits 0..9 a rendered row is 21 characters, as wide as the separator. */
  lemma DigitRowWidth(row: Row)
    requires forall c :: 0 <= c < 9 ==> 0 <= row[c] <= 9
    ensures |DigitRow(row)| == 21
  {
  }

  /** No line's text holds a newline. */
  lemma LineTextNoNewline(line: Line)
    ensures '\n' !in LineText(line)
  {
    if line.Numbers? {
      DigitRowNoNewline(line.row);
    }
  }

  /** The layout line that shows row `r`: rows 0..2 come first, then the
      separator, rows 3..5, the second separator and rows 6..8. */
  function RowLine(r: int): int
  {
    if r < 3 then r else if r < 6 then r + 1 else r + 2
  }

  /** Row `r` is line RowLine(r) of the layout: the rows keep their order, with
      a separator line before rows 3 and 6 and nowhere else. */
  lemma LayoutShape(g: Grid)
    ensures Layout(g)[3] == Rule && Layout(g)[7] == Rule
    ensures forall r :: 0 <= r < 9 ==> RowLine(r) < 11 && Layout(g)[RowLine(r)] == Numbers(g[r])
  {
  }

  /** On a board of digits 0..9 every line is 21 characters wide. */
  lemma LayoutWidth(g: Grid)
    requires forall r, c :: 0 <= r < 9 && 0 <= c < 9 ==> 0 <= g[r][c] <= 9
    ensures forall k :: 0 <= k < 11 ==> |LineText(Layout(g)[k])| == 21
  {
    forall k | 0 <= k < 11
      ensures |LineText(Layout(g)[k])| == 21
    {
      var line := Layout(g)[k];
      if line.Numbers? {
        assert exists r :: 0 <= r < 9 && line.row == g[r];
        DigitRowWidth(line.row);
      }
    }
  }

  // The text `create_ASCII_board` has produced so far, step by step.

  const SeparatorLine: string := Separator + "\n"

  /** The text appended for cell (i, j) once the `| ` before it, if any, is out. */
  function CellText(row: Row, j: int): string
    requires 0 <= j < 9
  {
    if j == 8 then IntToString(row[j]) + "\n" else Cell(row[j])
  }

  /** The text produced for the first `j` cells of a row. */
  function RowPrefix(row: Row, j: int): string
    requires 0 <= j <= 9
  {
    if j == 0 then ""
    else
      var before := RowPrefix(row, j - 1);
      (if (j - 1 == 3 || j - 1 == 6) then before + "| " else before) + CellText(row, j - 1)
  }

  /** The text produced for the first `i` rows. */
  function RowsDone(g: Grid, i: int): string
    requires 0 <= i <= 9
    decreases i, 0
  {
    if i == 0 then "" else RowOpen(g, i - 1) + RowPrefix(g[i - 1], 9)
  }

  /** The text produced for the first `i` rows and the separator before row `i`, if any. */
  function RowOpen(g: Grid, i: int): string
    requires 0 <= i < 9
    decreases i, 1
  {
    if i == 3 || i == 6 then RowsDone(g, i) + SeparatorLine else RowsDone(g, i)
  }

  /** The text produced for a whole row is the row's line and a newline. */
  lemma RowPrefixIsDigitRow(row: Row)
    ensures RowPrefix(row, 9) == DigitRow(row) + "\n"
  {
    AppendEmpty(Cell(row[0]));
    assert RowPrefix(row, 1) == Cell(row[0]);
    assert RowPrefix(row, 2) == Cell(row[0]) + Cell(row[1]);
    assert RowPrefix(row, 3) == Cell(row[0]) + Cell(row[1]) + Cell(row[2]);
    assert RowPrefix(row, 4) == Cell(row[0]) + Cell(row[1]) + Cell(row[2]) + "| " + Cell(row[3]);
    assert RowPrefix(row, 5) == Cell(row[0]) + Cell(row[1]) + Cell(row[2]) + "| " + Cell(row[3]) + Cell(row[4]);
    assert RowPrefix(row, 6) == Cell(row[0]) + Cell(row[1]) + Cell(row[2]) + "| " + Cell(row[3]) + Cell(row[4]) + Cell(row[5]);
    assert RowPrefix(row, 7) == Cell(row[0]) + Cell(row[1]) + Cell(row[2]) + "| " + Cell(row[3]) + Cell(row[4]) + Cell(row[5]) + "| " + Cell(row[6]);
    var seven := Cell(row[0]) + Cell(row[1]) + Cell(row[2]) + "| " + Cell(row[3]) + Cell(row[4]) + Cell(row[5]) + "| " + Cell(row[6]) + Cell(row[7]);
    assert RowPrefix(row, 8) == seven;
    AppendAssoc(seven, IntToString(row[8]), "\n");
  }

  /** The number of layout lines produced by the time row `i` is reached. */
  function LinesBefore(i: int): int
  {
    if i == 0 then 0 else RowLine(i - 1) + 1
  }

  /** Row `r` starts after LinesBefore(r) lines, and after one more, the separator, when it is row 3 or 6. */
  lemma LinesBeforeStep(r: int)
    requires 0 <= r < 9
    ensures LinesBefore(r + 1) == RowLine(r) + 1
    ensures (r == 3 || r == 6) ==> LinesBefore(r) + 1 == RowLine(r) && (LinesBefore(r) == 3 || LinesBefore(r) == 7)
    ensures !(r == 3 || r == 6) ==> LinesBefore(r) == RowLine(r)
  {
  }

  /** Appending one row, after the separator when there is one, extends the
      rendering by the row's layout line (and the separator line before it). */
  lemma RenderRowStep(lines: seq<Line>, n: nat, sep: bool, before: string, row: Row)
    requires n + (if sep then 1 else 0) < |lines|
    requires before == Render(lines[..n])
    requires sep ==> lines[n] == Rule
    requires lines[n + (if sep then 1 else 0)] == Numbers(row)
    ensures (if sep then before + SeparatorLine else before) + RowPrefix(row, 9)
      == Render(lines[..n + (if sep then 1 else 0) + 1])
  {
    var open := n + (if sep then 1 else 0);
    if sep {
      TakeSnoc(lines, n);
      RenderSnoc(lines[..n], Rule);
      assert LineText(Rule) + "\n" == SeparatorLine;
    }
    RowPrefixIsDigitRow(row);
    TakeSnoc(lines, open);
    RenderSnoc(lines[..open], Numbers(row));
  }

  /** After `i` rows, the text is the rendering of the layout's first LinesBefore(i) lines. */
  lemma {:induction false} RowsDoneIsLayout(g: Grid, i: int)
    requires 0 <= i <= 9
    ensures 0 <= LinesBefore(i) <= 11
    ensures RowsDone(g, i) == Render(Layout(g)[..LinesBefore(i)])
  {
    if i == 0 {
      assert Layout(g)[..0] == [];
    } else {
      var r := i - 1;
      RowsDoneIsLayout(g, r);
      LayoutShape(g);
      LinesBeforeStep(r);
      RenderRowStep(Layout(g), LinesBefore(r), r == 3 || r == 6, RowsDone(g, r), g[r]);
    }
  }

  /** After all nine rows, the text is the rendering of the whole layout. */
  lemma RowsDoneRendersLayout(g: Grid)
    ensures RowsDone(g, 9) == Render(Layout(g))
  {
    RowsDoneIsLayout(g, 9);
    assert Layout(g)[..11] == Layout(g);
  }

  /** One cell step of the row loop: the text grows by the bar, when the
      cell is in column 3 or 6, and by the cell's number and what follows it. */
  lemma RowPrefixStep(rowStart: string, before: string, barred: string, output: string, row: Row, j: int)
    requires 0 <= j < 9
    requires before == rowStart + RowPrefix(row, j)
    requires barred == if j == 3 || j == 6 then before + "| " else before
    requires output == barred + (if j == 8 then IntToString(row[j]) + "\n" else IntToString(row[j]) + " ")
    ensures output == rowStart + RowPrefix(row, j + 1)
  {
    if j == 3 || j == 6 {
      AppendAssoc(rowStart, RowPrefix(row, j), "| ");
      AppendAssoc(rowStart, RowPrefix(row, j) + "| ", CellText(row, j));
    } else {
      AppendAssoc(rowStart, RowPrefix(row, j), CellText(row, j));
    }
  }

  /** One row step of the rendering loop: the separator, if any, and the
      row's text complete the text of the first i + 1 rows. */
  lemma RowsDoneStep(g: Grid, i: int, rowStart: string, output: string)
    requires 0 <= i < 9
    requires rowStart == if i == 3 || i == 6 then RowsDone(g, i) + SeparatorLine else RowsDone(g, i)
    requires output == rowStart + RowPrefix(g[i], 9)
    ensures output == RowsDone(g, i + 1)
  {
    assert rowStart == RowOpen(g, i);
  }

  /** The finished text is the rendered layout and splits back into its lines. */
  lemma RowsDoneIsAsciiBoard(g: Grid, output: string)
    requires output == RowsDone(g, 9)
    ensures output == Render(Layout(g))
    ensures SplitLines(output) == Texts(Layout(g))
  {
    RowsDoneRendersLayout(g);
    SplitRender(Layout(g));
  }

  /** The test `create_ASCII_board` uses for "a new block of three starts at
      row (or column) k": k is a multiple of 3 other than 0. */
  predicate StartsBlock(k: int)
  {
    k % 3 == 0 && k != 0
  }

  /** Within the nine rows or columns, new blocks start at 3 and 6. */
  lemma ThirdBoundary(k: int)
    requires 0 <= k < 9
    ensures StartsBlock(k) <==> (k == 3 || k == 6)
  {
  }

  /** `create_ASCII_board`: the text is the layout's eleven lines, each ended by
      a newline, and splitting it at its newlines gives back exactly those lines. */
  method CreateAsciiBoard(g: Grid) returns (output: string)
    ensures output == Render(Layout(g))
    ensures SplitLines(output) == Texts(Layout(g))
  {
    output := "";
    for i := 0 to 9
      invariant output == RowsDone(g, i)
    {
      ThirdBoundary(i);
      if StartsBlock(i) {
        output := output + SeparatorLine;
      }
      ghost var rowStart := output;
      output := AppendRowText(output, g[i]);
      RowsDoneStep(g, i, rowStart, output);
    }
    RowsDoneIsAsciiBoard(g, output);
  }

  /** The inner loop of `create_ASCII_board`: the text of one row, with a
      bar before columns 3 and 6 and a newline after the last number, added
      to the text so far. */
  method AppendRowText(text: string, row: Row) returns (output: string)
    ensures output == text + RowPrefix(row, 9)
  {
    output := text;
    AppendEmpty(text);
    for j := 0 to 9
      invariant output == text + RowPrefix(row, j)
    {
      ghost var before := output;
      ThirdBoundary(j);
      if StartsBlock(j) {
        output := output + "| ";
      }
      ghost var barred := output;
      if j == 8 {
        output := output + (IntToString(row[j]) + "\n");
      } else {
        output := output + (IntToString(row[j]) + " ");
      }
      RowPrefixStep(text, before, barred, output, row, j);
    }
  }

}
