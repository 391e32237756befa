/** The interactive game of main.py: the cells shown in the window, the board
    state behind them, and the player's and the auto-solver's moves. Drawing
    is not modelled; see README. */
module SudokuGame {
  import opened SudokuSolver

  // ---------------------------------------------------------------------
  // Window geometry
  // ---------------------------------------------------------------------

  const CellSideLength: int := 60
  const BoardWidth: int := CellSideLength * 9
  const BoardHeight: int := CellSideLength * 9
  const FooterHeight: int := CellSideLength
  const WindowWidth: int := BoardWidth
  const WindowHeight: int := BoardHeight + FooterHeight

  /** The classic puzzle the game starts with. */
  const StartingBoard: Grid := [
    [5, 3, 0, 0, 7, 0, 0, 0, 0],
    [6, 0, 0, 1, 9, 5, 0, 0, 0],
    [0, 9, 8, 0, 0, 0, 0, 6, 0],
    [8, 0, 0, 0, 6, 0, 0, 0, 3],
    [4, 0, 0, 8, 0, 3, 0, 0, 1],
    [7, 0, 0, 0, 2, 0, 0, 0, 6],
    [0, 6, 0, 0, 0, 0, 2, 8, 0],
    [0, 0, 0, 4, 1, 9, 0, 0, 5],
    [0, 0, 0, 0, 8, 0, 0, 7, 9]]

  /** The cell a click at pixel (x, y) points to, with the bounds test as
      `select_cell` writes it: a click is ignored only when it lies strictly
      beyond the board's right or bottom edge. */
  function ClickTargetAsWritten(x: int, y: int): (target: Option<(int, int)>)
    requires 0 <= x && 0 <= y
  {
    if x > BoardWidth || y > BoardHeight then None
    else Some((y / CellSideLength, x / CellSideLength))
  }

  /** Inside the window, the test as written lets through a click that
      points outside the 9x9 cells exactly when the click is on the first
      pixel row of the footer; `self.cells[9]` then fails. */
  lemma ClickOutOfRangeAsWritten(x: int, y: int)
    requires 0 <= x < WindowWidth && 0 <= y < WindowHeight
    ensures (var target := ClickTargetAsWritten(x, y);
      target.Some? && !(0 <= target.value.0 < 9 && 0 <= target.value.1 < 9))
      <==> y == BoardHeight
  {
  }

  /** The cell a click at pixel (x, y) points to, or None for a click off the
      board: the bounds test with `>=`, so that every target is a cell. */
  function ClickedCell(x: int, y: int): (target: Option<(int, int)>)
    requires 0 <= x && 0 <= y
    ensures target.None? <==> x >= BoardWidth || y >= BoardHeight
    ensures target.Some? ==> 0 <= target.value.0 < 9 && 0 <= target.value.1 < 9
    ensures target.Some? ==>
      target.value.0 * CellSideLength <= y < (target.value.0 + 1) * CellSideLength &&
      target.value.1 * CellSideLength <= x < (target.value.1 + 1) * CellSideLength
  {
    if x >= BoardWidth || y >= BoardHeight then None
    else Some((y / CellSideLength, x / CellSideLength))
  }

  // ---------------------------------------------------------------------
  // SudokuCell
  // ---------------------------------------------------------------------

  /** One of the 81 cells: its number, its place, the player's pencilled
      guess and whether it is selected and may still be edited. */
  class SudokuCell {
    var value: int
    const row: int
    const column: int
    var guess: int
    var isSelected: bool
    var isEditable: bool

    /** A cell is editable exactly when it starts empty. */
    constructor(value: int, row: int, column: int)
      ensures this.value == value && this.row == row && this.column == column
      ensures guess == 0 && !isSelected
      ensures isEditable <==> value == 0
    {
      this.value := value;
      this.row := row;
      this.column := column;
      guess := 0;
      isSelected := false;
      isEditable := value == 0;
    }
  }

  // ---------------------------------------------------------------------
  // SudokuBoard
  // ---------------------------------------------------------------------

  /** The board state behind the window: the grid of numbers, the 81 cells
      showing it, the selected cell and the footer message. */
  class SudokuBoard {
    var board: Grid
    const cells: seq<seq<SudokuCell>>
    var currentlySelectedCell: Option<(int, int)>
    var footerMessage: Option<string>
    /** The puzzle the game started from. */
    ghost const puzzle: Grid
    /** The 81 cells, as a set. */
    ghost const Repr: set<SudokuCell>

    /** Nine rows of nine cells, cell (i, j) knowing its own place. */
    ghost predicate Shape()
    {
      |cells| == 9 && (forall i :: 0 <= i < 9 ==> |cells[i]| == 9) &&
      forall i, j :: 0 <= i < 9 && 0 <= j < 9 ==>
        cells[i][j].row == i && cells[i][j].column == j && cells[i][j] in Repr
    }

    /** The cells show the board, only cells that started empty can be
      edited, the puzzle's numbers stay on the board, and a selection names
      a cell. */
    ghost predicate Valid()
      reads this`board, this`currentlySelectedCell, Repr`value, Repr`isEditable
    {
      Shape() &&
      (forall i, j :: 0 <= i < 9 && 0 <= j < 9 ==> cells[i][j].value == board[i][j]) &&
      (forall i, j :: 0 <= i < 9 && 0 <= j < 9 && cells[i][j].isEditable ==> puzzle[i][j] == 0) &&
      (forall i, j :: 0 <= i < 9 && 0 <= j < 9 && puzzle[i][j] != 0 ==> board[i][j] == puzzle[i][j]) &&
      (currentlySelectedCell.Some? ==>
        0 <= currentlySelectedCell.value.0 < 9 && 0 <= currentlySelectedCell.value.1 < 9)
    }

    /** Cell (row, column). */
    function CellAt(row: int, column: int): (cell: SudokuCell)
      requires Shape() && 0 <= row < 9 && 0 <= column < 9
      ensures cell == cells[row][column] && cell in Repr
    {
      cells[row][column]
    }

    /** The selected cell. */
    function SelectedCell(): (cell: SudokuCell)
      requires Shape() && currentlySelectedCell.Some?
      requires 0 <= currentlySelectedCell.value.0 < 9 && 0 <= currentlySelectedCell.value.1 < 9
      reads this
      ensures cell in Repr
      ensures cell.row == currentlySelectedCell.value.0 && cell.column == currentlySelectedCell.value.1
    {
      cells[currentlySelectedCell.value.0][currentlySelectedCell.value.1]
    }

    /** A fresh game on the starting puzzle: one cell per number, the given
      numbers locked, nothing selected and no message. */
    constructor()
      ensures Valid() && fresh(Repr)
      ensures board == StartingBoard && puzzle == StartingBoard
      ensures forall i, j :: 0 <= i < 9 && 0 <= j < 9 ==>
        cells[i][j].guess == 0 && !cells[i][j].isSelected &&
        (cells[i][j].isEditable <==> StartingBoard[i][j] == 0)
      ensures currentlySelectedCell.None? && footerMessage.None?
    {
      var rows: seq<seq<SudokuCell>> := [];
      ghost var made: set<SudokuCell> := {};
      for i := 0 to 9
        invariant |rows| == i
        invariant forall k :: 0 <= k < i ==> |rows[k]| == 9
        invariant forall k, l :: 0 <= k < i && 0 <= l < 9 ==>
          rows[k][l].row == k && rows[k][l].column == l && rows[k][l] in made &&
          rows[k][l].value == StartingBoard[k][l] && rows[k][l].guess == 0 && !rows[k][l].isSelected &&
          (rows[k][l].isEditable <==> StartingBoard[k][l] == 0)
        invariant forall c :: c in made ==> fresh(c)
      {
        var line: seq<SudokuCell> := [];
        for j := 0 to 9
          invariant |line| == j
          invariant forall l :: 0 <= l < j ==>
            line[l].row == i && line[l].column == l && line[l] in made &&
            line[l].value == StartingBoard[i][l] && line[l].guess == 0 && !line[l].isSelected &&
            (line[l].isEditable <==> StartingBoard[i][l] == 0)
          invariant forall k, l :: 0 <= k < i && 0 <= l < 9 ==>
            rows[k][l].row == k && rows[k][l].column == l && rows[k][l] in made &&
            rows[k][l].value == StartingBoard[k][l] && rows[k][l].guess == 0 && !rows[k][l].isSelected &&
            (rows[k][l].isEditable <==> StartingBoard[k][l] == 0)
          invariant forall c :: c in made ==> fresh(c)
        {
          var cell := new SudokuCell(StartingBoard[i][j], i, j);
          line := line + [cell];
          made := made + {cell};
        }
        rows := rows + [line];
      }
      board := StartingBoard;
      cells := rows;
      puzzle := StartingBoard;
      Repr := made;
      currentlySelectedCell := None;
      footerMessage := None;
    }

    /** No cell is highlighted. */
    ghost predicate NoneSelected()
      requires Shape()
      reads Repr`isSelected
    {
      forall i, j :: 0 <= i < 9 && 0 <= j < 9 ==> !cells[i][j].isSelected
    }

    /** Every cell unselected: the loop that opens `select_cell` and
      `auto_solve`. */
    method ClearSelection()
      requires Shape()
      modifies Repr`isSelected
      ensures NoneSelected()
    {
      for i := 0 to 9
        invariant forall k, l :: 0 <= k < i && 0 <= l < 9 ==> !cells[k][l].isSelected
      {
        for j := 0 to 9
          invariant forall k, l :: 0 <= k < 9 && 0 <= l < 9 && (k < i || (k == i && l < j)) ==> !cells[k][l].isSelected
        {
          cells[i][j].isSelected := false;
        }
      }
    }

    /** `deselect_cell`: the given cell is unselected and no cell is recorded
      as selected. */
    method DeselectCell(cell: SudokuCell)
      modifies this`currentlySelectedCell, cell`isSelected
      ensures !cell.isSelected && currentlySelectedCell.None?
      ensures old(Valid()) ==> Valid()
    {
      cell.isSelected := false;
      currentlySelectedCell := None;
    }

    /** The paired write of `auto_solve` and `lock_in_guess`: a number goes
      into a cell that did not start filled, and onto the board at the same
      place. */
    method WriteNumber(row: int, column: int, v: int)
      requires Valid() && 0 <= row < 9 && 0 <= column < 9 && puzzle[row][column] == 0
      modifies this`board, CellAt(row, column)`value
      ensures Valid()
      ensures board == Place(old(board), row, column, v)
    {
      cells[row][column].value := v;
      board := Place(board, row, column, v);
    }

    /** The highlight `auto_solve` puts on the cell it is filling in. */
    method Highlight(row: int, column: int)
      requires Valid() && 0 <= row < 9 && 0 <= column < 9
      modifies CellAt(row, column)`isSelected
      ensures Valid() && cells[row][column].isSelected
    {
      cells[row][column].isSelected := true;
    }

    /** `select_cell`: every cell is unselected; a click on the board then
      selects the cell under it and records its place, while a click off the
      board leaves the recorded place as it was. */
    method SelectCell(mouseX: int, mouseY: int)
      requires Valid()
      requires 0 <= mouseX < WindowWidth && 0 <= mouseY < WindowHeight
      modifies this`currentlySelectedCell, Repr`isSelected
      ensures Valid()
      ensures currentlySelectedCell == if ClickedCell(mouseX, mouseY).Some? then ClickedCell(mouseX, mouseY) else old(currentlySelectedCell)
      ensures forall i, j :: 0 <= i < 9 && 0 <= j < 9 ==>
        (cells[i][j].isSelected <==> ClickedCell(mouseX, mouseY) == Some((i, j)))
    {
      ClearSelection();
      if mouseX >= BoardWidth || mouseY >= BoardHeight {
        return;
      }
      var cellX, cellY := mouseX / CellSideLength, mouseY / CellSideLength;
      var cell := cells[cellY][cellX];
      cell.isSelected := true;
      currentlySelectedCell := Some((cellY, cellX));
    }

    /** `display_guess`: the typed number is pencilled into the selected
      cell when that cell is editable; nothing else changes. */
    method DisplayGuess(inputNumber: int)
      requires Valid() && currentlySelectedCell.Some?
      modifies SelectedCell()`guess
      ensures Valid()
      ensures var cell := SelectedCell();
        cell.guess == if cell.isEditable then inputNumber else old(cell.guess)
    {
      var (row, column) := currentlySelectedCell.value;
      var cell := cells[row][column];
      if cell.isEditable {
        cell.guess := inputNumber;
      }
    }

    /** `clear_cell`: an editable selected cell loses its number and its guess,
      on the board too; either way the cell is then deselected. */
    method ClearCell()
      requires Valid() && currentlySelectedCell.Some?
      modifies this`board, this`currentlySelectedCell, SelectedCell()`value, SelectedCell()`guess, SelectedCell()`isSelected
      ensures Valid()
      ensures var (row, column) := old(currentlySelectedCell.value);
        var cell := cells[row][column];
        board == (if cell.isEditable then Place(old(board), row, column, 0) else old(board)) &&
        cell.guess == (if cell.isEditable then 0 else old(cell.guess)) &&
        !cell.isSelected
      ensures currentlySelectedCell.None?
      ensures NoConflict(old(board)) ==> NoConflict(board)
    {
      var (row, column) := currentlySelectedCell.value;
      var cell := cells[row][column];
      if cell.isEditable {
        cell.value := 0;
        cell.guess := 0;
        PlaceZeroKeepsNoConflict(board, row, column);
        board := Place(board, row, column, 0);
      }
      DeselectCell(cell);
    }

    /** `is_solved`: true exactly when the game's own board has no empty cell;
      the board passed in is not looked at. */
    method IsSolved(board: Grid) returns (solved: bool)
      ensures solved <==> NoZeros(this.board)
    {
      for i := 0 to 9
        invariant forall r, c :: 0 <= r < i && 0 <= c < 9 ==> this.board[r][c] != 0
      {
        for j := 0 to 9
          invariant forall c :: 0 <= c < j ==> this.board[i][c] != 0
        {
          if this.board[i][j] == 0 {
            return false;
          }
        }
      }
      return true;
    }

    /** `freeze_board`: no cell can be edited any more. */
    method FreezeBoard()
      requires Valid()
      modifies Repr`isEditable
      ensures Valid()
      ensures forall i, j :: 0 <= i < 9 && 0 <= j < 9 ==> !cells[i][j].isEditable
    {
      for i := 0 to 9
        invariant Valid()
        invariant forall k, l :: 0 <= k < i && 0 <= l < 9 ==> !cells[k][l].isEditable
      {
        for j := 0 to 9
          invariant Valid()
          invariant forall k, l :: 0 <= k < 9 && 0 <= l < 9 && (k < i || (k == i && l < j)) ==> !cells[k][l].isEditable
        {
          cells[i][j].isEditable := false;
        }
      }
    }

    /** `lock_in_guess` on the selected cell. Without a guess the cell is just
      deselected. On a cell that cannot be edited nothing happens at all: the
      deselection there names `deselect_cell` without calling it, so the cell
      stays selected. Otherwise the guess is cleared and, when `is_valid_guess`
      accepts it, written into the cell and onto the board; the footer says
      "Invalid Guess" when it is refused, and once the board has no empty cell
      left the board is frozen and the footer says "Congratulations!". */
    method LockInGuess()
      requires Valid() && currentlySelectedCell.Some?
      modifies this, SelectedCell(), Repr`isEditable
      ensures Valid()
      ensures var (row, column) := old(currentlySelectedCell.value);
        var cell := old(SelectedCell());
        var checked := old(cell.guess) != 0 && old(cell.isEditable);
        board == (if checked && Allowed(old(board), old(cell.guess), row, column)
                  then Place(old(board), row, column, old(cell.guess)) else old(board)) &&
        cell.guess == (if checked then 0 else old(cell.guess))
      ensures var cell := old(SelectedCell());
        var stays := old(cell.guess) != 0 && !old(cell.isEditable);
        cell.isSelected == (if stays then old(cell.isSelected) else false) &&
        currentlySelectedCell == (if stays then old(currentlySelectedCell) else None)
      ensures var (row, column) := old(currentlySelectedCell.value);
        var cell := old(SelectedCell());
        var checked := old(cell.guess) != 0 && old(cell.isEditable);
        footerMessage ==
          if !checked then old(footerMessage)
          else if NoZeros(board) then Some("Congratulations!")
          else if Allowed(old(board), old(cell.guess), row, column) then None
          else Some("Invalid Guess")
      ensures var cell := old(SelectedCell());
        var frozen := old(cell.guess) != 0 && old(cell.isEditable) && NoZeros(board);
        forall i, j :: 0 <= i < 9 && 0 <= j < 9 ==>
          cells[i][j].isEditable == (if frozen then false else old(cells[i][j].isEditable))
      ensures NoConflict(old(board)) ==> NoConflict(board)
    {
      var (row, column) := currentlySelectedCell.value;
      var cell := cells[row][column];

      if cell.guess == 0 {
        DeselectCell(cell);
        return;
      }

      if cell.isEditable == false {
        return;
      }

      if Allowed(board, cell.guess, row, column) {
        PlaceKeepsNoConflict(board, row, column, cell.guess);
      }
      CommitGuess(row, column);
      FinishIfSolved();
    }

    /** The checking part of `lock_in_guess`, on an editable cell holding a
      guess: the guess is cleared and the cell deselected; an allowed guess
      goes into the cell and onto the board and clears the footer, a refused
      one leaves the board as it was and puts "Invalid Guess" in the footer. */
    method CommitGuess(row: int, column: int)
      requires Valid() && 0 <= row < 9 && 0 <= column < 9
      requires cells[row][column].isEditable && cells[row][column].guess != 0
      modifies this`board, this`footerMessage, this`currentlySelectedCell
      modifies CellAt(row, column)`value, CellAt(row, column)`guess, CellAt(row, column)`isSelected
      ensures Valid()
      ensures var number := old(cells[row][column].guess);
        board == (if Allowed(old(board), number, row, column) then Place(old(board), row, column, number) else old(board)) &&
        footerMessage == (if Allowed(old(board), number, row, column) then None else Some("Invalid Guess"))
      ensures cells[row][column].guess == 0 && !cells[row][column].isSelected && currentlySelectedCell.None?
    {
      var cell := cells[row][column];
      var number := cell.guess;
      var valid := IsValidGuess(board, number, row, column);
      if valid {
        WriteNumber(row, column, number);
        cell.guess := 0;
        footerMessage := None;
      } else {
        cell.guess := 0;
        footerMessage := Some("Invalid Guess");
      }
      DeselectCell(cell);
    }

    /** `lock_in_guess` as its documentation describes it: the locked-cell
      branch deselects the cell too, so the selected cell ends deselected on
      every path. Board, guess, footer and editability change as in
      LockInGuess, and not at all on a locked cell. */
    method LockInGuessCorrected()
      requires Valid() && currentlySelectedCell.Some?
      modifies this, SelectedCell(), Repr`isEditable
      ensures Valid()
      ensures !old(SelectedCell()).isSelected && currentlySelectedCell.None?
      ensures var (row, column) := old(currentlySelectedCell.value);
        var cell := old(SelectedCell());
        var checked := old(cell.guess) != 0 && old(cell.isEditable);
        board == (if checked && Allowed(old(board), old(cell.guess), row, column)
                  then Place(old(board), row, column, old(cell.guess)) else old(board)) &&
        cell.guess == (if checked then 0 else old(cell.guess))
      ensures var (row, column) := old(currentlySelectedCell.value);
        var cell := old(SelectedCell());
        var checked := old(cell.guess) != 0 && old(cell.isEditable);
        footerMessage ==
          if !checked then old(footerMessage)
          else if NoZeros(board) then Some("Congratulations!")
          else if Allowed(old(board), old(cell.guess), row, column) then None
          else Some("Invalid Guess")
      ensures var cell := old(SelectedCell());
        var frozen := old(cell.guess) != 0 && old(cell.isEditable) && NoZeros(board);
        forall i, j :: 0 <= i < 9 && 0 <= j < 9 ==>
          cells[i][j].isEditable == (if frozen then false else old(cells[i][j].isEditable))
      ensures NoConflict(old(board)) ==> NoConflict(board)
    {
      var (row, column) := currentlySelectedCell.value;
      var cell := cells[row][column];
      if cell.guess != 0 && !cell.isEditable {
        DeselectCell(cell);
        return;
      }
      LockInGuess();
    }

    /** The closing step of `lock_in_guess`: once the board has no empty cell
      it is frozen and the footer congratulates the player; otherwise nothing
      changes. */
    method FinishIfSolved()
      requires Valid()
      modifies this`footerMessage, Repr`isEditable
      ensures Valid()
      ensures footerMessage == if NoZeros(board) then Some("Congratulations!") else old(footerMessage)
      ensures forall i, j :: 0 <= i < 9 && 0 <= j < 9 ==>
        cells[i][j].isEditable == (if NoZeros(board) then false else old(cells[i][j].isEditable))
    {
      var solved := IsSolved(board);
      if solved {
        FreezeBoard();
        footerMessage := Some("Congratulations!");
      }
    }

    /** `auto_solve`: the backtracking search of `solve_sudoku` run on the
      game's board, writing every guess into the cell as well as onto the
      board. It reports what Solve reports, leaves Solve's grid on the board
      when it succeeds and the board it started from when it fails, keeps the
      cells showing the board, and touches no guess and no editability. */
    method AutoSolve() returns (solved: bool)
      requires Valid()
      modifies this`board, Repr`value, Repr`isSelected
      decreases |EmptyCells(board)|, 2
      ensures Valid()
      ensures solved == Solve(old(board)).Some?
      ensures board == if solved then Solve(old(board)).value else old(board)
      ensures solved ==> NoneSelected()
    {
      ghost var start := board;
      ClearSelection();

      var row, column := FindNextEmptyCell(board);
      if row == -1 || column == -1 {
        assert Solve(start) == Some(start);
        return true;
      }

      assert TrySolve(start, row, column, 1) == Solve(start);
      solved := TryGuesses(row, column);
    }

    /** The loop of `auto_solve` over the guesses 1 to 9 for the first empty
      cell: it stops at the first guess from which the search succeeds. */
    method TryGuesses(row: int, column: int) returns (solved: bool)
      requires Valid() && 0 <= row < 9 && 0 <= column < 9 && board[row][column] == 0
      modifies this`board, Repr`value, Repr`isSelected
      decreases |EmptyCells(board)|, 1
      ensures Valid()
      ensures solved == TrySolve(old(board), row, column, 1).Some?
      ensures board == if solved then TrySolve(old(board), row, column, 1).value else old(board)
      ensures solved ==> NoneSelected()
    {
      ghost var start := board;
      for guess := 1 to 10
        invariant Valid()
        invariant board == start
        invariant TrySolve(start, row, column, guess) == TrySolve(start, row, column, 1)
      {
        TrySolveStep(start, row, column, guess);
        solved := TryGuess(row, column, guess);
        if solved {
          return;
        }
      }
      return false;
    }

    /** One turn of the guessing loop of `auto_solve`: the empty cell is
      highlighted; an allowed guess is written into the cell and onto the
      board and the search goes on from there; unless that search succeeds,
      the cell and the board are emptied again. */
    method TryGuess(row: int, column: int, guess: int) returns (solved: bool)
      requires Valid() && 0 <= row < 9 && 0 <= column < 9 && board[row][column] == 0 && 1 <= guess <= 9
      modifies this`board, Repr`value, Repr`isSelected
      decreases |EmptyCells(board)|, 0
      ensures Valid()
      ensures solved == (Allowed(old(board), guess, row, column) && Solve(Place(old(board), row, column, guess)).Some?)
      ensures board == if solved then Solve(Place(old(board), row, column, guess)).value else old(board)
      ensures solved ==> NoneSelected()
    {
      ghost var start := board;
      Highlight(row, column);

      var valid := IsValidGuess(board, guess, row, column);
      if valid {
        WriteNumber(row, column, guess);
        PlaceShrinksEmptyCells(start, row, column, guess);

        solved := AutoSolve();
        if solved {
          return;
        }
      }

      PlaceUndo(start, row, column, guess);
      WriteNumber(row, column, 0);
      solved := false;
    }
  }
}
