# Sudoku solver and game, modelled in Dafny

The repository is a Sudoku program in Python with two parts:

- `src/Sudoku_Solver.py` is a recursive backtracking solver. It finds the first empty cell, tries the digits 1 to 9 there, and keeps a digit only when it is not already in the cell's row, column or 3x3 box. It recurses, and undoes the write when the recursion fails. It also renders a board as ASCII text.
- `main.py` is a pygame game built on the same rules.
  - It keeps a board (a 9x9 list of numbers) in sync with 81 `SudokuCell` objects.
  - The player selects a cell, pencils in a guess and locks it in.
  - A guess that breaks the rules is refused with "Invalid Guess".
  - A full board freezes and shows "Congratulations!".
  - `auto_solve` runs the same backtracking search on the game's board, writing into the cells as well.

The model has two modules:

- `SudokuSolver` (`sudoku_solver.dfy`) holds:
  - the rules, as predicates on a 9x9 `Grid` value;
  - `is_valid_guess`, `find_next_empty_cell` and the search, as methods with loops;
  - `Solve`/`TrySolve`, a pure specification of the search. Soundness and completeness are proved about it.
  - `create_ASCII_board`, proved to produce an independent line-by-line layout of the board.

  `solve_sudoku` mutates the board it is given. It is modelled on an `array<Row>`, whose rows the method reassigns.
- `SudokuGame` (`sudoku_game.dfy`) holds:
  - `SudokuCell` and `SudokuBoard` as classes whose methods update fields in place;
  - an invariant `Valid()`: the cells show the board, only cells that started empty are editable, the given numbers stay, and a selection names a cell.

  `auto_solve` is proved to return exactly what `Solve` returns on the same board. On success the board holds `Solve`'s grid; on failure it is back to where it started.

`lock_in_guess` checks the guess against a board that still holds the cell's current number. The model keeps that behaviour: re-entering the digit an editable cell already holds is refused as "Invalid Guess".

Helper methods that are not in the source each model one loop body or one branch of a source function. They are split out so that each proof stays small:

- `TryGuesses`: the guessing loop of `auto_solve`.
- `TryPlacing` and `TryGuess`: one turn of the guessing loops.
- `AppendRowText`: the inner loop of the ASCII rendering.
- `CommitGuess` and `FinishIfSolved`: the two halves of `lock_in_guess`.
- `WriteNumber`: the paired cell and board write.
- `Highlight`: the selection flag that `auto_solve` sets.

## Model

| member | source | states |
|---|---|---|
| SudokuSolver.Place | src/Sudoku_Solver.py:48 | writing a guess changes exactly cell (row, column) and leaves every other cell as it was |
| SudokuSolver.BoxStart | src/Sudoku_Solver.py:86-91 | `i // 3 * 3` is a multiple of 3 with start <= i < start + 3 <= 9, and the three indices from it are exactly those in the same box as i |
| SudokuSolver.IsValidGuess | src/Sudoku_Solver.py:72-99 | returns False exactly when the guess already occurs in the row, the column or the 3x3 box of (row, column), that cell included (both directions) |
| SudokuSolver.FirstEmptyFromIsFirst | src/Sudoku_Solver.py:64-69 | the scan resumed at (row, column) stops at an empty cell not before it, and every cell between is filled; (-1, -1) means no empty cell from there on |
| SudokuSolver.FirstEmptyIsFirst | src/Sudoku_Solver.py:62-69 | the result is (-1, -1) if and only if the board has no 0; otherwise it is an empty cell and every cell before it in row-major order is filled |
| SudokuSolver.FindNextEmptyCell | src/Sudoku_Solver.py:62-69 | the nested loop returns the first empty cell in row-major order, or (-1, -1) |
| SudokuSolver.PlaceShrinksEmptyCells | src/Sudoku_Solver.py:48-51 | filling an empty cell removes exactly that cell from the empty cells, so each recursive call sees one fewer: the recursion terminates |
| SudokuSolver.PlaceKeepsNoConflict | src/Sudoku_Solver.py:46-48 | writing a guess that passes is_valid_guess into a board without duplicates creates no duplicate |
| SudokuSolver.PlaceUndo | src/Sudoku_Solver.py:54-56 | resetting the tried cell to 0 gives back the board as it was before the guess |
| SudokuSolver.PlaceZeroKeepsNoConflict | main.py:143-146 | emptying a cell never creates a duplicate |
| SudokuSolver.Solve | src/Sudoku_Solver.py:34-59 | defines the search: the board itself when find_next_empty_cell finds no empty cell, otherwise the candidate loop at that cell from 1; SolveAtFirstEmpty unfolds it, and its properties are SolveSound, SolveFindsSolution, SolveCorrect and SolveFilledIsIdentity |
| SudokuSolver.TrySolve | src/Sudoku_Solver.py:44-56 | defines the candidate loop: None after 9, the recursive search's grid when the guess is allowed and that search succeeds, otherwise the next candidate; TrySolveStep unfolds one candidate, and its properties are TrySolveSound and TrySolveFindsSolution |
| SudokuSolver.SolveSound | src/Sudoku_Solver.py:34-59 | when the search succeeds, its board has no 0, keeps every given number, has digits 1..9 in the formerly empty cells, and has no duplicate if the given numbers had none |
| SudokuSolver.TrySolveSound | src/Sudoku_Solver.py:44-56 | the same soundness for the candidate loop from any guess on |
| SudokuSolver.SolutionDigitIsAllowed | src/Sudoku_Solver.py:44-48 | in any solution, the digit at an empty cell is one is_valid_guess accepts on the original board |
| SudokuSolver.SolveFindsSolution | src/Sudoku_Solver.py:34-59 | whenever the board can be completed without duplicates, the search succeeds |
| SudokuSolver.TrySolveFindsSolution | src/Sudoku_Solver.py:44-56 | no candidate up to the solution's digit makes the loop give up |
| SudokuSolver.SolveCorrect | src/Sudoku_Solver.py:34-35 | on a board whose given numbers have no duplicate, True is returned if and only if a solution exists, and the returned board is one |
| SudokuSolver.SolveFilledIsIdentity | src/Sudoku_Solver.py:37-41 | a board with no empty cell is reported solved and left unchanged |
| SudokuSolver.RepeatedGivenUnsolvable | src/Sudoku_Solver.py:35 | a board whose given numbers already repeat among peers has no solution: every board extending it keeps the repeat |
| SudokuSolver.SolveAcceptsRepeatedGiven | src/Sudoku_Solver.py:34-41 | the search as written reports a full board that repeats a 5 in its first row as solved and leaves it unchanged, although that board has no solution |
| SudokuSolver.SolveChecked | src/Sudoku_Solver.py:35 | the search as documented (a board with repeated givens is refused up front): for every board it succeeds if and only if a solution exists, and what it returns is a solution of the board |
| SudokuSolver.SolveSudoku | src/Sudoku_Solver.py:34-59 | the in-place recursion returns what Solve reports; on success the board holds Solve's grid, on failure the board is exactly as it was |
| SudokuSolver.TryPlacing | src/Sudoku_Solver.py:44-56 | one turn of the guess loop succeeds exactly when the guess is allowed and the search from the placed guess succeeds; otherwise the cell is reset to 0 |
| SudokuSolver.IntToString | src/Sudoku_Solver.py:118-120 | defines Python's decimal text of an int as the f-string writes it: one digit for 0..9, otherwise LongIntToString; IntToStringNoNewline and DigitRowWidth carry its properties |
| SudokuSolver.LongIntToString | src/Sudoku_Solver.py:118-120 | defines the text of a negative number as "-" before its magnitude, and of a number of two or more digits as its leading digits before its last digit |
| SudokuSolver.IntToStringNoNewline | src/Sudoku_Solver.py:117-120 | the decimal text of a number never contains a newline |
| SudokuSolver.DigitRowWidth | src/Sudoku_Solver.py:111-120 | for digits 0..9 a row renders to 21 characters, the width of the separator |
| SudokuSolver.LayoutShape | src/Sudoku_Solver.py:106-109 | the layout has a separator at lines 3 and 7 and row r at line RowLine(r): rows keep their order and a separator comes before rows 3 and 6 only |
| SudokuSolver.LayoutWidth | src/Sudoku_Solver.py:106-120 | on a board of digits 0..9 all 11 lines are 21 characters wide |
| SudokuSolver.RowPrefixIsDigitRow | src/Sudoku_Solver.py:111-120 | the inner loop's text for a whole row is the row's line: numbers separated by spaces, with "\| " before columns 3 and 6, then a newline |
| SudokuSolver.RowsDoneIsLayout | src/Sudoku_Solver.py:106-120 | after i rows, the text produced is the rendering of the first lines of the layout |
| SudokuSolver.SplitRender | src/Sudoku_Solver.py:117-120 | cutting the rendered text at its newlines gives back the texts of the lines |
| SudokuSolver.ThirdBoundary | src/Sudoku_Solver.py:113 | within 0..8 the test `k % 3 == 0 and k != 0` holds exactly for 3 and 6 |
| SudokuSolver.AppendRowText | src/Sudoku_Solver.py:111-120 | the inner loop appends the whole row's text to what was produced so far |
| SudokuSolver.CreateAsciiBoard | src/Sudoku_Solver.py:102-122 | the output is the 11-line layout (three rows, separator, three rows, separator, three rows), each line ended by a newline, and splitting it at newlines gives exactly those 11 lines |
| SudokuGame.ClickTargetAsWritten | main.py:107-112 | defines the cell a click points to under the bounds test as written (`>`): None beyond the right or bottom edge, otherwise (y // 60, x // 60); ClickOutOfRangeAsWritten carries its property |
| SudokuGame.ClickOutOfRangeAsWritten | main.py:107-115 | for every click inside the 540x600 window, the bounds test as written lets it through to a row or column outside 0..8 if and only if the click is on the footer's first pixel row, y == 540 |
| SudokuGame.ClickedCell | main.py:107-119 | with `>=`, a click is ignored exactly when it is off the board, and every target is a cell in range whose 60-pixel square contains the click |
| SudokuGame.SudokuCell.constructor | main.py:261-273 | a new cell has its value and place, no guess, is not selected, and is editable if and only if its value is 0 |
| SudokuGame.SudokuBoard.constructor | main.py:45-63 | the game starts on the fixed puzzle with one cell per number, the given numbers locked, nothing selected and no message |
| SudokuGame.SudokuBoard.ClearSelection | main.py:103-105 | after the loop no cell is selected; only the selection flags change |
| SudokuGame.SudokuBoard.DeselectCell | main.py:122-124 | the cell is unselected and no cell is recorded as selected; the board invariant is kept |
| SudokuGame.SudokuBoard.WriteNumber | main.py:231-232 | a number written to a cell that started empty goes onto the board at the same place, and the cells keep showing the board |
| SudokuGame.SudokuBoard.SelectCell | main.py:95-119 | every cell is unselected, then exactly the clicked cell is selected and recorded; a click off the board keeps the recorded place |
| SudokuGame.SudokuBoard.DisplayGuess | main.py:128-136 | the typed number becomes the selected cell's guess when the cell is editable; otherwise the guess is unchanged; nothing else changes |
| SudokuGame.SudokuBoard.ClearCell | main.py:139-147 | an editable selected cell loses its number (on the board too) and its guess; either way it is deselected; no duplicate is created |
| SudokuGame.SudokuBoard.LockInGuess | main.py:150-179 | no guess: deselect only. Locked cell: nothing changes and the cell stays selected (line 160 names deselect_cell without calling it). Otherwise: the guess is cleared, written when allowed, "Invalid Guess" when refused, and a full board is frozen with "Congratulations!". No duplicate is created |
| SudokuGame.SudokuBoard.LockInGuessCorrected | main.py:150-179 | lock_in_guess as its docstring (line 151) describes it: on every path the selected cell ends deselected and nothing is recorded as selected. Board, guess, footer and editability change as in LockInGuess: on a locked cell none of them changes; otherwise an allowed guess is written, the footer says "Invalid Guess" for a refused one, and a full board is frozen with "Congratulations!". No duplicate is created |
| SudokuGame.SudokuBoard.CommitGuess | main.py:163-174 | the guess is cleared and the cell deselected; an allowed guess goes onto the board and clears the footer, a refused one leaves the board and sets "Invalid Guess" |
| SudokuGame.SudokuBoard.FinishIfSolved | main.py:176-179 | exactly when the board has no 0, every cell becomes uneditable and the footer says "Congratulations!"; otherwise nothing changes |
| SudokuGame.SudokuBoard.IsSolved | main.py:182-188 | True if and only if the game's own board has no 0; the board argument is ignored |
| SudokuGame.SudokuBoard.FreezeBoard | main.py:191-195 | every cell becomes uneditable; values, guesses and selection flags are untouched |
| SudokuGame.SudokuBoard.Highlight | main.py:228 | the cell being filled is marked selected; nothing else changes |
| SudokuGame.SudokuBoard.AutoSolve | main.py:209-224 | returns what Solve reports for the board; on success the board holds Solve's grid and no cell is selected, on failure the board is restored; cells keep showing the board, and only values, board and selection flags may change (guesses and editability are untouched) |
| SudokuGame.SudokuBoard.TryGuesses | main.py:226-247 | the loop over guesses 1..9 at the first empty cell returns what TrySolve reports from guess 1; on success the board holds that grid and no cell is selected, on failure the board is restored |
| SudokuGame.SudokuBoard.TryGuess | main.py:227-244 | one guess of auto_solve succeeds exactly when it is allowed and the search from there succeeds; otherwise the cell and the board are back to 0 |

## Left out

- Drawing is not modelled, and neither is anything else that goes through pygame: `draw_board`, `draw_cell`, `display_footer_message`, fonts, the window, `pygame.display.update()` and the animation delay in `auto_solve`. None of it changes the board state.
- The event loop `main()` of main.py is not modelled. That covers key decoding, and the "Unsolvable Board :(" / "Congratulations!" message and freeze it applies after `auto_solve`. So are `main()` of src/Sudoku_Solver.py and its `print` calls.
- SudokuGame.SudokuBoard.AutoSolve: after a failed search, the selection flags of the cells are left unspecified; the source may leave some cells highlighted there.
- SudokuGame.SudokuBoard.TryGuesses and SudokuGame.SudokuBoard.TryGuess: the same, the selection flags after a failed guess are left unspecified.
- No concrete run of the search on the fixed starting puzzle is proved. Checking that its 81-cell completion has no conflict is far beyond the verifier's resource limit as one proof, and the proofs hold for every board.
- SudokuSolver.SolveCorrect: requires the given numbers to have no repeat among peers. On other boards `solve_sudoku` can return True although no solution exists (see Findings); SolveSudoku and AutoSolve keep that behaviour as written, and SolveChecked is the documented behaviour.
- SudokuGame.SudokuBoard.SelectCell: the click bounds test is the corrected `>=` (see Findings).
- Board representation: `self.board` is a list of lists updated in place. In the game it is a `Grid` value that the methods reassign; in `SolveSudoku` it is an array of rows. The model therefore does not capture aliasing between the board and other references to its rows.
- Integers are unbounded in both Python and Dafny, so no width or overflow is modelled.

## Findings

| source | as written | input that shows it | evidently intended | confidence | as-written member | corrected member |
|---|---|---|---|---|---|---|
| main.py:108-115 | `if mouse_x > BOARD_WIDTH or mouse_y > BOARD_HEIGHT: return` lets a click on the 540th pixel row through, and `mouse_y // 60 == 9` then indexes `self.cells[9]`, which raises IndexError | any click on the top pixel row of the footer (y == 540) inside the 540x600 window, for example (0, 540) | ignore every click with `mouse_x >= BOARD_WIDTH or mouse_y >= BOARD_HEIGHT`, so every accepted click names one of the 81 cells | high; not executed | SudokuGame.ClickOutOfRangeAsWritten | SudokuGame.ClickedCell |
| main.py:157-161 | on a locked cell, `self.deselect_cell` names the method without calling it, so the cell stays selected and `currently_selected_cell` still names it, although the docstring at line 151 says the cell is deselected | a guess pencilled into an editable cell that is then locked by `freeze_board` (main.py:178, or after auto-solve at main.py:362 and 365) keeps its guess, since `display_guess` only refuses new guesses on locked cells (main.py:135); selecting that cell and pressing Enter reaches line 160 | call `self.deselect_cell(cell)` in that branch, so the cell ends deselected on every path | high; not executed | SudokuGame.SudokuBoard.LockInGuess | SudokuGame.SudokuBoard.LockInGuessCorrected |
| src/Sudoku_Solver.py:34-41 | `solve_sudoku` promises "False if a solution does not exist" (line 35) but never checks the given numbers: a board with no empty cell returns True at lines 37-41 whatever it holds, and the search can also fill the empty cells of a board whose givens repeat | the classic completion with its first row changed to 5, 5, 4, 6, 7, 8, 9, 1, 2: no board extending it is free of repeats, yet the call returns True and leaves it as it is | refuse a board whose given numbers repeat among peers before searching, so True means a solution exists | high; not executed | SudokuSolver.SolveAcceptsRepeatedGiven | SudokuSolver.SolveChecked |
