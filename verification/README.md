# Sudoku rule engine and edit rules, in Dafny

A model of the game logic of `game.py`, a Tkinter Sudoku game. It covers:

- the placement check `is_valid`;
- the row-major empty-cell finder `find_empty`;
- the backtracking solver `solve_board`;
- the win test `SudokuApp.is_complete`;
- the edit operations of `SudokuApp`: `apply_value`, `hint_one`, `solve_all` and `clear_to_puzzle`, with the Tk calls removed.

A board is `seq<seq<int>>`, nine rows of nine cells holding 0 (empty) or a digit. Boards are values, so the source's `deepcopy` calls become plain copies. The modules follow the program:

- `Grid` (grid.dfy): the board, the cell update `board[r][c] = v`, rows, columns and boxes, board consistency, and the count of empty cells.
- `Rules` (rules.dfy): `is_valid`, `find_empty` and `is_complete`. Each is written the way the source loops through the cells, and each is tied to a plain statement of what it decides.
- `Solver` (solver.dfy): `solve_board`. The source fills one board in place and writes 0 back on every failed branch. The model passes the board through the recursion and returns `Attempt(solved, board)`, so the board the search leaves behind is visible on both paths. Termination uses the number of empty cells, which each placement lowers by one.
- `Session` (session.dfy): the window's state, which is the clue board, the board being played and the pencil notes. Each operation returns the new state and an `Outcome` naming the branch it took (clue refused, note toggled, erased, conflict, placed, hint, …).

The central properties:

- `is_valid` fails exactly when the digit already occurs in the row, column or box of the cell. The cell itself is included, which is why `apply_value` clears the cell before it checks.
- The solver succeeds exactly when the board has a completion. A completion fills every empty cell, keeps every given cell, and puts no digit where it clashes with a peer. On success the solver returns such a completion, and its digit in the first empty cell is the least that any completion puts there. On failure it returns the board unchanged.
- On a board with no repeated digit, the solver's result passes `is_complete`. It fails only when no grid that passes `is_complete` extends the board.
- `is_complete` holds exactly on full boards with no repeated digit in any row, column or box.
- Every edit operation preserves one invariant: the clues stay on the board, the board repeats no digit, and notes hold digits 1..9 and sit only on empty cells. A clue cell is never edited. An edit touches only its own cell. A hint fills the first empty cell with the solver's digit, the least that any completion puts there, and leaves the puzzle solvable.

A failed search leaves the board exactly as it found it, because every tried cell is reset to 0 (game.py:63); `Solver.Solve` proves this.

## Model

| member | source | states |
|---|---|---|
| Grid.Place | game.py:60 | `board[r][c] = v` sets cell (r, c) to v, and every other cell keeps its value |
| Grid.FillDecreasesEmpty | game.py:58-61 | writing a digit into an empty cell lowers the number of empty cells by exactly one; this is the solver's termination measure |
| Grid.UndoPlace | game.py:60-63 | writing 0 back into a freshly filled cell restores the board the digit was tried on |
| Grid.PlaceTwice | game.py:206-213 | clearing a cell and then writing a digit into it gives the same board as writing the digit directly |
| Grid.SubBoardConsistent | game.py:199-200 | emptying cells never creates a repeated digit: a board that a consistent board extends is consistent |
| Grid.BoxStartIsFloor | game.py:41 | the division-free box start equals `(x // 3) * 3` |
| Rules.LinesFree | game.py:37-39 | the interleaved row/column loop returns true exactly when neither the row nor the column holds v |
| Rules.BoxFree | game.py:41-44 | the nested box loop returns true exactly when none of the three columns of any scanned row holds v |
| Rules.IsValid | game.py:35-45 | `is_valid` is true exactly when no cell of the row, the column or the 3×3 box of (r, c) holds v, counting (r, c) itself |
| Rules.ScanMeaning | game.py:35-45 | the loops of `is_valid` (row and column side by side, then the box from `(r//3)*3, (c//3)*3`) decide exactly the row/column/box condition |
| Rules.ClearedDigitIsValid | game.py:206-208 | on a consistent board, every digit passes the check once its own cell has been cleared |
| Rules.PlacementKeepsConsistent | game.py:205-213 | a digit that passes the check on the cleared cell keeps a consistent board consistent after it is written |
| Rules.FirstZero | game.py:49-51 | the inner scan finds the first 0 of a row, or reports that the row has none |
| Rules.FirstEmptyCell | game.py:47-52 | the nested scan returns a 0 cell with no 0 before it in row-major order, or nothing when there is no 0 |
| Rules.FindEmpty | game.py:47-52 | `find_empty` returns None exactly when no cell is 0; otherwise it returns a 0 cell such that every earlier cell in row-major order is non-zero |
| Rules.NonZero | game.py:237 | the filter `[x for x in temp[r] if x != 0]` keeps every non-zero value of the unit exactly as often as it occurs and drops every 0 (as multisets) |
| Rules.UnitOkIff | game.py:236-241 | the test `len(set(xs)) != len(xs)` on the non-zero entries of a unit fails exactly when two positions hold the same non-zero digit |
| Rules.UnitsIffConsistent | game.py:236-249 | no row, no column and no box with a repeated non-zero digit is exactly board consistency |
| Rules.ConsistentUnitsDistinct | game.py:236-249 | on a consistent board, every row, column and box has pairwise distinct non-zero entries |
| Rules.DistinctUnitsConsistent | game.py:236-249 | if every row, column and box has pairwise distinct non-zero entries, no two peer cells share a digit |
| Rules.IsCompleteIff | game.py:229-250 | `is_complete` is true exactly when no cell is 0 and no row, column or box repeats a digit |
| Solver.Solve | game.py:54-64 | success exactly when the board has a completion; success returns a full board that keeps every given cell and adds no clashing digit, with the least digit any completion puts in the first empty cell; failure returns the input board unchanged; a board with no empty cell succeeds at once and unchanged |
| Solver.TryDigits | game.py:58-64 | the digit loop at the first empty cell: success returns a completion whose digit at that cell is the least, from v on, that any completion puts there; failure leaves the board as it was, and no completion puts a digit ≥ v at that cell |
| Solver.PlaceThenFill | game.py:59-62 | a digit that passes the check, followed by a completion of the board it was written into, completes the board before the write |
| Solver.FillingDigitIsValid | game.py:58-59 | the digit that any completion puts in the empty cell passes `is_valid`, so the loop reaches and tries it |
| Solver.FillingOfPlaced | game.py:60-61 | a completion still completes the board once that board agrees with it at one more cell |
| Solver.CompletedBoardConsistent | game.py:54-64 | completing a consistent board gives a consistent board |
| Solver.SolveCorrect | game.py:54-64 | on a consistent board, the search succeeds exactly when some board that passes `is_complete` extends it, and the board it returns passes `is_complete` |
| Session.SetNotes | game.py:189-197 | changing the notes of one cell changes no other cell's notes |
| Session.Start | game.py:67-77 | the window starts with the board equal to the clue board and no notes |
| Session.StartSound | game.py:67-77 | the starting state of a puzzle that repeats no digit satisfies the session invariant |
| Session.ApplyValue | game.py:183-220 | the outcome is one of clue refused, note toggled, erased, conflict or placed. A clue cell refuses every edit and leaves the state alone. In note mode a digit on an empty cell toggles that one mark. Otherwise the cell's notes are dropped, then 0 erases, and a digit held by some peer is a conflict that leaves the board unchanged. Any other digit is placed, and the win flag is true exactly when the board is then full and repeats no digit. No other cell's board value or notes change |
| Session.ConflictMeaning | game.py:205-208 | the check on the board with (r, c) cleared fails exactly when some other cell of the row, column or box holds the digit |
| Session.ToggleTwice | game.py:188-195 | typing the same digit twice in note mode restores the state |
| Session.EraseUndoesPlace | game.py:199-213 | erasing a digit just placed on an empty cell gives back the board |
| Session.ApplyValueSound | game.py:183-220 | `apply_value` preserves the session invariant |
| Session.ToggleSound | game.py:188-195 | toggling a note on an empty cell preserves the session invariant |
| Session.EraseSound | game.py:197-203 | erasing a non-clue cell preserves the session invariant |
| Session.PlaceSound | game.py:205-213 | writing a digit that passed the check on the cleared cell preserves the session invariant |
| Session.HintOne | game.py:252-267 | "no solution" exactly when the board has no completion; "no empty cell" exactly when it has one and is full; in both cases the state is unchanged. Otherwise the first empty cell in row-major order gets the solver's digit, the least that any completion puts there, which passes `is_valid`; its notes are dropped, nothing else changes, and the new board still has a completion |
| Session.HintSound | game.py:260-262 | writing a digit that passes the check into an empty cell and dropping its notes preserves the session invariant |
| Session.HintOneSound | game.py:252-267 | `hint_one` preserves the session invariant |
| Session.SolveAll | game.py:269-277 | "no solution" exactly when the board has no completion, and then the state is unchanged; otherwise the board becomes a completion of itself and every note is dropped |
| Session.SolveAllWins | game.py:269-277 | from a state satisfying the invariant, `solve_all` keeps the invariant and succeeds exactly when some board passing `is_complete` extends the board, and the board it installs then passes `is_complete` |
| Session.ClearToPuzzle | game.py:279-284 | the board returns to the clue board and every note is dropped |
| Session.ClearToPuzzleSound | game.py:279-284 | `clear_to_puzzle` preserves the session invariant |
| Session.ClearForgetsEdits | game.py:183-284 | clearing after any edit operation, or after a clear, gives the same state as clearing before it; no operation touches the clue board |

## Left out

- The Tk window (game.py:79-152): widgets, drawing, colours and fonts. This is presentation only.
- Key decoding and cell selection, `on_key`, `select_cell` and `place_value_key` (game.py:157-181). They read Tk event objects. They only choose the (r, c, val) passed to `apply_value`, so `Session.ApplyValue` takes any cell and any value 0..9.
- The note-mode checkbox (game.py:74, 91). Its value is the `noteMode` parameter of `Session.ApplyValue`.
- `flash_cell` and its timer, `render`, and the "Solved!" message box (game.py:220-227). These are asynchronous UI effects. The message box is the `won` flag of `Placed`.
- The status line text of `set_status` (game.py:154-155). The branch it reports is the `Outcome` value.
- The puzzle list `PUZZLES` and `load_next_puzzle` (game.py:6-33, 286-292). These are static data and rotation by list index. `Session.Start` takes any puzzle.
- The clearing of the selection in `clear_to_puzzle` (game.py:282). Selection is not modelled.
- Solver.Solve: the property that every digit passes `is_valid` at the moment it is written is stated through its consequence on the returned board. Each digit the search added differs from every peer in the final board. No trace of the individual writes is kept.
- Rules.IsComplete: the zero scan at game.py:230-233 is stated through `FindEmpty`, which is the same row-major scan for a 0. The win test itself carries no contract; `Rules.IsCompleteIff` states its meaning.
- Session.HintOne: the scan for the first empty cell at game.py:258-260 reuses `FindEmpty`, which is the same loop.
