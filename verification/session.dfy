/** The edit rules of `SudokuApp`: the state the window keeps (the clue
    board, the board being played and the pencil notes) and the four
    operations that change it, without the Tk calls. Each operation
    returns the new state and which of its outcomes it took, in place of
    the status line and message box the window shows. */
module Session {
  import opened Grid
  import opened Rules
  import opened Solver

  /** Pencil marks: a set of candidate digits for each cell. */
  type Notes = seq<seq<set<int>>>

  predicate IsNotes(n: Notes) {
    |n| == 9 && forall i :: 0 <= i < 9 ==> |n[i]| == 9
  }

  /** A 9×9 grid of empty note sets. */
  function NoNotes(): (n: Notes)
    ensures IsNotes(n)
    ensures forall i: Index, j: Index :: n[i][j] == {}
  {
    seq(9, i => seq(9, j => {}))
  }

  /** The notes with the set of cell (r, c) replaced by s. */
  function SetNotes(n: Notes, r: Index, c: Index, s: set<int>): (n': Notes)
    requires IsNotes(n)
    ensures IsNotes(n')
    ensures n'[r][c] == s
    ensures forall i: Index, j: Index :: (i != r || j != c) ==> n'[i][j] == n[i][j]
  {
    n[r := n[r][c := s]]
  }

  /** `board_original`, `board` and `notes` of the window. */
  datatype Game = Game(original: Board, board: Board, notes: Notes)

  predicate WellFormed(g: Game) {
    IsBoard(g.original) && IsBoard(g.board) && IsNotes(g.notes)
  }

  /** What an operation did: the branch it took, as the status line reports
      it. `Placed(won)` records whether the win test passed afterwards. */
  datatype Outcome =
    | ClueLocked
    | NoteToggled
    | Erased
    | Conflict
    | Placed(won: bool)
    | NoSolution
    | Hinted(r: Index, c: Index, v: int)
    | NoEmptyCell
    | SolvedAll
    | Cleared

  datatype Step = Step(game: Game, outcome: Outcome)

  /** The state invariant every operation keeps: the clues are still on the
      board, no row, column or box repeats a digit, notes hold digits and
      only sit on empty cells. */
  ghost predicate Sound(g: Game) {
    && WellFormed(g)
    && Extends(g.original, g.board)
    && Consistent(g.board)
    && (forall i: Index, j: Index :: g.board[i][j] != 0 ==> g.notes[i][j] == {})
    && (forall i: Index, j: Index, n :: n in g.notes[i][j] ==> 1 <= n <= 9)
  }

  /** The window's starting state for a puzzle (`__init__`). */
  function Start(puzzle: Board): (g: Game)
    requires IsBoard(puzzle)
    ensures WellFormed(g) && g.original == g.board == puzzle
    ensures forall i: Index, j: Index :: g.notes[i][j] == {}
  {
    Game(puzzle, puzzle, NoNotes())
  }

  lemma StartSound(puzzle: Board)
    requires IsBoard(puzzle) && Consistent(puzzle)
    ensures Sound(Start(puzzle))
  {
  }

  /** `apply_value`: a digit 1..9 or 0 (erase) typed into cell (r, c).
      A clue cell refuses every edit. In note mode a digit typed into an
      empty cell toggles that pencil mark. Otherwise the cell's notes are
      dropped and the digit is erased, or placed when no other cell of its
      row, column or box holds it; on a conflict the board stays as it is
      (but the notes stay dropped). */
  function ApplyValue(g: Game, noteMode: bool, r: Index, c: Index, val: int): (s: Step)
    requires WellFormed(g) && 0 <= val <= 9
    ensures WellFormed(s.game) && s.game.original == g.original
    ensures forall i: Index, j: Index :: (i != r || j != c) ==>
      s.game.board[i][j] == g.board[i][j] && s.game.notes[i][j] == g.notes[i][j]
    ensures s.outcome == ClueLocked <==> g.original[r][c] != 0
    ensures s.outcome == ClueLocked ==> s.game == g
    ensures s.outcome == NoteToggled <==>
      g.original[r][c] == 0 && noteMode && val != 0 && g.board[r][c] == 0
    ensures s.outcome == NoteToggled ==>
      && s.game.board == g.board
      && (val in s.game.notes[r][c] <==> val !in g.notes[r][c])
      && s.game.notes[r][c] - {val} == g.notes[r][c] - {val}
    ensures s.outcome !in {ClueLocked, NoteToggled} ==> s.game.notes[r][c] == {}
    ensures s.outcome == Erased <==> s.outcome !in {ClueLocked, NoteToggled} && val == 0
    ensures s.outcome == Erased ==> s.game.board[r][c] == 0
    ensures s.outcome == Conflict <==>
      && s.outcome !in {ClueLocked, NoteToggled} && val != 0
      && exists i: Index, j: Index :: Peers(r, c, i, j) && g.board[i][j] == val
    ensures s.outcome == Conflict ==> s.game.board == g.board
    ensures s.outcome in {ClueLocked, NoteToggled, Erased, Conflict} || s.outcome.Placed?
    ensures s.outcome.Placed? ==> s.game.board[r][c] == val != 0
    ensures s.outcome.Placed? ==>
      (s.outcome.won <==> Full(s.game.board) && Consistent(s.game.board))
  {
    if g.original[r][c] != 0 then
      Step(g, ClueLocked)
    else if noteMode && val != 0 && g.board[r][c] == 0 then
      var marks := g.notes[r][c];
      var toggled := if val in marks then marks - {val} else marks + {val};
      Step(g.(notes := SetNotes(g.notes, r, c, toggled)), NoteToggled)
    else
      var notes := SetNotes(g.notes, r, c, {});
      if val == 0 then
        Step(Game(g.original, Place(g.board, r, c, 0), notes), Erased)
      else if !IsValid(Place(g.board, r, c, 0), r, c, val) then
        ConflictMeaning(g.board, r, c, val);
        Step(g.(notes := notes), Conflict)
      else
        ConflictMeaning(g.board, r, c, val);
        var board := Place(g.board, r, c, val);
        IsCompleteIff(board);
        Step(Game(g.original, board, notes), Placed(IsComplete(board)))
  }

  /** The check on the board with (r, c) cleared fails exactly when another
      cell of the row, column or box of (r, c) holds the digit. */
  lemma ConflictMeaning(b: Board, r: Index, c: Index, v: int)
    requires IsBoard(b) && 1 <= v <= 9
    ensures !IsValid(Place(b, r, c, 0), r, c, v) <==> exists i: Index, j: Index :: Peers(r, c, i, j) && b[i][j] == v
  {
    var t := Place(b, r, c, 0);
    if !IsValid(t, r, c, v) {
      var i: Index, j: Index :| SameUnit(r, c, i, j) && t[i][j] == v;
      assert Peers(r, c, i, j) && b[i][j] == v;
    }
    if exists i: Index, j: Index :: Peers(r, c, i, j) && b[i][j] == v {
      var i: Index, j: Index :| Peers(r, c, i, j) && b[i][j] == v;
      assert SameUnit(r, c, i, j) && t[i][j] == v;
    }
  }

  /** Typing the same digit twice in note mode takes the mark back off. */
  lemma ToggleTwice(g: Game, r: Index, c: Index, val: int)
    requires WellFormed(g) && 0 <= val <= 9
    requires ApplyValue(g, true, r, c, val).outcome == NoteToggled
    ensures ApplyValue(ApplyValue(g, true, r, c, val).game, true, r, c, val) == Step(g, NoteToggled)
  {
    var g1 := ApplyValue(g, true, r, c, val).game;
    var g2 := ApplyValue(g1, true, r, c, val).game;
    assert g2.notes[r][c] == g.notes[r][c];
    assert g2.notes[r] == g.notes[r];
  }

  /** Erasing a digit just placed on an empty cell gives back the board. */
  lemma EraseUndoesPlace(g: Game, noteMode: bool, r: Index, c: Index, val: int)
    requires WellFormed(g) && 0 <= val <= 9 && g.board[r][c] == 0
    requires ApplyValue(g, noteMode, r, c, val).outcome.Placed?
    ensures ApplyValue(ApplyValue(g, noteMode, r, c, val).game, noteMode, r, c, 0).game.board == g.board
  {
    UndoPlace(g.board, r, c, val);
  }

  lemma ApplyValueSound(g: Game, noteMode: bool, r: Index, c: Index, val: int)
    requires Sound(g) && 0 <= val <= 9
    ensures Sound(ApplyValue(g, noteMode, r, c, val).game)
  {
    if g.original[r][c] != 0 {
    } else if noteMode && val != 0 && g.board[r][c] == 0 {
      var marks := g.notes[r][c];
      ToggleSound(g, r, c, if val in marks then marks - {val} else marks + {val});
    } else if val == 0 {
      EraseSound(g, r, c);
    } else if !IsValid(Place(g.board, r, c, 0), r, c, val) {
      EraseNotesSound(g, r, c);
    } else {
      PlaceSound(g, r, c, val);
    }
  }

  lemma ToggleSound(g: Game, r: Index, c: Index, marks: set<int>)
    requires Sound(g) && g.board[r][c] == 0
    requires forall n :: n in marks ==> 1 <= n <= 9
    ensures Sound(g.(notes := SetNotes(g.notes, r, c, marks)))
  {
  }

  lemma EraseNotesSound(g: Game, r: Index, c: Index)
    requires Sound(g)
    ensures Sound(g.(notes := SetNotes(g.notes, r, c, {})))
  {
  }

  lemma EraseSound(g: Game, r: Index, c: Index)
    requires Sound(g) && g.original[r][c] == 0
    ensures Sound(Game(g.original, Place(g.board, r, c, 0), SetNotes(g.notes, r, c, {})))
  {
    SubBoardConsistent(Place(g.board, r, c, 0), g.board);
  }

  lemma PlaceSound(g: Game, r: Index, c: Index, val: int)
    requires Sound(g) && g.original[r][c] == 0 && 1 <= val <= 9
    requires IsValid(Place(g.board, r, c, 0), r, c, val)
    ensures Sound(Game(g.original, Place(g.board, r, c, val), SetNotes(g.notes, r, c, {})))
  {
    var cleared := Place(g.board, r, c, 0);
    SubBoardConsistent(cleared, g.board);
    PlacementKeepsConsistent(cleared, r, c, val);
    PlaceTwice(g.board, r, c, 0, val);
  }

  /** `hint_one`: solve a copy of the board; if that succeeds and a cell is
      still empty, write the solved copy's digit into the first empty cell
      (row-major) and drop that cell's notes. That digit is the least any
      completion puts in the cell, and the hinted board can still be
      completed. */
  function HintOne(g: Game): (s: Step)
    requires WellFormed(g)
    ensures WellFormed(s.game) && s.game.original == g.original
    ensures s.outcome == NoSolution <==> forall w :: !Completes(g.board, w)
    ensures s.outcome == NoEmptyCell <==> s.outcome != NoSolution && Full(g.board)
    ensures s.outcome in {NoSolution, NoEmptyCell} ==> s.game == g
    ensures s.outcome !in {NoSolution, NoEmptyCell} ==> s.outcome.Hinted?
    ensures s.outcome.Hinted? ==>
      var (r, c, v) := (s.outcome.r, s.outcome.c, s.outcome.v);
      && g.board[r][c] == 0
      && (forall i: Index, j: Index :: RowMajorBefore(i, j, r, c) ==> g.board[i][j] != 0)
      && 1 <= v <= 9 && IsValid(g.board, r, c, v)
      && s.game.board == Place(g.board, r, c, v)
      && s.game.notes == SetNotes(g.notes, r, c, {})
      && exists w :: Completes(s.game.board, w)
    ensures s.outcome.Hinted? ==>
      forall w :: Completes(g.board, w) ==> s.outcome.v <= w[s.outcome.r][s.outcome.c]
  {
    var res := Solve(g.board);
    if !res.solved then
      Step(g, NoSolution)
    else
      match FindEmpty(g.board)
      case None => Step(g, NoEmptyCell)
      case Some((r, c)) =>
        var v := res.board[r][c];
        FillingDigitIsValid(g.board, r, c, res.board);
        FillingOfPlaced(g.board, r, c, res.board);
        var board := Place(g.board, r, c, v);
        Step(Game(g.original, board, SetNotes(g.notes, r, c, {})), Hinted(r, c, v))
  }

  lemma HintOneSound(g: Game)
    requires Sound(g)
    ensures Sound(HintOne(g).game)
  {
    var s := HintOne(g);
    if s.outcome.Hinted? {
      HintSound(g, s.outcome.r, s.outcome.c, s.outcome.v);
    }
  }

  /** Writing a digit that passes the check into an empty cell and dropping
      its notes preserves the session invariant. */
  lemma HintSound(g: Game, r: Index, c: Index, v: int)
    requires Sound(g) && g.board[r][c] == 0 && 1 <= v <= 9 && IsValid(g.board, r, c, v)
    ensures Sound(Game(g.original, Place(g.board, r, c, v), SetNotes(g.notes, r, c, {})))
  {
    UndoPlace(g.board, r, c, 0);
    PlacementKeepsConsistent(g.board, r, c, v);
  }

  /** `solve_all`: replace the board by the solver's result and drop every
      note, or leave the state alone when the solver fails. */
  function SolveAll(g: Game): (s: Step)
    requires WellFormed(g)
    ensures WellFormed(s.game) && s.game.original == g.original
    ensures s.outcome in {NoSolution, SolvedAll}
    ensures s.outcome == NoSolution <==> forall w :: !Completes(g.board, w)
    ensures s.outcome == NoSolution ==> s.game == g
    ensures s.outcome == SolvedAll ==>
      && Completes(g.board, s.game.board)
      && forall i: Index, j: Index :: s.game.notes[i][j] == {}
  {
    var res := Solve(g.board);
    if res.solved then Step(Game(g.original, res.board, NoNotes()), SolvedAll)
    else Step(g, NoSolution)
  }

  /** From a sound state, solving everything ends in a state that passes the
      win test, and fails only when no winning grid extends the board. */
  lemma SolveAllWins(g: Game)
    requires Sound(g)
    ensures Sound(SolveAll(g).game)
    ensures SolveAll(g).outcome == SolvedAll <==>
      exists w :: IsBoard(w) && Extends(g.board, w) && IsComplete(w)
    ensures SolveAll(g).outcome == SolvedAll ==> IsComplete(SolveAll(g).game.board)
  {
    SolveCorrect(g.board);
    var s := SolveAll(g);
    if s.outcome == SolvedAll {
      CompletedBoardConsistent(g.board, s.game.board);
    }
  }

  /** `clear_to_puzzle`: back to the clues, with no notes. */
  function ClearToPuzzle(g: Game): (s: Step)
    requires WellFormed(g)
    ensures WellFormed(s.game) && s.outcome == Cleared
    ensures s.game.original == s.game.board == g.original
    ensures forall i: Index, j: Index :: s.game.notes[i][j] == {}
  {
    Step(Game(g.original, g.original, NoNotes()), Cleared)
  }

  lemma ClearToPuzzleSound(g: Game)
    requires Sound(g)
    ensures Sound(ClearToPuzzle(g).game)
  {
    SubBoardConsistent(g.original, g.board);
  }

  /** No edit survives a reset: clearing after any operation gives the same
      state as clearing before it. */
  lemma ClearForgetsEdits(g: Game, noteMode: bool, r: Index, c: Index, val: int)
    requires WellFormed(g) && 0 <= val <= 9
    ensures ClearToPuzzle(ApplyValue(g, noteMode, r, c, val).game) == ClearToPuzzle(g)
    ensures ClearToPuzzle(HintOne(g).game) == ClearToPuzzle(g)
    ensures ClearToPuzzle(SolveAll(g).game) == ClearToPuzzle(g)
    ensures ClearToPuzzle(ClearToPuzzle(g).game) == ClearToPuzzle(g)
  {
  }
}
