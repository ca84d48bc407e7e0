/** The backtracking solver `solve_board` of game.py.

    The source mutates one board in place: it writes a candidate digit,
    recurses, and writes 0 back when the recursion fails. The model threads
    that board through the search and returns it together with the success
    flag, so the state the source leaves behind on either path is visible. */
module Solver {
  import opened Grid
  import opened Rules

  /** Outcome of a search: the success flag `solve_board` returns and the
      board as the search left it. */
  datatype Attempt = Attempt(solved: bool, board: Board)

  /** Every digit w adds to b differs from every other digit in its row,
      column and box of w. It is what "each digit passed `is_valid` when it
      was written" leaves behind once the search is done. */
  ghost predicate FilledConsistently(b: Board, w: Board)
    requires IsBoard(b) && IsBoard(w)
  {
    forall i: Index, j: Index, k: Index, l: Index {:trigger Peers(i, j, k, l)} ::
      b[i][j] == 0 && Peers(i, j, k, l) ==> w[i][j] != w[k][l]
  }

  /** w is a completion of b: it fills every empty cell of b, keeps every
      other cell, and none of the digits it adds clashes with anything. */
  ghost predicate Completes(b: Board, w: Board)
    requires IsBoard(b)
  {
    IsBoard(w) && Extends(b, w) && Full(w) && FilledConsistently(b, w)
  }

  /** `solve_board`: fill the first empty cell in row-major order with the
      smallest digit that passes `is_valid`, recurse, and undo on failure.
      A board with no empty cell is reported solved at once, without being
      re-checked. The search succeeds exactly when b has a completion and
      then returns one; on failure it leaves b exactly as it found it. */
  function Solve(b: Board): (res: Attempt)
    requires IsBoard(b)
    ensures IsBoard(res.board)
    ensures res.solved ==> Completes(b, res.board)
    ensures !res.solved ==> res.board == b
    ensures !res.solved ==> forall w :: !Completes(b, w)
    ensures Full(b) ==> res == Attempt(true, b)
    ensures res.solved && FindEmpty(b).Some? ==>
      var (r, c) := FindEmpty(b).value;
      forall w :: Completes(b, w) ==> res.board[r][c] <= w[r][c]
    decreases EmptyCount(b), 1, 0
  {
    match FindEmpty(b)
    case None =>
      Attempt(true, b)
    case Some((r, c)) =>
      TryDigits(b, r, c, 1)
  }

  /** The `for v in range(1, 10)` loop at the empty cell (r, c), resumed at
      digit v. On failure every completion of b puts a digit below v at
      (r, c): the digits from v on were all tried. On success the digit
      left at (r, c) is the least that any completion from v on puts there. */
  function TryDigits(b: Board, r: Index, c: Index, v: int): (res: Attempt)
    requires IsBoard(b) && b[r][c] == 0 && 1 <= v <= 10
    ensures IsBoard(res.board)
    ensures res.solved ==> Completes(b, res.board)
    ensures !res.solved ==> res.board == b
    ensures !res.solved ==> forall w :: Completes(b, w) ==> w[r][c] < v
    ensures res.solved ==> forall w :: Completes(b, w) && v <= w[r][c] ==> res.board[r][c] <= w[r][c]
    decreases EmptyCount(b), 0, 10 - v
  {
    if v == 10 then
      Attempt(false, b)
    else if IsValid(b, r, c, v) then
      var placed := Place(b, r, c, v);
      FillDecreasesEmpty(b, r, c, v);
      var sub := Solve(placed);
      if sub.solved then
        PlaceThenFill(b, r, c, v, sub.board);
        sub
      else
        var undone := Place(sub.board, r, c, 0);
        UndoPlace(b, r, c, v);
        assert forall w :: Completes(b, w) && v <= w[r][c] ==> v < w[r][c] by {
          forall w | Completes(b, w) && v <= w[r][c] ensures v < w[r][c] {
            if w[r][c] == v {
              FillingOfPlaced(b, r, c, w);
            }
          }
        }
        TryDigits(undone, r, c, v + 1)
    else
      assert forall w :: Completes(b, w) && v <= w[r][c] ==> v < w[r][c] by {
        forall w | Completes(b, w) && v <= w[r][c] ensures v < w[r][c] {
          FillingDigitIsValid(b, r, c, w);
        }
      }
      TryDigits(b, r, c, v + 1)
  }

  /** One step of the search: a digit that passes the check on b, followed
      by a completion of the board it was written into, completes b. */
  lemma PlaceThenFill(b: Board, r: Index, c: Index, v: int, w: Board)
    requires IsBoard(b) && b[r][c] == 0 && 1 <= v <= 9 && IsValid(b, r, c, v)
    requires Completes(Place(b, r, c, v), w)
    ensures Completes(b, w)
  {
    var placed := Place(b, r, c, v);
    forall i: Index, j: Index, k: Index, l: Index | b[i][j] == 0 && Peers(i, j, k, l)
      ensures w[i][j] != w[k][l]
    {
      if i == r && j == c {
        if placed[k][l] == 0 {
          assert Peers(k, l, i, j);
        } else {
          assert SameUnit(r, c, k, l);
        }
      }
    }
  }

  /** The digit a completion w of b puts in the empty cell (r, c) passes the
      check on b. */
  lemma FillingDigitIsValid(b: Board, r: Index, c: Index, w: Board)
    requires IsBoard(b) && b[r][c] == 0 && Completes(b, w)
    ensures IsValid(b, r, c, w[r][c])
  {
    forall i: Index, j: Index | SameUnit(r, c, i, j)
      ensures b[i][j] != w[r][c]
    {
      if (i != r || j != c) && b[i][j] != 0 {
        assert Peers(r, c, i, j);
      }
    }
  }

  /** A completion w of b still completes b once b agrees with w at one
      more cell. */
  lemma FillingOfPlaced(b: Board, r: Index, c: Index, w: Board)
    requires IsBoard(b) && b[r][c] == 0 && Completes(b, w)
    ensures Completes(Place(b, r, c, w[r][c]), w)
  {
  }

  /** Completing a consistent board gives a consistent board. */
  lemma CompletedBoardConsistent(b: Board, w: Board)
    requires IsBoard(b) && Consistent(b) && Completes(b, w)
    ensures Consistent(w)
  {
    forall i: Index, j: Index, k: Index, l: Index | Peers(i, j, k, l) && w[i][j] != 0
      ensures w[i][j] != w[k][l]
    {
      if b[i][j] != 0 && b[k][l] == 0 {
        assert Peers(k, l, i, j);
      }
    }
  }

  /** On a consistent board: the search succeeds exactly when the board can
      be filled in to a grid that passes the win test `is_complete`, and the
      grid it returns then passes that test. */
  lemma SolveCorrect(b: Board)
    requires IsBoard(b) && Consistent(b)
    ensures Solve(b).solved <==> exists w :: IsBoard(w) && Extends(b, w) && IsComplete(w)
    ensures Solve(b).solved ==> IsComplete(Solve(b).board)
  {
    var res := Solve(b);
    if res.solved {
      CompletedBoardConsistent(b, res.board);
      IsCompleteIff(res.board);
    }
    if exists w :: IsBoard(w) && Extends(b, w) && IsComplete(w) {
      var w :| IsBoard(w) && Extends(b, w) && IsComplete(w);
      IsCompleteIff(w);
      assert Completes(b, w);
    }
  }
}
