/** The 9×9 Sudoku grid shared by the rule checks, the solver and the game
    session: a board is nine rows of nine cell values in 0..9, 0 meaning an
    empty cell. Boards are values; an update builds a new board. */
module Grid {

  datatype Option<+T> = None | Some(value: T)

  /** A row or column number. */
  type Index = i: int | 0 <= i < 9

  type Board = seq<seq<int>>

  /** Nine rows of nine cells, each holding 0 (empty) or a digit 1..9. */
  predicate IsBoard(b: Board) {
    && |b| == 9
    && forall i :: 0 <= i < 9 ==> |b[i]| == 9 && forall j :: 0 <= j < 9 ==> 0 <= b[i][j] <= 9
  }

  /** The board with cell (r, c) set to v, every other cell as it was
      (the `board[r][c] = v` assignment of the game). */
  function Place(b: Board, r: Index, c: Index, v: int): (b': Board)
    requires IsBoard(b) && 0 <= v <= 9
    ensures IsBoard(b')
    ensures b'[r][c] == v
    ensures forall i: Index, j: Index :: (i != r || j != c) ==> b'[i][j] == b[i][j]
  {
    b[r := b[r][c := v]]
  }

  /** No cell is empty. */
  ghost predicate Full(b: Board)
    requires IsBoard(b)
  {
    forall i: Index, j: Index :: b[i][j] != 0
  }

  /** w keeps every non-empty cell of b: w is b with (some of) its empty
      cells filled in. */
  ghost predicate Extends(b: Board, w: Board)
    requires IsBoard(b) && IsBoard(w)
  {
    forall i: Index, j: Index :: b[i][j] != 0 ==> w[i][j] == b[i][j]
  }

  /** First row (or column) of the 3×3 box band that x lies in, written
      without division; BoxStartIsFloor ties it to `(x // 3) * 3`. */
  function BoxStart(x: Index): Index {
    if x < 3 then 0 else if x < 6 then 3 else 6
  }

  lemma BoxStartIsFloor(x: Index)
    ensures BoxStart(x) == (x / 3) * 3
  {
  }

  /** Cell (i, j) lies in the row, the column or the 3×3 box of cell (r, c);
      this includes (r, c) itself. */
  predicate SameUnit(r: Index, c: Index, i: Index, j: Index) {
    i == r || j == c || (BoxStart(i) == BoxStart(r) && BoxStart(j) == BoxStart(c))
  }

  /** Two distinct cells that share a row, a column or a box. */
  predicate Peers(r: Index, c: Index, i: Index, j: Index) {
    SameUnit(r, c, i, j) && (i != r || j != c)
  }

  /** No row, column or box holds a repeated non-zero digit. */
  ghost predicate Consistent(b: Board)
    requires IsBoard(b)
  {
    forall i: Index, j: Index, k: Index, l: Index :: Peers(i, j, k, l) && b[i][j] != 0 ==> b[i][j] != b[k][l]
  }

  function ZerosIn(s: seq<int>): nat {
    if |s| == 0 then 0 else (if s[0] == 0 then 1 else 0) + ZerosIn(s[1..])
  }

  /** The number of empty cells: the measure that bounds the solver's search. */
  function EmptyCount(b: Board): nat {
    if |b| == 0 then 0 else ZerosIn(b[0]) + EmptyCount(b[1..])
  }

  lemma {:induction false} ZerosAfterFill(s: seq<int>, c: nat, v: int)
    requires c < |s| && s[c] == 0 && v != 0
    ensures ZerosIn(s[c := v]) + 1 == ZerosIn(s)
  {
    if c == 0 {
      assert s[c := v][1..] == s[1..];
    } else {
      ZerosAfterFill(s[1..], c - 1, v);
      assert s[c := v][1..] == s[1..][c - 1 := v];
    }
  }

  lemma {:induction false} EmptyAfterRowChange(b: Board, r: nat, row: seq<int>)
    requires r < |b|
    ensures EmptyCount(b[r := row]) + ZerosIn(b[r]) == EmptyCount(b) + ZerosIn(row)
  {
    if r == 0 {
      assert b[r := row][1..] == b[1..];
    } else {
      EmptyAfterRowChange(b[1..], r - 1, row);
      assert b[r := row][1..] == b[1..][r - 1 := row];
    }
  }

  /** Filling an empty cell with a digit removes exactly one empty cell. */
  lemma FillDecreasesEmpty(b: Board, r: Index, c: Index, v: int)
    requires IsBoard(b) && b[r][c] == 0 && 1 <= v <= 9
    ensures EmptyCount(Place(b, r, c, v)) + 1 == EmptyCount(b)
  {
    ZerosAfterFill(b[r], c, v);
    EmptyAfterRowChange(b, r, b[r][c := v]);
  }

  /** Resetting a freshly filled cell to 0 gives back the board it was
      filled on. */
  lemma UndoPlace(b: Board, r: Index, c: Index, v: int)
    requires IsBoard(b) && b[r][c] == 0 && 0 <= v <= 9
    ensures Place(Place(b, r, c, v), r, c, 0) == b
  {
    assert b[r][c := v][c := 0] == b[r];
  }

  /** Writing a cell twice leaves only the second write. */
  lemma PlaceTwice(b: Board, r: Index, c: Index, x: int, y: int)
    requires IsBoard(b) && 0 <= x <= 9 && 0 <= y <= 9
    ensures Place(Place(b, r, c, x), r, c, y) == Place(b, r, c, y)
  {
    assert b[r][c := x][c := y] == b[r][c := y];
  }

  /** Emptying cells never creates a conflict: a board that another
      consistent board extends is itself consistent. */
  lemma SubBoardConsistent(a: Board, b: Board)
    requires IsBoard(a) && IsBoard(b) && Extends(a, b) && Consistent(b)
    ensures Consistent(a)
  {
  }
}
