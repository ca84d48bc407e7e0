/** The Sudoku rules of game.py: the placement check `is_valid`, the
    row-major empty-cell finder `find_empty`, and the win test
    `SudokuApp.is_complete`. */
module Rules {
  import opened Grid

  // ---------------------------------------------------------------------
  // Placement check (is_valid)
  // ---------------------------------------------------------------------

  /** The interleaved row/column loop: walks row r and column c side by
      side and fails at the first position where either holds v. */
  function LinesFree(row: seq<int>, col: seq<int>, v: int): (free: bool)
    requires |row| == |col|
    ensures free <==> forall k :: 0 <= k < |row| ==> row[k] != v && col[k] != v
  {
    if |row| == 0 then true
    else if row[0] == v then false
    else if col[0] == v then false
    else LinesFree(row[1..], col[1..], v)
  }

  /** The inner box loop over one row segment. */
  function SegmentFree(seg: seq<int>, v: int): (free: bool)
    ensures free <==> forall k :: 0 <= k < |seg| ==> seg[k] != v
  {
    if |seg| == 0 then true
    else if seg[0] == v then false
    else SegmentFree(seg[1..], v)
  }

  /** The outer box loop: columns bc .. bc + 2 of each of the given rows. */
  function BoxFree(rows: seq<seq<int>>, bc: nat, v: int): (free: bool)
    requires forall p :: 0 <= p < |rows| ==> bc + 3 <= |rows[p]|
    ensures free <==> forall p, q :: 0 <= p < |rows| && bc <= q < bc + 3 ==> rows[p][q] != v
  {
    if |rows| == 0 then true
    else if !SegmentFree(rows[0][bc..bc + 3], v) then false
    else BoxFree(rows[1..], bc, v)
  }

  /** A cell lies in the box starting at (BoxStart(r), BoxStart(c)) exactly
      when it shares the box of (r, c). */
  lemma BoxRange(r: Index, i: Index)
    ensures BoxStart(r) <= i < BoxStart(r) + 3 <==> BoxStart(i) == BoxStart(r)
  {
  }

  /** `is_valid(board, r, c, v)`: v may go in (r, c) exactly when no cell of
      the row, the column or the box of (r, c) holds v. The cell (r, c)
      itself is not skipped, so a caller re-checking an occupied cell clears
      it first. */
  function IsValid(b: Board, r: Index, c: Index, v: int): (ok: bool)
    requires IsBoard(b)
    ensures ok <==> forall i: Index, j: Index :: SameUnit(r, c, i, j) ==> b[i][j] != v
  {
    ScanMeaning(b, r, c, v);
    var rows := b[BoxStart(r)..BoxStart(r) + 3];
    assert forall p :: 0 <= p < |rows| ==> |rows[p]| == 9;
    LinesFree(b[r], Column(b, c), v) && BoxFree(b[BoxStart(r)..BoxStart(r) + 3], BoxStart(c), v)
  }

  /** The three scans of `is_valid` together look at exactly the cells
      that share a unit with (r, c). */
  lemma ScanMeaning(b: Board, r: Index, c: Index, v: int)
    requires IsBoard(b)
    ensures LinesFree(b[r], Column(b, c), v) && BoxFree(b[BoxStart(r)..BoxStart(r) + 3], BoxStart(c), v)
            <==> forall i: Index, j: Index :: SameUnit(r, c, i, j) ==> b[i][j] != v
  {
    var br, bc := BoxStart(r), BoxStart(c);
    var col := Column(b, c);
    var rows := b[br..br + 3];
    assert forall p :: 0 <= p < 3 ==> rows[p] == b[br + p];
    var lines := LinesFree(b[r], col, v);
    var box := BoxFree(rows, bc, v);
    if lines && box {
      forall i: Index, j: Index | SameUnit(r, c, i, j)
        ensures b[i][j] != v
      {
        if i == r {
        } else if j == c {
          assert col[i] == b[i][j];
        } else {
          BoxRange(r, i);
          BoxRange(c, j);
          assert rows[i - br] == b[i];
        }
      }
    }
    if forall i: Index, j: Index :: SameUnit(r, c, i, j) ==> b[i][j] != v {
      forall k | 0 <= k < 9
        ensures b[r][k] != v && col[k] != v
      {
        assert SameUnit(r, c, r, k) && SameUnit(r, c, k, c);
      }
      forall p, q | 0 <= p < 3 && bc <= q < bc + 3
        ensures rows[p][q] != v
      {
        BoxRange(r, br + p);
        BoxRange(c, q);
        assert SameUnit(r, c, br + p, q);
      }
    }
  }

  /** A consistent board's own digits pass the check once their cell is
      cleared: the re-check the game performs on every edit. */
  lemma ClearedDigitIsValid(b: Board, r: Index, c: Index)
    requires IsBoard(b) && Consistent(b) && b[r][c] != 0
    ensures IsValid(Place(b, r, c, 0), r, c, b[r][c])
  {
    var t := Place(b, r, c, 0);
    forall i: Index, j: Index | SameUnit(r, c, i, j)
      ensures t[i][j] != b[r][c]
    {
      if i != r || j != c {
        assert Peers(r, c, i, j);
      }
    }
  }

  /** Placing a digit that passes the check on the cleared cell keeps a
      consistent board consistent. */
  lemma PlacementKeepsConsistent(b: Board, r: Index, c: Index, v: int)
    requires IsBoard(b) && Consistent(b) && 1 <= v <= 9
    requires IsValid(Place(b, r, c, 0), r, c, v)
    ensures Consistent(Place(b, r, c, v))
  {
    var t := Place(b, r, c, 0);
    var n := Place(b, r, c, v);
    forall i: Index, j: Index, k: Index, l: Index | Peers(i, j, k, l) && n[i][j] != 0
      ensures n[i][j] != n[k][l]
    {
      if i == r && j == c {
        assert SameUnit(r, c, k, l);
      } else if k == r && l == c {
        assert SameUnit(r, c, i, j);
      }
    }
  }

  // ---------------------------------------------------------------------
  // Empty-cell finder (find_empty)
  // ---------------------------------------------------------------------

  /** Cell (i, j) comes strictly before (r, c) in row-major order. */
  predicate RowMajorBefore(i: int, j: int, r: int, c: int) {
    i < r || (i == r && j < c)
  }

  /** The inner loop of `find_empty`: the first 0 of one row. */
  function FirstZero(s: seq<int>): (res: Option<nat>)
    ensures res.None? <==> forall j :: 0 <= j < |s| ==> s[j] != 0
    ensures res.Some? ==> res.value < |s| && s[res.value] == 0 && forall j :: 0 <= j < res.value ==> s[j] != 0
  {
    if |s| == 0 then None
    else if s[0] == 0 then Some(0)
    else match FirstZero(s[1..])
      case None => None
      case Some(j) => Some(j + 1)
  }

  /** The outer loop of `find_empty`: the first row holding a 0, and the
      first 0 within it. */
  function FirstEmptyCell(rows: seq<seq<int>>): (res: Option<(nat, nat)>)
    ensures res.None? <==> forall i, j :: 0 <= i < |rows| && 0 <= j < |rows[i]| ==> rows[i][j] != 0
    ensures res.Some? ==>
      && res.value.0 < |rows| && res.value.1 < |rows[res.value.0]|
      && rows[res.value.0][res.value.1] == 0
      && forall i, j :: 0 <= i < |rows| && 0 <= j < |rows[i]| && RowMajorBefore(i, j, res.value.0, res.value.1) ==> rows[i][j] != 0
  {
    if |rows| == 0 then None
    else match FirstZero(rows[0])
      case Some(j) => Some((0, j))
      case None =>
        assert forall i :: 1 <= i < |rows| ==> rows[1..][i - 1] == rows[i];
        match FirstEmptyCell(rows[1..])
        case None => None
        case Some((i, j)) => Some((i + 1, j))
  }

  /** `find_empty`: None exactly when no cell is empty, otherwise the first
      empty cell in row-major order. */
  function FindEmpty(b: Board): (res: Option<(Index, Index)>)
    requires IsBoard(b)
    ensures res.None? <==> Full(b)
    ensures res.Some? ==>
      && b[res.value.0][res.value.1] == 0
      && forall i: Index, j: Index :: RowMajorBefore(i, j, res.value.0, res.value.1) ==> b[i][j] != 0
  {
    match FirstEmptyCell(b)
    case None => None
    case Some((r, c)) => Some((r, c))
  }

  // ---------------------------------------------------------------------
  // Win test (SudokuApp.is_complete)
  // ---------------------------------------------------------------------

  /** `[x for x in unit if x != 0]` */
  function NonZero(s: seq<int>): (t: seq<int>)
    ensures |t| <= |s|
    ensures forall x :: x in t <==> x != 0 && x in s
    ensures multiset(t) == multiset(s)[0 := 0]
  {
    assert forall x :: x in s <==> (|s| > 0 && x == s[0]) || (|s| > 0 && x in s[1..]);
    assert |s| > 0 ==> s == [s[0]] + s[1..];
    if |s| == 0 then []
    else if s[0] == 0 then NonZero(s[1..])
    else [s[0]] + NonZero(s[1..])
  }

  /** `set(xs)` */
  function ToSet(s: seq<int>): set<int> {
    if |s| == 0 then {} else {s[0]} + ToSet(s[1..])
  }

  /** `len(set(xs)) == len(xs)`: the unit holds no repeated non-zero digit. */
  predicate UnitOk(s: seq<int>) {
    |ToSet(NonZero(s))| == |NonZero(s)|
  }

  /** `[temp[r][c] for r in range(9)]` */
  function Column(b: Board, c: Index): seq<int>
    requires IsBoard(b)
  {
    seq(9, i requires 0 <= i < 9 => b[i][c])
  }

  /** The nine cells of the box at (br, bc) in the order the nested loop
      visits them. */
  function Box(b: Board, br: Index, bc: Index): seq<int>
    requires IsBoard(b) && br <= 6 && bc <= 6
  {
    seq(9, p requires 0 <= p < 9 => b[br + p / 3][bc + p % 3])
  }

  /** `SudokuApp.is_complete`: no cell is empty, then every row, every
      column and every box passes the duplicate test. */
  predicate IsComplete(b: Board)
    requires IsBoard(b)
  {
    && FindEmpty(b).None?
    && (forall r: Index :: UnitOk(b[r]))
    && (forall c: Index :: UnitOk(Column(b, c)))
    && (forall br: Index, bc: Index :: br % 3 == 0 && bc % 3 == 0 ==> UnitOk(Box(b, br, bc)))
  }

  /** Pairwise distinct non-zero values, by position. */
  ghost predicate DistinctNonZero(s: seq<int>) {
    forall p, q :: 0 <= p < |s| && 0 <= q < |s| && p != q && s[p] != 0 ==> s[p] != s[q]
  }

  lemma {:induction false} ToSetMembers(s: seq<int>)
    ensures forall x :: x in ToSet(s) <==> x in s
    ensures |ToSet(s)| <= |s|
  {
    if |s| > 0 {
      ToSetMembers(s[1..]);
      assert forall x :: x in s <==> x == s[0] || x in s[1..];
    }
  }

  /** The set-size duplicate test agrees with pairwise distinctness of the
      non-zero entries. */
  lemma {:induction false} UnitOkIff(s: seq<int>)
    ensures UnitOk(s) <==> DistinctNonZero(s)
  {
    if |s| == 0 {
    } else {
      var t := s[1..];
      UnitOkIff(t);
      ToSetMembers(NonZero(t));
      ToSetMembers(NonZero(s));
      assert forall p :: 1 <= p < |s| ==> s[p] == t[p - 1];
      // s is distinct exactly when t is and s[0] (if non-zero) is not in t
      assert DistinctNonZero(s) <==> DistinctNonZero(t) && (s[0] == 0 || s[0] !in t) by {
        if DistinctNonZero(s) {
          assert DistinctNonZero(t) by {
            forall p, q | 0 <= p < |t| && 0 <= q < |t| && p != q && t[p] != 0
              ensures t[p] != t[q]
            {
              assert s[p + 1] == t[p] && s[q + 1] == t[q];
            }
          }
        }
        if DistinctNonZero(t) && (s[0] == 0 || s[0] !in t) {
          forall p, q | 0 <= p < |s| && 0 <= q < |s| && p != q && s[p] != 0
            ensures s[p] != s[q]
          {
            if p == 0 {
              assert s[q] == t[q - 1];
            } else if q == 0 {
              assert s[p] == t[p - 1];
            } else {
              assert s[p] == t[p - 1] && s[q] == t[q - 1];
            }
          }
        }
      }
      if s[0] == 0 {
        assert NonZero(s) == NonZero(t);
      } else {
        assert NonZero(s) == [s[0]] + NonZero(t);
        assert ToSet(NonZero(s)) == {s[0]} + ToSet(NonZero(t));
        if s[0] in t {
          assert s[0] in ToSet(NonZero(t));
          assert ToSet(NonZero(s)) == ToSet(NonZero(t));
        } else {
          assert s[0] !in ToSet(NonZero(t));
        }
      }
    }
  }

  /** No row, column or box repeats a non-zero digit, unit by unit. */
  ghost predicate UnitsDistinct(b: Board)
    requires IsBoard(b)
  {
    && (forall r: Index :: DistinctNonZero(b[r]))
    && (forall c: Index :: DistinctNonZero(Column(b, c)))
    && (forall br: Index, bc: Index :: br % 3 == 0 && bc % 3 == 0 ==> DistinctNonZero(Box(b, br, bc)))
  }

  /** Per-unit distinctness over rows, columns and boxes is exactly
      board consistency. */
  lemma UnitsIffConsistent(b: Board)
    requires IsBoard(b)
    ensures Consistent(b) <==> UnitsDistinct(b)
  {
    if Consistent(b) {
      ConsistentUnitsDistinct(b);
    }
    if UnitsDistinct(b) {
      DistinctUnitsConsistent(b);
    }
  }

  lemma ConsistentUnitsDistinct(b: Board)
    requires IsBoard(b) && Consistent(b)
    ensures UnitsDistinct(b)
  {
    forall r: Index ensures DistinctNonZero(b[r]) {
      forall p, q | 0 <= p < 9 && 0 <= q < 9 && p != q && b[r][p] != 0
        ensures b[r][p] != b[r][q]
      {
        assert Peers(r, p, r, q);
      }
    }
    forall c: Index ensures DistinctNonZero(Column(b, c)) {
      var col := Column(b, c);
      forall p, q | 0 <= p < 9 && 0 <= q < 9 && p != q && col[p] != 0
        ensures col[p] != col[q]
      {
        assert Peers(p, c, q, c);
      }
    }
    forall br: Index, bc: Index | br % 3 == 0 && bc % 3 == 0
      ensures DistinctNonZero(Box(b, br, bc))
    {
      var bx := Box(b, br, bc);
      forall p, q | 0 <= p < 9 && 0 <= q < 9 && p != q && bx[p] != 0
        ensures bx[p] != bx[q]
      {
        BoxCellsArePeers(br, bc, p, q);
      }
    }
  }

  lemma DistinctUnitsConsistent(b: Board)
    requires IsBoard(b) && UnitsDistinct(b)
    ensures Consistent(b)
  {
    forall i: Index, j: Index, k: Index, l: Index | Peers(i, j, k, l) && b[i][j] != 0
      ensures b[i][j] != b[k][l]
    {
      if i == k {
        assert DistinctNonZero(b[i]);
      } else if j == l {
        ColumnPeers(b, i, k, j);
      } else {
        BoxPeers(b, i, j, k, l);
      }
    }
  }

  lemma ColumnPeers(b: Board, i: Index, k: Index, j: Index)
    requires IsBoard(b) && UnitsDistinct(b) && i != k && b[i][j] != 0
    ensures b[i][j] != b[k][j]
  {
    var col := Column(b, j);
    assert DistinctNonZero(col);
    assert col[i] == b[i][j] && col[k] == b[k][j];
  }

  lemma BoxPeers(b: Board, i: Index, j: Index, k: Index, l: Index)
    requires IsBoard(b) && UnitsDistinct(b) && Peers(i, j, k, l) && i != k && j != l && b[i][j] != 0
    ensures b[i][j] != b[k][l]
  {
    var br, bc := BoxStart(i), BoxStart(j);
    var p, q := 3 * (i - br) + (j - bc), 3 * (k - br) + (l - bc);
    BoxPosition(br, bc, i, j);
    BoxPosition(br, bc, k, l);
    var bx := Box(b, br, bc);
    assert DistinctNonZero(bx);
    assert bx[p] == b[i][j] && bx[q] == b[k][l];
  }

  /** Two distinct positions of a box are two distinct peer cells. */
  lemma BoxCellsArePeers(br: Index, bc: Index, p: int, q: int)
    requires br % 3 == 0 && bc % 3 == 0 && br <= 6 && bc <= 6
    requires 0 <= p < 9 && 0 <= q < 9 && p != q
    ensures Peers(br + p / 3, bc + p % 3, br + q / 3, bc + q % 3)
  {
  }

  /** Cell (i, j) of the box at (br, bc) sits at position
      3 * (i - br) + (j - bc) of that box. */
  lemma BoxPosition(br: Index, bc: Index, i: Index, j: Index)
    requires br == BoxStart(i) && bc == BoxStart(j)
    ensures br % 3 == 0 && bc % 3 == 0 && br <= 6 && bc <= 6
    ensures var p := 3 * (i - br) + (j - bc); 0 <= p < 9 && br + p / 3 == i && bc + p % 3 == j
  {
  }

  /** The win test holds exactly on a full board with no repeated digit in
      any row, column or box. */
  lemma IsCompleteIff(b: Board)
    requires IsBoard(b)
    ensures IsComplete(b) <==> Full(b) && Consistent(b)
  {
    forall r: Index ensures UnitOk(b[r]) <==> DistinctNonZero(b[r]) {
      UnitOkIff(b[r]);
    }
    forall c: Index ensures UnitOk(Column(b, c)) <==> DistinctNonZero(Column(b, c)) {
      UnitOkIff(Column(b, c));
    }
    forall br: Index, bc: Index | br % 3 == 0 && bc % 3 == 0
      ensures UnitOk(Box(b, br, bc)) <==> DistinctNonZero(Box(b, br, bc))
    {
      UnitOkIff(Box(b, br, bc));
    }
    UnitsIffConsistent(b);
  }
}
