/**
 The board of the knight's tour: a square grid of ints in which -1 marks a
 square that has not been visited and k >= 0 marks the square visited at step k.
 The search mutates it in place as an `array2<int>`; specifications talk about
 its value, a `Grid`, the list of rows.
 */
module Board {

  /** The value of a board: its rows, each a sequence of cells. */
  type Grid = seq<seq<int>>

  /** The marker stored in a square that has not been visited. */
  const Unvisited: int := -1

  /** A (row, column) pair, 0-based. */
  datatype Pos = Pos(row: int, col: int)

  /** Every row is as long as the board has rows. */
  ghost predicate IsSquare(g: Grid) {
    forall i :: 0 <= i < |g| ==> |g[i]| == |g|
  }

  predicate InBounds(n: int, p: Pos) {
    0 <= p.row < n && 0 <= p.col < n
  }

  /** A square that lies on the board and has not been visited yet. */
  ghost predicate Vacant(g: Grid, p: Pos)
    requires IsSquare(g)
  {
    InBounds(|g|, p) && g[p.row][p.col] == Unvisited
  }

  /** The value of the array `board`. */
  ghost function GridOf(board: array2<int>): (g: Grid)
    reads board
    ensures |g| == board.Length0
    ensures forall i :: 0 <= i < |g| ==> |g[i]| == board.Length1
    ensures forall i, j :: 0 <= i < board.Length0 && 0 <= j < board.Length1 ==> g[i][j] == board[i, j]
    ensures board.Length0 == board.Length1 ==> IsSquare(g)
  {
    seq(board.Length0, i requires 0 <= i < board.Length0 reads board =>
      seq(board.Length1, j requires 0 <= j < board.Length1 reads board => board[i, j]))
  }

  /**
   The validity test of a target square: it must be on the board (both
   coordinates checked against the number of rows) and still unvisited.
   */
  function IsValid(board: array2<int>, r: int, c: int): (ok: bool)
    requires board.Length0 == board.Length1
    reads board
    ensures !(0 <= r < board.Length0) ==> !ok
    ensures !(0 <= c < board.Length0) ==> !ok
    ensures 0 <= r < board.Length0 && 0 <= c < board.Length0 && board[r, c] != Unvisited ==> !ok
    ensures ok <==> Vacant(GridOf(board), Pos(r, c))
  {
    var n := board.Length0;
    if r < 0 || r >= n then false
    else if c < 0 || c >= n then false
    else if board[r, c] != Unvisited then false
    else true
  }

  /** The grid after the assignment `board[p.row][p.col] = v`. */
  ghost function Mark(g: Grid, p: Pos, v: int): (g': Grid)
    requires IsSquare(g) && InBounds(|g|, p)
    ensures IsSquare(g') && |g'| == |g|
    ensures forall i, j :: 0 <= i < |g| && 0 <= j < |g| ==>
      g'[i][j] == if i == p.row && j == p.col then v else g[i][j]
  {
    g[p.row := g[p.row][p.col := v]]
  }

  /** The assignment `board[p.row][p.col] = v`. */
  method Write(board: array2<int>, p: Pos, v: int)
    requires board.Length0 == board.Length1 && InBounds(board.Length0, p)
    modifies board
    ensures GridOf(board) == Mark(old(GridOf(board)), p, v)
  {
    ghost var g := GridOf(board);
    board[p.row, p.col] := v;
    forall i, j | 0 <= i < board.Length0 && 0 <= j < board.Length0
      ensures GridOf(board)[i][j] == Mark(g, p, v)[i][j]
    {
    }
    GridExt(GridOf(board), Mark(g, p, v));
  }

  /** Two grids with the same shape and the same cells are equal. */
  lemma GridExt(g: Grid, h: Grid)
    requires IsSquare(g) && IsSquare(h) && |g| == |h|
    requires forall i, j :: 0 <= i < |g| && 0 <= j < |g| ==> g[i][j] == h[i][j]
    ensures g == h
  {
    forall i | 0 <= i < |g|
      ensures g[i] == h[i]
    {
      assert g[i] == h[i];
    }
  }

  /** Unmarking undoes marking: writing -1 back over an unvisited square restores the grid. */
  lemma MarkUndo(g: Grid, p: Pos, v: int)
    requires IsSquare(g) && InBounds(|g|, p) && g[p.row][p.col] == Unvisited
    ensures Mark(Mark(g, p, v), p, Unvisited) == g
  {
    GridExt(Mark(Mark(g, p, v), p, Unvisited), g);
  }

  // ---------------------------------------------------------------------
  // Counting unvisited squares: the measure that the search decreases.

  /** The number of unvisited cells in one row. */
  ghost function RowFree(row: seq<int>): nat
  {
    if row == [] then 0
    else RowFree(row[..|row| - 1]) + (if row[|row| - 1] == Unvisited then 1 else 0)
  }

  /** The number of unvisited squares on the board. */
  ghost function FreeCount(g: Grid): nat
  {
    if g == [] then 0
    else FreeCount(g[..|g| - 1]) + RowFree(g[|g| - 1])
  }

  function Indicator(b: bool): nat { if b then 1 else 0 }

  lemma {:induction false} RowFreeUpdate(row: seq<int>, c: int, v: int)
    requires 0 <= c < |row|
    ensures RowFree(row[c := v]) + Indicator(row[c] == Unvisited)
         == RowFree(row) + Indicator(v == Unvisited)
  {
    var n := |row|;
    if c == n - 1 {
      assert row[c := v][..n - 1] == row[..n - 1];
    } else {
      assert row[c := v][..n - 1] == row[..n - 1][c := v];
      RowFreeUpdate(row[..n - 1], c, v);
    }
  }

  lemma {:induction false} FreeCountUpdate(g: Grid, r: int, row: seq<int>)
    requires 0 <= r < |g|
    ensures FreeCount(g[r := row]) + RowFree(g[r]) == FreeCount(g) + RowFree(row)
  {
    var n := |g|;
    if r == n - 1 {
      assert g[r := row][..n - 1] == g[..n - 1];
    } else {
      assert g[r := row][..n - 1] == g[..n - 1][r := row];
      FreeCountUpdate(g[..n - 1], r, row);
    }
  }

  /**
   Writing `v` into one square changes the unvisited count by one exactly when
   the square changes between unvisited and visited.
   */
  lemma MarkFree(g: Grid, p: Pos, v: int)
    requires IsSquare(g) && InBounds(|g|, p)
    ensures FreeCount(Mark(g, p, v)) + Indicator(g[p.row][p.col] == Unvisited)
         == FreeCount(g) + Indicator(v == Unvisited)
  {
    RowFreeUpdate(g[p.row], p.col, v);
    FreeCountUpdate(g, p.row, g[p.row][p.col := v]);
  }

  lemma {:induction false} RowFreeSome(row: seq<int>, c: int)
    requires 0 <= c < |row| && row[c] == Unvisited
    ensures RowFree(row) > 0
  {
    if c < |row| - 1 {
      RowFreeSome(row[..|row| - 1], c);
    }
  }

  lemma {:induction false} FreeCountSome(g: Grid, r: int, c: int)
    requires 0 <= r < |g| && 0 <= c < |g[r]| && g[r][c] == Unvisited
    ensures FreeCount(g) > 0
  {
    if r == |g| - 1 {
      RowFreeSome(g[r], c);
    } else {
      FreeCountSome(g[..|g| - 1], r, c);
    }
  }

  /** A board whose unvisited count is zero has no unvisited square. */
  lemma NoneFree(g: Grid)
    requires IsSquare(g) && FreeCount(g) == 0
    ensures forall p :: InBounds(|g|, p) ==> !Vacant(g, p)
  {
    forall p | InBounds(|g|, p) && Vacant(g, p)
      ensures false
    {
      FreeCountSome(g, p.row, p.col);
    }
  }

  /** An n-by-n board on which no square has been visited. */
  ghost function AllFree(n: nat): (g: Grid)
    ensures IsSquare(g) && |g| == n
  {
    seq(n, _ => seq(n, _ => Unvisited))
  }

  lemma {:induction false} RowFreeAll(row: seq<int>)
    requires forall j :: 0 <= j < |row| ==> row[j] == Unvisited
    ensures RowFree(row) == |row|
  {
    if row != [] {
      RowFreeAll(row[..|row| - 1]);
    }
  }

  lemma {:induction false} FreeCountRows(g: Grid, n: nat)
    requires forall i :: 0 <= i < |g| ==> |g[i]| == n
    requires forall i, j :: 0 <= i < |g| && 0 <= j < n ==> g[i][j] == Unvisited
    ensures FreeCount(g) == |g| * n
  {
    if g != [] {
      FreeCountRows(g[..|g| - 1], n);
      RowFreeAll(g[|g| - 1]);
    }
  }

  /** Every square of an empty n-by-n board is counted once. */
  lemma AllFreeCount(n: nat)
    ensures FreeCount(AllFree(n)) == n * n
  {
    FreeCountRows(AllFree(n), n);
  }
}
