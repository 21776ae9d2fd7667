/**
 The program's entry point: an 8-by-8 board, all unvisited except the top left
 corner, which holds step 0, searched from that corner at step 1. A success
 leaves a knight's tour on the board.
 */
module Tour {
  import opened Board
  import opened Moves
  import opened Searcher

  const BoardSize: nat := 8

  /** The board the search starts from. */
  ghost function StartGrid(): (g: Grid)
    ensures IsSquare(g) && |g| == BoardSize
  {
    Mark(AllFree(BoardSize), Pos(0, 0), 0)
  }

  ghost function At(g: Grid, p: Pos): int
    requires IsSquare(g) && InBounds(|g|, p)
  {
    g[p.row][p.col]
  }

  /**
   A knight's tour written out on the board: every square holds a step number
   in [0, n*n), no two squares hold the same one, and the squares holding k
   and k + 1 are one knight move apart.
   */
  ghost predicate IsKnightsTour(g: Grid)
    requires IsSquare(g)
  {
    var n := |g|;
    && (forall p :: InBounds(n, p) ==> 0 <= At(g, p) < n * n)
    && (forall p, q :: InBounds(n, p) && InBounds(n, q) && At(g, p) == At(g, q) ==> p == q)
    && (forall p, q :: InBounds(n, p) && InBounds(n, q) && At(g, q) == At(g, p) + 1 ==> KnightStep(p, q))
  }

  lemma StartFree()
    ensures FreeCount(StartGrid()) == BoardSize * BoardSize - 1
    ensures StartGrid()[0][0] == 0
    ensures forall p :: InBounds(BoardSize, p) && p != Pos(0, 0) ==> Vacant(StartGrid(), p)
  {
    AllFreeCount(BoardSize);
    MarkFree(AllFree(BoardSize), Pos(0, 0), 0);
  }

  /**
   A board holding 0 on `start` and k + 1 on `path[k]`, where the path walks
   by knight moves from `start` and covers every other square, is a knight's
   tour.
   */
  lemma WalkIsTour(g: Grid, start: Pos, path: seq<Pos>)
    requires IsSquare(g) && InBounds(|g|, start) && At(g, start) == 0 && start !in path
    requires forall p :: InBounds(|g|, p) && p != start ==> p in path
    requires forall k :: 0 <= k < |path| ==> InBounds(|g|, path[k]) && At(g, path[k]) == k + 1
    requires |path| + 1 == |g| * |g|
    requires KnightWalk(start, path)
    ensures IsKnightsTour(g)
  {
    var n := |g|;
    forall p | InBounds(n, p)
      ensures 0 <= At(g, p) < n * n
    {
      if p != start {
        var k :| 0 <= k < |path| && path[k] == p;
      }
    }
    forall p, q | InBounds(n, p) && InBounds(n, q) && At(g, p) == At(g, q)
      ensures p == q
    {
      if p != start && q != start {
        var k :| 0 <= k < |path| && path[k] == p;
        var k' :| 0 <= k' < |path| && path[k'] == q;
      }
    }
    forall p, q | InBounds(n, p) && InBounds(n, q) && At(g, q) == At(g, p) + 1
      ensures KnightStep(p, q)
    {
      if q != start {
        var j :| 0 <= j < |path| && path[j] == q;
        if p != start {
          var k :| 0 <= k < |path| && path[k] == p;
          assert k == j - 1;
        }
      }
    }
  }

  /**
   A success of the search from the corner writes 1..63 along a knight walk
   from the corner that covers every other square.
   */
  lemma CornerWalk(path: seq<Pos>)
    requires Search(StartGrid(), Pos(0, 0), 1) == Some(path)
    ensures var g := Place(StartGrid(), path, 1);
      && At(g, Pos(0, 0)) == 0 && Pos(0, 0) !in path
      && (forall p :: InBounds(|g|, p) && p != Pos(0, 0) ==> p in path)
      && (forall k :: 0 <= k < |path| ==> InBounds(|g|, path[k]) && At(g, path[k]) == k + 1)
      && |path| + 1 == |g| * |g|
      && KnightWalk(Pos(0, 0), path)
  {
    var g0 := StartGrid();
    StartFree();
    SuccessBoard(g0, Pos(0, 0), 1, path);
    var g := Place(g0, path, 1);
    NoneFree(g);
    assert forall p :: InBounds(BoardSize, p) && p != Pos(0, 0) ==> p in path;
  }

  /**
   A success of the search from the corner fills the whole board with a
   knight's tour that starts in the corner.
   */
  lemma CornerTour(path: seq<Pos>)
    requires Search(StartGrid(), Pos(0, 0), 1) == Some(path)
    ensures var g := Place(StartGrid(), path, 1);
      IsKnightsTour(g) && g[0][0] == 0
  {
    CornerWalk(path);
    WalkIsTour(Place(StartGrid(), path, 1), Pos(0, 0), path);
  }

  /**
   main: builds the 8-by-8 board of -1s, marks the corner with step 0 and
   searches from the corner at step 1. On success the board holds a knight's
   tour from the corner; on failure it is the starting board.
   */
  method Solve() returns (found: bool, board: array2<int>)
    ensures board.Length0 == BoardSize && board.Length1 == BoardSize
    ensures found == Search(StartGrid(), Pos(0, 0), 1).Some?
    ensures found ==> IsKnightsTour(GridOf(board)) && board[0, 0] == 0
    ensures !found ==> GridOf(board) == StartGrid()
  {
    board := new int[BoardSize, BoardSize]((_, _) => Unvisited);
    GridExt(GridOf(board), AllFree(BoardSize));
    Write(board, Pos(0, 0), 0);
    found := FindSolutions(board, 0, 0, 1);
    if found {
      CornerTour(Search(StartGrid(), Pos(0, 0), 1).value);
    }
  }
}
