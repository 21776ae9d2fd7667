/**
 The backtracking search of the knight's tour. `Search` is its reference
 definition on board values: the squares visited, in order, by the first
 success, or `None`. `FindSolutions` is the search itself, writing the step
 number into the board in place and undoing the write when a branch fails.
 */
module Searcher {
  import opened Board
  import opened Moves
  import opened Warnsdorff

  datatype Option<T> = None | Some(value: T)

  /** The step number at which the search reports success: 64, not N*N. */
  const Goal: int := 64

  /**
   What every step decreases: the number of unvisited squares, plus how far a
   negative step number still is from 0 (a step number of -1 writes the
   unvisited marker itself and so frees no square).
   */
  ghost function Measure(g: Grid, counter: int): nat
  {
    FreeCount(g) + (if counter < 0 then -counter else 0)
  }

  /** Marking an unvisited square and moving to the next step decreases the measure. */
  lemma MarkDecreases(g: Grid, p: Pos, counter: int)
    requires IsSquare(g) && Vacant(g, p)
    ensures Measure(Mark(g, p, counter), counter + 1) < Measure(g, counter)
  {
    MarkFree(g, p, counter);
  }

  /** The order in which the moves from `from` are tried. */
  ghost function Plan(g: Grid, from: Pos): seq<Candidate>
    requires IsSquare(g)
  {
    SortByDegree(Candidates(g, from))
  }

  /**
   Every planned move is a knight move to an unvisited square, the plan is in
   ascending degree with ties in offset-table order, and it holds exactly the
   candidates.
   */
  lemma PlanSpec(g: Grid, from: Pos)
    requires IsSquare(g)
    ensures var plan := Plan(g, from);
      && SortedByDegree(plan)
      && (forall d :: WithDegree(plan, d) == WithDegree(Candidates(g, from), d))
      && multiset(plan) == multiset(Candidates(g, from))
      && forall k :: 0 <= k < |plan| ==>
           KnightStep(from, plan[k].pos) && Vacant(g, plan[k].pos)
           && plan[k].degree == Degree(g, plan[k].pos)
  {
    var cs := Candidates(g, from);
    var plan := Plan(g, from);
    SortByDegreeSpec(cs);
    CandidatesSpec(g, from);
    forall k | 0 <= k < |plan|
      ensures KnightStep(from, plan[k].pos) && Vacant(g, plan[k].pos)
      ensures plan[k].degree == Degree(g, plan[k].pos)
    {
      assert plan[k] in multiset(cs);
      var i :| 0 <= i < |cs| && cs[i] == plan[k];
    }
  }

  /** Every move of the plan goes to an unvisited square. */
  lemma PlanVacant(g: Grid, from: Pos)
    requires IsSquare(g)
    ensures forall k :: 0 <= k < |Plan(g, from)| ==> Vacant(g, Plan(g, from)[k].pos)
  {
    PlanSpec(g, from);
  }

  /** The squares, in visiting order, of the first tour completion found from `from`. */
  ghost function Search(g: Grid, from: Pos, counter: int): (r: Option<seq<Pos>>)
    requires IsSquare(g)
    ensures r.Some? ==> OnBoard(|g|, r.value)
    decreases Measure(g, counter), 1, 0
  {
    if counter == Goal then Some([])
    else
      PlanVacant(g, from);
      TryMoves(g, Plan(g, from), counter)
  }

  /** Below the goal, the search tries the planned moves in order. */
  lemma SearchStep(g: Grid, from: Pos, counter: int)
    requires IsSquare(g) && counter != Goal
    ensures forall k :: 0 <= k < |Plan(g, from)| ==> Vacant(g, Plan(g, from)[k].pos)
    ensures Search(g, from, counter) == TryMoves(g, Plan(g, from), counter)
  {
    PlanVacant(g, from);
  }

  /** Try the moves `cs` in order; the first whose recursive search succeeds wins. */
  ghost function TryMoves(g: Grid, cs: seq<Candidate>, counter: int): (r: Option<seq<Pos>>)
    requires IsSquare(g)
    requires forall k :: 0 <= k < |cs| ==> Vacant(g, cs[k].pos)
    ensures r.Some? ==> r.value != [] && OnBoard(|g|, r.value)
    decreases Measure(g, counter), 0, |cs|
  {
    if cs == [] then None
    else
      var p := cs[0].pos;
      MarkDecreases(g, p, counter);
      match After(g, p, counter)
      case Some(path) => Some([p] + path)
      case None => TryMoves(g, cs[1..], counter)
  }

  /** The search continued after moving to the unvisited square `p` at step `counter`. */
  ghost function After(g: Grid, p: Pos, counter: int): (r: Option<seq<Pos>>)
    requires IsSquare(g) && Vacant(g, p)
    ensures r.Some? ==> OnBoard(|g|, r.value)
    decreases Measure(g, counter), 0, 0
  {
    MarkDecreases(g, p, counter);
    Search(Mark(g, p, counter), p, counter + 1)
  }

  ghost predicate OnBoard(n: int, path: seq<Pos>) {
    forall k :: 0 <= k < |path| ==> InBounds(n, path[k])
  }

  /** The grid after writing `counter + k` into the square `path[k]`, for each k in turn. */
  ghost function Place(g: Grid, path: seq<Pos>, counter: int): (g': Grid)
    requires IsSquare(g) && OnBoard(|g|, path)
    ensures IsSquare(g') && |g'| == |g|
    decreases |path|
  {
    if path == [] then g
    else Place(Mark(g, path[0], counter), path[1..], counter + 1)
  }

  /** Each square of `path` is a knight move from the one before, the first from `from`. */
  ghost predicate KnightWalk(from: Pos, path: seq<Pos>) {
    (|path| > 0 ==> KnightStep(from, path[0])) &&
    forall k :: 0 < k < |path| ==> KnightStep(path[k - 1], path[k])
  }

  /** What a successful search promises about the squares it visits. */
  ghost predicate Completes(g: Grid, from: Pos, counter: int, path: seq<Pos>)
    requires IsSquare(g)
  {
    && counter + |path| == Goal
    && KnightWalk(from, path)
    && (forall k :: 0 <= k < |path| ==> Vacant(g, path[k]))
    && (counter >= 0 ==> Distinct(path))
  }

  lemma CompletesCons(g: Grid, from: Pos, p: Pos, counter: int, path: seq<Pos>)
    requires IsSquare(g) && Vacant(g, p) && KnightStep(from, p)
    requires Completes(Mark(g, p, counter), p, counter + 1, path)
    ensures Completes(g, from, counter, [p] + path)
  {
    var g' := Mark(g, p, counter);
    var path' := [p] + path;
    forall k | 0 <= k < |path'|
      ensures Vacant(g, path'[k])
    {
      if k > 0 {
        assert Vacant(g', path[k - 1]);
      }
    }
    if counter >= 0 {
      forall i, j | 0 <= i < j < |path'|
        ensures path'[i] != path'[j]
      {
        if i == 0 {
          assert Vacant(g', path[j - 1]);
        }
      }
    }
    forall k | 0 < k < |path'|
      ensures KnightStep(path'[k - 1], path'[k])
    {
      if k > 1 {
        assert path'[k - 1] == path[k - 2];
      }
    }
  }

  /**
   Soundness of the search: a success from step `counter` visits exactly the
   steps counter..63, each a knight move from the one before, each on a
   square that was unvisited, and (for a non-negative step number) no square
   twice.
   */
  lemma {:induction false} SearchSound(g: Grid, from: Pos, counter: int)
    requires IsSquare(g) && Search(g, from, counter).Some?
    ensures Completes(g, from, counter, Search(g, from, counter).value)
    decreases Measure(g, counter), 1, 0
  {
    if counter != Goal {
      PlanSpec(g, from);
      TryMovesSound(g, from, Plan(g, from), counter);
    }
  }

  lemma {:induction false} TryMovesSound(g: Grid, from: Pos, cs: seq<Candidate>, counter: int)
    requires IsSquare(g)
    requires forall k :: 0 <= k < |cs| ==> Vacant(g, cs[k].pos) && KnightStep(from, cs[k].pos)
    requires TryMoves(g, cs, counter).Some?
    ensures Completes(g, from, counter, TryMoves(g, cs, counter).value)
    decreases Measure(g, counter), 0, |cs|
  {
    var p := cs[0].pos;
    MarkDecreases(g, p, counter);
    var g' := Mark(g, p, counter);
    match After(g, p, counter)
    case Some(path) =>
      SearchSound(g', p, counter + 1);
      CompletesCons(g, from, p, counter, path);
    case None =>
      TryMovesSound(g, from, cs[1..], counter);
  }

  /**
   When the searches after the first `k` candidates all fail, trying the
   candidates gives what trying them from candidate `k` on gives.
   */
  lemma {:induction false} TryMovesSkip(g: Grid, cs: seq<Candidate>, counter: int, k: int)
    requires IsSquare(g)
    requires forall i :: 0 <= i < |cs| ==> Vacant(g, cs[i].pos)
    requires 0 <= k <= |cs|
    requires forall i :: 0 <= i < k ==> After(g, cs[i].pos, counter).None?
    ensures TryMoves(g, cs, counter) == TryMoves(g, cs[k..], counter)
    decreases k
  {
    if k > 0 {
      TryStep(g, cs, counter);
      DropFirst(g, cs, counter, k);
      TryMovesSkip(g, cs[1..], counter, k - 1);
      assert cs[1..][k - 1..] == cs[k..];
    }
  }

  /** Dropping the first candidate keeps the remaining ones vacant and the later failures. */
  lemma DropFirst(g: Grid, cs: seq<Candidate>, counter: int, k: int)
    requires IsSquare(g)
    requires forall i :: 0 <= i < |cs| ==> Vacant(g, cs[i].pos)
    requires 0 < k <= |cs|
    requires forall i :: 0 <= i < k ==> After(g, cs[i].pos, counter).None?
    ensures forall i :: 0 <= i < |cs[1..]| ==> Vacant(g, cs[1..][i].pos)
    ensures forall i :: 0 <= i < k - 1 ==> After(g, cs[1..][i].pos, counter).None?
  {
    var rest := cs[1..];
    assert forall i :: 0 <= i < |rest| ==> rest[i] == cs[i + 1];
  }

  /**
   First success wins: when the searches after the first `k` candidates all
   fail and the one after candidate `k` succeeds, the result is that success,
   moving to candidate `k` first.
   */
  lemma TryMovesFirst(g: Grid, cs: seq<Candidate>, counter: int, k: int)
    requires IsSquare(g)
    requires forall i :: 0 <= i < |cs| ==> Vacant(g, cs[i].pos)
    requires 0 <= k < |cs|
    requires forall i :: 0 <= i < k ==> After(g, cs[i].pos, counter).None?
    requires After(g, cs[k].pos, counter).Some?
    ensures TryMoves(g, cs, counter) == Some([cs[k].pos] + After(g, cs[k].pos, counter).value)
  {
    TryMovesSkip(g, cs, counter, k);
    TryStep(g, cs[k..], counter);
  }

  /** No success: when every candidate's search fails, so does trying them all. */
  lemma {:induction false} TryMovesNone(g: Grid, cs: seq<Candidate>, counter: int)
    requires IsSquare(g)
    requires forall i :: 0 <= i < |cs| ==> Vacant(g, cs[i].pos)
    requires forall i :: 0 <= i < |cs| ==> After(g, cs[i].pos, counter).None?
    ensures TryMoves(g, cs, counter).None?
    decreases |cs|
  {
    if cs != [] {
      assert forall i :: 0 <= i < |cs| - 1 ==> cs[1..][i] == cs[i + 1];
      TryMovesNone(g, cs[1..], counter);
    }
  }

  // ---------------------------------------------------------------------
  // What the placed path leaves on the board.

  lemma {:induction false} PlaceOutside(g: Grid, path: seq<Pos>, counter: int, q: Pos)
    requires IsSquare(g) && OnBoard(|g|, path) && InBounds(|g|, q) && q !in path
    ensures Place(g, path, counter)[q.row][q.col] == g[q.row][q.col]
    decreases |path|
  {
    if path != [] {
      PlaceOutside(Mark(g, path[0], counter), path[1..], counter + 1, q);
    }
  }

  lemma {:induction false} PlaceAt(g: Grid, path: seq<Pos>, counter: int, k: int)
    requires IsSquare(g) && OnBoard(|g|, path) && Distinct(path) && 0 <= k < |path|
    ensures Place(g, path, counter)[path[k].row][path[k].col] == counter + k
    decreases |path|
  {
    var g' := Mark(g, path[0], counter);
    if k == 0 {
      PlaceOutside(g', path[1..], counter + 1, path[0]);
    } else {
      PlaceAt(g', path[1..], counter + 1, k - 1);
    }
  }

  /** Placing a path of distinct unvisited squares uses up one unvisited square per step. */
  lemma {:induction false} PlaceFree(g: Grid, path: seq<Pos>, counter: int)
    requires IsSquare(g) && counter >= 0 && Distinct(path) && OnBoard(|g|, path)
    requires forall k :: 0 <= k < |path| ==> Vacant(g, path[k])
    ensures FreeCount(Place(g, path, counter)) + |path| == FreeCount(g)
    decreases |path|
  {
    if path != [] {
      var g' := Mark(g, path[0], counter);
      MarkFree(g, path[0], counter);
      forall k | 0 <= k < |path[1..]|
        ensures Vacant(g', path[1..][k])
      {
        assert path[1..][k] == path[k + 1];
      }
      PlaceFree(g', path[1..], counter + 1);
    }
  }

  /**
   Success on the board: the steps counter..63 are written, each into a square
   that was unvisited, each a knight move from the previous step, and every
   other square keeps its value.
   */
  lemma SuccessBoard(g: Grid, from: Pos, counter: int, path: seq<Pos>)
    requires IsSquare(g) && counter >= 0 && Search(g, from, counter) == Some(path)
    ensures counter <= Goal && |path| == Goal - counter
    ensures KnightWalk(from, path)
    ensures forall k :: 0 <= k < |path| ==>
      Vacant(g, path[k]) && Place(g, path, counter)[path[k].row][path[k].col] == counter + k
    ensures forall q :: InBounds(|g|, q) && q !in path ==>
      Place(g, path, counter)[q.row][q.col] == g[q.row][q.col]
    ensures FreeCount(Place(g, path, counter)) == FreeCount(g) - |path|
  {
    SearchSound(g, from, counter);
    forall k | 0 <= k < |path|
      ensures Place(g, path, counter)[path[k].row][path[k].col] == counter + k
    {
      PlaceAt(g, path, counter, k);
    }
    forall q | InBounds(|g|, q) && q !in path
      ensures Place(g, path, counter)[q.row][q.col] == g[q.row][q.col]
    {
      PlaceOutside(g, path, counter, q);
    }
    PlaceFree(g, path, counter);
  }

  /** One step of trying the candidates: the first either completes the search or is skipped. */
  lemma TryStep(g: Grid, cs: seq<Candidate>, counter: int)
    requires IsSquare(g) && cs != []
    requires forall i :: 0 <= i < |cs| ==> Vacant(g, cs[i].pos)
    ensures var p := cs[0].pos;
      && (After(g, p, counter).Some? ==> TryMoves(g, cs, counter) == Some([p] + After(g, p, counter).value))
      && (After(g, p, counter).None? ==> TryMoves(g, cs, counter) == TryMoves(g, cs[1..], counter))
  {
  }

  lemma PlaceCons(g: Grid, p: Pos, path: seq<Pos>, counter: int)
    requires IsSquare(g) && InBounds(|g|, p) && OnBoard(|g|, path)
    ensures Place(g, [p] + path, counter) == Place(Mark(g, p, counter), path, counter + 1)
  {
    assert ([p] + path)[0] == p && ([p] + path)[1..] == path;
  }

  // ---------------------------------------------------------------------
  // The search in place.

  /**
   find_solutions: returns true as soon as the step number reaches 64;
   otherwise collects the candidate moves, sorts them by degree and tries each
   in turn, writing the step number, recursing, and writing -1 back when the
   recursion fails. On success the board holds the placed path of `Search`; on
   failure it is exactly the board on entry.
   */
  method FindSolutions(board: array2<int>, row: int, col: int, counter: int) returns (found: bool)
    requires board.Length0 == board.Length1
    modifies board
    ensures var result := Search(old(GridOf(board)), Pos(row, col), counter);
      && found == result.Some?
      && GridOf(board) == if found then Place(old(GridOf(board)), result.value, counter) else old(GridOf(board))
    decreases Measure(GridOf(board), counter)
  {
    ghost var g := GridOf(board);
    if counter == Goal {
      return true;
    }
    var moves := CollectMoves(board, row, col);
    moves := SortMoves(moves);
    SearchStep(g, Pos(row, col), counter);
    ghost var result := Search(g, Pos(row, col), counter);
    var i := 0;
    while i < |moves|
      invariant 0 <= i <= |moves|
      invariant GridOf(board) == g
      invariant result == TryMoves(g, moves[i..], counter)
    {
      var p := moves[i].pos;
      assert moves[i..][0] == moves[i] && moves[i..][1..] == moves[i + 1..];
      TryStep(g, moves[i..], counter);
      ghost var g' := Mark(g, p, counter);
      ghost var sub := After(g, p, counter);
      assert sub == Search(g', p, counter + 1);
      MarkDecreases(g, p, counter);
      Write(board, p, counter);
      found := FindSolutions(board, p.row, p.col, counter + 1);
      if found {
        PlaceCons(g, p, sub.value, counter);
        return;
      }
      Write(board, p, Unvisited);
      MarkUndo(g, p, counter);
      i := i + 1;
    }
    assert moves[i..] == [];
    return false;
  }
}
