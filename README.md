# Knight's Tour with Warnsdorff ordering and backtracking, in Dafny

This project models `tour.py`. It searches for a knight's tour on a square
board of ints, where `-1` marks an unvisited square and `k >= 0` marks the
square visited at step `k`. The program has three parts:

- `is_valid` tests whether a square is on the board and unvisited.
- `count_onward_moves` gives a square's Warnsdorff degree: how many of the
  eight knight offsets, in their fixed table order, land on a valid square.
- `find_solutions` is the recursive backtracking search. It collects the valid
  moves with their degrees and sorts them stably by ascending degree. Then it
  writes the step number into each candidate in turn and recurses. When the
  recursion fails, it writes `-1` back. It succeeds as soon as the step number
  reaches 64.
- `main` builds an 8×8 board of `-1`s, puts 0 in the top left corner and
  searches from there at step 1.

## How the model is built

- `board.dfy` (module `Board`) covers the board.
  - In the methods the board is an `array2<int>` that is mutated in place.
  - Specifications use its value, `GridOf(board)`, a sequence of rows (`Grid`).
  - It defines `IsValid`, the single-square write `Write`, and the count of
    unvisited squares that the search decreases.
- `moves.dfy` (module `Moves`) holds the offset table `Offsets` and the move
  generator `Targets`.
  - `Targets` returns the unvisited squares one knight move away, in offset
    order.
  - `Degree` is the size of that list.
  - The method `CountOnwardMoves` is the counting loop, proved to compute
    `Degree`.
- `warnsdorff.dfy` (module `Warnsdorff`) holds the candidate list and its
  ordering.
  - `CollectMoves` is the loop that builds `possible_moves`.
  - `SortByDegree` is the specification of the stable sort by degree, and
    `SortMoves` is an insertion sort proved to compute it.
  - Lemmas prove the sort ascends by degree, is a permutation, and is stable:
    the candidates of each degree keep their order. They also prove these
    three properties determine the result uniquely.
- `searcher.dfy` (module `Searcher`) holds the search.
  - `Search` is the ghost reference definition of `find_solutions` on board
    values. It returns `Some(path)` or `None`, where `path` lists the squares
    visited at steps `counter`, `counter + 1`, … 63.
  - `Place(g, path, counter)` is the board after writing `counter + k` into
    `path[k]`.
  - `FindSolutions` is the in-place search. Its postcondition: it returns true
    exactly when `Search` succeeds. On success the board is `Place` of the
    entry board. On failure the board is exactly the entry board.
  - The lemmas say what a success means: the walk is knight-connected, only
    unvisited squares are written, no square is written twice, and the step
    numbers end at 64. They also show that the first candidate to succeed
    wins.
- `tour.dfy` (module `Tour`) models `main`.
  - `Solve` sets up the 8×8 board and calls the search.
  - `CornerTour` proves that a success leaves a complete knight's tour. Every
    square holds a distinct step in `[0, 64)`, and consecutive steps are a
    knight move apart.

Termination: each recursive call follows the write of the step number into an
unvisited square. The measure is the number of unvisited squares, plus how far
a negative step number is from 0. It decreases with each call
(`Searcher.MarkDecreases`), so `find_solutions` needs no precondition on
`counter`.

The success test compares with the constant 64 (`Searcher.Goal`), as the code
does, not with N*N. `FindSolutions` asks only for a square board, because
`is_valid` checks both coordinates against the number of rows. The only board
the program builds is 8×8 (`Tour.BoardSize`), and the full-tour theorem is
stated for that board.

## Model

| member | source | states |
|---|---|---|
| `Board.IsValid` | tour.py:1-12 | false when the row or the column is outside `[0, len(board))`; false when the square is not -1; true exactly when the square is on the board and holds -1 |
| `Board.Write` | tour.py:61 | the assignment `board[r][c] = v` changes that one square of the board's value and nothing else |
| `Board.MarkUndo` | tour.py:64 | writing -1 back over a square that was unvisited before the step number was written restores the board exactly |
| `Board.MarkFree` | tour.py:61 | writing a value into a square changes the number of unvisited squares by one exactly when the square changes between -1 and not -1 |
| `Board.NoneFree` | tour.py:10 | a board with no unvisited squares has no square that passes the unvisited test |
| `Board.AllFreeCount` | tour.py:71 | the freshly built n-by-n board of -1s has n*n unvisited squares |
| `Moves.KnightStepShape` | tour.py:25-28 | the offset table holds exactly the knight moves: one coordinate changes by 1 and the other by 2 |
| `Moves.TargetsMembers` | tour.py:30-33 | a square is generated from `(row, col)` exactly when it is a knight move away and passes the validity test |
| `Moves.TargetsDistinct` | tour.py:49-51 | no square is generated twice |
| `Moves.Degree` | tour.py:22-34 | the degree of a square is at most the eight entries of the offset table |
| `Moves.CountOnwardMoves` | tour.py:22-34 | returns the number of offsets whose destination passes the validity test, between 0 and 8; it has no modifies clause, so it leaves the board unchanged |
| `Warnsdorff.CandidatesSpec` | tour.py:49-54 | the candidate list has one entry per generated square, in offset-table order, each with that square's degree on the current board; every candidate is an unvisited knight move, and every unvisited knight move is a candidate |
| `Warnsdorff.CollectMoves` | tour.py:43-54 | the loop builds exactly the candidate list, with the degree computed by count_onward_moves |
| `Warnsdorff.SortByDegreeSpec` | tour.py:57 | the sorted list ascends by degree, is a permutation of the input, and keeps the candidates of each degree in their input order (a stable sort) |
| `Warnsdorff.SortByDegreeUnique` | tour.py:57 | any ordering that ascends by degree and keeps each degree's candidates in order equals the sort's result, so the order of tries is fully determined |
| `Warnsdorff.SortMoves` | tour.py:57 | the insertion-sort loop computes the stable sort by degree |
| `Searcher.PlanSpec` | tour.py:43-57 | the moves are tried in ascending degree with ties in offset-table order; each is an unvisited knight move carrying its own degree |
| `Searcher.MarkDecreases` | tour.py:61-62 | every recursive call is made with a smaller measure (the unvisited squares plus the distance of a negative step number from 0), so the recursion terminates |
| `Searcher.Search` | tour.py:36-66 | reference definition of the search; a success names only squares on the board |
| `Searcher.SearchSound` | tour.py:36-66 | a success from step `counter` visits steps `counter`..63 (so `counter` reached 64); each square is a knight move from the previous one and was unvisited on entry; with a non-negative step number, no square is visited twice |
| `Searcher.TryMovesSkip` | tour.py:60-65 | candidates whose recursive search fails are passed over: the result is that of trying the remaining candidates |
| `Searcher.TryMovesFirst` | tour.py:60-63 | when the first k candidates fail and candidate k succeeds, the result is candidate k's success: the first success wins and nothing later is tried |
| `Searcher.TryMovesNone` | tour.py:60-66 | when every candidate's recursive search fails, the search reports failure |
| `Searcher.SuccessBoard` | tour.py:36-66 | after a success, each written square holds its step number and was -1 before; each is a knight move from the square of the previous step; every other square keeps its value; one unvisited square is used per step |
| `Searcher.FindSolutions` | tour.py:36-66 | returns true exactly when the reference search succeeds; on true the board is the entry board with the path's step numbers written in; on false it is identical to the entry board |
| `Tour.StartFree` | tour.py:69-74 | the starting board holds 0 in the corner and -1 everywhere else, which is 63 unvisited squares |
| `Tour.CornerTour` | tour.py:68-76 | a success from the corner at step 1 leaves a knight's tour: every square holds a distinct step in [0, 64), and the squares of consecutive steps are a knight move apart |
| `Tour.Solve` | tour.py:68-76 | main's set-up and search: true exactly when the reference search from the corner succeeds; then the board is a knight's tour with 0 in the corner, otherwise it is the starting board |

## Left out

- `print_board` and the `print` calls in `find_solutions` and `main`: console output only. The model has no output.
- `main`'s `__main__` guard and the "No solution found." message: I/O glue. `Solve` returns the outcome instead.
- The board as a Python list of lists: the model uses a 2-D array, so rows cannot be aliased and the board cannot be ragged. `FindSolutions` and `IsValid` require a square board, as `is_valid` assumes.
- The offset table appears twice in the source (in `count_onward_moves` and in `find_solutions`). The two copies are identical, so the model has one table, `Moves.Offsets`.
- Python's `list.sort` algorithm (Timsort): modelled by an insertion sort. `Warnsdorff.SortByDegreeUnique` shows that any stable sort by degree gives the same order.
- Python's recursion limit and call-stack depth: not modelled. The depth is at most 64.
- Running time, and which start squares lead to a tour: the model proves what a success means and that the search terminates, not that it succeeds.
- A greedy, non-backtracking mode and a target of N*N: neither exists in the code, which always backtracks and compares with 64. The model follows the code.
- Rendering with cells padded to the width of N*N-1: the code prints two-digit fields (`02d`). Output is not modelled.
