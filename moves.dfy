/**
 Move generation and the Warnsdorff degree: the eight knight offsets in their
 fixed order, the unvisited squares they reach from a square, and how many
 there are.
 */
module Moves {
  import opened Board

  /** The knight offsets (row delta, column delta), in the order they are tried. */
  const Offsets: seq<(int, int)> :=
    [(-2, 1), (2, 1), (-2, -1), (2, -1), (-1, 2), (-1, -2), (1, 2), (1, -2)]

  function Shift(p: Pos, d: (int, int)): Pos {
    Pos(p.row + d.0, p.col + d.1)
  }

  /** `b` is one knight move away from `a`. */
  ghost predicate KnightStep(a: Pos, b: Pos) {
    (b.row - a.row, b.col - a.col) in Offsets
  }

  function Abs(x: int): nat { if x < 0 then -x else x }

  /**
   The offset table holds exactly the knight moves: one coordinate changes by
   one and the other by two.
   */
  lemma KnightStepShape(a: Pos, b: Pos)
    ensures KnightStep(a, b) <==>
      (Abs(b.row - a.row) == 1 && Abs(b.col - a.col) == 2) ||
      (Abs(b.row - a.row) == 2 && Abs(b.col - a.col) == 1)
  {
  }

  /**
   The squares reached from `from` by the offsets `offs`, in order, keeping
   those that are on the board and unvisited.
   */
  ghost function TargetsFrom(g: Grid, from: Pos, offs: seq<(int, int)>): (ps: seq<Pos>)
    requires IsSquare(g)
    ensures |ps| <= |offs|
  {
    if offs == [] then []
    else
      var p := Shift(from, offs[|offs| - 1]);
      TargetsFrom(g, from, offs[..|offs| - 1]) + (if Vacant(g, p) then [p] else [])
  }

  /** One more offset of the table extends the generated list by its square, if vacant. */
  lemma TargetsFromStep(g: Grid, from: Pos, i: int)
    requires IsSquare(g) && 0 <= i < |Offsets|
    ensures var p := Shift(from, Offsets[i]);
      TargetsFrom(g, from, Offsets[..i + 1])
        == TargetsFrom(g, from, Offsets[..i]) + (if Vacant(g, p) then [p] else [])
  {
    assert Offsets[..i + 1][..i] == Offsets[..i];
  }

  /** The move generator: the unvisited squares a knight on `from` can reach. */
  ghost function Targets(g: Grid, from: Pos): seq<Pos>
    requires IsSquare(g)
  {
    TargetsFrom(g, from, Offsets)
  }

  lemma {:induction false} TargetsFromMembers(g: Grid, from: Pos, offs: seq<(int, int)>, p: Pos)
    requires IsSquare(g)
    ensures p in TargetsFrom(g, from, offs) <==>
      (p.row - from.row, p.col - from.col) in offs && Vacant(g, p)
  {
    if offs != [] {
      var last := offs[|offs| - 1];
      TargetsFromMembers(g, from, offs[..|offs| - 1], p);
      assert offs == offs[..|offs| - 1] + [last];
      assert Shift(from, last) == p <==> last == (p.row - from.row, p.col - from.col);
    }
  }

  /**
   A square is generated exactly when it is a knight move away and unvisited;
   so every target is on the board.
   */
  lemma TargetsMembers(g: Grid, from: Pos, p: Pos)
    requires IsSquare(g)
    ensures p in Targets(g, from) <==> KnightStep(from, p) && Vacant(g, p)
  {
    TargetsFromMembers(g, from, Offsets, p);
  }

  ghost predicate Distinct<T>(s: seq<T>) {
    forall i, j :: 0 <= i < j < |s| ==> s[i] != s[j]
  }

  lemma {:induction false} TargetsFromDistinct(g: Grid, from: Pos, offs: seq<(int, int)>)
    requires IsSquare(g) && Distinct(offs)
    ensures Distinct(TargetsFrom(g, from, offs))
  {
    if offs != [] {
      var init, last := offs[..|offs| - 1], offs[|offs| - 1];
      TargetsFromDistinct(g, from, init);
      var p := Shift(from, last);
      TargetsFromMembers(g, from, init, p);
      assert last !in init;
      assert (p.row - from.row, p.col - from.col) == last;
    }
  }

  /** No square is generated twice. */
  lemma TargetsDistinct(g: Grid, from: Pos)
    requires IsSquare(g)
    ensures Distinct(Targets(g, from))
  {
    TargetsFromDistinct(g, from, Offsets);
  }

  /** The Warnsdorff degree of a square: how many onward moves it has. */
  ghost function Degree(g: Grid, p: Pos): (d: nat)
    requires IsSquare(g)
    ensures d <= |Offsets|
  {
    |Targets(g, p)|
  }

  /**
   count_onward_moves: counts, over the offset table, the destinations that
   pass the validity test. It reads the board and does not change it.
   */
  method CountOnwardMoves(board: array2<int>, row: int, col: int) returns (count: int)
    requires board.Length0 == board.Length1
    ensures count == Degree(GridOf(board), Pos(row, col))
    ensures 0 <= count <= 8
  {
    ghost var g := GridOf(board);
    var from := Pos(row, col);
    count := 0;
    for i := 0 to |Offsets|
      invariant count == |TargetsFrom(g, from, Offsets[..i])|
    {
      var next := Shift(from, Offsets[i]);
      TargetsFromStep(g, from, i);
      if IsValid(board, next.row, next.col) {
        count := count + 1;
      }
    }
    assert Offsets[..|Offsets|] == Offsets;
  }
}
