/**
 Warnsdorff ordering: the candidate moves from a square, each with its degree,
 stably sorted by ascending degree so that ties keep the offset-table order.
 */
module Warnsdorff {
  import opened Board
  import opened Moves

  /** A candidate move: the target square and its onward-move count. */
  datatype Candidate = Candidate(pos: Pos, degree: nat)

  /** Each square of `ps` paired with its degree on `g`, in order. */
  ghost function Annotate(g: Grid, ps: seq<Pos>): (cs: seq<Candidate>)
    requires IsSquare(g)
    ensures |cs| == |ps|
  {
    if ps == [] then []
    else
      var p := ps[|ps| - 1];
      Annotate(g, ps[..|ps| - 1]) + [Candidate(p, Degree(g, p))]
  }

  /** The candidate list built from `from`, in offset-table order. */
  ghost function Candidates(g: Grid, from: Pos): seq<Candidate>
    requires IsSquare(g)
  {
    Annotate(g, Targets(g, from))
  }

  lemma {:induction false} AnnotateAt(g: Grid, ps: seq<Pos>, k: int)
    requires IsSquare(g) && 0 <= k < |ps|
    ensures Annotate(g, ps)[k] == Candidate(ps[k], Degree(g, ps[k]))
  {
    if k < |ps| - 1 {
      AnnotateAt(g, ps[..|ps| - 1], k);
    }
  }

  /**
   The candidate list holds one entry per generated square, in the order the
   squares are generated, each carrying that square's degree on the board as
   it stands; every candidate is a knight move away and unvisited, and every
   such square is a candidate.
   */
  lemma CandidatesSpec(g: Grid, from: Pos)
    requires IsSquare(g)
    ensures var cs := Candidates(g, from);
      && |cs| == |Targets(g, from)|
      && (forall k :: 0 <= k < |cs| ==>
            cs[k].pos == Targets(g, from)[k] && cs[k].degree == Degree(g, cs[k].pos)
            && KnightStep(from, cs[k].pos) && Vacant(g, cs[k].pos))
      && (forall p :: KnightStep(from, p) && Vacant(g, p) ==>
            exists k :: 0 <= k < |cs| && cs[k].pos == p)
  {
    var ts := Targets(g, from);
    var cs := Candidates(g, from);
    forall k | 0 <= k < |cs|
      ensures cs[k].pos == ts[k] && cs[k].degree == Degree(g, cs[k].pos)
      ensures KnightStep(from, cs[k].pos) && Vacant(g, cs[k].pos)
    {
      AnnotateAt(g, ts, k);
      TargetsMembers(g, from, ts[k]);
    }
    forall p | KnightStep(from, p) && Vacant(g, p)
      ensures exists k :: 0 <= k < |cs| && cs[k].pos == p
    {
      TargetsMembers(g, from, p);
      var k :| 0 <= k < |ts| && ts[k] == p;
      AnnotateAt(g, ts, k);
    }
  }

  /**
   The first loop of find_solutions: for each offset whose destination passes
   the validity test, append that destination with its degree.
   */
  method CollectMoves(board: array2<int>, row: int, col: int) returns (moves: seq<Candidate>)
    requires board.Length0 == board.Length1
    ensures moves == Candidates(GridOf(board), Pos(row, col))
  {
    ghost var g := GridOf(board);
    var from := Pos(row, col);
    moves := [];
    for i := 0 to |Offsets|
      invariant moves == Annotate(g, TargetsFrom(g, from, Offsets[..i]))
    {
      var next := Shift(from, Offsets[i]);
      if IsValid(board, next.row, next.col) {
        var degree := CountOnwardMoves(board, next.row, next.col);
        CollectStep(g, from, i, moves, true, degree);
        moves := moves + [Candidate(next, degree)];
      } else {
        CollectStep(g, from, i, moves, false, 0);
      }
    }
    assert Offsets[..|Offsets|] == Offsets;
  }

  /**
   One more offset of the table extends the candidate list by its square with
   that square's degree when the square is vacant, and leaves it as it is otherwise.
   */
  lemma CollectStep(g: Grid, from: Pos, i: int, moves: seq<Candidate>, valid: bool, degree: nat)
    requires IsSquare(g) && 0 <= i < |Offsets|
    requires moves == Annotate(g, TargetsFrom(g, from, Offsets[..i]))
    requires valid == Vacant(g, Shift(from, Offsets[i]))
    requires valid ==> degree == Degree(g, Shift(from, Offsets[i]))
    ensures (if valid then moves + [Candidate(Shift(from, Offsets[i]), degree)] else moves)
         == Annotate(g, TargetsFrom(g, from, Offsets[..i + 1]))
  {
    var before := TargetsFrom(g, from, Offsets[..i]);
    var p := Shift(from, Offsets[i]);
    TargetsFromStep(g, from, i);
    if valid {
      assert (before + [p])[..|before|] == before;
    } else {
      assert before + [] == before;
    }
  }

  // ---------------------------------------------------------------------
  // Stable sort by ascending degree.

  ghost predicate SortedByDegree(s: seq<Candidate>) {
    forall i, j :: 0 <= i < j < |s| ==> s[i].degree <= s[j].degree
  }

  /** The candidates of degree `d`, in the order they appear in `s`. */
  ghost function WithDegree(s: seq<Candidate>, d: nat): seq<Candidate>
  {
    if s == [] then []
    else
      var x := s[|s| - 1];
      WithDegree(s[..|s| - 1], d) + (if x.degree == d then [x] else [])
  }

  /**
   Inserts `x` into `s` after every element whose degree is at most that of
   `x`, as an insertion sort that scans back from the end does.
   */
  function InsertByDegree(s: seq<Candidate>, x: Candidate): (r: seq<Candidate>)
    ensures |r| == |s| + 1
  {
    if s == [] || s[|s| - 1].degree <= x.degree then s + [x]
    else InsertByDegree(s[..|s| - 1], x) + [s[|s| - 1]]
  }

  /** The candidate list in the order tried: ascending degree, ties in input order. */
  function SortByDegree(s: seq<Candidate>): (r: seq<Candidate>)
    ensures |r| == |s|
  {
    if s == [] then []
    else InsertByDegree(SortByDegree(s[..|s| - 1]), s[|s| - 1])
  }

  lemma {:induction false} WithDegreeAppend(a: seq<Candidate>, b: seq<Candidate>, d: nat)
    ensures WithDegree(a + b, d) == WithDegree(a, d) + WithDegree(b, d)
  {
    if b != [] {
      var b' := b[..|b| - 1];
      assert (a + b)[..|a + b| - 1] == a + b';
      WithDegreeAppend(a, b', d);
    } else {
      assert a + b == a;
    }
  }

  lemma {:induction false} InsertByDegreeMultiset(s: seq<Candidate>, x: Candidate)
    ensures multiset(InsertByDegree(s, x)) == multiset(s) + multiset{x}
  {
    if s != [] && s[|s| - 1].degree > x.degree {
      var init, last := s[..|s| - 1], s[|s| - 1];
      assert s == init + [last];
      InsertByDegreeMultiset(init, x);
    }
  }

  lemma {:induction false} InsertByDegreeSorted(s: seq<Candidate>, x: Candidate)
    requires SortedByDegree(s)
    ensures SortedByDegree(InsertByDegree(s, x))
  {
    var r := InsertByDegree(s, x);
    if s != [] && s[|s| - 1].degree > x.degree {
      var init, last := s[..|s| - 1], s[|s| - 1];
      assert s == init + [last];
      InsertByDegreeSorted(init, x);
      InsertByDegreeMultiset(init, x);
      var r' := InsertByDegree(init, x);
      assert r == r' + [last];
      forall i, j | 0 <= i < j < |r| ensures r[i].degree <= r[j].degree {
        if j == |r| - 1 {
          assert r[i] in multiset(init) + multiset{x} by {
            assert r[i] == r'[i];
          }
          if r[i] != x {
            var k :| 0 <= k < |init| && init[k] == r[i];
            assert s[k] == r[i];
          }
        }
      }
    }
  }

  lemma {:induction false} InsertByDegreeStable(s: seq<Candidate>, x: Candidate, d: nat)
    ensures WithDegree(InsertByDegree(s, x), d) == WithDegree(s, d) + (if x.degree == d then [x] else [])
  {
    var r := InsertByDegree(s, x);
    if s == [] || s[|s| - 1].degree <= x.degree {
      assert r[..|r| - 1] == s;
    } else {
      var init, last := s[..|s| - 1], s[|s| - 1];
      InsertByDegreeStable(init, x, d);
      var r' := InsertByDegree(init, x);
      assert r[..|r| - 1] == r';
    }
  }

  /**
   The sort orders by ascending degree, neither loses nor duplicates a
   candidate, and is stable: the candidates of each degree keep their order.
   */
  lemma {:induction false} SortByDegreeSpec(s: seq<Candidate>)
    ensures var r := SortByDegree(s);
      && SortedByDegree(r)
      && multiset(r) == multiset(s)
      && forall d :: WithDegree(r, d) == WithDegree(s, d)
  {
    if s != [] {
      var init, last := s[..|s| - 1], s[|s| - 1];
      SortByDegreeSpec(init);
      InsertByDegreeSorted(SortByDegree(init), last);
      InsertByDegreeMultiset(SortByDegree(init), last);
      forall d ensures WithDegree(SortByDegree(s), d) == WithDegree(s, d) {
        InsertByDegreeStable(SortByDegree(init), last, d);
      }
      assert s == init + [last];
    }
  }

  lemma {:induction false} WithDegreeMembers(s: seq<Candidate>, d: nat, x: Candidate)
    ensures x in WithDegree(s, d) <==> x in s && x.degree == d
  {
    if s != [] {
      WithDegreeMembers(s[..|s| - 1], d, x);
      assert s == s[..|s| - 1] + [s[|s| - 1]];
    }
  }

  lemma AppendCancel<T>(x: seq<T>, y: seq<T>, a: T, b: T)
    requires x + [a] == y + [b]
    ensures x == y && a == b
  {
    assert (x + [a])[..|x|] == x && (y + [b])[..|y|] == y;
    assert (x + [a])[|x|] == a && (y + [b])[|y|] == b;
  }

  /** Two sorted sequences that agree on the candidates of every degree are equal. */
  lemma {:induction false} SortedUnique(t: seq<Candidate>, u: seq<Candidate>)
    requires SortedByDegree(t) && SortedByDegree(u)
    requires forall d :: WithDegree(t, d) == WithDegree(u, d)
    ensures t == u
    decreases |t| + |u|
  {
    if t == [] && u != [] {
      var b := u[|u| - 1];
      WithDegreeMembers(u, b.degree, b);
    } else if t != [] && u == [] {
      var a := t[|t| - 1];
      assert WithDegree(u, a.degree) == [];
      WithDegreeMembers(t, a.degree, a);
    } else if t != [] {
      var t', a := t[..|t| - 1], t[|t| - 1];
      var u', b := u[..|u| - 1], u[|u| - 1];
      WithDegreeMembers(t, a.degree, a);
      WithDegreeMembers(u, a.degree, a);
      WithDegreeMembers(u, b.degree, b);
      WithDegreeMembers(t, b.degree, b);
      assert b.degree >= a.degree by {
        var k :| 0 <= k < |u| && u[k] == a;
      }
      assert a.degree >= b.degree by {
        var k :| 0 <= k < |t| && t[k] == b;
      }
      assert WithDegree(t, a.degree) == WithDegree(t', a.degree) + [a];
      assert WithDegree(u, a.degree) == WithDegree(u', a.degree) + [b];
      AppendCancel(WithDegree(t', a.degree), WithDegree(u', a.degree), a, b);
      forall d
        ensures WithDegree(t', d) == WithDegree(u', d)
      {
        assert WithDegree(t, d) == WithDegree(t', d) + (if a.degree == d then [a] else []);
        assert WithDegree(u, d) == WithDegree(u', d) + (if b.degree == d then [b] else []);
        if a.degree == d {
          AppendCancel(WithDegree(t', d), WithDegree(u', d), a, b);
        } else {
          assert WithDegree(t', d) + [] == WithDegree(t', d);
          assert WithDegree(u', d) + [] == WithDegree(u', d);
        }
      }
      SortedUnique(t', u');
      assert t == t' + [a] && u == u' + [b];
    }
  }

  /**
   The stable sort is unique: any ordering of the candidates that ascends by
   degree and keeps the candidates of each degree in their order is the one
   `SortByDegree` produces.
   */
  lemma SortByDegreeUnique(s: seq<Candidate>, t: seq<Candidate>)
    requires SortedByDegree(t)
    requires forall d :: WithDegree(t, d) == WithDegree(s, d)
    ensures t == SortByDegree(s)
  {
    SortByDegreeSpec(s);
    SortedUnique(t, SortByDegree(s));
  }

  /**
   The sort of the candidate list, in place: each candidate in turn is moved
   back past the already sorted ones of larger degree.
   */
  method SortMoves(moves: seq<Candidate>) returns (sorted: seq<Candidate>)
    ensures sorted == SortByDegree(moves)
  {
    sorted := [];
    for i := 0 to |moves|
      invariant sorted == SortByDegree(moves[..i])
    {
      var x := moves[i];
      var j := |sorted|;
      assert sorted[..j] == sorted && sorted[j..] == [];
      while j > 0 && sorted[j - 1].degree > x.degree
        invariant 0 <= j <= |sorted|
        invariant InsertByDegree(sorted, x) == InsertByDegree(sorted[..j], x) + sorted[j..]
      {
        ScanBack(sorted, x, j);
        j := j - 1;
      }
      ScanStop(sorted, x, j);
      SortByDegreeSnoc(moves, i);
      sorted := sorted[..j] + [x] + sorted[j..];
    }
    assert moves[..|moves|] == moves;
  }

  /** Moving the insertion point back past an element of larger degree. */
  lemma ScanBack(s: seq<Candidate>, x: Candidate, j: int)
    requires 0 < j <= |s| && s[j - 1].degree > x.degree
    ensures InsertByDegree(s[..j], x) + s[j..] == InsertByDegree(s[..j - 1], x) + s[j - 1..]
  {
    assert s[..j][..j - 1] == s[..j - 1];
    assert s[j - 1..] == [s[j - 1]] + s[j..];
  }

  /** The insertion point is reached once the element before it has degree at most that of `x`. */
  lemma ScanStop(s: seq<Candidate>, x: Candidate, j: int)
    requires 0 <= j <= |s| && (j == 0 || s[j - 1].degree <= x.degree)
    ensures InsertByDegree(s[..j], x) + s[j..] == s[..j] + [x] + s[j..]
  {
  }

  lemma SortByDegreeSnoc(s: seq<Candidate>, i: int)
    requires 0 <= i < |s|
    ensures SortByDegree(s[..i + 1]) == InsertByDegree(SortByDegree(s[..i]), s[i])
  {
    assert s[..i + 1][..i] == s[..i];
  }
}
