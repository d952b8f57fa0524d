/**
 The rules of generalised Sudoku, stated on board values.

 A board is N rows of N cells with N == k * k; 0 marks an empty cell and
 the k-by-k block that holds a cell starts at row `row - row % k` and
 column `col - col % k`. Everything here is a specification: the solver
 in module Solver works on a mutable two-dimensional array and is proved
 against these definitions.
 */
module Rules {

  /** Row-major board value; `b[row][col]` is one cell, 0 when empty. */
  type Board = seq<seq<int>>

  ghost predicate IsBoard(b: Board, k: nat)
  {
    |b| == k * k && forall i :: 0 <= i < |b| ==> |b[i]| == k * k
  }

  ghost predicate ValidCell(b: Board, k: nat, row: nat, col: nat)
  {
    IsBoard(b, k) && row < |b| && col < |b|
  }

  /** Every cell holds 0 (empty) or a value in 1..N. */
  ghost predicate InRange(b: Board)
  {
    forall i, j :: 0 <= i < |b| && 0 <= j < |b[i]| ==> 0 <= b[i][j] <= |b|
  }

  /** No cell is empty. */
  ghost predicate Full(b: Board)
  {
    forall i, j :: 0 <= i < |b| && 0 <= j < |b[i]| ==> b[i][j] != 0
  }

  /** First row (or column) of the block holding row (or column) `x`. */
  function BlockStart(x: int, k: nat): int
    requires k > 0
  {
    x - x % k
  }

  lemma MulMono(a: int, b: int, k: nat)
    requires a <= b
    ensures k * a <= k * b
  {
    assert k * b - k * a == k * (b - a);
  }

  /** The block of a cell lies inside the board. */
  lemma BlockBounds(x: int, k: nat)
    requires 0 <= x < k * k
    ensures k > 0
    ensures 0 <= BlockStart(x, k) <= x < BlockStart(x, k) + k <= k * k
  {
    var q := x / k;
    assert x == k * q + x % k;
    if q >= k {
      MulMono(k, q, k);
    }
    MulMono(q + 1, k, k);
  }

  /** A row inside the block starting at BlockStart(x, k) belongs to that same block. */
  lemma SameBlockStart(x: int, y: int, k: nat)
    requires k > 0 && 0 <= x
    requires BlockStart(x, k) <= y < BlockStart(x, k) + k
    ensures BlockStart(y, k) == BlockStart(x, k)
  {
    var q := x / k;
    assert BlockStart(x, k) == k * q;
    var t := y - k * q;
    assert y == k * q + t && 0 <= t < k;
    var q' := y / k;
    assert y == k * q' + y % k;
    if q' > q {
      MulMono(q + 1, q', k);
    } else if q' < q {
      MulMono(q' + 1, q, k);
    }
    assert q' == q;
  }

  /** `num` already appears in row `row` (first check of isValid). */
  ghost predicate InRow(b: Board, k: nat, row: nat, num: int)
    requires IsBoard(b, k) && row < |b|
  {
    exists x :: 0 <= x < |b| && b[row][x] == num
  }

  /** `num` already appears in column `col` (second check of isValid). */
  ghost predicate InCol(b: Board, k: nat, col: nat, num: int)
    requires IsBoard(b, k) && col < |b|
  {
    exists x :: 0 <= x < |b| && b[x][col] == num
  }

  /** `num` already appears in the block of cell (row, col) (third check of isValid). */
  ghost predicate InBlock(b: Board, k: nat, row: nat, col: nat, num: int)
    requires ValidCell(b, k, row, col)
  {
    BlockBounds(row, k);
    BlockBounds(col, k);
    exists i, j :: BlockStart(row, k) <= i < BlockStart(row, k) + k &&
                   BlockStart(col, k) <= j < BlockStart(col, k) + k &&
                   b[i][j] == num
  }

  /** Placing `num` at (row, col) breaks no uniqueness rule: what isValid answers. */
  ghost predicate Legal(b: Board, k: nat, row: nat, col: nat, num: int)
    requires ValidCell(b, k, row, col)
  {
    !InRow(b, k, row, num) && !InCol(b, k, col, num) && !InBlock(b, k, row, col, num)
  }

  /** Two distinct cells that the rules forbid from holding the same value. */
  ghost predicate Peers(k: nat, r1: nat, c1: nat, r2: nat, c2: nat)
    requires k > 0
  {
    (r1, c1) != (r2, c2) &&
    (r1 == r2 || c1 == c2 ||
     (BlockStart(r1, k) == BlockStart(r2, k) && BlockStart(c1, k) == BlockStart(c2, k)))
  }

  /** No row, column or block holds the same nonzero value twice. */
  ghost predicate Consistent(b: Board, k: nat)
    requires IsBoard(b, k)
  {
    forall r1, c1, r2, c2 {:trigger Peers(k, r1, c1, r2, c2)} ::
      (0 <= r1 < |b| && 0 <= c1 < |b| && 0 <= r2 < |b| && 0 <= c2 < |b| &&
       b[r1][c1] != 0 && Peers(k, r1, c1, r2, c2)) ==> b[r1][c1] != b[r2][c2]
  }

  /** A finished puzzle: every cell in 1..N and every row, column and block free of repeats. */
  ghost predicate Solved(b: Board, k: nat)
  {
    IsBoard(b, k) && InRange(b) && Full(b) && Consistent(b, k)
  }

  /** `s` keeps every given (nonzero) cell of `b`. */
  ghost predicate Extends(s: Board, b: Board)
  {
    |s| == |b| &&
    (forall i :: 0 <= i < |b| ==> |s[i]| == |b[i]|) &&
    forall i, j :: 0 <= i < |b| && 0 <= j < |b[i]| && b[i][j] != 0 ==> s[i][j] == b[i][j]
  }

  ghost predicate IsSolutionOf(s: Board, b: Board, k: nat)
  {
    Solved(s, k) && Extends(s, b)
  }

  /** Some solved board keeps all givens of `b`. */
  ghost predicate Solvable(b: Board, k: nat)
  {
    exists s :: IsSolutionOf(s, b, k)
  }

  /** `b` with cell (row, col) set to `v`; every other cell unchanged. */
  ghost function Place<T>(b: seq<seq<T>>, row: nat, col: nat, v: T): (r: seq<seq<T>>)
    requires row < |b| && col < |b[row]|
    ensures |r| == |b| && forall i :: 0 <= i < |b| ==> |r[i]| == |b[i]|
    ensures r[row][col] == v
    ensures forall i, j :: 0 <= i < |b| && 0 <= j < |b[i]| && (i, j) != (row, col) ==> r[i][j] == b[i][j]
  {
    b[row := b[row][col := v]]
  }

  /** Legal values of 1..m for cell (row, col), ascending. */
  ghost function CandidatesUpTo(b: Board, k: nat, row: nat, col: nat, m: nat): seq<int>
    requires ValidCell(b, k, row, col)
    decreases m
  {
    if m == 0 then []
    else CandidatesUpTo(b, k, row, col, m - 1) + (if Legal(b, k, row, col, m) then [m] else [])
  }

  /** The candidate list getCandidates returns for cell (row, col). */
  ghost function Candidates(b: Board, k: nat, row: nat, col: nat): seq<int>
    requires ValidCell(b, k, row, col)
  {
    CandidatesUpTo(b, k, row, col, |b|)
  }

  ghost predicate StrictlyIncreasing(s: seq<int>)
  {
    forall i, j :: 0 <= i < j < |s| ==> s[i] < s[j]
  }

  /** The first m values yield exactly the legal ones among 1..m, ascending and at most m of them. */
  lemma {:induction false} CandidatesUpToExact(b: Board, k: nat, row: nat, col: nat, m: nat)
    requires ValidCell(b, k, row, col)
    ensures forall v :: v in CandidatesUpTo(b, k, row, col, m) <==> 1 <= v <= m && Legal(b, k, row, col, v)
    ensures StrictlyIncreasing(CandidatesUpTo(b, k, row, col, m))
    ensures |CandidatesUpTo(b, k, row, col, m)| <= m
  {
    if m > 0 {
      var prev := CandidatesUpTo(b, k, row, col, m - 1);
      var last := if Legal(b, k, row, col, m) then [m] else [];
      CandidatesUpToExact(b, k, row, col, m - 1);
      assert CandidatesUpTo(b, k, row, col, m) == prev + last;
      forall v ensures v in prev + last <==> 1 <= v <= m && Legal(b, k, row, col, v) {
        assert v in prev + last <==> v in prev || v in last;
      }
      forall i, j | 0 <= i < j < |prev + last| ensures (prev + last)[i] < (prev + last)[j] {
        if j >= |prev| {
          assert (prev + last)[j] == m;
          assert (prev + last)[i] == prev[i] && prev[i] in prev;
        }
      }
    }
  }

  /** Candidates holds exactly the legal values of 1..N, ascending, at most N of them. */
  lemma CandidatesExact(b: Board, k: nat, row: nat, col: nat)
    requires ValidCell(b, k, row, col)
    ensures forall v :: v in Candidates(b, k, row, col) <==> 1 <= v <= |b| && Legal(b, k, row, col, v)
    ensures StrictlyIncreasing(Candidates(b, k, row, col))
    ensures |Candidates(b, k, row, col)| <= |b|
  {
    CandidatesUpToExact(b, k, row, col, |b|);
  }

  /** Every candidate is a legal value in 1..N. */
  lemma CandidateIsLegal(b: Board, k: nat, row: nat, col: nat, v: int)
    requires ValidCell(b, k, row, col) && v in Candidates(b, k, row, col)
    ensures 1 <= v <= |b| && Legal(b, k, row, col, v)
  {
    CandidatesExact(b, k, row, col);
  }

  /** Cells (i, j) of the block of (row, col) are exactly those with the same block start. */
  lemma InBlockIsPeer(k: nat, row: nat, col: nat, i: nat, j: nat)
    requires k > 0
    requires BlockStart(row, k) <= i < BlockStart(row, k) + k
    requires BlockStart(col, k) <= j < BlockStart(col, k) + k
    ensures BlockStart(i, k) == BlockStart(row, k) && BlockStart(j, k) == BlockStart(col, k)
  {
    SameBlockStart(row, i, k);
    SameBlockStart(col, j, k);
  }

  /** A legal placement into an empty cell keeps a consistent board consistent and in range. */
  lemma PlaceLegalKeepsConsistent(b: Board, k: nat, row: nat, col: nat, num: int)
    requires ValidCell(b, k, row, col) && b[row][col] == 0
    requires 1 <= num <= |b| && Legal(b, k, row, col, num)
    requires Consistent(b, k) && InRange(b)
    ensures IsBoard(Place(b, row, col, num), k)
    ensures Consistent(Place(b, row, col, num), k) && InRange(Place(b, row, col, num))
  {
    var r := Place(b, row, col, num);
    BlockBounds(row, k);
    BlockBounds(col, k);
    forall r1, c1, r2, c2 |
      0 <= r1 < |r| && 0 <= c1 < |r| && 0 <= r2 < |r| && 0 <= c2 < |r| &&
      r[r1][c1] != 0 && Peers(k, r1, c1, r2, c2)
      ensures r[r1][c1] != r[r2][c2]
    {
      if (r1, c1) == (row, col) {
        if r2 == row {
          assert !InRow(b, k, row, num);
        } else if c2 == col {
          assert !InCol(b, k, col, num);
        } else {
          assert !InBlock(b, k, row, col, num);
          assert BlockStart(r2, k) <= r2 < BlockStart(r2, k) + k;
        }
      } else if (r2, c2) == (row, col) {
        if r1 == row {
          assert !InRow(b, k, row, num);
        } else if c1 == col {
          assert !InCol(b, k, col, num);
        } else {
          assert !InBlock(b, k, row, col, num);
          assert BlockStart(r1, k) <= r1 < BlockStart(r1, k) + k;
        }
      }
    }
  }

  /** A cell's value in any solution is among the candidates of that cell in the puzzle. */
  lemma SolutionValueIsCandidate(s: Board, b: Board, k: nat, row: nat, col: nat)
    requires IsSolutionOf(s, b, k)
    requires ValidCell(b, k, row, col) && b[row][col] == 0
    ensures s[row][col] in Candidates(b, k, row, col)
  {
    var v := s[row][col];
    assert v != 0;
    forall x | 0 <= x < |b| ensures b[row][x] != v {
      if x != col {
        assert Peers(k, row, col, row, x);
      }
    }
    forall x | 0 <= x < |b| ensures b[x][col] != v {
      if x != row {
        assert Peers(k, row, col, x, col);
      }
    }
    BlockBounds(row, k);
    BlockBounds(col, k);
    forall i, j | BlockStart(row, k) <= i < BlockStart(row, k) + k && BlockStart(col, k) <= j < BlockStart(col, k) + k
      ensures b[i][j] != v
    {
      if (i, j) != (row, col) {
        InBlockIsPeer(k, row, col, i, j);
        assert Peers(k, row, col, i, j);
      }
    }
    CandidatesExact(b, k, row, col);
  }

  /** A solution that agrees with a placement is a solution of the board after that placement. */
  lemma SolutionOfPlaced(s: Board, b: Board, k: nat, row: nat, col: nat)
    requires IsSolutionOf(s, b, k)
    requires ValidCell(b, k, row, col)
    ensures IsSolutionOf(s, Place(b, row, col, s[row][col]), k)
  {
  }

  /** None of the first i values of `cands`, placed at (row, col), leads to a solution. */
  ghost predicate Refuted(b: Board, k: nat, row: nat, col: nat, cands: seq<int>, i: nat)
    requires row < |b| && col < |b[row]| && i <= |cands|
  {
    i == 0 || (Refuted(b, k, row, col, cands, i - 1) && !Solvable(Place(b, row, col, cands[i - 1]), k))
  }

  lemma {:induction false} RefutedAt(b: Board, k: nat, row: nat, col: nat, cands: seq<int>, i: nat, j: nat)
    requires row < |b| && col < |b[row]| && j < i <= |cands|
    requires Refuted(b, k, row, col, cands, i)
    ensures !Solvable(Place(b, row, col, cands[j]), k)
    decreases i
  {
    if j < i - 1 {
      RefutedAt(b, k, row, col, cands, i - 1, j);
    }
  }

  /** If no candidate of an empty cell extends to a solution, the puzzle has no solution. */
  lemma NoCandidateNoSolution(b: Board, k: nat, row: nat, col: nat, cands: seq<int>)
    requires ValidCell(b, k, row, col) && b[row][col] == 0
    requires cands == Candidates(b, k, row, col)
    requires Refuted(b, k, row, col, cands, |cands|)
    ensures !Solvable(b, k)
  {
    if s :| IsSolutionOf(s, b, k) {
      SolutionValueIsCandidate(s, b, k, row, col);
      var j :| 0 <= j < |cands| && cands[j] == s[row][col];
      RefutedAt(b, k, row, col, cands, |cands|, j);
      SolutionOfPlaced(s, b, k, row, col);
      assert false;
    }
  }

  /** One engine placement: value `num` written into the empty cell (row, col). */
  datatype Placement = Placement(row: nat, col: nat, num: int)

  /**
   `trace` turns `b` into `r` one placement at a time, each into a cell that
   is empty at that moment and with a value in 1..N that is legal at that moment.
   */
  ghost predicate LegalReplay(b: Board, k: nat, trace: seq<Placement>, r: Board)
    decreases |trace|
  {
    if trace == [] then r == b
    else
      var p := trace[0];
      ValidCell(b, k, p.row, p.col) && b[p.row][p.col] == 0 &&
      1 <= p.num <= |b| && Legal(b, k, p.row, p.col, p.num) &&
      LegalReplay(Place(b, p.row, p.col, p.num), k, trace[1..], r)
  }

  /**
   Legal placements never break the rules: replayed onto a consistent board
   they give a consistent board that keeps every given; if that board is
   also full, it is a solution of the starting board.
   */
  lemma {:induction false} ReplayKeepsConsistent(b: Board, k: nat, trace: seq<Placement>, r: Board)
    requires IsBoard(b, k) && Consistent(b, k) && InRange(b)
    requires LegalReplay(b, k, trace, r)
    ensures IsBoard(r, k) && Consistent(r, k) && InRange(r) && Extends(r, b)
    ensures Full(r) ==> IsSolutionOf(r, b, k)
    decreases |trace|
  {
    if trace != [] {
      var p := trace[0];
      var b' := Place(b, p.row, p.col, p.num);
      PlaceLegalKeepsConsistent(b, k, p.row, p.col, p.num);
      ReplayKeepsConsistent(b', k, trace[1..], r);
    }
  }
}
