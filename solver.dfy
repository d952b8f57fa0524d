/**
 The backtracking solver of index.js, working in place on an N-by-N array.

 `grid` is the puzzle (0 = empty) and `guessed` marks the cells the engine
 filled itself. The process-wide counters `attempts` and `totalCandidates`
 are threaded through as a Stats value. Math.sqrt(gridSize) becomes the
 parameter `k`, with `n == k * k` required of the caller.
 */
module Solver {
  import opened Rules

  datatype Option<T> = None | Some(value: T)

  /** The diagnostics counters: values tested and legal candidates found. */
  datatype Stats = Stats(attempts: nat, totalCandidates: nat)

  /** A cell picked by the selector, with its candidate list. */
  datatype Cell = Cell(row: nat, col: nat, candidates: seq<int>)

  /** The grid is n-by-n and n is a perfect square with root k. */
  predicate Shape(grid: array2<int>, n: nat, k: nat)
  {
    grid.Length0 == n && grid.Length1 == n && n == k * k
  }

  /** The value currently held by `g`, row by row. */
  ghost function Cells<T>(g: array2<T>): (b: seq<seq<T>>)
    reads g
    ensures |b| == g.Length0
    ensures forall i :: 0 <= i < g.Length0 ==> |b[i]| == g.Length1
    ensures forall i, j :: 0 <= i < g.Length0 && 0 <= j < g.Length1 ==> b[i][j] == g[i, j]
  {
    seq(g.Length0, i requires 0 <= i < g.Length0 reads g =>
      seq(g.Length1, j requires 0 <= j < g.Length1 reads g => g[i, j]))
  }

  lemma GridsEqual<T>(a: seq<seq<T>>, b: seq<seq<T>>)
    requires |a| == |b| && forall i :: 0 <= i < |a| ==> |a[i]| == |b[i]|
    requires forall i, j :: 0 <= i < |a| && 0 <= j < |a[i]| ==> a[i][j] == b[i][j]
    ensures a == b
  {
    forall i | 0 <= i < |a| ensures a[i] == b[i] {
    }
  }

  /** The assignment g[row][col] = v, stated on the value the array holds. */
  method SetCell<T>(g: array2<T>, row: nat, col: nat, v: T)
    requires row < g.Length0 && col < g.Length1
    modifies g
    ensures Cells(g) == Place(old(Cells(g)), row, col, v)
  {
    ghost var before := Cells(g);
    g[row, col] := v;
    GridsEqual(Cells(g), Place(before, row, col, v));
  }

  /**
   The paired writes of solveSudoku (index.js:115-116 and 125-126): the
   value `v` into the grid and the flag `mark` into the guess mask at the
   same cell.
   */
  method SetGuess(grid: array2<int>, guessed: array2<bool>, row: nat, col: nat, v: int, mark: bool)
    requires row < grid.Length0 && col < grid.Length1
    requires row < guessed.Length0 && col < guessed.Length1
    modifies grid, guessed
    ensures Cells(grid) == Place(old(Cells(grid)), row, col, v)
    ensures Cells(guessed) == Place(old(Cells(guessed)), row, col, mark)
  {
    SetCell(grid, row, col, v);
    SetCell(guessed, row, col, mark);
  }

  /** No empty cell of `b` is marked in the guess mask `m`. */
  ghost predicate Unguessed(b: Board, m: seq<seq<bool>>)
  {
    |m| == |b| && (forall i :: 0 <= i < |b| ==> |m[i]| == |b[i]|) &&
    forall i, j :: 0 <= i < |b| && 0 <= j < |b[i]| && b[i][j] == 0 ==> !m[i][j]
  }

  /** The guess mask once every empty cell of `b` has been filled by the engine. */
  ghost function MarkFilled(b: Board, m: seq<seq<bool>>): (r: seq<seq<bool>>)
    requires |m| == |b| && forall i :: 0 <= i < |b| ==> |m[i]| == |b[i]|
    ensures |r| == |b| && forall i :: 0 <= i < |b| ==> |r[i]| == |b[i]|
    ensures forall i, j :: 0 <= i < |b| && 0 <= j < |b[i]| ==> r[i][j] == (b[i][j] == 0 || m[i][j])
  {
    seq(|b|, i requires 0 <= i < |b| => seq(|b[i]|, j requires 0 <= j < |b[i]| => b[i][j] == 0 || m[i][j]))
  }

  /** A full board leaves the mask as it is. */
  lemma MarkFilledFull(b: Board, m: seq<seq<bool>>)
    requires |m| == |b| && forall i :: 0 <= i < |b| ==> |m[i]| == |b[i]|
    requires Full(b)
    ensures MarkFilled(b, m) == m
  {
    GridsEqual(MarkFilled(b, m), m);
  }

  /** Filling an empty cell and marking it leaves the final mask unchanged. */
  lemma MarkFilledPlace(b: Board, m: seq<seq<bool>>, row: nat, col: nat, num: int)
    requires |m| == |b| && forall i :: 0 <= i < |b| ==> |m[i]| == |b[i]|
    requires row < |b| && col < |b[row]| && b[row][col] == 0
    ensures MarkFilled(Place(b, row, col, num), Place(m, row, col, true)) == MarkFilled(b, m)
  {
    GridsEqual(MarkFilled(Place(b, row, col, num), Place(m, row, col, true)), MarkFilled(b, m));
  }

  /** A guess keeps the values in range and the empty cells unmarked. */
  lemma GuessKeepsInvariants(b: Board, m: seq<seq<bool>>, row: nat, col: nat, num: int)
    requires InRange(b) && Unguessed(b, m)
    requires row < |b| && col < |b[row]| && 1 <= num <= |b|
    ensures InRange(Place(b, row, col, num)) && Unguessed(Place(b, row, col, num), Place(m, row, col, true))
  {
  }

  /** A board that extends `b` after a placement into an empty cell extends `b`. */
  lemma ExtendsPlaced(s: Board, b: Board, row: nat, col: nat, num: int)
    requires row < |b| && col < |b[row]| && b[row][col] == 0
    requires Extends(s, Place(b, row, col, num))
    ensures Extends(s, b)
  {
  }

  /** Cell (i, j) comes strictly before cell (r, c) in row-major order. */
  predicate Before(i: nat, j: nat, r: nat, c: nat)
  {
    i < r || (i == r && j < c)
  }

  /** Number of empty cells before (r, c) in row-major order. */
  ghost function EmptyBefore(b: Board, r: nat, c: nat): nat
    requires forall i :: 0 <= i < |b| ==> |b[i]| == |b|
    requires (r < |b| && c <= |b|) || (r == |b| && c == 0)
    decreases r, c
  {
    if c == 0 then (if r == 0 then 0 else EmptyBefore(b, r - 1, |b|))
    else EmptyBefore(b, r, c - 1) + (if b[r][c - 1] == 0 then 1 else 0)
  }

  /** Counter sums, field by field. */
  function Add(a: Stats, d: Stats): Stats
  {
    Stats(a.attempts + d.attempts, a.totalCandidates + d.totalCandidates)
  }

  /**
   What scanning every cell before (r, c) in row-major order adds to the
   counters: each empty cell costs one GetCandidates call, that is N
   attempts and its candidate count.
   */
  ghost function ScanCost(b: Board, k: nat, r: nat, c: nat): Stats
    requires IsBoard(b, k)
    requires (r < |b| && c <= |b|) || (r == |b| && c == 0)
    decreases r, c
  {
    if c == 0 then (if r == 0 then Stats(0, 0) else ScanCost(b, k, r - 1, |b|))
    else Add(ScanCost(b, k, r, c - 1),
             if b[r][c - 1] == 0 then Stats(|b|, |Candidates(b, k, r, c - 1)|) else Stats(0, 0))
  }

  lemma MulSucc(x: int, e: int)
    ensures x * (e + 1) == x * e + x
  {
  }

  /** The scan makes N attempts per empty cell, and finds no more candidates than it attempts. */
  lemma {:induction false} ScanCostBounds(b: Board, k: nat, r: nat, c: nat)
    requires IsBoard(b, k)
    requires (r < |b| && c <= |b|) || (r == |b| && c == 0)
    ensures ScanCost(b, k, r, c).attempts == |b| * EmptyBefore(b, r, c)
    ensures ScanCost(b, k, r, c).totalCandidates <= ScanCost(b, k, r, c).attempts
    decreases r, c
  {
    if c == 0 {
      if r > 0 {
        ScanCostBounds(b, k, r - 1, |b|);
      }
    } else {
      ScanCostBounds(b, k, r, c - 1);
      var prev := ScanCost(b, k, r, c - 1);
      var e := EmptyBefore(b, r, c - 1);
      if b[r][c - 1] == 0 {
        CandidatesExact(b, k, r, c - 1);
        assert ScanCost(b, k, r, c) == Stats(prev.attempts + |b|, prev.totalCandidates + |Candidates(b, k, r, c - 1)|);
        assert EmptyBefore(b, r, c) == e + 1;
        MulSucc(|b|, e);
      } else {
        assert ScanCost(b, k, r, c) == prev;
      }
    }
  }

  /** Where the selector's scan stopped: just after a singleton, else past the last cell. */
  function ScanEnd(best: Option<Cell>, n: nat): (nat, nat)
  {
    if best.Some? && |best.value.candidates| == 1 && best.value.row < n && best.value.col < n
    then (best.value.row, best.value.col + 1)
    else (n, 0)
  }

  /**
   isValid (index.js:57-76): true exactly when `num` is in none of the row,
   the column and the block of (row, col).
   */
  method IsValid(grid: array2<int>, row: nat, col: nat, num: int, n: nat, k: nat) returns (ok: bool)
    requires Shape(grid, n, k) && row < n && col < n
    ensures ok == Legal(Cells(grid), k, row, col, num)
  {
    ghost var b := Cells(grid);
    for x := 0 to n
      invariant forall y :: 0 <= y < x ==> grid[row, y] != num
    {
      if grid[row, x] == num {
        assert b[row][x] == num;
        return false;
      }
    }
    assert !InRow(b, k, row, num);
    for x := 0 to n
      invariant forall y :: 0 <= y < x ==> grid[y, col] != num
    {
      if grid[x, col] == num {
        assert b[x][col] == num;
        return false;
      }
    }
    assert !InCol(b, k, col, num);
    BlockBounds(row, k);
    BlockBounds(col, k);
    var startRow := row - row % k;
    var startCol := col - col % k;
    for i := 0 to k
      invariant forall y, z :: startRow <= y < startRow + i && startCol <= z < startCol + k ==> b[y][z] != num
    {
      ghost var line := b[startRow + i];
      for j := 0 to k
        invariant forall y, z :: startRow <= y < startRow + i && startCol <= z < startCol + k ==> b[y][z] != num
        invariant forall z :: startCol <= z < startCol + j ==> line[z] != num
      {
        if grid[i + startRow, j + startCol] == num {
          assert b[i + startRow][j + startCol] == num;
          return false;
        }
      }
    }
    return true;
  }

  /**
   getCandidates (index.js:78-88): the legal values of 1..n for (row, col)
   in ascending order; `attempts` grows by n and `totalCandidates` by the
   number of values returned.
   */
  method GetCandidates(grid: array2<int>, row: nat, col: nat, n: nat, k: nat, stats: Stats)
    returns (candidates: seq<int>, stats': Stats)
    requires Shape(grid, n, k) && row < n && col < n
    ensures candidates == Candidates(Cells(grid), k, row, col) && |candidates| <= n
    ensures stats' == Stats(stats.attempts + n, stats.totalCandidates + |candidates|)
  {
    ghost var b := Cells(grid);
    candidates := [];
    stats' := stats;
    for num := 1 to n + 1
      invariant candidates == CandidatesUpTo(b, k, row, col, num - 1) && |candidates| <= num - 1
      invariant stats' == Stats(stats.attempts + num - 1, stats.totalCandidates)
    {
      stats' := stats'.(attempts := stats'.attempts + 1);
      var ok := IsValid(grid, row, col, num, n, k);
      if ok {
        candidates := candidates + [num];
      }
    }
    stats' := stats'.(totalCandidates := stats'.totalCandidates + |candidates|);
  }

  /**
   The selector's loop invariant after scanning every cell before (r, c):
   `best` is the first empty cell of least candidate count seen so far and
   `minOptions` its count, or nothing was seen and `minOptions` is n + 1.
   */
  ghost predicate Scanned(b: Board, k: nat, r: nat, c: nat, best: Option<Cell>, minOptions: int)
    requires IsBoard(b, k)
  {
    match best
    case None =>
      minOptions == |b| + 1 &&
      forall i, j :: 0 <= i < |b| && 0 <= j < |b| && Before(i, j, r, c) ==> b[i][j] != 0
    case Some(cell) =>
      cell.row < |b| && cell.col < |b| && Before(cell.row, cell.col, r, c) &&
      b[cell.row][cell.col] == 0 &&
      cell.candidates == Candidates(b, k, cell.row, cell.col) &&
      minOptions == |cell.candidates| && minOptions != 1 &&
      (forall i, j {:trigger Candidates(b, k, i, j)} ::
         (0 <= i < |b| && 0 <= j < |b| && b[i][j] == 0 && Before(i, j, cell.row, cell.col)) ==>
           minOptions < |Candidates(b, k, i, j)| && |Candidates(b, k, i, j)| != 1) &&
      (forall i, j {:trigger Candidates(b, k, i, j)} ::
         (0 <= i < |b| && 0 <= j < |b| && b[i][j] == 0 && Before(i, j, r, c)) ==>
           minOptions <= |Candidates(b, k, i, j)|)
  }

  /** The counters after scanning every cell before (r, c), starting from `stats0`. */
  ghost predicate Tally(b: Board, k: nat, r: nat, c: nat, stats0: Stats, stats: Stats)
    requires IsBoard(b, k) && ((r < |b| && c <= |b|) || (r == |b| && c == 0))
  {
    stats == Add(stats0, ScanCost(b, k, r, c))
  }

  /** Scanning a filled cell costs nothing. */
  lemma TallyFilled(b: Board, k: nat, r: nat, c: nat, stats0: Stats, stats: Stats)
    requires IsBoard(b, k) && r < |b| && c < |b| && b[r][c] != 0
    requires Tally(b, k, r, c, stats0, stats)
    ensures Tally(b, k, r, c + 1, stats0, stats)
  {
  }

  /** Scanning an empty cell costs N attempts and its candidate count. */
  lemma TallyEmpty(b: Board, k: nat, r: nat, c: nat, stats0: Stats, stats: Stats)
    requires IsBoard(b, k) && r < |b| && c < |b| && b[r][c] == 0
    requires Tally(b, k, r, c, stats0, stats)
    ensures Tally(b, k, r, c + 1, stats0, Add(stats, Stats(|b|, |Candidates(b, k, r, c)|)))
  {
  }

  /** Finishing a row is starting the next one. */
  lemma TallyNextRow(b: Board, k: nat, r: nat, stats0: Stats, stats: Stats)
    requires IsBoard(b, k) && r < |b|
    requires Tally(b, k, r, |b|, stats0, stats)
    ensures Tally(b, k, r + 1, 0, stats0, stats)
  {
  }

  /** A nonempty cell changes nothing in the scan. */
  lemma ScannedSkip(b: Board, k: nat, r: nat, c: nat, best: Option<Cell>, minOptions: int)
    requires IsBoard(b, k) && r < |b| && c < |b| && b[r][c] != 0
    requires Scanned(b, k, r, c, best, minOptions)
    ensures Scanned(b, k, r, c + 1, best, minOptions)
  {
  }

  /** An empty cell with no fewer candidates than the best so far changes nothing. */
  lemma ScannedKeep(b: Board, k: nat, r: nat, c: nat, best: Option<Cell>, minOptions: int)
    requires IsBoard(b, k) && r < |b| && c < |b| && b[r][c] == 0
    requires Scanned(b, k, r, c, best, minOptions)
    requires |Candidates(b, k, r, c)| >= minOptions
    ensures Scanned(b, k, r, c + 1, best, minOptions)
  {
    match best
    case None =>
      assert minOptions == |b| + 1;
      CandidatesExact(b, k, r, c);
      assert false;
    case Some(cell) =>
      forall i, j | 0 <= i < |b| && 0 <= j < |b| && b[i][j] == 0 && Before(i, j, r, c + 1)
        ensures minOptions <= |Candidates(b, k, i, j)|
      {
        if (i, j) != (r, c) {
          assert Before(i, j, r, c);
        }
      }
  }

  /** An empty cell with strictly fewer candidates becomes the best so far. */
  lemma ScannedTake(b: Board, k: nat, r: nat, c: nat, best: Option<Cell>, minOptions: int)
    requires IsBoard(b, k) && r < |b| && c < |b| && b[r][c] == 0
    requires Scanned(b, k, r, c, best, minOptions)
    requires |Candidates(b, k, r, c)| < minOptions && |Candidates(b, k, r, c)| != 1
    ensures Scanned(b, k, r, c + 1, Some(Cell(r, c, Candidates(b, k, r, c))), |Candidates(b, k, r, c)|)
  {
  }

  /** Finishing a row is starting the next one. */
  lemma ScannedNextRow(b: Board, k: nat, r: nat, best: Option<Cell>, minOptions: int)
    requires IsBoard(b, k) && r < |b|
    requires Scanned(b, k, r, |b|, best, minOptions)
    ensures Scanned(b, k, r + 1, 0, best, minOptions)
  {
  }

  /**
   A selector result for board `b`: an empty cell in range with its
   candidate list, and strictly fewer candidates than every empty cell
   before it in row-major order (ties go to the earliest); no empty cell
   before it is a singleton, since the scan would have stopped there.
   */
  ghost predicate IsChoice(b: Board, k: nat, cell: Cell)
    requires IsBoard(b, k)
  {
    cell.row < |b| && cell.col < |b| && b[cell.row][cell.col] == 0 &&
    cell.candidates == Candidates(b, k, cell.row, cell.col) &&
    forall i, j {:trigger Candidates(b, k, i, j)} :: (0 <= i < |b| && 0 <= j < |b| && b[i][j] == 0 && Before(i, j, cell.row, cell.col)) ==>
      |cell.candidates| < |Candidates(b, k, i, j)| && |Candidates(b, k, i, j)| != 1
  }

  /** No empty cell of `b` has fewer candidates than `cell`. */
  ghost predicate IsMinimal(b: Board, k: nat, cell: Cell)
    requires IsBoard(b, k)
  {
    forall i, j {:trigger Candidates(b, k, i, j)} :: (0 <= i < |b| && 0 <= j < |b| && b[i][j] == 0) ==>
      |cell.candidates| <= |Candidates(b, k, i, j)|
  }

  /**
   The selector's contract fixes its answer: two cells that are each a
   choice, and either a singleton or minimal, are the same cell.
   */
  lemma ChoiceUnique(b: Board, k: nat, c1: Cell, c2: Cell)
    requires IsBoard(b, k)
    requires IsChoice(b, k, c1) && (|c1.candidates| == 1 || IsMinimal(b, k, c1))
    requires IsChoice(b, k, c2) && (|c2.candidates| == 1 || IsMinimal(b, k, c2))
    ensures c1 == c2
  {
  }

  /** A scan that stopped at a singleton has found a choice. */
  lemma ScannedSingleton(b: Board, k: nat, r: nat, c: nat, best: Option<Cell>, minOptions: int)
    requires IsBoard(b, k) && r < |b| && c < |b| && b[r][c] == 0
    requires Scanned(b, k, r, c, best, minOptions)
    requires |Candidates(b, k, r, c)| < minOptions && |Candidates(b, k, r, c)| == 1
    ensures IsChoice(b, k, Cell(r, c, Candidates(b, k, r, c)))
  {
  }

  /** A scan of the whole board has found a minimal choice, or there is no empty cell. */
  lemma ScannedAll(b: Board, k: nat, best: Option<Cell>, minOptions: int)
    requires IsBoard(b, k)
    requires Scanned(b, k, |b|, 0, best, minOptions)
    ensures best.None? <==> Full(b)
    ensures best.Some? ==> IsChoice(b, k, best.value) && IsMinimal(b, k, best.value)
  {
    if best.Some? {
      var cell := best.value;
      assert !Full(b) by {
        assert b[cell.row][cell.col] == 0;
      }
    } else {
      forall i, j | 0 <= i < |b| && 0 <= j < |b[i]| ensures b[i][j] != 0 {
        assert Before(i, j, |b|, 0);
      }
    }
  }

  /**
   The body of the inner loop of findNextCell (index.js:96-102) for cell
   (row, col) of the board `b` the grid holds: an empty cell costs one
   GetCandidates call and becomes the best cell when it has fewer candidates
   than the best so far. The scan invariant moves past (row, col), unless
   the cell is a singleton, which is then a choice on its own.
   */
  method ConsiderCell(grid: array2<int>, n: nat, k: nat, row: nat, col: nat, ghost b: Board,
                      best: Option<Cell>, minOptions: int, ghost stats0: Stats, stats: Stats)
    returns (best': Option<Cell>, minOptions': int, stats': Stats)
    requires Shape(grid, n, k) && row < n && col < n && b == Cells(grid)
    requires Scanned(b, k, row, col, best, minOptions) && Tally(b, k, row, col, stats0, stats)
    ensures Tally(b, k, row, col + 1, stats0, stats')
    ensures minOptions' == 1 ==> best' == Some(Cell(row, col, Candidates(b, k, row, col))) &&
                                 |Candidates(b, k, row, col)| == 1 && IsChoice(b, k, best'.value)
    ensures minOptions' != 1 ==> Scanned(b, k, row, col + 1, best', minOptions')
  {
    best', minOptions', stats' := best, minOptions, stats;
    if grid[row, col] == 0 {
      TallyEmpty(b, k, row, col, stats0, stats);
      var candidates;
      candidates, stats' := GetCandidates(grid, row, col, n, k, stats);
      assert Cells(grid) == b;
      if |candidates| < minOptions {
        minOptions' := |candidates|;
        best' := Some(Cell(row, col, candidates));
        if minOptions' == 1 {
          ScannedSingleton(b, k, row, col, best, minOptions);
        } else {
          ScannedTake(b, k, row, col, best, minOptions);
        }
      } else {
        ScannedKeep(b, k, row, col, best, minOptions);
      }
    } else {
      TallyFilled(b, k, row, col, stats0, stats);
      ScannedSkip(b, k, row, col, best, minOptions);
    }
  }

  /**
   The inner loop of findNextCell (index.js:95-104) over row `row` of the
   board `b` the grid holds. It either stops at a singleton, which is then
   a choice, with the counters charged up to that cell, or moves the scan
   invariant and the counters on to the start of the next row.
   */
  method ScanRow(grid: array2<int>, n: nat, k: nat, row: nat, ghost b: Board,
                 best: Option<Cell>, minOptions: int, ghost stats0: Stats, stats: Stats)
    returns (best': Option<Cell>, minOptions': int, stats': Stats)
    requires Shape(grid, n, k) && row < n && b == Cells(grid)
    requires Scanned(b, k, row, 0, best, minOptions) && Tally(b, k, row, 0, stats0, stats)
    ensures minOptions' == 1 ==>
      best'.Some? && best'.value.row == row && best'.value.col < n &&
      |best'.value.candidates| == 1 && IsChoice(b, k, best'.value) &&
      Tally(b, k, row, best'.value.col + 1, stats0, stats')
    ensures minOptions' != 1 ==>
      Scanned(b, k, row + 1, 0, best', minOptions') && Tally(b, k, row + 1, 0, stats0, stats')
  {
    best', minOptions', stats' := best, minOptions, stats;
    var col := 0;
    while col < n
      invariant col <= n
      invariant Scanned(b, k, row, col, best', minOptions')
      invariant Tally(b, k, row, col, stats0, stats')
    {
      best', minOptions', stats' := ConsiderCell(grid, n, k, row, col, b, best', minOptions', stats0, stats');
      if minOptions' == 1 {
        return;
      }
      col := col + 1;
    }
    ScannedNextRow(b, k, row, best', minOptions');
    TallyNextRow(b, k, row, stats0, stats');
  }

  /**
   findNextCell (index.js:90-107): the minimum-remaining-values choice.
   Nothing is returned exactly when no cell is empty. A returned cell is a
   choice as IsChoice states and, unless the scan stopped early at a
   singleton, is minimal. The counters grow by what GetCandidates adds for
   each empty cell scanned.
   */
  method FindNextCell(grid: array2<int>, n: nat, k: nat, stats: Stats) returns (best: Option<Cell>, stats': Stats)
    requires Shape(grid, n, k)
    ensures best.None? <==> Full(Cells(grid))
    ensures best.Some? ==> IsChoice(Cells(grid), k, best.value)
    ensures best.Some? && |best.value.candidates| != 1 ==> IsMinimal(Cells(grid), k, best.value)
    ensures
      var (r, c) := ScanEnd(best, n);
      stats' == Add(stats, ScanCost(Cells(grid), k, r, c))
  {
    ghost var b := Cells(grid);
    var minOptions := n + 1;
    best := None;
    stats' := stats;
    var row := 0;
    while row < n
      invariant row <= n
      invariant Scanned(b, k, row, 0, best, minOptions)
      invariant Tally(b, k, row, 0, stats, stats')
    {
      best, minOptions, stats' := ScanRow(grid, n, k, row, b, best, minOptions, stats, stats');
      if minOptions == 1 {
        assert ScanEnd(best, n) == (row, best.value.col + 1);
        return;
      }
      row := row + 1;
    }
    ScannedAll(b, k, best, minOptions);
    assert ScanEnd(best, n) == (n, 0);
  }

  /** The set of empty cells: it shrinks with every placement, so the search terminates. */
  ghost function EmptyCells(b: Board): set<(nat, nat)>
  {
    set i: nat, j: nat | i < |b| && j < |b[i]| && b[i][j] == 0 :: (i, j)
  }

  /** Filling an empty cell removes it, and only it, from the empty cells. */
  lemma PlaceShrinksEmpty(b: Board, row: nat, col: nat, num: int)
    requires row < |b| && col < |b[row]| && b[row][col] == 0 && num != 0
    ensures EmptyCells(Place(b, row, col, num)) == EmptyCells(b) - {(row, col)}
    ensures EmptyCells(Place(b, row, col, num)) < EmptyCells(b)
  {
    var p := Place(b, row, col, num);
    assert (row, col) in EmptyCells(b);
    forall c | c in EmptyCells(p) ensures c in EmptyCells(b) - {(row, col)} {
      var (i, j) := c;
      assert i < |b| && j < |b[i]| && b[i][j] == 0;
    }
    forall c | c in EmptyCells(b) - {(row, col)} ensures c in EmptyCells(p) {
      var (i, j) := c;
      assert i < |p| && j < |p[i]| && p[i][j] == 0;
    }
  }

  /**
   solveSudoku (index.js:109-129): pick a cell, try its candidates in order,
   and report whether one of them leads to a solution.
   On failure grid and mask are as on entry and no solution keeps the givens.
   On success the grid is full, the givens are kept, exactly the cells that
   were empty are added to the mask, and the grid is the input with a
   sequence of placements applied, each legal when it was made.
   */
  method Solve(grid: array2<int>, n: nat, k: nat, guessed: array2<bool>, stats: Stats)
    returns (solved: bool, stats': Stats, ghost trace: seq<Placement>)
    requires Shape(grid, n, k) && guessed.Length0 == n && guessed.Length1 == n
    requires InRange(Cells(grid)) && Unguessed(Cells(grid), Cells(guessed))
    modifies grid, guessed
    decreases EmptyCells(Cells(grid)), 2
    ensures stats'.attempts >= stats.attempts && stats'.totalCandidates >= stats.totalCandidates
    ensures !solved ==> Cells(grid) == old(Cells(grid)) && Cells(guessed) == old(Cells(guessed))
    ensures !solved ==> !Solvable(old(Cells(grid)), k)
    ensures Full(old(Cells(grid))) ==>
      solved && Cells(grid) == old(Cells(grid)) && Cells(guessed) == old(Cells(guessed))
    ensures solved ==> Full(Cells(grid)) && Extends(Cells(grid), old(Cells(grid)))
    ensures solved ==> Cells(guessed) == MarkFilled(old(Cells(grid)), old(Cells(guessed)))
    ensures solved ==> LegalReplay(old(Cells(grid)), k, trace, Cells(grid))
    ensures solved && Consistent(old(Cells(grid)), k) ==> IsSolutionOf(Cells(grid), old(Cells(grid)), k)
  {
    ghost var b := Cells(grid);
    ghost var m := Cells(guessed);
    var next;
    next, stats' := FindNextCell(grid, n, k, stats);
    if next.None? {
      solved, trace := true, [];
      MarkFilledFull(b, m);
      if Consistent(b, k) {
        ReplayKeepsConsistent(b, k, trace, b);
      }
      return;
    }
    solved, stats', trace := TryCandidates(grid, n, k, guessed, next.value.row, next.value.col, next.value.candidates, stats');
  }

  /**
   The loop of solveSudoku (index.js:114-128) over the candidates of the
   chosen cell (row, col), in increasing order. It stops at the first value
   whose recursion succeeds; when none does, every candidate is refuted and
   so the board has no solution.
   */
  method TryCandidates(grid: array2<int>, n: nat, k: nat, guessed: array2<bool>,
                       row: nat, col: nat, candidates: seq<int>, stats: Stats)
    returns (solved: bool, stats': Stats, ghost trace: seq<Placement>)
    requires Shape(grid, n, k) && guessed.Length0 == n && guessed.Length1 == n
    requires InRange(Cells(grid)) && Unguessed(Cells(grid), Cells(guessed))
    requires row < n && col < n && grid[row, col] == 0
    requires candidates == Candidates(Cells(grid), k, row, col)
    modifies grid, guessed
    decreases EmptyCells(Cells(grid)), 1
    ensures stats'.attempts >= stats.attempts && stats'.totalCandidates >= stats.totalCandidates
    ensures !solved ==> Cells(grid) == old(Cells(grid)) && Cells(guessed) == old(Cells(guessed))
    ensures !solved ==> !Solvable(old(Cells(grid)), k)
    ensures solved ==> Full(Cells(grid)) && Extends(Cells(grid), old(Cells(grid)))
    ensures solved ==> Cells(guessed) == MarkFilled(old(Cells(grid)), old(Cells(guessed)))
    ensures solved ==> LegalReplay(old(Cells(grid)), k, trace, Cells(grid))
    ensures solved && Consistent(old(Cells(grid)), k) ==> IsSolutionOf(Cells(grid), old(Cells(grid)), k)
  {
    ghost var b := Cells(grid);
    ghost var m := Cells(guessed);
    stats' := stats;
    var i := 0;
    while i < |candidates|
      invariant i <= |candidates|
      invariant Cells(grid) == b && Cells(guessed) == m
      invariant stats'.attempts >= stats.attempts && stats'.totalCandidates >= stats.totalCandidates
      invariant Refuted(b, k, row, col, candidates, i)
    {
      var num := candidates[i];
      CandidateIsLegal(b, k, row, col, num);
      var ok, s, t := TryValue(grid, n, k, guessed, row, col, num, stats');
      stats' := s;
      if ok {
        solved, trace := true, t;
        if Consistent(b, k) {
          ReplayKeepsConsistent(b, k, trace, Cells(grid));
        }
        return;
      }
      i := i + 1;
    }
    solved, trace := false, [];
    NoCandidateNoSolution(b, k, row, col, candidates);
  }

  /**
   One pass of the loop of solveSudoku (index.js:115-127): write `num` into
   the empty cell (row, col) and mark it guessed, recurse, and clear both
   again if the recursion fails. On failure grid and mask are as on entry
   and the placement leads to no solution; on success the trace starts with
   this placement and the rest is as for Solve.
   */
  method TryValue(grid: array2<int>, n: nat, k: nat, guessed: array2<bool>, row: nat, col: nat, num: int, stats: Stats)
    returns (solved: bool, stats': Stats, ghost trace: seq<Placement>)
    requires Shape(grid, n, k) && guessed.Length0 == n && guessed.Length1 == n
    requires InRange(Cells(grid)) && Unguessed(Cells(grid), Cells(guessed))
    requires row < n && col < n && grid[row, col] == 0
    requires 1 <= num <= n && Legal(Cells(grid), k, row, col, num)
    modifies grid, guessed
    decreases EmptyCells(Cells(grid)), 0
    ensures stats'.attempts >= stats.attempts && stats'.totalCandidates >= stats.totalCandidates
    ensures !solved ==> Cells(grid) == old(Cells(grid)) && Cells(guessed) == old(Cells(guessed))
    ensures !solved ==> !Solvable(Place(old(Cells(grid)), row, col, num), k)
    ensures solved ==> Full(Cells(grid)) && Extends(Cells(grid), old(Cells(grid)))
    ensures solved ==> Cells(guessed) == MarkFilled(old(Cells(grid)), old(Cells(guessed)))
    ensures solved ==> trace != [] && trace[0] == Placement(row, col, num)
    ensures solved ==> LegalReplay(old(Cells(grid)), k, trace, Cells(grid))
  {
    ghost var b := Cells(grid);
    ghost var m := Cells(guessed);
    SetGuess(grid, guessed, row, col, num, true);
    ghost var placed := Place(b, row, col, num);
    ghost var marked := Place(m, row, col, true);
    PlaceShrinksEmpty(b, row, col, num);
    GuessKeepsInvariants(b, m, row, col, num);
    ghost var t;
    solved, stats', t := Solve(grid, n, k, guessed, stats);
    if solved {
      trace := [Placement(row, col, num)] + t;
      assert trace[1..] == t;
      ExtendsPlaced(Cells(grid), b, row, col, num);
      MarkFilledPlace(b, m, row, col, num);
      return;
    }
    trace := [];
    SetGuess(grid, guessed, row, col, 0, false);
    GridsEqual(Place(placed, row, col, 0), b);
    GridsEqual(Place(marked, row, col, false), m);
  }
}
