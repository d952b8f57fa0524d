# Backtracking Sudoku solver, modelled in Dafny

This project models the solving core of `index.js`, a terminal Sudoku
solver for N×N grids with N = k·k. 0 marks an empty cell. The model has
two modules.

- `Rules` (rules.dfy) states the puzzle on board values (`seq<seq<int>>`):
  - what `isValid` answers (`Legal`: the value is absent from the row, the
    column and the k×k block that starts at `(row - row % k, col - col % k)`);
  - the ascending candidate list of a cell (`Candidates`);
  - consistent, solved and solvable boards;
  - replaying a sequence of legal placements (`LegalReplay`).
- `Solver` (solver.dfy) is the program itself, working in place on
  `array2<int>` (the grid) and `array2<bool>` (the `isGuessed` mask):
  - `IsValid`, `GetCandidates`, `FindNextCell` and `Solve` follow
    `isValid`, `getCandidates`, `findNextCell` and `solveSudoku` loop by
    loop;
  - each is proved against the `Rules` definitions through the ghost
    snapshot `Cells(grid)`;
  - the global counters `attempts` and `totalCandidates` are a `Stats`
    value passed in and returned;
  - `Math.sqrt(gridSize)` becomes a parameter `k` with `n == k * k`
    required, which is what the size prompt checks before the solver is
    called.

What is proved:
- `IsValid` returns exactly `Legal`.
- `GetCandidates` returns exactly the legal values of 1..N, strictly
  ascending and at most N of them. It adds N to `attempts` and the list
  length to `totalCandidates`.
- `FindNextCell`:
  - returns nothing exactly when the grid has no empty cell;
  - otherwise returns an empty cell with its own candidate list, having
    strictly fewer candidates than every empty cell before it in row-major
    order (ties go to the earliest), and no empty cell before it has
    exactly one candidate, since the scan stops at the first such cell;
  - that cell is minimal over the whole grid unless the scan stopped at a
    singleton;
  - these facts fix the answer: two cells that satisfy them are the same
    cell (`ChoiceUnique`);
  - the counters grow by one `getCandidates` cost per empty cell scanned
    (`ScanCost`), that is N attempts per empty cell and at most as many
    candidates.
- `Solve` terminates: every recursion fills one more empty cell.
- When `Solve` fails, grid and mask are exactly as on entry, and no
  solution of the input grid exists.
- When `Solve` succeeds:
  - no cell is empty;
  - every given is kept;
  - the mask is the input mask with every empty cell of the input set;
  - the filling is a sequence of placements, each legal when it was made;
  - so for an input with no repeated value in a row, column or block, the
    result is a solution of the input.

## Model

| member | source | states |
|---|---|---|
| Rules.BlockBounds | index.js:68-72 | the block origin `x - x % k` is at most `x`, and the block it starts lies inside the N×N board |
| Rules.SameBlockStart | index.js:68-69 | every row (or column) inside a block has that block's origin as its own origin |
| Solver.IsValid | index.js:57-76 | the result is true exactly when `num` occurs in none of the row, the column and the block of (row, col) |
| Rules.CandidatesUpToExact | index.js:80-85 | after testing 1..m, the list holds exactly the legal values among 1..m, strictly ascending and at most m of them |
| Rules.CandidatesExact | index.js:78-88 | the candidate list of a cell is exactly its legal values in 1..N, strictly ascending, at most N long |
| Rules.CandidateIsLegal | index.js:78-88 | every value getCandidates returns is in 1..N and passes isValid |
| Solver.GetCandidates | index.js:78-88 | returns the candidate list of the cell, at most N long; `attempts` grows by exactly N and `totalCandidates` by exactly the list length |
| Solver.ScanCostBounds | index.js:80-97 | a row-major scan up to any cell adds N attempts per empty cell scanned, and no more candidates than attempts |
| Solver.ConsiderCell | index.js:96-102 | one cell of the scan: an empty cell with strictly fewer candidates becomes the best; a singleton ends the scan as a valid choice; the counters are charged for empty cells only |
| Solver.ScanRow | index.js:95-104 | one row of the scan: it either stops at the first singleton, which is then a choice, or carries the scan invariant (no singleton among the empty cells before the best) and the counters to the start of the next row |
| Solver.ScannedAll | index.js:91-106 | after a full scan, nothing was found exactly when no cell is empty, and a found cell is a choice with the fewest candidates of all empty cells |
| Solver.FindNextCell | index.js:90-107 | null exactly when the grid has no 0; otherwise an empty cell with its own candidate list, strictly better than every earlier empty cell, with no singleton among the earlier empty cells (the scan returns at the first one), minimal overall unless it is a singleton; counters grow by the scan's cost up to where it stopped |
| Solver.ChoiceUnique | index.js:90-107 | the selector's contract determines its result: two cells that are each a choice, and each a singleton or minimal, are equal |
| Rules.PlaceLegalKeepsConsistent | index.js:114-116 | writing a legal value of 1..N into an empty cell keeps a repeat-free, in-range board repeat-free and in range |
| Rules.ReplayKeepsConsistent | index.js:109-129 | any sequence of legal placements keeps a repeat-free board repeat-free and keeps its givens; once the result is full it is a solution of the start board |
| Rules.SolutionValueIsCandidate | index.js:113-114 | in any solution, the value of an empty cell is one of that cell's candidates, so trying only the candidates loses no solution |
| Rules.RefutedAt | index.js:114-127 | each candidate counted as failed leads to no solution |
| Rules.NoCandidateNoSolution | index.js:114-128 | when every candidate of an empty cell fails, the board has no solution, which justifies `return false` |
| Solver.SetCell | index.js:115-116 | one array write changes the one cell and no other |
| Solver.SetGuess | index.js:115-116 | writing the value and the guess flag changes that cell of grid and mask and no other |
| Solver.MarkFilledPlace | index.js:115-116 | marking a filled cell as guessed leaves the final mask, all empty cells marked, unchanged |
| Solver.TryValue | index.js:115-126 | write and mark, recurse, and clear both on failure: on failure grid and mask are as on entry and the placement has no solution; on success the board is full, keeps the givens, starts the replay with this legal placement, and the mask marks every empty cell |
| Solver.TryCandidates | index.js:114-128 | the loop over the candidates: on failure grid and mask are unchanged and the board has no solution; on success the board is full, keeps the givens, was filled by legal placements, and is a solution when the input was repeat-free |
| Solver.Solve | index.js:109-129 | terminates; a full grid is solved at once and unchanged; false means grid and mask are unchanged and no solution exists; true means no 0 remains, givens are kept, `isGuessed` is set exactly at the cells that were 0, every placement was legal when made, and a repeat-free input yields a solution |

## Left out

- The readline prompts `promptGridSize`, `promptForRowInput`, `promptForSudokuInput` and `promptUserChoice`, and the top-level driver (index.js:131-230): terminal input. Their checks (N a perfect square, every cell in 0..N) are the solver's preconditions `n == k * k` and `InRange`.
- `displayGrid` (index.js:38-55) and the `table` library call: presentation through an external library.
- `placementCounter`, `displayFrequency` and the awaited 50 ms pause (index.js:36, 117-122): they only pace the rendering and never change the search. `Solve` is a synchronous method.
- `generateRandomGrid` (index.js:168-182): it depends on `Math.random`.
- `centerText` and the startup banner (index.js:13-32): terminal-width cosmetics.
- `performance.now` timing and the metrics printout (index.js:214-227): wall-clock time and float formatting. This includes the "Solved" message, which is printed whatever the search returned.
- Solver.Solve: the counters are stated only as never decreasing. Their exact value after a whole search is not given, because it depends on the order the search explores.
- Solver.TryCandidates: the counters are stated only as never decreasing, as for Solve.
- Solver.TryValue: the counters are stated only as never decreasing, as for Solve.
- Solver.Solve: it requires that no empty cell is marked in `isGuessed`. The backtrack writes `false` rather than the previous flag, so only under this condition is the mask restored on failure. The program's one call passes an all-false mask (index.js:211).
- JavaScript arrays of arrays are modelled as `array2`. The rows are never shared or resized, so aliasing between rows is not modelled.
- The body of the loop in `solveSudoku` is the method `TryValue`, and its loop is `TryCandidates`. The inner loop of `findNextCell` is `ScanRow`, and that loop's body is `ConsiderCell`. This layout is a proof structure only.
