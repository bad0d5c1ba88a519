# Sudoku: placement rule, backtracking solver and move commit

A Dafny model of the constraint-checking core of a small console Sudoku
game (`sudoku_game.py`):

- the placement rule `is_valid_move(grid, row, col, num)`: is `num` absent
  from the row, the column and the 3x3 box of cell (row, col)?
- the in-place backtracking solver `solve_sudoku(grid)`: fill the first empty
  cell (row-major) with each digit 1..9 the rule accepts, recurse, reset the
  cell to 0 when the recursion fails;
- the step of the game loop that commits a typed move `row col num`
  (1-based): write only when all three numbers lie in 1..9 and the rule
  accepts the digit.

The grid is a 9x9 `array2<int>` changed in place; 0 means "empty". The
specification predicates are stated over `Cells(g)`, a `seq<seq<int>>`
snapshot of the array, so that a state before and a state after a call can
be compared as two values.

Files and modules:

- `grid.dfy` (`Grid`): shape, box anchor, peers, consistency ("no digit
  repeated in a row, column or box"), the finished-Sudoku predicate
  `IsSolution`, and the pigeonhole argument that a consistent grid of digits
  1..9 is a finished Sudoku.
- `checker.dfy` (`Checker`): `CanPlace` (the rule as a predicate),
  `IsValidMove` (the rule's three scans as a read-only method), and lemmas
  about the rule.
- `solver.dfy` (`Solver`): `Solve` and the lemmas that compose its recursive
  calls.
- `play.dfy` (`Play`): `ApplyMove` and the three answers the game gives to a
  move.

`IsValidMove` has no `modifies` clause, so Dafny itself guarantees that the
rule never changes the grid. `Solve` terminates because its `decreases`
clause, the set of empty cells, loses the cell just filled before each
recursive call (`PlacementShrinksZeroCells`); that set has at most 81 cells.

Two behaviours of the code are easy to assume otherwise, and the model
follows the code in both:

- The game loop does not check that the target cell is empty before it
  commits a move (lines 74-77). `ApplyMove` therefore overwrites an occupied
  cell whenever the rule accepts the new digit, and this includes the
  puzzle's givens. `OccupiedCellAccepted` shows such a move.
- The solver answers `True` as soon as its scan finds no empty cell. It does
  not check the givens (lines 29-39). So a full grid with a repeated digit is
  reported as solved (`Solve` ensures a true answer on every grid without an
  empty cell), and so is a grid with a repeated given whose empty
  cells can all be filled. `Solve` promises a finished Sudoku only when the
  input had no repetitions and its cells lay in 0..9. On any input, the
  digits the solver writes clash with no peer (`WritesWithoutClash`).

## Model

| member | source | states |
|---|---|---|
| `Grid.BoxStart` | sudoku_game.py:19-21 | the box anchor `3*(i//3)` is 0, 3 or 6, and the anchor's three lines include `i` (so the scanned box is in bounds and holds the cell) |
| `Checker.IsValidMove` | sudoku_game.py:8-25 | answers true exactly when `num` occurs neither in the row, nor in the column, nor in the cell's 3x3 box (`CanPlace`); reads the grid and writes nothing |
| `Checker.CanPlaceIffNoPeerHolds` | sudoku_game.py:11-23 | the three scans mean: the cell itself does not hold `num` and no cell sharing its row, column or box holds it (both directions) |
| `Checker.CornerFiveExample` | sudoku_game.py:8-25 | with only a 5 in the top-left cell, 5 is refused at (0,1), (1,0) and (1,1) and accepted at (4,4) |
| `Checker.OccupiedCellAccepted` | sudoku_game.py:74-77 | the rule does not require an empty target: 7 is accepted in a cell that holds 5 |
| `Checker.PlacementKeepsConsistency` | sudoku_game.py:74-77 | writing a digit the rule accepts keeps a grid without repetitions free of repetitions, even when it replaces another digit |
| `Play.ApplyMove` | sudoku_game.py:74-83 | out-of-range answer exactly when row, col or num is outside 1..9; refused exactly when they are in range and the rule rejects `num` at (row-1, col-1); on success only that cell changes and it holds `num`; otherwise the grid is unchanged; consistency is kept |
| `Solver.Solve` | sudoku_game.py:27-39 | givens keep their values; on false the grid is exactly as on entry; on true no cell is empty; a grid with no empty cell on entry is answered true, even one with repeated digits; written cells hold 1..9 and clash with no peer; consistency is kept; true on a consistent grid of 0..9 values yields a finished Sudoku; terminates |
| `Solver.PlacementShrinksZeroCells` | sudoku_game.py:31-35 | filling an empty cell removes exactly that cell from the set of empty cells, so the recursive call starts with one empty cell fewer |
| `Solver.PlacementThenSolve` | sudoku_game.py:32-36 | an accepted placement in an empty cell followed by a successful recursive call keeps the caller's givens and writes only clash-free digits 1..9 |
| `Solver.SolveKeepsConsistency` | sudoku_game.py:32-35 | keeping the givens and writing only clash-free digits turns a grid without repetitions into a grid without repetitions |
| `Solver.SolvedGridIsSolution` | sudoku_game.py:29-39 | if such a run also leaves no empty cell and began from a consistent grid of 0..9 values, each row, column and box holds every digit 1..9 exactly once |
| `Grid.FullConsistentIsSolution` | sudoku_game.py:29-39 | a grid with no repetitions whose every cell holds 1..9 has every digit in every row, column and box (pigeonhole) |

## Left out

- `print_grid` and every message printed by the game: console output only.
- Reading the move, `split`/`int` parsing and the `try`/`except` re-prompt
  loop of `play_sudoku`: input handling. `ApplyMove` takes the three parsed
  integers, and its outcome stands for the three messages.
- The "solve" command of `play_sudoku` (lines 68-72) only calls
  `solve_sudoku`, prints the grid and ends the game. It ignores the result,
  so it adds nothing beyond `Solve`.
- `generate_puzzle`: it is driven by `random.randint`. Its seeding loop
  resamples without bound and its removal count is random, so it has no
  deterministic behaviour to state. It calls `solve_sudoku` and ignores the
  result (line 51).
- Completeness of the solver is not proved. The model does not show that a
  false answer means the grid has no valid completion, and the code does not
  promise it.
- Determinism of the solver is not stated as a separate property. `Solve`
  fixes the order of the scan and of the digits, but its contract does not
  pin down which solution it finds.
- Python's list of lists is modelled as one 9x9 array. The rows can therefore
  not alias one another.
