/** The depth-first backtracking solver. */
module Solver {
  import opened Grid
  import opened Checker

  /** Every cell filled in `before` holds the same value in `after`. */
  ghost predicate KeepsGivens(before: seq<seq<int>>, after: seq<seq<int>>)
    requires IsBoard(before) && IsBoard(after)
  {
    forall r, c :: 0 <= r < 9 && 0 <= c < 9 && before[r][c] != 0 ==> after[r][c] == before[r][c]
  }

  /** A cell empty in `before` is, in `after`, still empty or a digit 1..9. */
  ghost predicate WritesDigits(before: seq<seq<int>>, after: seq<seq<int>>)
    requires IsBoard(before) && IsBoard(after)
  {
    forall r, c :: 0 <= r < 9 && 0 <= c < 9 && before[r][c] == 0 ==> after[r][c] == 0 || 1 <= after[r][c] <= 9
  }

  /** Each cell empty in `before` and filled in `after` differs, in `after`,
      from every one of its peers. */
  ghost predicate WritesWithoutClash(before: seq<seq<int>>, after: seq<seq<int>>)
    requires IsBoard(before) && IsBoard(after)
  {
    forall r, c, r2, c2 ::
      (0 <= r < 9 && 0 <= c < 9 && 0 <= r2 < 9 && 0 <= c2 < 9 &&
       before[r][c] == 0 && after[r][c] != 0 && Peers(r, c, r2, c2)) ==> after[r2][c2] != after[r][c]
  }

  /** Fills the grid in place. Finds the first empty cell in row-major order,
      tries the digits 1..9 in ascending order that the checker accepts there,
      and recurses after each placement; a placement whose recursion fails is
      reset to 0 before the next digit is tried. Answers false when no digit
      works, and true as soon as a scan finds no empty cell.

      The recursion stops because each recursive call starts with one empty
      cell fewer than its caller. */
  method Solve(g: array2<int>) returns (solved: bool)
    requires IsGrid(g)
    modifies g
    decreases ZeroCells(Cells(g))
    // the givens: a cell that was filled on entry keeps its value
    ensures KeepsGivens(old(Cells(g)), Cells(g))
    // a failed search undoes every tentative placement
    ensures !solved ==> Cells(g) == old(Cells(g))
    // success leaves no empty cell
    ensures solved ==> NoZeros(Cells(g))
    // a grid without an empty cell is reported solved, whatever it holds
    ensures NoZeros(old(Cells(g))) ==> solved
    // the solver writes only digits 1..9 ...
    ensures WritesDigits(old(Cells(g)), Cells(g))
    // ... each different from every peer of its cell, givens and other
    // written digits alike
    ensures WritesWithoutClash(old(Cells(g)), Cells(g))
    // so it never creates a repetition, and a success on a consistent grid
    // of digits is a finished Sudoku
    ensures old(Consistent(Cells(g))) ==> Consistent(Cells(g))
    ensures solved && old(Consistent(Cells(g))) && old(WellFormed(Cells(g))) ==> IsSolution(Cells(g))
  {
    ghost var before := old(Cells(g));
    for row := 0 to 9
      invariant forall r, c :: 0 <= r < row && 0 <= c < 9 ==> g[r, c] != 0
      invariant forall r, c :: 0 <= r < 9 && 0 <= c < 9 ==> g[r, c] == before[r][c]
    {
      for col := 0 to 9
        invariant forall r, c :: 0 <= r < row && 0 <= c < 9 ==> g[r, c] != 0
        invariant forall c :: 0 <= c < col ==> g[row, c] != 0
        invariant forall r, c :: 0 <= r < 9 && 0 <= c < 9 ==> g[r, c] == before[r][c]
      {
        if g[row, col] == 0 {
          for num := 1 to 10
            invariant forall r, c :: 0 <= r < 9 && 0 <= c < 9 ==> g[r, c] == before[r][c]
          {
            var ok := IsValidMove(g, row, col, num);
            if ok {
              SameCells(Cells(g), before);
              g[row, col] := num;
              ghost var placed := Cells(g);
              PlacementShrinksZeroCells(before, placed, row, col, num);
              solved := Solve(g);
              if solved {
                PlacementThenSolve(before, placed, Cells(g), row, col, num);
                SolvedGridIsSolution(before, Cells(g));
                return;
              }
              g[row, col] := 0;
            }
          }
          SameCells(Cells(g), before);
          return false;
        }
      }
    }
    SameCells(Cells(g), before);
    SolvedGridIsSolution(before, Cells(g));
    return true;
  }

  /** Filling an empty cell removes it, and only it, from the empty cells. */
  lemma PlacementShrinksZeroCells(before: seq<seq<int>>, after: seq<seq<int>>, row: int, col: int, num: int)
    requires IsBoard(before) && IsBoard(after)
    requires Placement(before, after, row, col, num)
    requires before[row][col] == 0 && num != 0
    ensures ZeroCells(after) == ZeroCells(before) - {(row, col)}
    ensures ZeroCells(after) < ZeroCells(before)
  {
    assert (row, col) in ZeroCells(before);
  }

  /** A placement the checker accepted in an empty cell, followed by a run
      that keeps the placement's givens and writes clash-free digits, is as a
      whole a run that keeps the original givens and writes clash-free digits. */
  lemma PlacementThenSolve(before: seq<seq<int>>, placed: seq<seq<int>>, after: seq<seq<int>>,
                           row: int, col: int, num: int)
    requires IsBoard(before) && IsBoard(placed) && IsBoard(after)
    requires InBounds(row) && InBounds(col) && before[row][col] == 0 && 1 <= num <= 9
    requires CanPlace(before, row, col, num)
    requires Placement(before, placed, row, col, num)
    requires KeepsGivens(placed, after) && WritesDigits(placed, after)
    requires WritesWithoutClash(placed, after)
    ensures KeepsGivens(before, after) && WritesDigits(before, after)
    ensures WritesWithoutClash(before, after)
  {
    CanPlaceIffNoPeerHolds(before, row, col, num);
    forall r, c, r2, c2 |
      0 <= r < 9 && 0 <= c < 9 && 0 <= r2 < 9 && 0 <= c2 < 9 &&
      before[r][c] == 0 && after[r][c] != 0 && Peers(r, c, r2, c2)
      ensures after[r2][c2] != after[r][c]
    {
      if (r, c) == (row, col) {
        if placed[r2][c2] == 0 && after[r2][c2] != 0 {
          assert Peers(r2, c2, r, c);
        }
      }
    }
  }

  /** A run that keeps the givens and writes only digits that clash with no
      peer turns a consistent grid into a consistent grid. */
  lemma SolveKeepsConsistency(before: seq<seq<int>>, after: seq<seq<int>>)
    requires IsBoard(before) && IsBoard(after)
    requires KeepsGivens(before, after)
    requires WritesWithoutClash(before, after)
    ensures Consistent(before) ==> Consistent(after)
  {
    if Consistent(before) {
      forall r, c, r2, c2 |
        0 <= r < 9 && 0 <= c < 9 && 0 <= r2 < 9 && 0 <= c2 < 9 &&
        Peers(r, c, r2, c2) && after[r][c] != 0
        ensures after[r][c] != after[r2][c2]
      {
        if before[r][c] != 0 {
          if before[r2][c2] == 0 && after[r2][c2] != 0 {
            assert Peers(r2, c2, r, c);
          }
        }
      }
    }
  }

  /** If such a run also leaves no empty cell, and started from a consistent
      grid of 0..9 values, every row, column and box holds each digit 1..9
      exactly once. */
  lemma SolvedGridIsSolution(before: seq<seq<int>>, after: seq<seq<int>>)
    requires IsBoard(before) && IsBoard(after)
    requires KeepsGivens(before, after) && WritesDigits(before, after)
    requires WritesWithoutClash(before, after)
    requires NoZeros(after)
    ensures Consistent(before) && WellFormed(before) ==> IsSolution(after)
  {
    if Consistent(before) && WellFormed(before) {
      SolveKeepsConsistency(before, after);
      FullConsistentIsSolution(after);
    }
  }
}
