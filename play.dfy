/** The one step of the interactive game that changes the puzzle: committing
    a move typed as three 1-based numbers "row col num". */
module Play {
  import opened Grid
  import opened Checker

  /** What the game answers to a move: the puzzle was updated, the rule
      refused the digit, or a number was outside 1..9. */
  datatype MoveOutcome = Updated | InvalidMove | OutOfRange

  /** Writes `num` at the 0-based cell (row - 1, col - 1) when row, col and
      num all lie in 1..9 and the rule accepts `num` there. The target cell
      need not be empty: an accepted digit replaces whatever the cell held. */
  method ApplyMove(g: array2<int>, row: int, col: int, num: int) returns (outcome: MoveOutcome)
    requires IsGrid(g)
    modifies g
    ensures outcome == OutOfRange <==> !(1 <= row <= 9 && 1 <= col <= 9 && 1 <= num <= 9)
    ensures outcome == InvalidMove <==>
      1 <= row <= 9 && 1 <= col <= 9 && 1 <= num <= 9 && !CanPlace(old(Cells(g)), row - 1, col - 1, num)
    ensures outcome == Updated ==> Placement(old(Cells(g)), Cells(g), row - 1, col - 1, num)
    ensures outcome != Updated ==> Cells(g) == old(Cells(g))
    ensures old(Consistent(Cells(g))) ==> Consistent(Cells(g))
  {
    if 1 <= row <= 9 && 1 <= col <= 9 && 1 <= num <= 9 {
      var r, c := row - 1, col - 1;
      var ok := IsValidMove(g, r, c, num);
      if ok {
        ghost var before := Cells(g);
        g[r, c] := num;
        PlacementKeepsConsistency(before, Cells(g), r, c, num);
        outcome := Updated;
      } else {
        outcome := InvalidMove;
      }
    } else {
      outcome := OutOfRange;
    }
  }
}
