/** The placement rule: may digit `num` go into cell (row, col)? */
module Checker {
  import opened Grid

  /** `num` occurs nowhere in the row, the column or the 3x3 box of
      (row, col). The cell itself belongs to its row, so a cell that already
      holds `num` rules `num` out; any other value in the cell does not. */
  ghost predicate CanPlace(b: seq<seq<int>>, row: int, col: int, num: int)
    requires IsBoard(b) && InBounds(row) && InBounds(col)
  {
    !InRow(b, row, num) && !InCol(b, col, num) && !InBox(b, row, col, num)
  }

  /** The checker: scans the row, then the column, then the box anchored at
      (BoxStart(row), BoxStart(col)), and answers false at the first cell
      holding `num`. It reads the grid and writes nothing. */
  method IsValidMove(g: array2<int>, row: int, col: int, num: int) returns (ok: bool)
    requires IsGrid(g) && InBounds(row) && InBounds(col)
    ensures ok <==> CanPlace(Cells(g), row, col, num)
  {
    // the row
    for c := 0 to 9
      invariant forall k :: 0 <= k < c ==> g[row, k] != num
    {
      if g[row, c] == num {
        return false;
      }
    }
    // the column
    for r := 0 to 9
      invariant forall k :: 0 <= k < r ==> g[k, col] != num
    {
      if g[r, col] == num {
        return false;
      }
    }
    // the 3x3 box
    var startRow, startCol := BoxStart(row), BoxStart(col);
    for r := startRow to startRow + 3
      invariant forall i, j :: startRow <= i < r && startCol <= j < startCol + 3 ==> g[i, j] != num
    {
      for c := startCol to startCol + 3
        invariant forall j :: startCol <= j < c ==> g[r, j] != num
        invariant forall i, j :: startRow <= i < r && startCol <= j < startCol + 3 ==> g[i, j] != num
      {
        if g[r, c] == num {
          return false;
        }
      }
    }
    return true;
  }

  /** The three scans amount to the peer relation: `num` may go into
      (row, col) exactly when the cell does not already hold it and no peer
      of the cell holds it. */
  lemma CanPlaceIffNoPeerHolds(b: seq<seq<int>>, row: int, col: int, num: int)
    requires IsBoard(b) && InBounds(row) && InBounds(col)
    ensures CanPlace(b, row, col, num) <==>
      b[row][col] != num &&
      forall r, c :: 0 <= r < 9 && 0 <= c < 9 && Peers(row, col, r, c) ==> b[r][c] != num
  {
    if CanPlace(b, row, col, num) {
      forall r, c | 0 <= r < 9 && 0 <= c < 9 && Peers(row, col, r, c)
        ensures b[r][c] != num
      {
        if r == row {
          assert !InRow(b, row, num);
        } else if c == col {
          assert !InCol(b, col, num);
        } else {
          assert !InBox(b, row, col, num);
        }
      }
    }
    if b[row][col] != num &&
       forall r, c :: 0 <= r < 9 && 0 <= c < 9 && Peers(row, col, r, c) ==> b[r][c] != num
    {
      forall c | 0 <= c < 9
        ensures b[row][c] != num
      {
        if c != col {
          assert Peers(row, col, row, c);
        }
      }
      forall r | 0 <= r < 9
        ensures b[r][col] != num
      {
        if r != row {
          assert Peers(row, col, r, col);
        }
      }
      forall r, c | BoxStart(row) <= r < BoxStart(row) + 3 && BoxStart(col) <= c < BoxStart(col) + 3
        ensures b[r][c] != num
      {
        assert BoxStart(r) == BoxStart(row) && BoxStart(c) == BoxStart(col);
        if (r, c) != (row, col) {
          assert Peers(row, col, r, c);
        }
      }
    }
  }

  /** A digit the rule accepts never creates a repetition: writing it at
      (row, col) keeps a consistent grid consistent, even when the cell held
      another digit that the write replaces. */
  lemma PlacementKeepsConsistency(before: seq<seq<int>>, after: seq<seq<int>>, row: int, col: int, num: int)
    requires IsBoard(before) && IsBoard(after) && InBounds(row) && InBounds(col)
    requires CanPlace(before, row, col, num)
    requires Placement(before, after, row, col, num)
    ensures Consistent(before) ==> Consistent(after)
  {
    CanPlaceIffNoPeerHolds(before, row, col, num);
    if Consistent(before) {
      forall r, c, r2, c2 |
        0 <= r < 9 && 0 <= c < 9 && 0 <= r2 < 9 && 0 <= c2 < 9 &&
        Peers(r, c, r2, c2) && after[r][c] != 0
        ensures after[r][c] != after[r2][c2]
      {
        if (r2, c2) == (row, col) {
          assert Peers(row, col, r, c);
        }
      }
    }
  }

  /** The grid that is empty except for a 5 in its top-left cell. */
  ghost const CornerFive: seq<seq<int>> :=
    seq(9, r => seq(9, c => if r == 0 && c == 0 then 5 else 0))

  /** On CornerFive, 5 is refused in the same row, the same column and the
      same box as the corner, and accepted in the centre cell. */
  lemma CornerFiveExample()
    ensures IsBoard(CornerFive)
    ensures !CanPlace(CornerFive, 0, 1, 5)
    ensures !CanPlace(CornerFive, 1, 0, 5)
    ensures !CanPlace(CornerFive, 1, 1, 5)
    ensures CanPlace(CornerFive, 4, 4, 5)
  {
    assert CornerFive[0][0] == 5;
    assert BoxStart(1) == 0;
    assert BoxStart(4) == 3;
  }

  /** The rule does not ask whether the target cell is empty: on CornerFive,
      7 is accepted in the corner cell that already holds the 5. */
  lemma OccupiedCellAccepted()
    ensures IsBoard(CornerFive) && CornerFive[0][0] == 5
    ensures CanPlace(CornerFive, 0, 0, 7)
  {
    assert BoxStart(0) == 0;
  }
}
