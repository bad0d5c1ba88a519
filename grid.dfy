/** The 9x9 Sudoku grid: its shape, the 3x3 boxes, the peer relation between
    cells, and what a consistent and a completed grid are.

    The grid is a list of nine lists of nine integers that the solver and the
    game change in place; here it is an `array2<int>`. Zero means "empty".
    Nothing in the program checks that the other cells hold 1..9, so cells
    are unbounded integers and the predicates below say where that matters.
    The predicates are stated over a snapshot of the cells (`Cells`), a
    `seq<seq<int>>`, so that a state before and a state after can be compared
    as two values. */
module Grid {

  /** The grid has the fixed shape 9x9. */
  predicate IsGrid(g: array2<int>) {
    g.Length0 == 9 && g.Length1 == 9
  }

  /** A snapshot of a grid's cells: nine rows of nine integers. */
  predicate IsBoard(b: seq<seq<int>>) {
    |b| == 9 && forall r :: 0 <= r < 9 ==> |b[r]| == 9
  }

  /** The snapshot of the cells of `g`, row by row. */
  ghost function Cells(g: array2<int>): (b: seq<seq<int>>)
    requires IsGrid(g)
    reads g
    ensures IsBoard(b)
    ensures forall r, c :: 0 <= r < 9 && 0 <= c < 9 ==> b[r][c] == g[r, c]
  {
    seq(9, r requires 0 <= r < 9 reads g => seq(9, c requires 0 <= c < 9 reads g => g[r, c]))
  }

  /** Two snapshots with the same cells are the same snapshot. */
  lemma SameCells(a: seq<seq<int>>, b: seq<seq<int>>)
    requires IsBoard(a) && IsBoard(b)
    requires forall r, c :: 0 <= r < 9 && 0 <= c < 9 ==> a[r][c] == b[r][c]
    ensures a == b
  {
    forall r | 0 <= r < 9
      ensures a[r] == b[r]
    {
      assert forall c :: 0 <= c < 9 ==> a[r][c] == b[r][c];
    }
  }

  /** `after` is `before` with `num` written at (row, col). */
  ghost predicate Placement(before: seq<seq<int>>, after: seq<seq<int>>, row: int, col: int, num: int)
    requires IsBoard(before) && IsBoard(after)
  {
    && InBounds(row) && InBounds(col) && after[row][col] == num
    && forall r, c :: 0 <= r < 9 && 0 <= c < 9 && (r, c) != (row, col) ==> after[r][c] == before[r][c]
  }

  /** A row or column index. */
  predicate InBounds(i: int) {
    0 <= i < 9
  }

  /** Top-left row (or column) of the 3x3 box holding row (or column) `i`:
      one of 0, 3, 6, and the box's three lines `s`, `s+1`, `s+2` include `i`. */
  function BoxStart(i: int): (s: int)
    requires InBounds(i)
    ensures s == 0 || s == 3 || s == 6
    ensures s <= i <= s + 2
  {
    3 * (i / 3)
  }

  /** Two cells lie in the same 3x3 box. */
  predicate SameBox(r: int, c: int, r2: int, c2: int)
    requires InBounds(r) && InBounds(c) && InBounds(r2) && InBounds(c2)
  {
    BoxStart(r) == BoxStart(r2) && BoxStart(c) == BoxStart(c2)
  }

  /** Two distinct cells that share a row, a column or a box. */
  predicate Peers(r: int, c: int, r2: int, c2: int)
    requires InBounds(r) && InBounds(c) && InBounds(r2) && InBounds(c2)
  {
    (r, c) != (r2, c2) && (r == r2 || c == c2 || SameBox(r, c, r2, c2))
  }

  /** No digit is repeated among the filled cells of a row, column or box. */
  ghost predicate Consistent(b: seq<seq<int>>)
    requires IsBoard(b)
  {
    forall r, c, r2, c2 ::
      (0 <= r < 9 && 0 <= c < 9 && 0 <= r2 < 9 && 0 <= c2 < 9 &&
       Peers(r, c, r2, c2) && b[r][c] != 0) ==> b[r][c] != b[r2][c2]
  }

  /** Every cell is 0 (empty) or a digit 1..9. */
  ghost predicate WellFormed(b: seq<seq<int>>)
    requires IsBoard(b)
  {
    forall r, c :: 0 <= r < 9 && 0 <= c < 9 ==> 0 <= b[r][c] <= 9
  }

  /** No cell is empty. */
  ghost predicate NoZeros(b: seq<seq<int>>)
    requires IsBoard(b)
  {
    forall r, c :: 0 <= r < 9 && 0 <= c < 9 ==> b[r][c] != 0
  }

  /** The set of empty cells; the solver's recursion shrinks it. */
  ghost function ZeroCells(b: seq<seq<int>>): set<(int, int)>
    requires IsBoard(b)
  {
    set r, c | 0 <= r < 9 && 0 <= c < 9 && b[r][c] == 0 :: (r, c)
  }

  /** `num` occurs in row `row`. */
  ghost predicate InRow(b: seq<seq<int>>, row: int, num: int)
    requires IsBoard(b) && InBounds(row)
  {
    exists c :: 0 <= c < 9 && b[row][c] == num
  }

  /** `num` occurs in column `col`. */
  ghost predicate InCol(b: seq<seq<int>>, col: int, num: int)
    requires IsBoard(b) && InBounds(col)
  {
    exists r :: 0 <= r < 9 && b[r][col] == num
  }

  /** `num` occurs in the 3x3 box that holds cell (row, col). */
  ghost predicate InBox(b: seq<seq<int>>, row: int, col: int, num: int)
    requires IsBoard(b) && InBounds(row) && InBounds(col)
  {
    exists r, c :: BoxStart(row) <= r < BoxStart(row) + 3 &&
                   BoxStart(col) <= c < BoxStart(col) + 3 && b[r][c] == num
  }

  /** A finished Sudoku: every row, every column and every box holds each
      digit 1..9 exactly once. */
  ghost predicate IsSolution(b: seq<seq<int>>)
    requires IsBoard(b)
  {
    && (forall r, c :: 0 <= r < 9 && 0 <= c < 9 ==> 1 <= b[r][c] <= 9)
    && Consistent(b)
    && (forall r, d :: 0 <= r < 9 && 1 <= d <= 9 ==> InRow(b, r, d))
    && (forall c, d :: 0 <= c < 9 && 1 <= d <= 9 ==> InCol(b, c, d))
    && (forall r, c, d :: 0 <= r < 9 && 0 <= c < 9 && 1 <= d <= 9 ==> InBox(b, r, c, d))
  }

  /** The digits 1..9. */
  const Digits: set<int> := {1, 2, 3, 4, 5, 6, 7, 8, 9}

  /** A sequence without repetitions has as many distinct elements as entries. */
  lemma {:induction false} DistinctElementsCard(s: seq<int>)
    requires forall i, j :: 0 <= i < j < |s| ==> s[i] != s[j]
    ensures |set x | x in s| == |s|
  {
    if s != [] {
      var t := s[..|s| - 1];
      DistinctElementsCard(t);
      assert (set x | x in s) == (set x | x in t) + {s[|s| - 1]};
      assert s[|s| - 1] !in (set x | x in t);
    }
  }

  /** A subset as large as its (finite) superset is the superset itself. */
  lemma SubsetSameCard(a: set<int>, b: set<int>)
    requires a <= b && |a| == |b|
    ensures a == b
  {
    assert b == a + (b - a);
    assert a * (b - a) == {};
    assert |b - a| == 0;
  }

  /** Pigeonhole: nine distinct digits from 1..9 are all nine of them. */
  lemma NineDistinctDigits(s: seq<int>)
    requires |s| == 9
    requires forall i :: 0 <= i < 9 ==> 1 <= s[i] <= 9
    requires forall i, j :: 0 <= i < j < 9 ==> s[i] != s[j]
    ensures forall d :: 1 <= d <= 9 ==> d in s
  {
    DistinctElementsCard(s);
    var seen := set x | x in s;
    assert seen <= Digits;
    assert |Digits| == 9;
    SubsetSameCard(seen, Digits);
  }

  /** A consistent grid whose every cell holds a digit 1..9 is a finished
      Sudoku: each row, column and box then holds every digit. */
  lemma FullConsistentIsSolution(b: seq<seq<int>>)
    requires IsBoard(b) && Consistent(b)
    requires forall r, c :: 0 <= r < 9 && 0 <= c < 9 ==> 1 <= b[r][c] <= 9
    ensures IsSolution(b)
  {
    forall r, d | InBounds(r) && 1 <= d <= 9
      ensures InRow(b, r, d)
    {
      var s := seq(9, i requires 0 <= i < 9 => b[r][i]);
      NineDistinctDigits(s);
      assert d in s;
      var i :| 0 <= i < 9 && s[i] == d;
      assert b[r][i] == d;
    }
    forall c, d | InBounds(c) && 1 <= d <= 9
      ensures InCol(b, c, d)
    {
      var s := seq(9, i requires 0 <= i < 9 => b[i][c]);
      NineDistinctDigits(s);
      assert d in s;
      var i :| 0 <= i < 9 && s[i] == d;
      assert b[i][c] == d;
    }
    forall r, c, d | InBounds(r) && InBounds(c) && 1 <= d <= 9
      ensures InBox(b, r, c, d)
    {
      BoxHoldsAll(b, BoxStart(r), BoxStart(c), d);
      BoxLine(BoxStart(r), 0);
      BoxLine(BoxStart(c), 0);
    }
  }

  /** The nine cells of the box whose top-left cell is (br, bc), row by row. */
  ghost function BoxValues(b: seq<seq<int>>, br: int, bc: int): (s: seq<int>)
    requires IsBoard(b)
    requires br == 0 || br == 3 || br == 6
    requires bc == 0 || bc == 3 || bc == 6
    ensures |s| == 9
    ensures forall i :: 0 <= i < 9 ==> s[i] == b[br + Div3(i)][bc + Mod3(i)]
  {
    seq(9, i requires 0 <= i < 9 => b[br + Div3(i)][bc + Mod3(i)])
  }

  /** Helper for the box case of FullConsistentIsSolution. */
  lemma BoxHoldsAll(b: seq<seq<int>>, br: int, bc: int, d: int)
    requires IsBoard(b) && Consistent(b)
    requires forall r, c :: 0 <= r < 9 && 0 <= c < 9 ==> 1 <= b[r][c] <= 9
    requires br == 0 || br == 3 || br == 6
    requires bc == 0 || bc == 3 || bc == 6
    requires 1 <= d <= 9
    ensures InBox(b, br, bc, d)
  {
    var s := BoxValues(b, br, bc);
    BoxValuesAreDistinctDigits(b, br, bc);
    NineDistinctDigits(s);
    assert d in s;
    var i :| 0 <= i < 9 && s[i] == d;
    BoxWitness(b, br, bc, d, i);
  }

  /** In a consistent grid with no empty cell, a box lists nine distinct digits. */
  lemma BoxValuesAreDistinctDigits(b: seq<seq<int>>, br: int, bc: int)
    requires IsBoard(b) && Consistent(b)
    requires forall r, c :: 0 <= r < 9 && 0 <= c < 9 ==> 1 <= b[r][c] <= 9
    requires br == 0 || br == 3 || br == 6
    requires bc == 0 || bc == 3 || bc == 6
    ensures forall i :: 0 <= i < 9 ==> 1 <= BoxValues(b, br, bc)[i] <= 9
    ensures forall i, j :: 0 <= i < j < 9 ==> BoxValues(b, br, bc)[i] != BoxValues(b, br, bc)[j]
  {
    var s := BoxValues(b, br, bc);
    forall i, j | 0 <= i < j < 9
      ensures s[i] != s[j]
    {
      BoxCellsDiffer(b, br, bc, i, j);
    }
  }

  /** The `i`-th cell of the box at (br, bc) holding `d` puts `d` in that box. */
  lemma BoxWitness(b: seq<seq<int>>, br: int, bc: int, d: int, i: int)
    requires IsBoard(b)
    requires br == 0 || br == 3 || br == 6
    requires bc == 0 || bc == 3 || bc == 6
    requires 0 <= i < 9 && b[br + Div3(i)][bc + Mod3(i)] == d
    ensures InBox(b, br, bc, d)
  {
    BoxLine(br, Div3(i));
    BoxLine(bc, Mod3(i));
    BoxLine(br, 0);
    BoxLine(bc, 0);
  }

  /** Two different cells of one box hold different digits. */
  lemma BoxCellsDiffer(b: seq<seq<int>>, br: int, bc: int, i: int, j: int)
    requires IsBoard(b) && Consistent(b)
    requires br == 0 || br == 3 || br == 6
    requires bc == 0 || bc == 3 || bc == 6
    requires 0 <= i < j < 9
    requires b[br + Div3(i)][bc + Mod3(i)] != 0
    ensures b[br + Div3(i)][bc + Mod3(i)] != b[br + Div3(j)][bc + Mod3(j)]
  {
    var r, c, r2, c2 := br + Div3(i), bc + Mod3(i), br + Div3(j), bc + Mod3(j);
    BoxLine(br, Div3(i));
    BoxLine(br, Div3(j));
    BoxLine(bc, Mod3(i));
    BoxLine(bc, Mod3(j));
    assert (r, c) != (r2, c2);
    assert SameBox(r, c, r2, c2);
    assert Peers(r, c, r2, c2);
  }

  /** Row offset of the `i`-th cell of a box listed row by row. */
  function Div3(i: int): (k: int)
    requires 0 <= i < 9
    ensures 0 <= k < 3
  {
    i / 3
  }

  /** Column offset of the `i`-th cell of a box listed row by row; together
      with Div3 it tells the nine cells apart. */
  function Mod3(i: int): (k: int)
    requires 0 <= i < 9
    ensures 0 <= k < 3
    ensures i == 3 * Div3(i) + k
  {
    i % 3
  }

  /** Every line of the box starting at `s` has `s` as its box start. */
  lemma BoxLine(s: int, k: int)
    requires s == 0 || s == 3 || s == 6
    requires 0 <= k < 3
    ensures InBounds(s + k) && BoxStart(s + k) == s
  {
  }
}
