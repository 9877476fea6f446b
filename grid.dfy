/** The 9x9 board as a value, and what it means for a board to be a solution.
    The solver works on a mutable 2-D array; every contract talks about
    the value of that array, a `Grid`. */
module SudokuGrid {

  /** Number of rows and of columns, and the largest digit. */
  const Size: int := 9
  /** Side of one of the nine boxes. */
  const BoxSize: int := 3
  /** The sentinel of a cell that holds no digit. */
  const EmptyCell: int := 0

  type Grid = seq<seq<int>>

  /** A coordinate (row, column); the solver's stack holds these. */
  datatype Coord = Coord(row: int, col: int)

  predicate IsGrid(g: Grid) {
    |g| == Size && forall r :: 0 <= r < Size ==> |g[r]| == Size
  }

  predicate InGrid(p: Coord) {
    0 <= p.row < Size && 0 <= p.col < Size
  }

  /** Cell `p` of `g` holds no digit. */
  predicate EmptyAt(g: Grid, p: Coord) {
    IsGrid(g) && InGrid(p) && g[p.row][p.col] == EmptyCell
  }

  /** The value held by a mutable 2-D array. */
  function Snapshot(a: array2<int>): (g: Grid)
    reads a
    ensures |g| == a.Length0
    ensures forall r :: 0 <= r < a.Length0 ==> |g[r]| == a.Length1
    ensures forall r, c :: 0 <= r < a.Length0 && 0 <= c < a.Length1 ==> g[r][c] == a[r, c]
  {
    seq(a.Length0, r requires 0 <= r < a.Length0 reads a =>
      seq(a.Length1, c requires 0 <= c < a.Length1 reads a => a[r, c]))
  }

  /** The grid with cell (row, col) set to `v`; the one mutation the solver performs. */
  function Place(g: Grid, row: int, col: int, v: int): (h: Grid)
    requires IsGrid(g) && 0 <= row < Size && 0 <= col < Size
    ensures IsGrid(h)
    ensures forall r, c :: 0 <= r < Size && 0 <= c < Size ==>
              h[r][c] == if r == row && c == col then v else g[r][c]
  {
    g[row := g[row][col := v]]
  }

  /** Two grids are equal when they hold the same value in every cell. */
  lemma GridExtensionality(g: Grid, h: Grid)
    requires IsGrid(g) && IsGrid(h)
    requires forall r, c :: 0 <= r < Size && 0 <= c < Size ==> g[r][c] == h[r][c]
    ensures g == h
  {
    forall r | 0 <= r < Size
      ensures g[r] == h[r]
    {
      assert forall c :: 0 <= c < Size ==> g[r][c] == h[r][c];
    }
  }

  /** Cells (r1, c1) and (r2, c2) lie in the same 3x3 box. */
  predicate SameBox(r1: int, c1: int, r2: int, c2: int) {
    r1 / BoxSize == r2 / BoxSize && c1 / BoxSize == c2 / BoxSize
  }

  /** Cells (r1, c1) and (r2, c2) share a row, a column or a box. */
  predicate SharesUnit(r1: int, c1: int, r2: int, c2: int) {
    r1 == r2 || c1 == c2 || SameBox(r1, c1, r2, c2)
  }

  /** Distinct cells (r1, c1) and (r2, c2) share a row, column or box and
      hold the same non-empty value. */
  predicate Clash(g: Grid, r1: int, c1: int, r2: int, c2: int) {
    IsGrid(g) &&
    0 <= r1 < Size && 0 <= c1 < Size && 0 <= r2 < Size && 0 <= c2 < Size &&
    (r1 != r2 || c1 != c2) && SharesUnit(r1, c1, r2, c2) &&
    g[r1][c1] != EmptyCell && g[r1][c1] == g[r2][c2]
  }

  /** No two distinct cells sharing a row, column or box hold the same non-empty value. */
  ghost predicate NoConflicts(g: Grid) {
    IsGrid(g) && forall r1, c1, r2, c2 :: !Clash(g, r1, c1, r2, c2)
  }

  /** `s` keeps every given (non-empty) cell of `g` and puts a digit 1..9 in every empty one. */
  ghost predicate Extends(s: Grid, g: Grid) {
    IsGrid(s) && IsGrid(g) &&
    forall r, c :: 0 <= r < Size && 0 <= c < Size ==>
      if g[r][c] == EmptyCell then 1 <= s[r][c] <= Size else s[r][c] == g[r][c]
  }

  /** `s` is a completion of the puzzle `g`: it extends `g` and breaks no rule. */
  ghost predicate Solution(s: Grid, g: Grid) {
    Extends(s, g) && NoConflicts(s)
  }

  /** Every cell holds 0 (empty) or a digit 1..9: the puzzle is a normal Sudoku. */
  predicate IsPuzzle(g: Grid) {
    IsGrid(g) && forall r, c :: 0 <= r < Size && 0 <= c < Size ==> 0 <= g[r][c] <= Size
  }

  /** A finished board: every cell holds a digit 1..9 and no row and no column
      holds a digit twice. */
  predicate IsComplete(s: Grid) {
    IsGrid(s) &&
    (forall r, c :: 0 <= r < Size && 0 <= c < Size ==> 1 <= s[r][c] <= Size) &&
    (forall r, c1, c2 :: 0 <= r < Size && 0 <= c1 < c2 < Size ==> s[r][c1] != s[r][c2]) &&
    (forall c, r1, r2 :: 0 <= c < Size && 0 <= r1 < r2 < Size ==> s[r1][c] != s[r2][c])
  }

  /** A completion of a normal puzzle is a finished board. */
  lemma SolutionIsComplete(s: Grid, g: Grid)
    requires IsPuzzle(g) && Solution(s, g)
    ensures IsComplete(s)
  {
    forall r, c | 0 <= r < Size && 0 <= c < Size
      ensures 1 <= s[r][c] <= Size
    {
    }
    forall r, c1, c2 | 0 <= r < Size && 0 <= c1 < c2 < Size
      ensures s[r][c1] != s[r][c2]
    {
      assert !Clash(s, r, c1, r, c2);
    }
    forall c, r1, r2 | 0 <= c < Size && 0 <= r1 < r2 < Size
      ensures s[r1][c] != s[r2][c]
    {
      assert !Clash(s, r1, c, r2, c);
    }
  }
}
