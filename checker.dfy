/** The read-only legality checks: does a number already appear in a row, a
    column or a 3x3 box, and may it be placed at a cell. Each scan follows the
    source's loop, one index per recursive step. */
module ConstraintChecker {
  import opened SudokuGrid

  /** Scan of row `row` from column `i` on. */
  function RowScan(g: Grid, row: int, number: int, i: int): (found: bool)
    requires IsGrid(g) && 0 <= row < Size && 0 <= i <= Size
    ensures found <==> exists j :: i <= j < Size && g[row][j] == number
    decreases Size - i
  {
    if i == Size then false
    else g[row][i] == number || RowScan(g, row, number, i + 1)
  }

  /** Scan of column `col` from row `i` on. */
  function ColScan(g: Grid, col: int, number: int, i: int): (found: bool)
    requires IsGrid(g) && 0 <= col < Size && 0 <= i <= Size
    ensures found <==> exists j :: i <= j < Size && g[j][col] == number
    decreases Size - i
  {
    if i == Size then false
    else g[i][col] == number || ColScan(g, col, number, i + 1)
  }

  /** Inner loop of the box scan: row `i` of the box, columns `j` up to `c + 3`. */
  function BoxRowScan(g: Grid, i: int, c: int, number: int, j: int): (found: bool)
    requires IsGrid(g) && 0 <= i < Size && 0 <= c && c + BoxSize <= Size && c <= j <= c + BoxSize
    ensures found <==> exists k :: j <= k < c + BoxSize && g[i][k] == number
    decreases c + BoxSize - j
  {
    if j == c + BoxSize then false
    else g[i][j] == number || BoxRowScan(g, i, c, number, j + 1)
  }

  /** Outer loop of the box scan: rows `i` up to `r + 3` of the box with corner (r, c). */
  function BoxScan(g: Grid, r: int, c: int, number: int, i: int): (found: bool)
    requires IsGrid(g) && 0 <= r && r + BoxSize <= Size && 0 <= c && c + BoxSize <= Size
    requires r <= i <= r + BoxSize
    ensures found <==> exists k, l :: i <= k < r + BoxSize && c <= l < c + BoxSize && g[k][l] == number
    decreases r + BoxSize - i
  {
    if i == r + BoxSize then false
    else BoxRowScan(g, i, c, number, c) || BoxScan(g, r, c, number, i + 1)
  }

  /** `number` appears somewhere in row `rowIndex`. */
  function NumberInRow(g: Grid, rowIndex: int, number: int): (found: bool)
    requires IsGrid(g) && 0 <= rowIndex < Size
    ensures found <==> exists c :: 0 <= c < Size && g[rowIndex][c] == number
  {
    RowScan(g, rowIndex, number, 0)
  }

  /** `number` appears somewhere in column `colIndex`. */
  function NumberInCol(g: Grid, colIndex: int, number: int): (found: bool)
    requires IsGrid(g) && 0 <= colIndex < Size
    ensures found <==> exists r :: 0 <= r < Size && g[r][colIndex] == number
  {
    ColScan(g, colIndex, number, 0)
  }

  /** The top-left corner `x - x % 3` of the box of `x` bounds exactly the indices in that box. */
  lemma BoxCorner(x: int, y: int)
    requires 0 <= x < Size && 0 <= y < Size
    ensures x - x % BoxSize + BoxSize <= Size
    ensures x - x % BoxSize <= y < x - x % BoxSize + BoxSize <==> y / BoxSize == x / BoxSize
  {
  }

  /** `number` appears somewhere in the 3x3 box holding (row, col). The box's
      corner is found as `row - row % 3`, `col - col % 3`. */
  function NumberIn3By3Box(g: Grid, row: int, col: int, number: int): (found: bool)
    requires IsGrid(g) && 0 <= row < Size && 0 <= col < Size
    ensures found <==> exists i, j :: 0 <= i < Size && 0 <= j < Size && SameBox(row, col, i, j) && g[i][j] == number
  {
    var r := row - row % BoxSize;
    var c := col - col % BoxSize;
    BoxCorner(row, 0);
    BoxCorner(col, 0);
    var found := BoxScan(g, r, c, number, r);
    assert found ==> exists i, j :: 0 <= i < Size && 0 <= j < Size && SameBox(row, col, i, j) && g[i][j] == number by {
      if found {
        var i, j :| r <= i < r + BoxSize && c <= j < c + BoxSize && g[i][j] == number;
        BoxCorner(row, i);
        BoxCorner(col, j);
      }
    }
    assert (exists i, j :: 0 <= i < Size && 0 <= j < Size && SameBox(row, col, i, j) && g[i][j] == number) ==> found by {
      if i, j :| 0 <= i < Size && 0 <= j < Size && SameBox(row, col, i, j) && g[i][j] == number {
        BoxCorner(row, i);
        BoxCorner(col, j);
      }
    }
    found
  }

  /** `number` may be placed at (rowIndex, colIndex): no cell sharing a row,
      a column or a box with it holds `number` (the cell itself included). */
  function IsNumberAllowed(g: Grid, rowIndex: int, colIndex: int, number: int): (allowed: bool)
    requires IsGrid(g) && 0 <= rowIndex < Size && 0 <= colIndex < Size
    ensures allowed <==> forall i, j :: 0 <= i < Size && 0 <= j < Size && SharesUnit(rowIndex, colIndex, i, j) ==> g[i][j] != number
  {
    !(NumberInRow(g, rowIndex, number) ||
      NumberInCol(g, colIndex, number) ||
      NumberIn3By3Box(g, rowIndex, colIndex, number))
  }

  /** Placing an allowed digit into an empty cell keeps the board free of conflicts. */
  lemma PlacementKeepsNoConflicts(g: Grid, row: int, col: int, number: int)
    requires NoConflicts(g) && 0 <= row < Size && 0 <= col < Size
    requires g[row][col] == EmptyCell && number != EmptyCell
    requires IsNumberAllowed(g, row, col, number)
    ensures NoConflicts(Place(g, row, col, number))
  {
    var h := Place(g, row, col, number);
    forall r1, c1, r2, c2
      ensures !Clash(h, r1, c1, r2, c2)
    {
      if r2 == row && c2 == col {
        assert SharesUnit(r1, c1, r2, c2) ==> SharesUnit(row, col, r1, c1);
      } else if r1 != row || c1 != col {
        assert !Clash(g, r1, c1, r2, c2);
      }
    }
  }

  /** Whatever a completion puts into an empty cell is a number the checker allows there:
      the search, which tries every allowed digit, never skips a completion. */
  lemma SolutionDigitIsAllowed(s: Grid, g: Grid, row: int, col: int)
    requires Solution(s, g) && 0 <= row < Size && 0 <= col < Size
    requires g[row][col] == EmptyCell
    ensures IsNumberAllowed(g, row, col, s[row][col])
  {
    forall i, j | 0 <= i < Size && 0 <= j < Size && SharesUnit(row, col, i, j)
      ensures g[i][j] != s[row][col]
    {
      if g[i][j] != EmptyCell && (i != row || j != col) {
        assert s[i][j] == g[i][j];
        assert SharesUnit(i, j, row, col);
        assert !Clash(s, i, j, row, col);
      }
    }
  }
}
