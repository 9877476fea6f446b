/** The frontier: the coordinates of the empty cells of a board, in the order
    in which the solver pops them. The solver's stack keeps its top at index 0,
    so this sequence is also the stack, top first. */
module Frontier {
  import opened SudokuGrid

  /** Empty cells of row `r`, from column `c` on, left to right. */
  function EmptyInRow(g: Grid, r: int, c: int): seq<Coord>
    requires IsGrid(g) && 0 <= r < Size && 0 <= c <= Size
    decreases Size - c
  {
    if c == Size then []
    else (if g[r][c] == EmptyCell then [Coord(r, c)] else []) + EmptyInRow(g, r, c + 1)
  }

  /** Empty cells of rows `r` and below, in row-major order. */
  function EmptyFromRow(g: Grid, r: int): seq<Coord>
    requires IsGrid(g) && 0 <= r <= Size
    decreases Size - r
  {
    if r == Size then [] else EmptyInRow(g, r, 0) + EmptyFromRow(g, r + 1)
  }

  /** All empty cells of the board in row-major order. */
  function EmptyCells(g: Grid): seq<Coord>
    requires IsGrid(g)
  {
    EmptyFromRow(g, 0)
  }

  /** One step of the backward walk along row `r`: the run from column `c` on,
      followed by any `rest`, is the run from `c + 1` on followed by `rest`,
      with (r, c) pushed in front when that cell is empty. */
  lemma EmptyInRowStep(g: Grid, r: int, c: int, rest: seq<Coord>)
    requires IsGrid(g) && 0 <= r < Size && 0 <= c < Size
    ensures EmptyInRow(g, r, c) + rest ==
              if g[r][c] == EmptyCell then [Coord(r, c)] + (EmptyInRow(g, r, c + 1) + rest)
              else EmptyInRow(g, r, c + 1) + rest
  {
  }

  /** Finishing row `r` of the backward walk: its run from column 0, on top of
      the rows below, is the frontier from row `r` on. */
  lemma EmptyFromRowStep(g: Grid, r: int, walked: seq<Coord>)
    requires IsGrid(g) && 0 <= r < Size
    requires walked == EmptyInRow(g, r, 0) + EmptyFromRow(g, r + 1)
    ensures walked == EmptyFromRow(g, r)
  {
  }

  /** `p` comes strictly before `q` in row-major order. */
  predicate RowMajorBefore(p: Coord, q: Coord) {
    p.row < q.row || (p.row == q.row && p.col < q.col)
  }

  predicate StrictlyRowMajor(cells: seq<Coord>) {
    forall i, j :: 0 <= i < j < |cells| ==> RowMajorBefore(cells[i], cells[j])
  }

  /** No coordinate occurs twice. */
  predicate Distinct(cells: seq<Coord>) {
    forall i, j :: 0 <= i < j < |cells| ==> cells[i] != cells[j]
  }

  /** Concatenating two row-major runs, the first wholly before the second, gives a row-major run. */
  lemma ConcatRowMajor(a: seq<Coord>, b: seq<Coord>)
    requires StrictlyRowMajor(a) && StrictlyRowMajor(b)
    requires forall p, q :: p in a && q in b ==> RowMajorBefore(p, q)
    ensures StrictlyRowMajor(a + b)
  {
  }

  lemma {:induction false} EmptyInRowMembers(g: Grid, r: int, c: int)
    requires IsGrid(g) && 0 <= r < Size && 0 <= c <= Size
    ensures forall p :: p in EmptyInRow(g, r, c) <==> p.row == r && c <= p.col < Size && g[r][p.col] == EmptyCell
    decreases Size - c
  {
    if c < Size {
      EmptyInRowMembers(g, r, c + 1);
      var head: seq<Coord> := if g[r][c] == EmptyCell then [Coord(r, c)] else [];
      assert EmptyInRow(g, r, c) == head + EmptyInRow(g, r, c + 1);
      forall p
        ensures p in EmptyInRow(g, r, c) <==> p.row == r && c <= p.col < Size && g[r][p.col] == EmptyCell
      {
        assert p in head <==> p == Coord(r, c) && g[r][c] == EmptyCell;
      }
    }
  }

  lemma {:induction false} EmptyInRowSorted(g: Grid, r: int, c: int)
    requires IsGrid(g) && 0 <= r < Size && 0 <= c <= Size
    ensures StrictlyRowMajor(EmptyInRow(g, r, c))
    decreases Size - c
  {
    if c < Size {
      EmptyInRowSorted(g, r, c + 1);
      EmptyInRowMembers(g, r, c + 1);
      var head: seq<Coord> := if g[r][c] == EmptyCell then [Coord(r, c)] else [];
      ConcatRowMajor(head, EmptyInRow(g, r, c + 1));
    }
  }

  lemma {:induction false} EmptyFromRowMembers(g: Grid, r: int)
    requires IsGrid(g) && 0 <= r <= Size
    ensures forall p :: p in EmptyFromRow(g, r) <==> r <= p.row < Size && 0 <= p.col < Size && g[p.row][p.col] == EmptyCell
    decreases Size - r
  {
    if r < Size {
      EmptyInRowMembers(g, r, 0);
      EmptyFromRowMembers(g, r + 1);
    }
  }

  lemma {:induction false} EmptyFromRowSorted(g: Grid, r: int)
    requires IsGrid(g) && 0 <= r <= Size
    ensures StrictlyRowMajor(EmptyFromRow(g, r))
    decreases Size - r
  {
    if r < Size {
      EmptyInRowMembers(g, r, 0);
      EmptyInRowSorted(g, r, 0);
      EmptyFromRowMembers(g, r + 1);
      EmptyFromRowSorted(g, r + 1);
      ConcatRowMajor(EmptyInRow(g, r, 0), EmptyFromRow(g, r + 1));
    }
  }

  /** The frontier holds exactly the empty cells of the board, each once, in
      row-major order: the first pop yields the first empty cell of the
      top-most row, and so on. */
  lemma EmptyCellsExact(g: Grid)
    requires IsGrid(g)
    ensures forall p :: p in EmptyCells(g) <==> InGrid(p) && g[p.row][p.col] == EmptyCell
    ensures StrictlyRowMajor(EmptyCells(g))
    ensures Distinct(EmptyCells(g))
  {
    EmptyFromRowMembers(g, 0);
    EmptyFromRowSorted(g, 0);
  }

  /** An empty cell of the board is on the frontier. */
  lemma EmptyCellListed(g: Grid, p: Coord)
    requires IsGrid(g) && InGrid(p) && g[p.row][p.col] == EmptyCell
    ensures p in EmptyCells(g)
  {
    EmptyCellsExact(g);
  }

  /** Every entry of the frontier is an empty cell of the board. */
  lemma ListedCellIsEmpty(g: Grid, k: int)
    requires IsGrid(g) && 0 <= k < |EmptyCells(g)|
    ensures var p := EmptyCells(g)[k]; InGrid(p) && g[p.row][p.col] == EmptyCell
  {
    EmptyCellsExact(g);
    assert EmptyCells(g)[k] in EmptyCells(g);
  }

  /** The first coordinate popped is the row-major-first empty cell of the board. */
  lemma FirstPopIsFirstEmptyCell(g: Grid, q: Coord)
    requires IsGrid(g) && InGrid(q) && g[q.row][q.col] == EmptyCell
    ensures EmptyCells(g) != []
    ensures EmptyCells(g)[0] == q || RowMajorBefore(EmptyCells(g)[0], q)
  {
    EmptyCellsExact(g);
    var cells := EmptyCells(g);
    assert q in cells;
    var k :| 0 <= k < |cells| && cells[k] == q;
    assert k == 0 || RowMajorBefore(cells[0], cells[k]);
  }
}
