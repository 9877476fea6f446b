/** The backtracking engine. One `SudokuSolver` object holds the state of one
    call: the working copy of the board and the stack of cells still to fill. */
module Solver {
  import opened SudokuGrid
  import opened ConstraintChecker
  import opened Frontier

  /** The result of a solve: `None` stands for the source's `null` ("no solution"). */
  datatype Option<T> = None | Some(value: T)

  /** The stack holds exactly the empty cells of `g`, each once. This is the
      solver's invariant between steps: a cell popped is filled before the
      search goes deeper, and emptied again before it is pushed back. */
  ghost predicate FrontierMatches(g: Grid, stack: seq<Coord>) {
    IsGrid(g) && Distinct(stack) &&
    (forall k :: 0 <= k < |stack| ==> EmptyAt(g, stack[k])) &&
    (forall p :: EmptyAt(g, p) ==> p in stack)
  }

  /** `s` is lexicographically at most `t`, comparing the cells of `cells` in order. */
  ghost predicate LexLeq(s: Grid, t: Grid, cells: seq<Coord>) {
    cells == [] ||
    (IsGrid(s) && IsGrid(t) && InGrid(cells[0]) &&
     var p := cells[0];
     (s[p.row][p.col] < t[p.row][p.col] ||
      (s[p.row][p.col] == t[p.row][p.col] && LexLeq(s, t, cells[1..]))))
  }

  /** Two grids that are each lexicographically at most the other agree on every listed cell. */
  lemma {:induction false} LexLeqAntisymmetric(s: Grid, t: Grid, cells: seq<Coord>)
    requires IsGrid(s) && IsGrid(t)
    requires forall k :: 0 <= k < |cells| ==> InGrid(cells[k])
    requires LexLeq(s, t, cells) && LexLeq(t, s, cells)
    ensures forall k :: 0 <= k < |cells| && InGrid(cells[k]) ==> s[cells[k].row][cells[k].col] == t[cells[k].row][cells[k].col]
  {
    if cells != [] {
      LexLeqAntisymmetric(s, t, cells[1..]);
      forall k | 0 <= k < |cells|
        ensures s[cells[k].row][cells[k].col] == t[cells[k].row][cells[k].col]
      {
        if k > 0 {
          assert cells[k] == cells[1..][k - 1];
        }
      }
    }
  }

  /** The search's result is determined by the puzzle alone: two completions
      of `g` that are each the least in the order in which the stack lists
      the empty cells are the same board. */
  lemma LeastSolutionIsUnique(g: Grid, cells: seq<Coord>, s: Grid, t: Grid)
    requires FrontierMatches(g, cells)
    requires Solution(s, g) && Solution(t, g)
    requires LexLeq(s, t, cells) && LexLeq(t, s, cells)
    ensures s == t
  {
    LexLeqAntisymmetric(s, t, cells);
    forall r, c | 0 <= r < Size && 0 <= c < Size
      ensures s[r][c] == t[r][c]
    {
      if EmptyAt(g, Coord(r, c)) {
        var k :| 0 <= k < |cells| && cells[k] == Coord(r, c);
      }
    }
    GridExtensionality(s, t);
  }

  /** The frontier built from a board matches that board. */
  lemma InitialFrontier(g: Grid)
    requires IsGrid(g)
    ensures FrontierMatches(g, EmptyCells(g))
  {
    var cells := EmptyCells(g);
    EmptyCellsExact(g);
    forall k | 0 <= k < |cells|
      ensures EmptyAt(g, cells[k])
    {
      ListedCellIsEmpty(g, k);
    }
    forall p | EmptyAt(g, p)
      ensures p in cells
    {
      EmptyCellListed(g, p);
    }
  }

  /** Filling the popped cell with a digit leaves the rest of the stack matching the board. */
  lemma PlaceKeepsFrontier(g: Grid, stack: seq<Coord>, number: int)
    requires FrontierMatches(g, stack) && stack != []
    requires number != EmptyCell
    ensures FrontierMatches(Place(g, stack[0].row, stack[0].col, number), stack[1..])
  {
    var p := stack[0];
    var h := Place(g, p.row, p.col, number);
    forall k | 0 <= k < |stack[1..]|
      ensures EmptyAt(h, stack[1..][k])
    {
      assert stack[1..][k] == stack[k + 1] != stack[0];
      assert EmptyAt(g, stack[k + 1]);
    }
    forall q | EmptyAt(h, q)
      ensures q in stack[1..]
    {
      assert EmptyAt(g, q);
      var k :| 0 <= k < |stack| && stack[k] == q;
      assert k != 0;
      assert stack[1..][k - 1] == q;
    }
  }

  /** A completion of `g` that puts `number` at the empty cell (row, col) is a
      completion of `g` with `number` placed there, and conversely. */
  lemma SolutionOfPlaced(s: Grid, g: Grid, row: int, col: int, number: int)
    requires IsGrid(g) && 0 <= row < Size && 0 <= col < Size
    requires g[row][col] == EmptyCell && 1 <= number <= Size
    ensures Solution(s, g) && s[row][col] == number <==> Solution(s, Place(g, row, col, number))
  {
  }

  /** The value of an array that differs from `g` only in cell (row, col), where it holds `v`. */
  lemma SnapshotAfterWrite(a: array2<int>, g: Grid, row: int, col: int, v: int)
    requires a.Length0 == Size && a.Length1 == Size && IsGrid(g)
    requires 0 <= row < Size && 0 <= col < Size && a[row, col] == v
    requires forall r, c :: 0 <= r < Size && 0 <= c < Size && (r != row || c != col) ==> a[r, c] == g[r][c]
    ensures Snapshot(a) == Place(g, row, col, v)
  {
    GridExtensionality(Snapshot(a), Place(g, row, col, v));
  }

  /** Emptying again a cell that was empty before a placement restores the board. */
  lemma PlaceUndone(g: Grid, row: int, col: int, v: int)
    requires IsGrid(g) && 0 <= row < Size && 0 <= col < Size
    ensures Place(Place(g, row, col, v), row, col, g[row][col]) == g
  {
    GridExtensionality(Place(Place(g, row, col, v), row, col, g[row][col]), g);
  }

  /** An empty frontier means a full board, which is its own (only) completion. */
  lemma EmptyFrontierIsSolved(g: Grid)
    requires FrontierMatches(g, []) && NoConflicts(g)
    ensures Solution(g, g)
    ensures forall t :: Solution(t, g) ==> t == g
  {
    forall r, c | 0 <= r < Size && 0 <= c < Size
      ensures g[r][c] != EmptyCell
    {
      assert !EmptyAt(g, Coord(r, c));
    }
    forall t | Solution(t, g)
      ensures t == g
    {
      GridExtensionality(t, g);
    }
  }

  /** Digit `number` at the top cell `p` leads to no completion, either because
      the checker rejects it or because the deeper search found none: every
      completion then puts a larger digit at `p`. */
  lemma DigitRuledOut(g: Grid, p: Coord, number: int)
    requires IsGrid(g) && InGrid(p) && g[p.row][p.col] == EmptyCell && 1 <= number <= Size
    requires forall t :: Solution(t, g) ==> number <= t[p.row][p.col]
    requires !IsNumberAllowed(g, p.row, p.col, number) ||
             forall t :: !Solution(t, Place(g, p.row, p.col, number))
    ensures forall t :: Solution(t, g) ==> number + 1 <= t[p.row][p.col]
  {
    forall t | Solution(t, g)
      ensures number + 1 <= t[p.row][p.col]
    {
      SolutionDigitIsAllowed(t, g, p.row, p.col);
      SolutionOfPlaced(t, g, p.row, p.col, number);
    }
  }

  /** When every digit 1..9 is ruled out at an empty cell, the board has no completion. */
  lemma AllDigitsRuledOut(g: Grid, p: Coord)
    requires IsGrid(g) && InGrid(p) && g[p.row][p.col] == EmptyCell
    requires forall t :: Solution(t, g) ==> Size + 1 <= t[p.row][p.col]
    ensures forall t :: !Solution(t, g)
  {
  }

  /** The least completion after placing `number` at the top cell `p`, when no
      completion puts a smaller digit there, is the least completion of `g`. */
  lemma PlacementSucceeded(g: Grid, stack: seq<Coord>, number: int, s: Grid)
    requires FrontierMatches(g, stack) && stack != [] && 1 <= number <= Size
    requires forall t :: Solution(t, g) ==> number <= t[stack[0].row][stack[0].col]
    requires Solution(s, Place(g, stack[0].row, stack[0].col, number))
    requires forall t :: Solution(t, Place(g, stack[0].row, stack[0].col, number)) ==> LexLeq(s, t, stack[1..])
    ensures Solution(s, g)
    ensures forall t :: Solution(t, g) ==> LexLeq(s, t, stack)
  {
  }

  class SudokuSolver {
    /** The working copy of the caller's board; the only board the search writes. */
    var grid: array2<int>
    /** Cells still to fill, top of the stack first. */
    var stack: seq<Coord>

    /** The current value of the working board. */
    function Cells(): Grid
      reads this`grid, grid
    {
      Snapshot(grid)
    }

    /** The state the search may start or resume from: a 9x9 board without
        conflicts whose stack is its frontier. It is established by the
        frontier builder on a conflict-free board, not by the constructor. */
    ghost predicate ReadyToSearch()
      reads this`grid, this`stack, grid
    {
      grid.Length0 == Size && grid.Length1 == Size &&
      FrontierMatches(Cells(), stack) && NoConflicts(Cells())
    }

    /** Deep copy of the caller's board, row by row and cell by cell; the copy
        is a fresh array, so writes to it never reach `original`. */
    constructor (original: array2<int>)
      ensures fresh(grid)
      ensures grid.Length0 == original.Length0 && grid.Length1 == original.Length1
      ensures Cells() == Snapshot(original)
      ensures stack == []
    {
      var rows, cols := original.Length0, original.Length1;
      var copy := new int[rows, cols];
      for i := 0 to rows
        invariant forall r, c :: 0 <= r < i && 0 <= c < cols ==> copy[r, c] == original[r, c]
      {
        for j := 0 to cols
          invariant forall r, c :: 0 <= r < i && 0 <= c < cols ==> copy[r, c] == original[r, c]
          invariant forall c :: 0 <= c < j ==> copy[i, c] == original[i, c]
        {
          copy[i, j] := original[i, j];
        }
      }
      grid := copy;
      stack := [];
      new;
      assert Snapshot(copy) == Snapshot(original) by {
        var a, b := Snapshot(copy), Snapshot(original);
        forall r | 0 <= r < rows
          ensures a[r] == b[r]
        {
          assert forall c :: 0 <= c < cols ==> a[r][c] == b[r][c];
        }
      }
    }

    /** The inner loop of the backward walk: columns 8 down to 0 of row
        `outer`, each empty cell pushed on top of `below`. Reads the board
        and changes nothing. */
    method EmptySpacesInRow(outer: int, below: seq<Coord>) returns (emptyIndexes: seq<Coord>)
      requires grid.Length0 == Size && grid.Length1 == Size && 0 <= outer < Size
      ensures emptyIndexes == EmptyInRow(Cells(), outer, 0) + below
    {
      ghost var g := Cells();
      assert IsGrid(g);
      emptyIndexes := below;
      // inside the body `inner` takes the source's values 8, 7, .., 0; the
      // invariant speaks of the columns from `inner` on, already visited
      for inner := grid.Length1 downto 0
        invariant emptyIndexes == EmptyInRow(g, outer, inner) + below
      {
        EmptyInRowStep(g, outer, inner, below);
        if grid[outer, inner] == EmptyCell {
          emptyIndexes := [Coord(outer, inner)] + emptyIndexes;
        }
      }
    }

    /** The nested backward walk over the board: every empty cell is pushed
        on top of the list, so the list holds the empty cells in row-major
        order, top first. Reads the board and changes nothing. */
    method EmptySpaces() returns (emptyIndexes: seq<Coord>)
      requires grid.Length0 == Size && grid.Length1 == Size
      ensures emptyIndexes == EmptyCells(Cells())
    {
      ghost var g := Cells();
      assert IsGrid(g);
      emptyIndexes := [];
      // inside the body `outer` takes the source's values 8, 7, .., 0; the
      // invariant speaks of the rows from `outer` on, already visited
      for outer := grid.Length0 downto 0
        invariant emptyIndexes == EmptyFromRow(g, outer)
      {
        assert emptyIndexes == EmptyFromRow(g, outer + 1);
        emptyIndexes := EmptySpacesInRow(outer, emptyIndexes);
        EmptyFromRowStep(g, outer, emptyIndexes);
      }
    }

    /** Stores the frontier of the working board: the stack then holds the
        empty cells in row-major order, top first. */
    method FindAllEmptySpaces()
      requires grid.Length0 == Size && grid.Length1 == Size
      modifies this`stack
      ensures stack == EmptyCells(Cells())
    {
      ghost var g := Cells();
      stack := EmptySpaces();
      assert Cells() == g;
    }

    /** Writes `v` into cell (row, col) of the working board; nothing else changes. */
    method SetCell(row: int, col: int, v: int)
      requires grid.Length0 == Size && grid.Length1 == Size
      requires 0 <= row < Size && 0 <= col < Size
      modifies grid
      ensures Cells() == Place(old(Cells()), row, col, v)
    {
      ghost var g := Cells();
      grid[row, col] := v;
      SnapshotAfterWrite(grid, g, row, col, v);
    }

    /** Depth-first search. Pops a cell, tries the digits 1..9 in ascending
        order, places the first allowed one and recurses; on a failed
        recursion it empties the cell and tries the next digit. When no digit
        works it pushes the cell back and fails.
        On success the board is the least completion of the board it started
        from (least in the order the stack lists the empty cells); on failure
        board and stack are exactly as on entry and no completion exists. */
    method Search() returns (solved: bool)
      requires ReadyToSearch()
      modifies this`stack, grid
      ensures solved ==> stack == [] && Solution(Cells(), old(Cells()))
      ensures solved ==> forall t :: Solution(t, old(Cells())) ==> LexLeq(Cells(), t, old(stack))
      ensures !solved ==> stack == old(stack) && Cells() == old(Cells())
      ensures !solved ==> forall t :: !Solution(t, old(Cells()))
      decreases |stack|
    {
      ghost var g := Cells();
      if stack == [] {
        EmptyFrontierIsSolved(g);
        return true;
      }
      var p := stack[0];
      stack := stack[1..];
      var number := 1;
      while number <= Size
        invariant 1 <= number <= Size + 1
        invariant stack == old(stack)[1..] && Cells() == g
        invariant forall t :: Solution(t, g) ==> number <= t[p.row][p.col]
      {
        if IsNumberAllowed(Cells(), p.row, p.col, number) {
          PlacementKeepsNoConflicts(g, p.row, p.col, number);
          PlaceKeepsFrontier(g, old(stack), number);
          SetCell(p.row, p.col, number);
          var ok := Search();
          if ok {
            PlacementSucceeded(g, old(stack), number, Cells());
            return true;
          }
          SetCell(p.row, p.col, EmptyCell);
          PlaceUndone(g, p.row, p.col, number);
        }
        DigitRuledOut(g, p, number);
        number := number + 1;
      }
      AllDigitsRuledOut(g, p);
      stack := [p] + stack;
      return false;
    }
  }

  /** Solves the board `original`. The caller's board is never written: the
      solver works on a fresh copy, which it returns when the search
      succeeds. `None` is returned exactly when the puzzle has no completion. */
  method SolveSudoku(original: array2<int>) returns (result: Option<array2<int>>)
    requires original.Length0 == Size && original.Length1 == Size
    requires NoConflicts(Snapshot(original))
    ensures unchanged(original)
    ensures result.Some? ==> fresh(result.value)
    ensures result.Some? ==> Solution(Snapshot(result.value), Snapshot(original))
    ensures result.Some? ==> forall t :: Solution(t, Snapshot(original)) ==>
              LexLeq(Snapshot(result.value), t, EmptyCells(Snapshot(original)))
    ensures result.None? <==> forall t :: !Solution(t, Snapshot(original))
  {
    ghost var g := Snapshot(original);
    var solver := new SudokuSolver(original);
    assert solver.Cells() == g;
    solver.FindAllEmptySpaces();
    assert solver.Cells() == g;
    InitialFrontier(solver.Cells());
    assert solver.grid != original;
    var solved := solver.Search();
    assert Snapshot(original) == g;
    if solved {
      result := Some(solver.grid);
    } else {
      result := None;
    }
  }
}
