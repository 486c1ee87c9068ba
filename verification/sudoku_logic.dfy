/**
 * The per-cell Sudoku game grid and the placement rule it is checked against
 * (`createGridFromPuzzle`, `isValidPlacement`, `checkForErrors`,
 * `isGridComplete`, `isSolutionCorrect`, `getRelatedCells`).
 * Rows and columns are numbered 0..8; the box of a cell starts at
 * `row / 3 * 3`, `col / 3 * 3`.
 */
module SudokuLogic {
  import opened Wrappers
  import opened Seqs

  datatype Difficulty = Easy | Medium | Hard

  /** One cell of the game grid: its value (None for an empty cell), whether the
      puzzle gave it, its pencil marks and its error flag. */
  datatype Cell = Cell(value: Option<int>, isGiven: bool, notes: set<int>, isError: bool)

  type Grid = seq<seq<Cell>>

  datatype Pos = Pos(row: int, col: int)

  /** A puzzle: `initial` has None for the blanks, `solution` is the full grid. */
  datatype SudokuPuzzle = SudokuPuzzle(
    id: string, date: string, difficulty: Difficulty,
    initial: seq<seq<Option<int>>>, solution: seq<seq<int>>)

  predicate InRange(i: int) { 0 <= i < 9 }

  /** Every grid of the engine is 9 rows of 9 entries. */
  predicate Is9x9<T>(b: seq<seq<T>>)
  {
    |b| == 9 && forall r :: 0 <= r < 9 ==> |b[r]| == 9
  }

  predicate WellFormedPuzzle(p: SudokuPuzzle)
  {
    Is9x9(p.initial) && Is9x9(p.solution)
  }

  /** (r, c) comes before (row, col) in row-major order. */
  predicate Before(r: int, c: int, row: int, col: int)
  {
    r < row || (r == row && c < col)
  }

  function BoxStart(i: int): int { i / 3 * 3 }

  /** (r2, c2) lies in the 3x3 box of (r, c). */
  predicate InBox(r: int, c: int, r2: int, c2: int)
  {
    BoxStart(r) <= r2 < BoxStart(r) + 3 && BoxStart(c) <= c2 < BoxStart(c) + 3
  }

  /** (r2, c2) shares the row, the column or the box of (r, c) (the cell itself included). */
  predicate SameUnit(r: int, c: int, r2: int, c2: int)
  {
    r2 == r || c2 == c || InBox(r, c, r2, c2)
  }

  /** A cell other than (r, c) that shares a row, column or box with it. */
  predicate Peer(r: int, c: int, r2: int, c2: int)
  {
    (r2 != r || c2 != c) && SameUnit(r, c, r2, c2)
  }

  /** Value `v` may go at (row, col): no peer of that cell holds `v`. */
  ghost predicate PlacementOk(g: Grid, row: int, col: int, v: int)
    requires Is9x9(g)
  {
    forall r2, c2 :: InRange(r2) && InRange(c2) && Peer(row, col, r2, c2) ==> g[r2][c2].value != Some(v)
  }

  /** Two grids hold the same values in every cell. */
  ghost predicate SameValues(g1: Grid, g2: Grid)
    requires Is9x9(g1) && Is9x9(g2)
  {
    forall r, c :: InRange(r) && InRange(c) ==> g1[r][c].value == g2[r][c].value
  }

  lemma SameValuesUpdate(g1: Grid, g2: Grid, row: int, col: int, cell: Cell)
    requires Is9x9(g1) && Is9x9(g2) && SameValues(g1, g2) && InRange(row) && InRange(col)
    requires cell.value == g1[row][col].value
    ensures Is9x9(g1[row := g1[row][col := cell]]) && SameValues(g1[row := g1[row][col := cell]], g2)
  {
  }

  /** Placement depends on the values of the grid only, never on flags or notes. */
  lemma PlacementReadsValuesOnly(g1: Grid, g2: Grid, row: int, col: int, v: int)
    requires Is9x9(g1) && Is9x9(g2)
    requires SameValues(g1, g2)
    ensures PlacementOk(g1, row, col, v) == PlacementOk(g2, row, col, v)
  {
  }

  /**
   * `isValidPlacement`: scans the row, then the column, then the box, skipping
   * the cell itself, and answers false at the first cell that holds `value`.
   */
  method IsValidPlacement(g: Grid, row: int, col: int, value: int) returns (ok: bool)
    requires Is9x9(g) && InRange(row) && InRange(col)
    ensures ok == PlacementOk(g, row, col, value)
  {
    for c := 0 to 9
      invariant forall c2 :: 0 <= c2 < c && c2 != col ==> g[row][c2].value != Some(value)
    {
      if c != col && g[row][c].value == Some(value) {
        assert Peer(row, col, row, c);
        return false;
      }
    }
    for r := 0 to 9
      invariant forall r2 :: 0 <= r2 < r && r2 != row ==> g[r2][col].value != Some(value)
    {
      if r != row && g[r][col].value == Some(value) {
        assert Peer(row, col, r, col);
        return false;
      }
    }
    var boxStartRow := BoxStart(row);
    var boxStartCol := BoxStart(col);
    for r := boxStartRow to boxStartRow + 3
      invariant forall r2, c2 :: boxStartRow <= r2 < r && boxStartCol <= c2 < boxStartCol + 3 && r2 != row && c2 != col ==>
        g[r2][c2].value != Some(value)
    {
      for c := boxStartCol to boxStartCol + 3
        invariant forall r2, c2 :: boxStartRow <= r2 < r && boxStartCol <= c2 < boxStartCol + 3 && r2 != row && c2 != col ==>
          g[r2][c2].value != Some(value)
        invariant forall c2 :: boxStartCol <= c2 < c && r != row && c2 != col ==> g[r][c2].value != Some(value)
      {
        if r != row && c != col && g[r][c].value == Some(value) {
          assert Peer(row, col, r, c);
          return false;
        }
      }
    }
    return true;
  }

  /** The error flag `checkForErrors` gives (r, c): a filled cell the player
      entered whose value clashes with a peer. */
  ghost predicate ErrorFlag(g: Grid, r: int, c: int)
    requires Is9x9(g) && InRange(r) && InRange(c)
  {
    g[r][c].value.Some? && !g[r][c].isGiven && !PlacementOk(g, r, c, g[r][c].value.value)
  }

  /** The grid with every error flag recomputed from the values. */
  ghost function Checked(g: Grid): (ng: Grid)
    requires Is9x9(g)
    ensures Is9x9(ng)
  {
    seq(9, r requires 0 <= r < 9 =>
      seq(9, c requires 0 <= c < 9 => g[r][c].(isError := ErrorFlag(g, r, c))))
  }

  /**
   * `checkForErrors`: copies the grid and, cell by cell in row-major order,
   * sets the error flag of each non-given filled cell from `isValidPlacement`
   * against the copy, and clears it everywhere else.
   */
  method CheckForErrors(g: Grid) returns (ng: Grid)
    requires Is9x9(g)
    ensures Is9x9(ng)
    ensures forall r, c :: InRange(r) && InRange(c) ==>
      && ng[r][c].value == g[r][c].value
      && ng[r][c].isGiven == g[r][c].isGiven
      && ng[r][c].notes == g[r][c].notes
      && ng[r][c].isError == ErrorFlag(g, r, c)
    ensures ng == Checked(g)
  {
    ghost var target := Checked(g);
    ng := g;
    for row := 0 to 9
      invariant Is9x9(ng) && SameValues(ng, g)
      invariant forall r :: row <= r < 9 ==> ng[r] == g[r]
      invariant forall r :: 0 <= r < row ==> ng[r] == target[r]
    {
      for col := 0 to 9
        invariant Is9x9(ng) && SameValues(ng, g)
        invariant forall r :: row < r < 9 ==> ng[r] == g[r]
        invariant forall r :: 0 <= r < row ==> ng[r] == target[r]
        invariant forall c :: col <= c < 9 ==> ng[row][c] == g[row][c]
        invariant forall c :: 0 <= c < col ==> ng[row][c] == target[row][c]
      {
        var cell := ng[row][col];
        var flag := false;
        if cell.value.Some? && !cell.isGiven {
          var valid := IsValidPlacement(ng, row, col, cell.value.value);
          PlacementReadsValuesOnly(ng, g, row, col, cell.value.value);
          flag := !valid;
        }
        SameValuesUpdate(ng, g, row, col, cell.(isError := flag));
        ng := ng[row := ng[row][col := cell.(isError := flag)]];
      }
      assert ng[row] == target[row];
    }
    assert forall r :: 0 <= r < 9 ==> ng[r] == target[r];
  }

  /** Recomputing the error flags a second time changes nothing. */
  lemma CheckedIdempotent(g: Grid)
    requires Is9x9(g)
    ensures Checked(Checked(g)) == Checked(g)
  {
    var g1 := Checked(g);
    forall r, c | InRange(r) && InRange(c)
      ensures ErrorFlag(g1, r, c) == ErrorFlag(g, r, c)
    {
      if g[r][c].value.Some? {
        PlacementReadsValuesOnly(g1, g, r, c, g[r][c].value.value);
      }
    }
    assert forall r :: 0 <= r < 9 ==> Checked(g1)[r] == g1[r];
  }

  /** Every cell is filled and none is flagged. */
  ghost predicate GridComplete(g: Grid)
    requires Is9x9(g)
  {
    forall r, c :: InRange(r) && InRange(c) ==> g[r][c].value.Some? && !g[r][c].isError
  }

  /** Every cell holds the solution's value. */
  ghost predicate SolutionCorrect(g: Grid, solution: seq<seq<int>>)
    requires Is9x9(g) && Is9x9(solution)
  {
    forall r, c :: InRange(r) && InRange(c) ==> g[r][c].value == Some(solution[r][c])
  }

  /** `isGridComplete`: false at the first empty or flagged cell. */
  method IsGridComplete(g: Grid) returns (ok: bool)
    requires Is9x9(g)
    ensures ok == GridComplete(g)
  {
    for row := 0 to 9
      invariant forall r, c :: 0 <= r < row && InRange(c) ==> g[r][c].value.Some? && !g[r][c].isError
    {
      for col := 0 to 9
        invariant forall r, c :: 0 <= r < row && InRange(c) ==> g[r][c].value.Some? && !g[r][c].isError
        invariant forall c :: 0 <= c < col ==> g[row][c].value.Some? && !g[row][c].isError
      {
        var cell := g[row][col];
        if cell.value.None? || cell.isError {
          assert InRange(row) && InRange(col);
          return false;
        }
      }
    }
    return true;
  }

  /** `isSolutionCorrect`: false at the first cell that differs from the solution. */
  method IsSolutionCorrect(g: Grid, puzzle: SudokuPuzzle) returns (ok: bool)
    requires Is9x9(g) && Is9x9(puzzle.solution)
    ensures ok == SolutionCorrect(g, puzzle.solution)
  {
    for row := 0 to 9
      invariant forall r, c :: 0 <= r < row && InRange(c) ==> g[r][c].value == Some(puzzle.solution[r][c])
    {
      for col := 0 to 9
        invariant forall r, c :: 0 <= r < row && InRange(c) ==> g[r][c].value == Some(puzzle.solution[r][c])
        invariant forall c :: 0 <= c < col ==> g[row][c].value == Some(puzzle.solution[row][c])
      {
        if g[row][col].value != Some(puzzle.solution[row][col]) {
          assert InRange(row) && InRange(col);
          return false;
        }
      }
    }
    return true;
  }

  /** `createGridFromPuzzle`: the initial values, given exactly where non-empty,
      with no notes and no error flags. */
  function CreateGridFromPuzzle(puzzle: SudokuPuzzle): (g: Grid)
    requires Is9x9(puzzle.initial)
    ensures Is9x9(g)
    ensures forall r, c :: InRange(r) && InRange(c) ==>
      g[r][c] == Cell(puzzle.initial[r][c], puzzle.initial[r][c].Some?, {}, false)
  {
    seq(9, r requires 0 <= r < 9 =>
      seq(9, c requires 0 <= c < 9 =>
        Cell(puzzle.initial[r][c], puzzle.initial[r][c].Some?, {}, false)))
  }

  /** The clues of `initial` agree with `solution` wherever they are present. */
  ghost predicate CluesAgree(initial: seq<seq<Option<int>>>, solution: seq<seq<int>>)
    requires Is9x9(initial) && Is9x9(solution)
  {
    forall r, c :: InRange(r) && InRange(c) && initial[r][c].Some? ==> initial[r][c] == Some(solution[r][c])
  }

  /**
   * A freshly loaded grid is neither complete nor solved while the puzzle has a
   * blank, and it is both once there is none (when the clues agree with the
   * solution); error checking flags none of its cells, since all are given.
   */
  lemma FreshGridStatus(puzzle: SudokuPuzzle)
    requires WellFormedPuzzle(puzzle) && CluesAgree(puzzle.initial, puzzle.solution)
    ensures var g := CreateGridFromPuzzle(puzzle);
      var noBlank := forall r, c :: InRange(r) && InRange(c) ==> puzzle.initial[r][c].Some?;
      && (GridComplete(g) <==> noBlank)
      && (SolutionCorrect(g, puzzle.solution) <==> noBlank)
      && Checked(g) == g
  {
    var g := CreateGridFromPuzzle(puzzle);
    assert forall r :: 0 <= r < 9 ==> Checked(g)[r] == g[r];
  }

  /** Cells of row `row` left of column `k`, other than (row, col). */
  ghost predicate RowScanned(row: int, col: int, k: int, p: Pos)
  {
    p.row == row && 0 <= p.col < k && p.col != col
  }

  /** Cells of column `col` above row `k`, other than (row, col). */
  ghost predicate ColumnScanned(row: int, col: int, k: int, p: Pos)
  {
    p.col == col && 0 <= p.row < k && p.row != row
  }

  /** Cells of the box of (row, col) outside its row and column that come
      before (r, c) in row-major order. */
  ghost predicate BoxScanned(row: int, col: int, r: int, c: int, p: Pos)
  {
    && p.row != row && p.col != col
    && BoxStart(col) <= p.col < BoxStart(col) + 3
    && (BoxStart(row) <= p.row < r || (p.row == r && p.col < c))
  }

  /**
   * `getRelatedCells`: the other cells of the row, then of the column, then the
   * cells of the box not already listed. There are exactly 20, all distinct,
   * and they are exactly the peers of (row, col).
   */
  method GetRelatedCells(row: int, col: int) returns (related: seq<Pos>)
    requires InRange(row) && InRange(col)
    ensures |related| == 20
    ensures forall i, j :: 0 <= i < j < |related| ==> related[i] != related[j]
    ensures forall i :: 0 <= i < |related| ==>
      InRange(related[i].row) && InRange(related[i].col) && Peer(row, col, related[i].row, related[i].col)
    ensures forall r2, c2 :: InRange(r2) && InRange(c2) && Peer(row, col, r2, c2) ==> Pos(r2, c2) in related
  {
    related := [];
    for c := 0 to 9
      invariant |related| == if c <= col then c else c - 1
      invariant forall p :: p in related <==> RowScanned(row, col, c, p)
      invariant Distinct(related)
    {
      if c != col {
        DistinctAppend(related, Pos(row, c));
        related := related + [Pos(row, c)];
      }
    }
    for r := 0 to 9
      invariant |related| == 8 + if r <= row then r else r - 1
      invariant forall p :: p in related <==> RowScanned(row, col, 9, p) || ColumnScanned(row, col, r, p)
      invariant Distinct(related)
    {
      if r != row {
        DistinctAppend(related, Pos(r, col));
        related := related + [Pos(r, col)];
      }
    }
    var boxStartRow := BoxStart(row);
    var boxStartCol := BoxStart(col);
    for r := boxStartRow to boxStartRow + 3
      invariant |related| == 16 + 2 * (if r <= row then r - boxStartRow else r - boxStartRow - 1)
      invariant forall p :: p in related <==>
        RowScanned(row, col, 9, p) || ColumnScanned(row, col, 9, p) || BoxScanned(row, col, r, boxStartCol, p)
      invariant Distinct(related)
    {
      for c := boxStartCol to boxStartCol + 3
        invariant |related| == 16 + 2 * (if r <= row then r - boxStartRow else r - boxStartRow - 1)
          + (if r == row then 0 else if c <= col then c - boxStartCol else c - boxStartCol - 1)
        invariant forall p :: p in related <==>
          RowScanned(row, col, 9, p) || ColumnScanned(row, col, 9, p) || BoxScanned(row, col, r, c, p)
        invariant Distinct(related)
      {
        if r != row && c != col {
          var alreadyAdded := Pos(r, c) in related;
          if !alreadyAdded {
            DistinctAppend(related, Pos(r, c));
            related := related + [Pos(r, c)];
          }
        }
      }
    }
    forall i | 0 <= i < |related|
      ensures InRange(related[i].row) && InRange(related[i].col) && Peer(row, col, related[i].row, related[i].col)
    {
      assert related[i] in related;
    }
  }
}
