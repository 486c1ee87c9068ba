/**
 * The Sudoku session of the game screen: the state transitions the hook runs
 * inside `setGameState` (select a cell, enter a number or a note, clear a
 * cell, switch notes mode, take a hint, start over), the hint budget of
 * `MAX_HINTS` and the completion callback that fires at most once per game.
 * The clock is the parameter `now`; saving to and loading from storage is not
 * part of this model.
 */
module SudokuGame {
  import opened Wrappers
  import opened SudokuLogic

  /** `MAX_HINTS`. */
  const MaxHints: nat := 3

  /** A note toggle: `num` is removed when present and added when absent. */
  function ToggleNote(notes: set<int>, num: int): (ns: set<int>)
    ensures num in ns <==> num !in notes
    ensures forall x :: x != num ==> (x in ns <==> x in notes)
  {
    if num in notes then notes - {num} else notes + {num}
  }

  /** Toggling the same note twice gives the notes back. */
  lemma ToggleNoteTwice(notes: set<int>, num: int)
    ensures ToggleNote(ToggleNote(notes, num), num) == notes
  {
    var back := ToggleNote(ToggleNote(notes, num), num);
    assert forall x :: x in back <==> x in notes;
  }

  /** The grid with the cell at (row, col) replaced. */
  function SetCell(g: Grid, row: int, col: int, cell: Cell): (ng: Grid)
    requires Is9x9(g) && InRange(row) && InRange(col)
    ensures Is9x9(ng) && ng[row][col] == cell
    ensures forall r, c :: InRange(r) && InRange(c) && (r != row || c != col) ==> ng[r][c] == g[r][c]
  {
    g[row := g[row][col := cell]]
  }

  /**
   * The edit `enterNumber` makes to the selected cell: in notes mode the note
   * `num` is toggled and the value cleared, otherwise the value becomes `num`
   * and the notes are emptied.
   */
  function EnteredCell(cell: Cell, num: int, notesMode: bool): Cell
  {
    if notesMode then cell.(notes := ToggleNote(cell.notes, num), value := None)
    else cell.(value := Some(num), notes := {})
  }

  /** The edit a hint makes: the solution's value, no notes, no error flag. */
  function HintedCell(cell: Cell, v: int): Cell
  {
    cell.(value := Some(v), notes := {}, isError := false)
  }

  /** A cell a hint can fill: not a given and not already holding the solution's value. */
  ghost predicate NeedsHint(g: Grid, solution: seq<seq<int>>, r: int, c: int)
    requires Is9x9(g) && Is9x9(solution) && InRange(r) && InRange(c)
  {
    !g[r][c].isGiven && g[r][c].value != Some(solution[r][c])
  }

  /** (row, col) is the first cell in row-major order that needs a hint. */
  ghost predicate FirstHintCell(g: Grid, solution: seq<seq<int>>, row: int, col: int)
    requires Is9x9(g) && Is9x9(solution)
  {
    && InRange(row) && InRange(col) && NeedsHint(g, solution, row, col)
    && forall r, c :: InRange(r) && InRange(c) && Before(r, c, row, col) ==> !NeedsHint(g, solution, r, c)
  }

  /** No cell needs a hint. */
  ghost predicate NothingToHint(g: Grid, solution: seq<seq<int>>)
    requires Is9x9(g) && Is9x9(solution)
  {
    forall r, c :: InRange(r) && InRange(c) ==> !NeedsHint(g, solution, r, c)
  }

  /** The scan of `useHint` over the grid in row-major order. */
  method FindHintCell(g: Grid, solution: seq<seq<int>>) returns (found: Option<Pos>)
    requires Is9x9(g) && Is9x9(solution)
    ensures found.Some? ==> FirstHintCell(g, solution, found.value.row, found.value.col)
    ensures found.None? ==> NothingToHint(g, solution)
  {
    for r := 0 to 9
      invariant forall r2, c2 :: 0 <= r2 < r && InRange(c2) ==> !NeedsHint(g, solution, r2, c2)
    {
      for c := 0 to 9
        invariant forall r2, c2 :: 0 <= r2 < r && InRange(c2) ==> !NeedsHint(g, solution, r2, c2)
        invariant forall c2 :: 0 <= c2 < c ==> !NeedsHint(g, solution, r, c2)
      {
        if !g[r][c].isGiven && g[r][c].value != Some(solution[r][c]) {
          return Some(Pos(r, c));
        }
      }
    }
    return None;
  }

  /** Given cells are exactly the puzzle's clues and still hold them. */
  ghost predicate GivensKept(g: Grid, puzzle: SudokuPuzzle)
    requires Is9x9(g) && WellFormedPuzzle(puzzle)
  {
    forall r, c :: InRange(r) && InRange(c) ==>
      && g[r][c].isGiven == puzzle.initial[r][c].Some?
      && (g[r][c].isGiven ==> g[r][c].value == puzzle.initial[r][c])
  }

  /**
   * With the givens in place and clues that agree with the solution, nothing
   * is left to hint exactly when every cell holds the solution's value.
   */
  lemma NothingToHintIffCorrect(g: Grid, puzzle: SudokuPuzzle)
    requires Is9x9(g) && WellFormedPuzzle(puzzle) && GivensKept(g, puzzle)
    requires CluesAgree(puzzle.initial, puzzle.solution)
    ensures NothingToHint(g, puzzle.solution) <==> SolutionCorrect(g, puzzle.solution)
  {
    if NothingToHint(g, puzzle.solution) {
      forall r, c | InRange(r) && InRange(c)
        ensures g[r][c].value == Some(puzzle.solution[r][c])
      {
        assert !NeedsHint(g, puzzle.solution, r, c);
      }
    }
  }

  /** A fresh grid keeps the givens. */
  lemma FreshGridKeepsGivens(puzzle: SudokuPuzzle)
    requires WellFormedPuzzle(puzzle)
    ensures GivensKept(CreateGridFromPuzzle(puzzle), puzzle)
  {
  }

  /** Editing a non-given cell and recomputing the error flags keeps the givens. */
  lemma EditKeepsGivens(g: Grid, puzzle: SudokuPuzzle, row: int, col: int, cell: Cell)
    requires Is9x9(g) && WellFormedPuzzle(puzzle) && GivensKept(g, puzzle)
    requires InRange(row) && InRange(col) && !g[row][col].isGiven && !cell.isGiven
    ensures GivensKept(SetCell(g, row, col, cell), puzzle)
    ensures GivensKept(Checked(SetCell(g, row, col, cell)), puzzle)
  {
    var e: Grid := SetCell(g, row, col, cell);
    assert GivensKept(e, puzzle);
    var ch: Grid := Checked(e);
    forall r, c | InRange(r) && InRange(c)
      ensures ch[r][c].isGiven == e[r][c].isGiven && ch[r][c].value == e[r][c].value
    {
    }
  }

  /** The state of one Sudoku game, with the hook's hint counter and completion flag. */
  class SudokuSession {
    var puzzle: SudokuPuzzle
    var grid: Grid
    var selectedCell: Option<Pos>
    var isNotesMode: bool
    var isComplete: bool
    var startTime: int
    var endTime: Option<int>
    var mistakes: int
    var hintsUsed: nat
    var hasRecordedCompletion: bool
    /** Whether the caller passed an `onGameComplete` callback. */
    const hasCallback: bool
    /** How many times `onGameComplete` has been called in this game. */
    var completionsReported: nat

    ghost predicate Valid()
      reads this
    {
      && WellFormedPuzzle(puzzle) && Is9x9(grid) && GivensKept(grid, puzzle)
      && (selectedCell.Some? ==> InRange(selectedCell.value.row) && InRange(selectedCell.value.col))
      && hintsUsed <= MaxHints
      && (isComplete ==> GridComplete(grid) && SolutionCorrect(grid, puzzle.solution) && endTime.Some?)
      && (hasRecordedCompletion ==> isComplete && hasCallback)
      && completionsReported == (if hasRecordedCompletion then 1 else 0)
    }

    /** The state of a new game on `newPuzzle` (the new-game branch of loading). */
    constructor (newPuzzle: SudokuPuzzle, now: int, callback: bool)
      requires WellFormedPuzzle(newPuzzle)
      ensures Valid()
      ensures puzzle == newPuzzle && grid == CreateGridFromPuzzle(newPuzzle)
      ensures selectedCell.None? && !isNotesMode && !isComplete
      ensures startTime == now && endTime.None? && mistakes == 0
      ensures hintsUsed == 0 && !hasRecordedCompletion && completionsReported == 0
      ensures hasCallback == callback
    {
      puzzle := newPuzzle;
      grid := CreateGridFromPuzzle(newPuzzle);
      selectedCell := None;
      isNotesMode := false;
      isComplete := false;
      startTime := now;
      endTime := None;
      mistakes := 0;
      hintsUsed := 0;
      hasRecordedCompletion := false;
      hasCallback := callback;
      completionsReported := 0;
      FreshGridKeepsGivens(newPuzzle);
    }

    /** A cell is selected, it is not a given and the game is not over. */
    ghost predicate CanEdit()
      reads this
      requires Valid()
    {
      !isComplete && selectedCell.Some? && !grid[selectedCell.value.row][selectedCell.value.col].isGiven
    }

    /** `selectCell`: ignored once the game is complete. */
    method SelectCell(row: int, col: int)
      requires Valid() && InRange(row) && InRange(col)
      modifies this
      ensures Valid()
      ensures old(isComplete) ==> unchanged(this)
      ensures !old(isComplete) ==> selectedCell == Some(Pos(row, col))
      ensures grid == old(grid) && puzzle == old(puzzle) && isNotesMode == old(isNotesMode)
      ensures isComplete == old(isComplete) && endTime == old(endTime) && hintsUsed == old(hintsUsed)
      ensures hasRecordedCompletion == old(hasRecordedCompletion) && completionsReported == old(completionsReported)
      ensures startTime == old(startTime) && mistakes == old(mistakes)
    {
      if isComplete {
        return;
      }
      selectedCell := Some(Pos(row, col));
    }

    /**
     * The common tail of `enterNumber` and `useHint`: recompute the error
     * flags of the edited grid, decide completion, stamp the end time and, on
     * the first completion of the game, call `onGameComplete`.
     */
    method Commit(edited: Grid, now: int)
      requires Valid() && !isComplete && Is9x9(edited) && GivensKept(Checked(edited), puzzle)
      modifies this
      ensures Valid()
      ensures grid == Checked(edited)
      ensures isComplete == (GridComplete(grid) && SolutionCorrect(grid, puzzle.solution))
      ensures endTime == if isComplete then Some(now) else None
      ensures hasRecordedCompletion == (isComplete && hasCallback)
      ensures completionsReported == old(completionsReported) + (if hasRecordedCompletion then 1 else 0)
      ensures puzzle == old(puzzle) && selectedCell == old(selectedCell) && isNotesMode == old(isNotesMode)
      ensures startTime == old(startTime) && mistakes == old(mistakes) && hintsUsed == old(hintsUsed)
    {
      var checked := CheckForErrors(edited);
      var complete := IsGridComplete(checked);
      if complete {
        complete := IsSolutionCorrect(checked, puzzle);
      }
      if complete && !hasRecordedCompletion && hasCallback {
        hasRecordedCompletion := true;
        completionsReported := completionsReported + 1;
      }
      grid := checked;
      isComplete := complete;
      endTime := if complete then Some(now) else None;
    }

    /**
     * `enterNumber`: ignored with no selection, after completion and on a
     * given cell; otherwise edits the selected cell (a note toggle in notes
     * mode, the value otherwise) and commits the grid.
     */
    method EnterNumber(num: int, now: int)
      requires Valid()
      modifies this
      ensures Valid()
      ensures !old(CanEdit()) ==> unchanged(this)
      ensures old(CanEdit()) ==>
        var p := old(selectedCell.value);
        && grid == Checked(SetCell(old(grid), p.row, p.col, EnteredCell(old(grid)[p.row][p.col], num, old(isNotesMode))))
        && isComplete == (GridComplete(grid) && SolutionCorrect(grid, puzzle.solution))
        && endTime == (if isComplete then Some(now) else None)
        && hasRecordedCompletion == (isComplete && hasCallback)
      ensures puzzle == old(puzzle) && selectedCell == old(selectedCell) && isNotesMode == old(isNotesMode)
      ensures startTime == old(startTime) && mistakes == old(mistakes) && hintsUsed == old(hintsUsed)
    {
      if selectedCell.None? || isComplete {
        return;
      }
      var p := selectedCell.value;
      var cell := grid[p.row][p.col];
      if cell.isGiven {
        return;
      }
      var entered := EnteredCell(cell, num, isNotesMode);
      EditKeepsGivens(grid, puzzle, p.row, p.col, entered);
      Commit(SetCell(grid, p.row, p.col, entered), now);
    }

    /**
     * `clearCell`: ignored with no selection, after completion and on a given
     * cell; otherwise empties the selected cell's value and notes and clears its
     * error flag, without recomputing the other flags.
     */
    method ClearCell()
      requires Valid()
      modifies this
      ensures Valid()
      ensures !old(CanEdit()) ==> unchanged(this)
      ensures old(CanEdit()) ==>
        var p := old(selectedCell.value);
        grid == SetCell(old(grid), p.row, p.col, Cell(None, false, {}, false))
      ensures puzzle == old(puzzle) && selectedCell == old(selectedCell) && isNotesMode == old(isNotesMode)
      ensures isComplete == old(isComplete) && endTime == old(endTime) && hintsUsed == old(hintsUsed)
      ensures hasRecordedCompletion == old(hasRecordedCompletion) && completionsReported == old(completionsReported)
      ensures startTime == old(startTime) && mistakes == old(mistakes)
    {
      if selectedCell.None? || isComplete {
        return;
      }
      var p := selectedCell.value;
      var cell := grid[p.row][p.col];
      if cell.isGiven {
        return;
      }
      EditKeepsGivens(grid, puzzle, p.row, p.col, Cell(None, false, {}, false));
      grid := SetCell(grid, p.row, p.col, cell.(value := None, notes := {}, isError := false));
    }

    /** `toggleNotesMode`: flips notes mode and nothing else, even after completion. */
    method ToggleNotesMode()
      requires Valid()
      modifies this
      ensures Valid()
      ensures isNotesMode == !old(isNotesMode)
      ensures grid == old(grid) && puzzle == old(puzzle) && selectedCell == old(selectedCell)
      ensures isComplete == old(isComplete) && endTime == old(endTime) && hintsUsed == old(hintsUsed)
      ensures hasRecordedCompletion == old(hasRecordedCompletion) && completionsReported == old(completionsReported)
      ensures startTime == old(startTime) && mistakes == old(mistakes)
    {
      isNotesMode := !isNotesMode;
    }

    /** The selected cell exists and a hint can fill it. */
    ghost predicate SelectedNeedsHint()
      reads this
      requires Valid()
    {
      selectedCell.Some? && NeedsHint(grid, puzzle.solution, selectedCell.value.row, selectedCell.value.col)
    }

    /**
     * `useHint`: ignored after completion or once `MAX_HINTS` hints are used.
     * Otherwise it fills the selected cell with the solution's value when that
     * cell needs it; failing that it fills and selects the first cell in
     * row-major order that needs it; failing that nothing changes. A hint that
     * fills a cell uses up one hint.
     */
    method UseHint(now: int)
      requires Valid()
      modifies this
      ensures Valid()
      ensures old(isComplete) || old(hintsUsed) >= MaxHints ==> unchanged(this)
      ensures !old(isComplete) && old(hintsUsed) < MaxHints && old(SelectedNeedsHint()) ==>
        var p := old(selectedCell.value);
        && grid == Checked(SetCell(old(grid), p.row, p.col,
                                   HintedCell(old(grid)[p.row][p.col], puzzle.solution[p.row][p.col])))
        && selectedCell == old(selectedCell)
        && hintsUsed == old(hintsUsed) + 1
      ensures !old(isComplete) && old(hintsUsed) < MaxHints && !old(SelectedNeedsHint()) ==>
        if old(NothingToHint(grid, puzzle.solution)) then unchanged(this)
        else
          && selectedCell.Some?
          && var p := selectedCell.value;
          && old(FirstHintCell(grid, puzzle.solution, p.row, p.col))
          && grid == Checked(SetCell(old(grid), p.row, p.col,
                                     HintedCell(old(grid)[p.row][p.col], puzzle.solution[p.row][p.col])))
          && hintsUsed == old(hintsUsed) + 1
      ensures hintsUsed != old(hintsUsed) ==>
        && isComplete == (GridComplete(grid) && SolutionCorrect(grid, puzzle.solution))
        && endTime == (if isComplete then Some(now) else None)
        && hasRecordedCompletion == (isComplete && hasCallback)
      ensures puzzle == old(puzzle) && isNotesMode == old(isNotesMode)
      ensures startTime == old(startTime) && mistakes == old(mistakes)
    {
      if isComplete || hintsUsed >= MaxHints {
        return;
      }
      if selectedCell.Some? {
        var p := selectedCell.value;
        var cell := grid[p.row][p.col];
        if !cell.isGiven && cell.value != Some(puzzle.solution[p.row][p.col]) {
          var hinted := HintedCell(cell, puzzle.solution[p.row][p.col]);
          EditKeepsGivens(grid, puzzle, p.row, p.col, hinted);
          Commit(SetCell(grid, p.row, p.col, hinted), now);
          hintsUsed := hintsUsed + 1;
          return;
        }
      }
      var target := FindHintCell(grid, puzzle.solution);
      if target.Some? {
        var p := target.value;
        var hinted := HintedCell(grid[p.row][p.col], puzzle.solution[p.row][p.col]);
        EditKeepsGivens(grid, puzzle, p.row, p.col, hinted);
        Commit(SetCell(grid, p.row, p.col, hinted), now);
        selectedCell := target;
        hintsUsed := hintsUsed + 1;
      }
    }

    /**
     * `startNewGame` (and `quitGame`, which does the same after removing the
     * saved game): a fresh game on `newPuzzle`, with the hint counter and the
     * completion flag reset.
     */
    method StartNewGame(newPuzzle: SudokuPuzzle, now: int)
      requires WellFormedPuzzle(newPuzzle)
      modifies this
      ensures Valid()
      ensures puzzle == newPuzzle && grid == CreateGridFromPuzzle(newPuzzle)
      ensures selectedCell.None? && !isNotesMode && !isComplete
      ensures startTime == now && endTime.None? && mistakes == 0
      ensures hintsUsed == 0 && !hasRecordedCompletion && completionsReported == 0
    {
      puzzle := newPuzzle;
      grid := CreateGridFromPuzzle(newPuzzle);
      selectedCell := None;
      isNotesMode := false;
      isComplete := false;
      startTime := now;
      endTime := None;
      mistakes := 0;
      hintsUsed := 0;
      hasRecordedCompletion := false;
      completionsReported := 0;
      FreshGridKeepsGivens(newPuzzle);
    }
  }
}
