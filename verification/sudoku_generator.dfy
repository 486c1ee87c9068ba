/**
 * The Sudoku generator: the placement test used while generating
 * (`isValidForGeneration`), randomised backtracking (`generateSolvedGrid`), the
 * capped solution counter (`countSolutions`) and the carver
 * (`createPuzzleFromSolution`), all working on a shared 9x9 array whose empty
 * cells are None. Randomness is the oracle `rng` of module Random.
 */
module SudokuGenerator {
  import opened Wrappers
  import opened SudokuLogic
  import Random
  import opened Seqs

  /** The value of a generator grid. */
  type Board = seq<seq<Option<int>>>

  /**
   * The grid the backtracking searches share and update in place: writing a
   * cell reassigns `cells`.
   */
  class SearchGrid {
    var cells: Board

    constructor (b: Board)
      ensures cells == b
    {
      cells := b;
    }
  }

  /** The board with (row, col) set to `v`. */
  function Place(b: Board, row: int, col: int, v: Option<int>): (b': Board)
    requires Is9x9(b) && InRange(row) && InRange(col)
    ensures Is9x9(b')
    ensures forall r, c :: InRange(r) && InRange(c) ==> b'[r][c] == if r == row && c == col then v else b[r][c]
  {
    b[row := b[row][col := v]]
  }

  /** Boards are equal when they agree cell by cell. */
  lemma BoardsEqual(b1: Board, b2: Board)
    requires Is9x9(b1) && Is9x9(b2)
    requires forall r, c :: InRange(r) && InRange(c) ==> b1[r][c] == b2[r][c]
    ensures b1 == b2
  {
    forall r | 0 <= r < 9
      ensures b1[r] == b2[r]
    {
      forall c | 0 <= c < 9
        ensures b1[r][c] == b2[r][c]
      {
        assert InRange(r) && InRange(c);
      }
    }
  }

  /** `num` appears nowhere in the row, column or box of (row, col), the cell itself included. */
  ghost predicate ValidForGen(b: Board, row: int, col: int, num: int)
    requires Is9x9(b)
  {
    forall r2, c2 :: InRange(r2) && InRange(c2) && SameUnit(row, col, r2, c2) ==> b[r2][c2] != Some(num)
  }

  /** `isValidForGeneration`: row, then column, then box, the cell itself not excluded. */
  method IsValidForGeneration(grid: Board, row: int, col: int, num: int) returns (ok: bool)
    requires Is9x9(grid) && InRange(row) && InRange(col)
    ensures ok == ValidForGen(grid, row, col, num)
  {
    for c := 0 to 9
      invariant forall c2 :: 0 <= c2 < c ==> grid[row][c2] != Some(num)
    {
      if grid[row][c] == Some(num) {
        assert SameUnit(row, col, row, c);
        return false;
      }
    }
    for r := 0 to 9
      invariant forall r2 :: 0 <= r2 < r ==> grid[r2][col] != Some(num)
    {
      if grid[r][col] == Some(num) {
        assert SameUnit(row, col, r, col);
        return false;
      }
    }
    var boxRow := BoxStart(row);
    var boxCol := BoxStart(col);
    for r := boxRow to boxRow + 3
      invariant forall r2, c2 :: boxRow <= r2 < r && boxCol <= c2 < boxCol + 3 ==> grid[r2][c2] != Some(num)
    {
      for c := boxCol to boxCol + 3
        invariant forall r2, c2 :: boxRow <= r2 < r && boxCol <= c2 < boxCol + 3 ==> grid[r2][c2] != Some(num)
        invariant forall c2 :: boxCol <= c2 < c ==> grid[r][c2] != Some(num)
      {
        if grid[r][c] == Some(num) {
          assert SameUnit(row, col, r, c);
          return false;
        }
      }
    }
    return true;
  }

  /** Box membership is the same seen from either cell. */
  lemma BoxSymmetric(r: int, r2: int)
    requires InRange(r) && InRange(r2)
    ensures (BoxStart(r) <= r2 < BoxStart(r) + 3) == (BoxStart(r2) <= r < BoxStart(r2) + 3)
  {
  }

  lemma PeerSymmetric(r: int, c: int, r2: int, c2: int)
    requires InRange(r) && InRange(c) && InRange(r2) && InRange(c2)
    ensures Peer(r, c, r2, c2) == Peer(r2, c2, r, c)
  {
    BoxSymmetric(r, r2);
    BoxSymmetric(c, c2);
  }

  /** Filled cells hold 1..9 and no two peers hold the same value. */
  ghost predicate Consistent(b: Board)
    requires Is9x9(b)
  {
    && (forall r, c :: InRange(r) && InRange(c) && b[r][c].Some? ==> 1 <= b[r][c].value <= 9)
    && (forall r, c, r2, c2 ::
          (InRange(r) && InRange(c) && InRange(r2) && InRange(c2) && Peer(r, c, r2, c2) && b[r][c].Some?) ==>
          b[r2][c2] != b[r][c])
  }

  /** Every cell from (row, col) on, in row-major order, is filled. */
  ghost predicate FilledFrom(b: Board, row: int, col: int)
    requires Is9x9(b)
  {
    forall r, c :: InRange(r) && InRange(c) && !Before(r, c, row, col) ==> b[r][c].Some?
  }

  /** A solved grid: full, values 1..9, no repeated value in any row, column or box. */
  ghost predicate Solved(b: Board)
    requires Is9x9(b)
  {
    FilledFrom(b, 0, 0) && Consistent(b)
  }

  /** `b2` keeps every value `b1` had. */
  ghost predicate Extends(b1: Board, b2: Board)
    requires Is9x9(b1) && Is9x9(b2)
  {
    forall r, c :: InRange(r) && InRange(c) && b1[r][c].Some? ==> b2[r][c] == b1[r][c]
  }

  /** Placing a value that passes the generation test into an empty cell keeps the grid consistent. */
  lemma PlaceKeepsConsistent(b: Board, row: int, col: int, num: int)
    requires Is9x9(b) && InRange(row) && InRange(col) && Consistent(b)
    requires b[row][col].None? && 1 <= num <= 9 && ValidForGen(b, row, col, num)
    ensures Consistent(Place(b, row, col, Some(num)))
  {
    var b': Board := Place(b, row, col, Some(num));
    forall r, c, r2, c2 | InRange(r) && InRange(c) && InRange(r2) && InRange(c2)
        && Peer(r, c, r2, c2) && b'[r][c].Some?
      ensures b'[r2][c2] != b'[r][c]
    {
      PeerSymmetric(r, c, r2, c2);
    }
  }

  /**
   * The number of completions the backtracking search visits from (row, col):
   * each empty cell, in row-major order, takes every value 1..9 that passes the
   * generation test against the grid as filled so far, and each way of reaching
   * the end of the grid counts once. This is the count without any cap.
   */
  ghost function Completions(b: Board, row: int, col: int): nat
    requires Is9x9(b) && 0 <= row <= 9 && 0 <= col <= 9
    decreases 9 - row, 10 - col, 1, 0
  {
    if row == 9 then 1
    else if col == 9 then Completions(b, row + 1, 0)
    else if b[row][col].Some? then Completions(b, row, col + 1)
    else CandidateCompletions(b, row, col, 1)
  }

  /** Completions contributed by the candidates `num`..9 for the empty cell (row, col). */
  ghost function CandidateCompletions(b: Board, row: int, col: int, num: int): nat
    requires Is9x9(b) && InRange(row) && InRange(col) && 1 <= num <= 10
    decreases 9 - row, 10 - col, 0, 10 - num
  {
    if num == 10 then 0
    else CandidateValue(b, row, col, num) + CandidateCompletions(b, row, col, num + 1)
  }

  /** Completions contributed by the candidate `num` alone for the empty cell (row, col). */
  ghost function CandidateValue(b: Board, row: int, col: int, num: int): nat
    requires Is9x9(b) && InRange(row) && InRange(col) && 1 <= num <= 9
    decreases 9 - row, 10 - col, 0, 0
  {
    if ValidForGen(b, row, col, num) then Completions(Place(b, row, col, Some(num)), row, col + 1) else 0
  }

  /** A grid with no blank from (row, col) on has exactly one completion: itself. */
  lemma {:induction false} FilledHasOneCompletion(b: Board, row: int, col: int)
    requires Is9x9(b) && 0 <= row <= 9 && 0 <= col <= 9 && FilledFrom(b, row, col)
    ensures Completions(b, row, col) == 1
    decreases 9 - row, 10 - col
  {
    if row == 9 {
    } else if col == 9 {
      FilledHasOneCompletion(b, row + 1, 0);
    } else {
      assert InRange(row) && InRange(col) && !Before(row, col, row, col);
      FilledHasOneCompletion(b, row, col + 1);
    }
  }

  function Min(a: int, b: int): int { if a <= b then a else b }

  /** Writing a cell and then writing back its old value leaves the board as it was. */
  lemma PlaceRestore(b: Board, row: int, col: int, v: Option<int>)
    requires Is9x9(b) && InRange(row) && InRange(col)
    ensures Place(Place(b, row, col, v), row, col, b[row][col]) == b
  {
    BoardsEqual(Place(Place(b, row, col, v), row, col, b[row][col]), b);
  }

  /**
   * The inner `solve` of `countSolutions`, with the captured counter passed in
   * and returned. It writes candidates into empty cells and clears them again,
   * so the grid is as it was on return; the counter reaches the smaller of
   * `limit` and the uncapped number of completions, and the answer says whether
   * the cap was reached.
   */
  method CountFrom(grid: SearchGrid, row: int, col: int, count: nat, limit: int)
    returns (stop: bool, newCount: nat)
    requires Is9x9(grid.cells) && 0 <= row <= 9 && 0 <= col <= 9
    modifies grid
    ensures grid.cells == old(grid.cells)
    ensures newCount == if count >= limit then count else Min(limit, count + Completions(old(grid.cells), row, col))
    ensures stop == (newCount >= limit)
    decreases 9 - row, 10 - col, 2
  {
    if count >= limit {
      return true, count;
    }
    if row == 9 {
      newCount := count + 1;
      return newCount >= limit, newCount;
    }
    if col == 9 {
      stop, newCount := CountFrom(grid, row + 1, 0, count, limit);
      return;
    }
    if grid.cells[row][col].Some? {
      stop, newCount := CountFrom(grid, row, col + 1, count, limit);
      return;
    }
    stop, newCount := CountCandidates(grid, row, col, count, limit);
  }

  /**
   * The loop of `solve` over the candidates 1..9 for the empty cell (row, col):
   * it stops as soon as the cap is reached.
   */
  method CountCandidates(grid: SearchGrid, row: int, col: int, count: nat, limit: int)
    returns (stop: bool, newCount: nat)
    requires Is9x9(grid.cells) && InRange(row) && InRange(col)
    requires grid.cells[row][col].None? && count < limit
    modifies grid
    ensures grid.cells == old(grid.cells)
    ensures newCount == Min(limit, count + CandidateCompletions(old(grid.cells), row, col, 1))
    ensures stop == (newCount >= limit)
    decreases 9 - row, 10 - col, 1
  {
    ghost var start := grid.cells;
    newCount := count;
    for num := 1 to 10
      invariant grid.cells == start
      invariant count <= newCount < limit
      invariant CandidateCompletions(start, row, col, 1) == newCount - count + CandidateCompletions(start, row, col, num)
    {
      ghost var before := newCount;
      var found;
      found, newCount := TryCandidate(grid, row, col, num, newCount, limit);
      assert CandidateCompletions(start, row, col, num)
          == CandidateValue(start, row, col, num) + CandidateCompletions(start, row, col, num + 1);
      if found {
        return true, newCount;
      }
    }
    return false, newCount;
  }

  /**
   * One candidate of that loop: when `num` passes the generation test it is
   * written, the rest of the grid is counted, and the cell is cleared again.
   */
  method TryCandidate(grid: SearchGrid, row: int, col: int, num: int, count: nat, limit: int)
    returns (found: bool, newCount: nat)
    requires Is9x9(grid.cells) && InRange(row) && InRange(col) && 1 <= num <= 9
    requires grid.cells[row][col].None? && count < limit
    modifies grid
    ensures grid.cells == old(grid.cells)
    ensures newCount == Min(limit, count + CandidateValue(old(grid.cells), row, col, num))
    ensures found == (newCount >= limit)
    decreases 9 - row, 10 - col, 0
  {
    ghost var start := grid.cells;
    newCount := count;
    found := false;
    var valid := IsValidForGeneration(grid.cells, row, col, num);
    if valid {
      grid.cells := Place(grid.cells, row, col, Some(num));
      var solved;
      solved, newCount := CountFrom(grid, row, col + 1, count, limit);
      found := solved && newCount >= limit;
      grid.cells := Place(grid.cells, row, col, None);
      PlaceRestore(start, row, col, Some(num));
    }
  }

  /**
   * `countSolutions`: the number of completions of the grid, capped at `limit`
   * (none when `limit <= 0`); the grid is left as it was. On a grid whose
   * givens do not clash, a count of 0 means there is no solution, and with a
   * cap above 1 a count of 1 means there is exactly one.
   */
  method CountSolutions(grid: SearchGrid, limit: int) returns (count: nat)
    requires Is9x9(grid.cells)
    modifies grid
    ensures grid.cells == old(grid.cells)
    ensures count == if limit <= 0 then 0 else Min(limit, Completions(old(grid.cells), 0, 0))
    ensures limit >= 0 ==> count <= limit
    ensures Consistent(old(grid.cells)) && limit > 0 ==> (count == 0 <==> Unsolvable(old(grid.cells)))
    ensures Consistent(old(grid.cells)) && limit > 1 ==> (count == 1 <==> exists s :: UniqueSolution(old(grid.cells), s))
  {
    var stop;
    stop, count := CountFrom(grid, 0, 0, 0, limit);
    CappedCount(old(grid.cells), limit, count);
  }

  /** What a count of completions capped at `limit` says about the solutions of a consistent grid. */
  lemma CappedCount(b: Board, limit: int, count: int)
    requires Is9x9(b) && count == if limit <= 0 then 0 else Min(limit, Completions(b, 0, 0))
    ensures Consistent(b) && limit > 0 ==> (count == 0 <==> Unsolvable(b))
    ensures Consistent(b) && limit > 1 ==> (count == 1 <==> exists s :: UniqueSolution(b, s))
  {
    if Consistent(b) {
      CompletionsCountSolutions(b);
    }
  }

  /** Every cell before (row, col), in row-major order, is filled. */
  ghost predicate FilledBefore(b: Board, row: int, col: int)
    requires Is9x9(b)
  {
    forall r, c :: InRange(r) && InRange(c) && Before(r, c, row, col) ==> b[r][c].Some?
  }

  /** Moving past a filled cell, or past the end of a row, keeps every earlier cell filled. */
  lemma FilledBeforeStep(b: Board, row: int, col: int)
    requires Is9x9(b) && InRange(row) && 0 <= col <= 9 && FilledBefore(b, row, col)
    requires col < 9 ==> b[row][col].Some?
    ensures col == 9 ==> FilledBefore(b, row + 1, 0)
    ensures col < 9 ==> FilledBefore(b, row, col + 1)
  {
  }

  /** Filling (row, col) extends the filled prefix past it. */
  lemma PlaceFilledBefore(b: Board, row: int, col: int, v: int)
    requires Is9x9(b) && InRange(row) && InRange(col) && FilledBefore(b, row, col)
    ensures FilledBefore(Place(b, row, col, Some(v)), row, col + 1)
  {
    var b': Board := Place(b, row, col, Some(v));
    forall r, c | InRange(r) && InRange(c) && Before(r, c, row, col + 1)
      ensures b'[r][c].Some?
    {
      if r != row || c != col {
        assert Before(r, c, row, col);
      }
    }
  }

  /** A consistent grid filled before row 9 is its own solved extension. */
  lemma FilledGridSolved(b: Board, col: int)
    requires Is9x9(b) && Consistent(b) && FilledBefore(b, 9, col)
    ensures SolvedExtension(b, b)
  {
    assert FilledFrom(b, 0, 0);
  }

  /** `s` is a solved grid that keeps every value of `b`. */
  ghost predicate SolvedExtension(b: Board, s: Board)
  {
    Is9x9(b) && Is9x9(s) && Solved(s) && Extends(b, s)
  }

  /** No solved extension of `b` exists. */
  ghost predicate Unsolvable(b: Board)
  {
    forall s :: !SolvedExtension(b, s)
  }

  /** No solved extension of `b` holds `v` at (row, col). */
  ghost predicate ExcludedValue(b: Board, row: int, col: int, v: int)
    requires InRange(row) && InRange(col)
  {
    forall s :: SolvedExtension(b, s) ==> s[row][col] != Some(v)
  }

  /** The value a solved extension holds at an empty cell passes the generation test. */
  lemma ExtensionValueValid(b: Board, s: Board, row: int, col: int)
    requires SolvedExtension(b, s) && InRange(row) && InRange(col) && b[row][col].None?
    ensures s[row][col].Some? && 1 <= s[row][col].value <= 9
    ensures ValidForGen(b, row, col, s[row][col].value)
  {
    assert !Before(row, col, 0, 0);
    forall r2, c2 | InRange(r2) && InRange(c2) && SameUnit(row, col, r2, c2)
      ensures b[r2][c2] != s[row][col]
    {
      if b[r2][c2].Some? {
        assert s[r2][c2] == b[r2][c2];
        assert Peer(row, col, r2, c2);
      }
    }
  }

  /** A solved extension of `b` is one of the board with that extension's value written in. */
  lemma ExtensionOfPlace(b: Board, s: Board, row: int, col: int)
    requires SolvedExtension(b, s) && InRange(row) && InRange(col)
    ensures SolvedExtension(Place(b, row, col, s[row][col]), s)
  {
  }

  /** A value that fails the generation test at an empty cell is held there by no solved extension. */
  lemma InvalidValueExcluded(b: Board, row: int, col: int, num: int)
    requires Is9x9(b) && InRange(row) && InRange(col) && b[row][col].None?
    requires !ValidForGen(b, row, col, num)
    ensures ExcludedValue(b, row, col, num)
  {
    forall s | SolvedExtension(b, s)
      ensures s[row][col] != Some(num)
    {
      ExtensionValueValid(b, s, row, col);
    }
  }

  /** When the board with `num` written in has no solved extension, `num` is excluded there. */
  lemma UnsolvablePlaceExcluded(b: Board, row: int, col: int, num: int)
    requires Is9x9(b) && InRange(row) && InRange(col)
    requires Unsolvable(Place(b, row, col, Some(num)))
    ensures ExcludedValue(b, row, col, num)
  {
    forall s | SolvedExtension(b, s)
      ensures s[row][col] != Some(num)
    {
      if s[row][col] == Some(num) {
        ExtensionOfPlace(b, s, row, col);
      }
    }
  }

  /** A solved extension of a solved extension of `b` is one of `b`. */
  lemma ExtendsTransitive(b1: Board, b2: Board, b3: Board)
    requires Is9x9(b1) && Is9x9(b2) && Is9x9(b3) && Extends(b1, b2) && Extends(b2, b3)
    ensures Extends(b1, b3)
  {
  }

  /** `f(num) + ... + f(9)`: the shape of `CandidateCompletions`, over any contributions `f`. */
  function SumFrom(f: int -> nat, num: int): nat
    decreases 10 - num
  {
    if num >= 10 then 0 else f(num) + SumFrom(f, num + 1)
  }

  /** The contribution of each candidate for the empty cell (row, col). */
  ghost function CandidateValues(b: Board, row: int, col: int): int -> nat
    requires Is9x9(b) && InRange(row) && InRange(col)
  {
    n => if 1 <= n <= 9 then CandidateValue(b, row, col, n) else 0
  }

  /** The candidates' completions are the sum of their contributions. */
  lemma {:induction false} CandidateSum(b: Board, row: int, col: int, num: int)
    requires Is9x9(b) && InRange(row) && InRange(col) && 1 <= num <= 10
    ensures CandidateCompletions(b, row, col, num) == SumFrom(CandidateValues(b, row, col), num)
    decreases 10 - num
  {
    var f := CandidateValues(b, row, col);
    if num < 10 {
      CandidateSum(b, row, col, num + 1);
      assert f(num) == CandidateValue(b, row, col, num);
      assert CandidateCompletions(b, row, col, num) == CandidateValue(b, row, col, num) + CandidateCompletions(b, row, col, num + 1);
      assert SumFrom(f, num) == f(num) + SumFrom(f, num + 1);
    }
  }

  lemma {:induction false} SumAtLeast(f: int -> nat, num: int, v: int)
    requires num <= v <= 9
    ensures SumFrom(f, num) >= f(v)
    decreases 10 - num
  {
    if num < v {
      SumAtLeast(f, num + 1, v);
    }
  }

  lemma {:induction false} SumPairAtLeast(f: int -> nat, num: int, v1: int, v2: int)
    requires num <= v1 < v2 <= 9
    ensures SumFrom(f, num) >= f(v1) + f(v2)
    decreases 10 - num
  {
    if num < v1 {
      SumPairAtLeast(f, num + 1, v1, v2);
    } else {
      SumAtLeast(f, num + 1, v2);
    }
  }

  lemma {:induction false} SumWitness(f: int -> nat, num: int) returns (v: int)
    requires SumFrom(f, num) >= 1
    ensures num <= v <= 9 && f(v) >= 1
    decreases 10 - num
  {
    if f(num) >= 1 {
      v := num;
    } else {
      v := SumWitness(f, num + 1);
    }
  }

  lemma {:induction false} SumSplit(f: int -> nat, num: int) returns (v1: int, v2: int)
    requires SumFrom(f, num) >= 2
    ensures num <= v1 <= v2 <= 9 && f(v1) >= 1 && f(v2) >= 1
    ensures v1 == v2 ==> f(v1) >= 2
    decreases 10 - num
  {
    if f(num) >= 2 {
      v1, v2 := num, num;
    } else if f(num) == 1 {
      v1 := num;
      v2 := SumWitness(f, num + 1);
    } else {
      v1, v2 := SumSplit(f, num + 1);
    }
  }

  /** The candidates from `num` on contribute at least what the candidate `v` contributes. */
  lemma CandidateAtLeast(b: Board, row: int, col: int, num: int, v: int)
    requires Is9x9(b) && InRange(row) && InRange(col) && 1 <= num <= v <= 9
    ensures CandidateCompletions(b, row, col, num) >= CandidateValue(b, row, col, v)
  {
    CandidateSum(b, row, col, num);
    SumAtLeast(CandidateValues(b, row, col), num, v);
    assert CandidateValues(b, row, col)(v) == CandidateValue(b, row, col, v);
  }

  /** The candidates from `num` on contribute at least what two distinct candidates contribute together. */
  lemma CandidatePairAtLeast(b: Board, row: int, col: int, num: int, v1: int, v2: int)
    requires Is9x9(b) && InRange(row) && InRange(col) && 1 <= num <= v1 < v2 <= 9
    ensures CandidateCompletions(b, row, col, num) >= CandidateValue(b, row, col, v1) + CandidateValue(b, row, col, v2)
  {
    CandidateSum(b, row, col, num);
    SumPairAtLeast(CandidateValues(b, row, col), num, v1, v2);
    assert CandidateValues(b, row, col)(v1) == CandidateValue(b, row, col, v1);
    assert CandidateValues(b, row, col)(v2) == CandidateValue(b, row, col, v2);
  }

  /** Some candidate from `num` on contributes when the candidates together do. */
  lemma CandidateWitness(b: Board, row: int, col: int, num: int) returns (v: int)
    requires Is9x9(b) && InRange(row) && InRange(col) && 1 <= num <= 10
    requires CandidateCompletions(b, row, col, num) >= 1
    ensures num <= v <= 9 && CandidateValue(b, row, col, v) >= 1
  {
    CandidateSum(b, row, col, num);
    v := SumWitness(CandidateValues(b, row, col), num);
    assert CandidateValues(b, row, col)(v) == CandidateValue(b, row, col, v);
  }

  /**
   * When the candidates from `num` on contribute two or more, either one
   * candidate contributes two or more, or two distinct candidates contribute.
   */
  lemma CandidateSplit(b: Board, row: int, col: int, num: int) returns (v1: int, v2: int)
    requires Is9x9(b) && InRange(row) && InRange(col) && 1 <= num <= 10
    requires CandidateCompletions(b, row, col, num) >= 2
    ensures num <= v1 <= v2 <= 9 && CandidateValue(b, row, col, v1) >= 1 && CandidateValue(b, row, col, v2) >= 1
    ensures v1 == v2 ==> CandidateValue(b, row, col, v1) >= 2
  {
    CandidateSum(b, row, col, num);
    v1, v2 := SumSplit(CandidateValues(b, row, col), num);
    assert CandidateValues(b, row, col)(v1) == CandidateValue(b, row, col, v1);
    assert CandidateValues(b, row, col)(v2) == CandidateValue(b, row, col, v2);
  }

  /** Writing a value into an empty cell keeps every value the board had. */
  lemma PlaceExtends(b: Board, row: int, col: int, v: int)
    requires Is9x9(b) && InRange(row) && InRange(col) && b[row][col].None?
    ensures Extends(b, Place(b, row, col, Some(v)))
  {
  }

  /** Every solved extension of the board is one of the completions the search counts. */
  lemma {:induction false} ExtensionCounted(b: Board, s: Board, row: int, col: int)
    requires Is9x9(b) && 0 <= row <= 9 && 0 <= col <= 9 && SolvedExtension(b, s)
    ensures Completions(b, row, col) >= 1
    decreases 9 - row, 10 - col
  {
    if row == 9 {
    } else if col == 9 {
      ExtensionCounted(b, s, row + 1, 0);
    } else if b[row][col].Some? {
      ExtensionCounted(b, s, row, col + 1);
    } else {
      ExtensionValueValid(b, s, row, col);
      var v := s[row][col].value;
      ExtensionOfPlace(b, s, row, col);
      ExtensionCounted(Place(b, row, col, Some(v)), s, row, col + 1);
      CandidateAtLeast(b, row, col, 1, v);
    }
  }

  /**
   * Two solved extensions that differ at a cell (r, c) not before (row, col)
   * in row-major order are two completions of the search from (row, col).
   */
  lemma {:induction false} TwoExtensionsCounted(b: Board, s1: Board, s2: Board, row: int, col: int, r: int, c: int)
    requires Is9x9(b) && 0 <= row <= 9 && 0 <= col <= 9
    requires SolvedExtension(b, s1) && SolvedExtension(b, s2)
    requires InRange(r) && InRange(c) && !Before(r, c, row, col) && s1[r][c] != s2[r][c]
    ensures Completions(b, row, col) >= 2
    decreases 9 - row, 10 - col, 1
  {
    if row == 9 {
      assert false;
    } else if col == 9 {
      TwoExtensionsCounted(b, s1, s2, row + 1, 0, r, c);
    } else if b[row][col].Some? {
      TwoExtensionsCounted(b, s1, s2, row, col + 1, r, c);
    } else {
      TwoAtBlank(b, s1, s2, row, col, r, c);
    }
  }

  /** The empty-cell case of `TwoExtensionsCounted`, for extensions differing at (r, c). */
  lemma {:induction false} TwoAtBlank(b: Board, s1: Board, s2: Board, row: int, col: int, r: int, c: int)
    requires Is9x9(b) && InRange(row) && InRange(col) && b[row][col].None?
    requires SolvedExtension(b, s1) && SolvedExtension(b, s2)
    requires InRange(r) && InRange(c) && !Before(r, c, row, col) && s1[r][c] != s2[r][c]
    ensures Completions(b, row, col) >= 2
    decreases 9 - row, 10 - col, 0
  {
    ExtensionValueValid(b, s1, row, col);
    ExtensionValueValid(b, s2, row, col);
    assert Completions(b, row, col) == CandidateCompletions(b, row, col, 1);
    if s1[row][col] == s2[row][col] {
      var v := s1[row][col].value;
      var b1 := Place(b, row, col, Some(v));
      ExtensionOfPlace(b, s1, row, col);
      ExtensionOfPlace(b, s2, row, col);
      assert !Before(r, c, row, col + 1);
      TwoExtensionsCounted(b1, s1, s2, row, col + 1, r, c);
      assert CandidateValue(b, row, col, v) == Completions(b1, row, col + 1);
      CandidateAtLeast(b, row, col, 1, v);
    } else {
      var v1, v2 := s1[row][col].value, s2[row][col].value;
      ValueCounted(b, s1, row, col);
      ValueCounted(b, s2, row, col);
      if v1 < v2 {
        CandidatePairAtLeast(b, row, col, 1, v1, v2);
      } else {
        CandidatePairAtLeast(b, row, col, 1, v2, v1);
      }
    }
  }

  /** The value a solved extension holds at an empty cell contributes a completion. */
  lemma ValueCounted(b: Board, s: Board, row: int, col: int)
    requires Is9x9(b) && InRange(row) && InRange(col) && b[row][col].None? && SolvedExtension(b, s)
    ensures s[row][col].Some? && 1 <= s[row][col].value <= 9
    ensures CandidateValue(b, row, col, s[row][col].value) >= 1
  {
    ExtensionValueValid(b, s, row, col);
    ExtensionOfPlace(b, s, row, col);
    ExtensionCounted(Place(b, row, col, s[row][col]), s, row, col + 1);
  }

  /** On a consistent grid filled before (row, col), a completion of the search is a solved extension. */
  lemma {:induction false} CountedExtension(b: Board, row: int, col: int) returns (s: Board)
    requires Is9x9(b) && 0 <= row <= 9 && 0 <= col <= 9 && Consistent(b) && FilledBefore(b, row, col)
    requires Completions(b, row, col) >= 1
    ensures SolvedExtension(b, s)
    decreases 9 - row, 10 - col, 1
  {
    if row == 9 {
      FilledGridSolved(b, col);
      s := b;
    } else if col == 9 {
      FilledBeforeStep(b, row, col);
      s := CountedExtension(b, row + 1, 0);
    } else if b[row][col].Some? {
      FilledBeforeStep(b, row, col);
      s := CountedExtension(b, row, col + 1);
    } else {
      s := CountedAtBlank(b, row, col);
    }
  }

  /** The empty-cell case of `CountedExtension`. */
  lemma {:induction false} CountedAtBlank(b: Board, row: int, col: int) returns (s: Board)
    requires Is9x9(b) && InRange(row) && InRange(col) && b[row][col].None?
    requires Consistent(b) && FilledBefore(b, row, col)
    requires Completions(b, row, col) >= 1
    ensures SolvedExtension(b, s)
    decreases 9 - row, 10 - col, 0
  {
    assert Completions(b, row, col) == CandidateCompletions(b, row, col, 1);
    var v := CandidateWitness(b, row, col, 1);
    var b' := Place(b, row, col, Some(v));
    PlaceKeepsConsistent(b, row, col, v);
    PlaceFilledBefore(b, row, col, v);
    s := CountedExtension(b', row, col + 1);
    PlaceExtends(b, row, col, v);
    ExtendsTransitive(b, b', s);
  }

  /** On a consistent grid filled before (row, col), two completions of the search are two distinct solved extensions. */
  lemma {:induction false} CountedTwoExtensions(b: Board, row: int, col: int) returns (s1: Board, s2: Board)
    requires Is9x9(b) && 0 <= row <= 9 && 0 <= col <= 9 && Consistent(b) && FilledBefore(b, row, col)
    requires Completions(b, row, col) >= 2
    ensures SolvedExtension(b, s1) && SolvedExtension(b, s2) && s1 != s2
    decreases 9 - row, 10 - col, 1
  {
    if row == 9 {
      assert false;
    } else if col == 9 {
      assert Completions(b, row, col) == Completions(b, row + 1, 0);
      FilledBeforeStep(b, row, col);
      s1, s2 := CountedTwoExtensions(b, row + 1, 0);
    } else if b[row][col].Some? {
      assert Completions(b, row, col) == Completions(b, row, col + 1);
      FilledBeforeStep(b, row, col);
      s1, s2 := CountedTwoExtensions(b, row, col + 1);
    } else {
      assert Completions(b, row, col) == CandidateCompletions(b, row, col, 1);
      s1, s2 := CountedTwoAtBlank(b, row, col);
    }
  }

  /** The blank-cell step of `CountedTwoExtensions`. */
  lemma {:induction false} CountedTwoAtBlank(b: Board, row: int, col: int) returns (s1: Board, s2: Board)
    requires Is9x9(b) && InRange(row) && InRange(col) && Consistent(b) && FilledBefore(b, row, col)
    requires b[row][col].None? && CandidateCompletions(b, row, col, 1) >= 2
    ensures SolvedExtension(b, s1) && SolvedExtension(b, s2) && s1 != s2
    decreases 9 - row, 10 - col, 0, 1
  {
    var v1, v2 := CandidateSplit(b, row, col, 1);
    if v1 == v2 {
      s1, s2 := TwoThroughValue(b, row, col, v1);
    } else {
      s1 := OneThroughValue(b, row, col, v1);
      s2 := OneThroughValue(b, row, col, v2);
      assert s1[row][col] != s2[row][col];
    }
  }

  /** A candidate that contributes a completion gives a solved extension holding it. */
  lemma OneThroughValue(b: Board, row: int, col: int, v: int) returns (s: Board)
    requires Is9x9(b) && InRange(row) && InRange(col) && Consistent(b) && FilledBefore(b, row, col)
    requires b[row][col].None? && 1 <= v <= 9 && CandidateValue(b, row, col, v) >= 1
    ensures SolvedExtension(b, s) && s[row][col] == Some(v)
  {
    var b' := Place(b, row, col, Some(v));
    PlaceKeepsConsistent(b, row, col, v);
    PlaceFilledBefore(b, row, col, v);
    s := CountedExtension(b', row, col + 1);
    PlaceExtends(b, row, col, v);
    ExtendsTransitive(b, b', s);
  }

  /** A candidate that contributes two completions gives two distinct solved extensions. */
  lemma {:induction false} TwoThroughValue(b: Board, row: int, col: int, v: int) returns (s1: Board, s2: Board)
    requires Is9x9(b) && InRange(row) && InRange(col) && Consistent(b) && FilledBefore(b, row, col)
    requires b[row][col].None? && 1 <= v <= 9 && CandidateValue(b, row, col, v) >= 2
    ensures SolvedExtension(b, s1) && SolvedExtension(b, s2) && s1 != s2
    decreases 9 - row, 10 - col, 0, 0
  {
    var b' := Place(b, row, col, Some(v));
    PlaceKeepsConsistent(b, row, col, v);
    PlaceFilledBefore(b, row, col, v);
    s1, s2 := CountedTwoExtensions(b', row, col + 1);
    PlaceExtends(b, row, col, v);
    ExtendsTransitive(b, b', s1);
    ExtendsTransitive(b, b', s2);
  }

  /** Two distinct solved extensions leave no room for a unique one. */
  lemma NotUnique(b: Board, s1: Board, s2: Board, t: Board)
    requires SolvedExtension(b, s1) && SolvedExtension(b, s2) && s1 != s2
    ensures !UniqueSolution(b, t)
  {
  }

  /** `s` is the one and only solved extension of `b`. */
  ghost predicate UniqueSolution(b: Board, s: Board)
  {
    SolvedExtension(b, s) && forall s' :: SolvedExtension(b, s') ==> s' == s
  }

  /** With at most one completion of the search, a board has at most one solved extension. */
  lemma OneCompletionUnique(b: Board, s1: Board, s2: Board)
    requires Is9x9(b) && Completions(b, 0, 0) <= 1
    requires SolvedExtension(b, s1) && SolvedExtension(b, s2)
    ensures s1 == s2
  {
    if s1 != s2 {
      var r, c := DifferingCell(s1, s2);
      assert !Before(r, c, 0, 0);
      TwoExtensionsCounted(b, s1, s2, 0, 0, r, c);
    }
  }

  /** Two different 9x9 boards differ at some cell. */
  lemma DifferingCell(b1: Board, b2: Board) returns (r: int, c: int)
    requires Is9x9(b1) && Is9x9(b2) && b1 != b2
    ensures InRange(r) && InRange(c) && b1[r][c] != b2[r][c]
  {
    if forall r, c :: InRange(r) && InRange(c) ==> b1[r][c] == b2[r][c] {
      BoardsEqual(b1, b2);
      assert false;
    }
    r, c :| InRange(r) && InRange(c) && b1[r][c] != b2[r][c];
  }

  /**
   * What the search counts on a consistent grid: no completion exactly when
   * there is no solution, and one completion exactly when there is a single
   * solution. (`countSolutions` caps this count at its limit.)
   */
  lemma CompletionsCountSolutions(b: Board)
    requires Is9x9(b) && Consistent(b)
    ensures Completions(b, 0, 0) == 0 <==> Unsolvable(b)
    ensures Completions(b, 0, 0) == 1 <==> exists s :: UniqueSolution(b, s)
  {
    assert FilledBefore(b, 0, 0);
    if Completions(b, 0, 0) == 0 {
      forall s | SolvedExtension(b, s)
        ensures false
      {
        ExtensionCounted(b, s, 0, 0);
      }
    } else {
      var s := CountedExtension(b, 0, 0);
      if Completions(b, 0, 0) == 1 {
        forall s' | SolvedExtension(b, s')
          ensures s' == s
        {
          OneCompletionUnique(b, s', s);
        }
        assert UniqueSolution(b, s);
      } else {
        var s1, s2 := CountedTwoExtensions(b, 0, 0);
        forall t
          ensures !UniqueSolution(b, t)
        {
          NotUnique(b, s1, s2, t);
        }
      }
    }
  }

  /** The values `generateSolvedGrid` shuffles for each empty cell: 1..9 in order. */
  function Digits(): (ds: seq<int>)
    ensures |ds| == 9 && forall i :: 0 <= i < 9 ==> ds[i] == i + 1
  {
    [1, 2, 3, 4, 5, 6, 7, 8, 9]
  }

  /** A permutation of 1..9 holds each of 1..9 and nothing else. */
  lemma DigitPermutation(numbers: seq<int>)
    requires multiset(numbers) == multiset(Digits())
    ensures forall i :: 0 <= i < |numbers| ==> 1 <= numbers[i] <= 9
    ensures forall v :: 1 <= v <= 9 ==> v in numbers
  {
    var digits := Digits();
    forall i | 0 <= i < |numbers|
      ensures 1 <= numbers[i] <= 9
    {
      assert numbers[i] in multiset(digits);
      var k :| 0 <= k < 9 && digits[k] == numbers[i];
    }
    forall v | 1 <= v <= 9
      ensures v in numbers
    {
      assert digits[v - 1] == v;
      assert v in multiset(numbers);
    }
  }

  /**
   * The inner `solve` of `generateSolvedGrid`: fills the empty cells from
   * (row, col) on, trying the values of each empty cell in a shuffled order.
   * On success the grid is a solved extension of what it was; on failure it is
   * as it was and no solved extension exists, so the search is exhaustive.
   */
  method FillFrom(grid: SearchGrid, row: int, col: int, rng: nat -> nat, draw: nat)
    returns (ok: bool, next: nat)
    requires Is9x9(grid.cells) && 0 <= row <= 9 && 0 <= col <= 9
    requires Consistent(grid.cells) && FilledBefore(grid.cells, row, col)
    modifies grid
    ensures Is9x9(grid.cells)
    ensures ok ==> SolvedExtension(old(grid.cells), grid.cells)
    ensures !ok ==> grid.cells == old(grid.cells)
    ensures !ok ==> Unsolvable(old(grid.cells))
    decreases 9 - row, 10 - col, 2
  {
    if row == 9 {
      FilledGridSolved(grid.cells, col);
      return true, draw;
    }
    if col == 9 {
      FilledBeforeStep(grid.cells, row, col);
      ok, next := FillFrom(grid, row + 1, 0, rng, draw);
      return;
    }
    if grid.cells[row][col].Some? {
      FilledBeforeStep(grid.cells, row, col);
      ok, next := FillFrom(grid, row, col + 1, rng, draw);
      return;
    }
    ok, next := FillCandidates(grid, row, col, rng, draw);
  }

  /** The loop of that `solve` over the shuffled values 1..9 for the empty cell (row, col). */
  method FillCandidates(grid: SearchGrid, row: int, col: int, rng: nat -> nat, draw: nat)
    returns (ok: bool, next: nat)
    requires Is9x9(grid.cells) && InRange(row) && InRange(col) && grid.cells[row][col].None?
    requires Consistent(grid.cells) && FilledBefore(grid.cells, row, col)
    modifies grid
    ensures Is9x9(grid.cells)
    ensures ok ==> SolvedExtension(old(grid.cells), grid.cells)
    ensures !ok ==> grid.cells == old(grid.cells)
    ensures !ok ==> Unsolvable(old(grid.cells))
    decreases 9 - row, 10 - col, 1
  {
    ghost var start := grid.cells;
    var numbers: seq<int>;
    numbers, next := Random.Shuffle(Digits(), rng, draw);
    DigitPermutation(numbers);
    for i := 0 to |numbers|
      invariant grid.cells == start
      invariant forall k :: 0 <= k < i ==> ExcludedValue(start, row, col, numbers[k])
    {
      var found;
      found, next := TryFill(grid, row, col, numbers[i], rng, next);
      if found {
        return true, next;
      }
      ghost var excluded := ExcludedValue(start, row, col, numbers[i]);
      assert excluded;
      forall k | 0 <= k < i + 1
        ensures ExcludedValue(start, row, col, numbers[k])
      {
        if k == i {
          assert excluded;
        }
      }
    }
    forall s: Board | SolvedExtension(start, s)
      ensures false
    {
      ExtensionValueValid(start, s, row, col);
      var v := s[row][col].value;
      var k :| 0 <= k < |numbers| && numbers[k] == v;
    }
    return false, next;
  }

  /**
   * One value of that loop: when `num` passes the generation test it is
   * written and the rest of the grid is filled; if that fails the cell is
   * cleared again, and no solved extension holds `num` there.
   */
  method TryFill(grid: SearchGrid, row: int, col: int, num: int, rng: nat -> nat, draw: nat)
    returns (ok: bool, next: nat)
    requires Is9x9(grid.cells) && InRange(row) && InRange(col) && grid.cells[row][col].None?
    requires Consistent(grid.cells) && FilledBefore(grid.cells, row, col) && 1 <= num <= 9
    modifies grid
    ensures Is9x9(grid.cells)
    ensures ok ==> SolvedExtension(old(grid.cells), grid.cells)
    ensures !ok ==> grid.cells == old(grid.cells)
    ensures !ok ==> ExcludedValue(old(grid.cells), row, col, num)
    decreases 9 - row, 10 - col, 0
  {
    ghost var start := grid.cells;
    next := draw;
    var valid := IsValidForGeneration(grid.cells, row, col, num);
    if !valid {
      InvalidValueExcluded(start, row, col, num);
      return false, next;
    }
    PlaceKeepsConsistent(grid.cells, row, col, num);
    PlaceFilledBefore(grid.cells, row, col, num);
    grid.cells := Place(grid.cells, row, col, Some(num));
    ghost var placed := grid.cells;
    ok, next := FillFrom(grid, row, col + 1, rng, next);
    if ok {
      ExtendsTransitive(start, placed, grid.cells);
      return;
    }
    UnsolvablePlaceExcluded(start, row, col, num);
    grid.cells := Place(grid.cells, row, col, None);
    PlaceRestore(start, row, col, Some(num));
  }

  /** The grid `generateSolvedGrid` starts from: every cell empty. */
  function EmptyBoard(): (b: Board)
    ensures Is9x9(b)
    ensures forall r, c :: InRange(r) && InRange(c) ==> b[r][c].None?
  {
    seq(9, r => seq(9, c => None))
  }

  /**
   * `generateSolvedGrid`: the randomised backtracking search from the empty
   * grid. On success the grid is solved; the search fails only when the empty
   * grid has no solved extension at all.
   */
  method GenerateSolvedGrid(rng: nat -> nat, draw: nat) returns (grid: Board, ok: bool, next: nat)
    ensures Is9x9(grid)
    ensures ok ==> Solved(grid)
    ensures !ok ==> grid == EmptyBoard() && Unsolvable(EmptyBoard())
  {
    var search := new SearchGrid(EmptyBoard());
    ok, next := FillFrom(search, 0, 0, rng, draw);
    grid := search.cells;
  }

  /** A full grid of numbers as a generator grid. */
  function Lift(solution: seq<seq<int>>): (b: Board)
    requires Is9x9(solution)
    ensures Is9x9(b)
    ensures forall r, c :: InRange(r) && InRange(c) ==> b[r][c] == Some(solution[r][c])
  {
    seq(9, r requires 0 <= r < 9 => seq(9, c requires 0 <= c < 9 => Some(solution[r][c])))
  }

  /** The numbers of a full generator grid, as `generateSolvedGrid`'s caller reads them. */
  function Values(b: Board): (solution: seq<seq<int>>)
    requires Is9x9(b) && FilledFrom(b, 0, 0)
    ensures Is9x9(solution)
    ensures Lift(solution) == b
  {
    var s := seq(9, r requires 0 <= r < 9 => seq(9, c requires 0 <= c < 9 => assert !Before(r, c, 0, 0); b[r][c].value));
    BoardsEqual(Lift(s), b);
    s
  }

  /** How many cells the carver tries to blank for each difficulty. */
  function TargetRemoval(difficulty: Difficulty): nat
  {
    match difficulty
    case Easy => 35
    case Medium => 45
    case Hard => 55
  }

  /** The 81 cells in row-major order. */
  function AllPositions(): (ps: seq<Pos>)
    ensures |ps| == 81 && Distinct(ps)
    ensures forall k :: 0 <= k < 81 ==> InRange(ps[k].row) && InRange(ps[k].col)
  {
    seq(81, i => Pos(i / 9, i % 9))
  }

  /** The blank cells of a board. */
  ghost function Blanks(b: Board): set<Pos>
    requires Is9x9(b)
  {
    set r, c | 0 <= r < 9 && 0 <= c < 9 && b[r][c].None? :: Pos(r, c)
  }

  /** Blanking one more cell, whose position is not yet blank, adds it to the blanks. */
  lemma BlanksAfterClear(b: Board, row: int, col: int, blanks: set<Pos>)
    requires Is9x9(b) && InRange(row) && InRange(col)
    requires forall r, c :: InRange(r) && InRange(c) ==> (b[r][c].None? <==> Pos(r, c) in blanks)
    ensures forall r, c :: InRange(r) && InRange(c) ==>
      (Place(b, row, col, None)[r][c].None? <==> Pos(r, c) in blanks + {Pos(row, col)})
  {
  }

  /** The blanks of a board are the positions the characterisation names. */
  lemma BlanksAre(b: Board, blanks: set<Pos>)
    requires Is9x9(b)
    requires forall r, c :: InRange(r) && InRange(c) ==> (b[r][c].None? <==> Pos(r, c) in blanks)
    requires forall p :: p in blanks ==> InRange(p.row) && InRange(p.col)
    ensures Blanks(b) == blanks
  {
    forall p | p in blanks
      ensures p in Blanks(b)
    {
      assert b[p.row][p.col].None?;
    }
  }

  /**
   * What the carver keeps true of its working copy: every cell is blank or the
   * solution's number, the blank cells are exactly `blanks`, and the copy still
   * has exactly one completion.
   */
  ghost predicate Carved(b: Board, solution: seq<seq<int>>, blanks: set<Pos>)
  {
    && Is9x9(b) && Is9x9(solution) && CluesAgree(b, solution)
    && (forall r, c :: InRange(r) && InRange(c) ==> (b[r][c].None? <==> Pos(r, c) in blanks))
    && (forall p :: p in blanks ==> InRange(p.row) && InRange(p.col))
    && Completions(b, 0, 0) == 1
  }

  /** The carver starts from a full copy of the solution with no blanks. */
  lemma CarvedStart(solution: seq<seq<int>>)
    requires Is9x9(solution)
    ensures Carved(Lift(solution), solution, {})
  {
    FilledHasOneCompletion(Lift(solution), 0, 0);
  }

  /**
   * One step of the carver: blank (row, col), count the completions of a copy
   * with the cap 2, and put the number back unless the count is exactly 1.
   */
  method TryBlank(grid: SearchGrid, row: int, col: int, ghost solution: seq<seq<int>>, ghost blanks: set<Pos>)
    returns (kept: bool)
    requires Carved(grid.cells, solution, blanks) && InRange(row) && InRange(col) && Pos(row, col) !in blanks
    modifies grid
    ensures kept <==> Min(2, Completions(Place(old(grid.cells), row, col, None), 0, 0)) == 1
    ensures kept ==> Carved(grid.cells, solution, blanks + {Pos(row, col)})
    ensures kept ==> grid.cells == Place(old(grid.cells), row, col, None)
    ensures !kept ==> grid.cells == old(grid.cells)
  {
    var backup := grid.cells[row][col];
    ghost var before := grid.cells;
    BlanksAfterClear(grid.cells, row, col, blanks);
    grid.cells := Place(grid.cells, row, col, None);
    var testGrid := new SearchGrid(grid.cells);
    var count := CountSolutions(testGrid, 2);
    if count != 1 {
      grid.cells := Place(grid.cells, row, col, backup);
      PlaceRestore(before, row, col, None);
      return false;
    }
    return true;
  }

  /**
   * The greedy carving the source performs, as a reference: the cells of
   * `order` are visited in turn while fewer than `target` blanks have been
   * kept; each is blanked, and the blank stays exactly when the count of
   * completions, capped at 2, is 1.
   */
  ghost function Carve(b: Board, order: seq<Pos>, removed: nat, target: nat): (r: Board)
    requires Is9x9(b) && forall k :: 0 <= k < |order| ==> InRange(order[k].row) && InRange(order[k].col)
    ensures Is9x9(r)
    decreases |order|
  {
    if order == [] || removed >= target then b
    else
      var p := order[0];
      var blanked := Place(b, p.row, p.col, None);
      if Min(2, Completions(blanked, 0, 0)) == 1 then Carve(blanked, order[1..], removed + 1, target)
      else Carve(b, order[1..], removed, target)
  }

  /** A board with clues from a solved grid and a single completion has that grid as its only solution. */
  lemma CarvedUnique(b: Board, solution: seq<seq<int>>)
    requires Is9x9(b) && Is9x9(solution) && CluesAgree(b, solution) && Completions(b, 0, 0) == 1
    requires Solved(Lift(solution))
    ensures UniqueSolution(b, Lift(solution))
  {
    var s := Lift(solution);
    assert SolvedExtension(b, s);
    forall s' | SolvedExtension(b, s')
      ensures s' == s
    {
      OneCompletionUnique(b, s', s);
    }
  }

  /**
   * `createPuzzleFromSolution`: copies the solution, then visits the 81 cells
   * in a shuffled order, blanking each while fewer than the difficulty's target
   * are blank and keeping a blank only when the capped count of completions of
   * the copy is exactly 1. The solution is a value and is not changed. The
   * shuffled order is returned as a ghost result.
   */
  method CreatePuzzleFromSolution(solution: seq<seq<int>>, difficulty: Difficulty, rng: nat -> nat, draw: nat)
    returns (puzzle: Board, ghost order: seq<Pos>, next: nat)
    requires Is9x9(solution)
    ensures multiset(order) == multiset(AllPositions())
    ensures forall k :: 0 <= k < |order| ==> InRange(order[k].row) && InRange(order[k].col)
    ensures puzzle == Carve(Lift(solution), order, 0, TargetRemoval(difficulty))
    ensures Is9x9(puzzle)
    ensures CluesAgree(puzzle, solution)
    ensures |Blanks(puzzle)| <= TargetRemoval(difficulty)
    ensures Completions(puzzle, 0, 0) == 1
    ensures Solved(Lift(solution)) ==> UniqueSolution(puzzle, Lift(solution))
  {
    var grid := new SearchGrid(Lift(solution));
    CarvedStart(solution);
    var positions: seq<Pos>;
    positions, next := Random.Shuffle(AllPositions(), rng, draw);
    PermutationDistinct(positions, AllPositions());
    PositionsInRange(positions);
    order := positions;
    ghost var blanks := CarveCells(grid, solution, positions, TargetRemoval(difficulty));
    puzzle := grid.cells;
    CarvedFinish(puzzle, solution, blanks);
  }

  /**
   * The loop of `createPuzzleFromSolution`: tries the cells of `positions` in
   * turn, stopping once `target` blanks are kept.
   */
  method CarveCells(grid: SearchGrid, solution: seq<seq<int>>, positions: seq<Pos>, target: nat)
    returns (ghost blanks: set<Pos>)
    requires Carved(grid.cells, solution, {}) && Distinct(positions)
    requires forall k :: 0 <= k < |positions| ==> InRange(positions[k].row) && InRange(positions[k].col)
    modifies grid
    ensures Carved(grid.cells, solution, blanks) && |blanks| <= target
    ensures grid.cells == Carve(old(grid.cells), positions, 0, target)
  {
    var removed := 0;
    blanks := {};
    ghost var reference := Carve(grid.cells, positions, 0, target);
    for i := 0 to |positions|
      invariant Carved(grid.cells, solution, blanks)
      invariant forall k :: i <= k < |positions| ==> positions[k] !in blanks
      invariant |blanks| == removed <= target
      invariant Carve(grid.cells, positions[i..], removed, target) == reference
    {
      if removed >= target {
        break;
      }
      var p := positions[i];
      assert positions[i..][0] == p && positions[i..][1..] == positions[i + 1..];
      var kept := TryBlank(grid, p.row, p.col, solution, blanks);
      if kept {
        removed := removed + 1;
        blanks := blanks + {p};
        assert forall k :: i < k < |positions| ==> positions[k] != p;
      }
    }
  }

  /** What a carved board tells about the puzzle handed out. */
  lemma CarvedFinish(b: Board, solution: seq<seq<int>>, blanks: set<Pos>)
    requires Carved(b, solution, blanks)
    ensures Blanks(b) == blanks
    ensures Solved(Lift(solution)) ==> UniqueSolution(b, Lift(solution))
  {
    BlanksAre(b, blanks);
    if Solved(Lift(solution)) {
      CarvedUnique(b, solution);
    }
  }

  /** A permutation of the 81 cells holds in-range positions only. */
  lemma PositionsInRange(positions: seq<Pos>)
    requires multiset(positions) == multiset(AllPositions())
    ensures forall k :: 0 <= k < |positions| ==> InRange(positions[k].row) && InRange(positions[k].col)
  {
    forall k | 0 <= k < |positions|
      ensures InRange(positions[k].row) && InRange(positions[k].col)
    {
      assert positions[k] in multiset(AllPositions());
      var j :| 0 <= j < 81 && AllPositions()[j] == positions[k];
    }
  }

  /**
   * `generateSudokuPuzzle`: a solved grid from the backtracking search, carved
   * for the difficulty. The id and the date, which the source derives from the
   * clock and `Math.random`, are parameters. None stands for a failed search,
   * which happens only when the empty grid has no solved extension.
   */
  method GenerateSudokuPuzzle(difficulty: Difficulty, id: string, date: string, rng: nat -> nat, draw: nat)
    returns (puzzle: Option<SudokuPuzzle>, next: nat)
    ensures puzzle.None? ==> Unsolvable(EmptyBoard())
    ensures puzzle.Some? ==>
      var p := puzzle.value;
      && WellFormedPuzzle(p) && p.id == id && p.date == date && p.difficulty == difficulty
      && Solved(Lift(p.solution)) && CluesAgree(p.initial, p.solution)
      && |Blanks(p.initial)| <= TargetRemoval(difficulty)
      && Completions(p.initial, 0, 0) == 1
      && (forall s :: SolvedExtension(p.initial, s) <==> s == Lift(p.solution))
  {
    var grid, ok;
    grid, ok, next := GenerateSolvedGrid(rng, draw);
    if !ok {
      return None, next;
    }
    var solution := Values(grid);
    var initial;
    ghost var order;
    initial, order, next := CreatePuzzleFromSolution(solution, difficulty, rng, next);
    puzzle := Some(SudokuPuzzle(id, date, difficulty, initial, solution));
  }
}
