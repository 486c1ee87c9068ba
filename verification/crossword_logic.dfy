/**
 * Crossword navigation over a grid with black squares: the cells of a word,
 * the clue a cell belongs to, moving along a word, and checking answers.
 */
module CrosswordLogic {
  import opened Wrappers

  datatype Direction = Across | Down

  /** A square of the puzzle: its answer letter (if any) and whether it is black. */
  datatype CrosswordCell = CrosswordCell(letter: Option<string>, number: Option<int>, isBlack: bool)

  datatype Clue = Clue(number: int, text: string, answer: string, startRow: int, startCol: int, length: int, direction: Direction)

  datatype Coord = Coord(row: int, col: int)

  datatype CrosswordPuzzle = CrosswordPuzzle(
    id: string, date: string, rows: int, cols: int,
    grid: seq<seq<CrosswordCell>>, across: seq<Clue>, down: seq<Clue>)

  /** The grid has the declared number of rows and columns. */
  predicate WellFormed(p: CrosswordPuzzle)
  {
    && p.rows >= 0 && p.cols >= 0
    && |p.grid| == p.rows
    && forall r :: 0 <= r < |p.grid| ==> |p.grid[r]| == p.cols
  }

  /** The user's letters cover the same rows and columns as the puzzle. */
  predicate FitsPuzzle(p: CrosswordPuzzle, userGrid: seq<seq<string>>)
  {
    |userGrid| == p.rows && forall r :: 0 <= r < |userGrid| ==> |userGrid[r]| == p.cols
  }

  predicate InGrid(p: CrosswordPuzzle, row: int, col: int)
  {
    0 <= row < p.rows && 0 <= col < p.cols
  }

  /** An in-bounds square that is not black. */
  predicate Open(p: CrosswordPuzzle, x: Coord)
    requires WellFormed(p)
  {
    InGrid(p, x.row, x.col) && !p.grid[x.row][x.col].isBlack
  }

  /** The position `i` squares along `dir` from `(row, col)`. */
  function Step(row: int, col: int, dir: Direction, i: int): Coord
  {
    if dir == Across then Coord(row, col + i) else Coord(row + i, col)
  }

  function CluesFor(p: CrosswordPuzzle, dir: Direction): seq<Clue>
  {
    if dir == Across then p.across else p.down
  }

  /**
   * How many open squares follow one another from `(row, col)` along `dir`:
   * the word runs up to, and not including, the first edge or black square.
   */
  function WordLength(p: CrosswordPuzzle, row: int, col: int, dir: Direction): (n: nat)
    requires WellFormed(p)
    ensures forall i :: 0 <= i < n ==> Open(p, Step(row, col, dir, i))
    ensures !Open(p, Step(row, col, dir, n))
    decreases if dir == Across then p.cols - col else p.rows - row
  {
    if !Open(p, Coord(row, col)) then 0
    else
      var next := Step(row, col, dir, 1);
      var rest := WordLength(p, next.row, next.col, dir);
      assert forall i :: 1 <= i <= rest + 1 ==> Step(row, col, dir, i) == Step(next.row, next.col, dir, i - 1);
      1 + rest
  }

  /** `WordLength` is the only length with those two properties. */
  lemma WordLengthUnique(p: CrosswordPuzzle, row: int, col: int, dir: Direction, n: nat)
    requires WellFormed(p)
    requires forall i :: 0 <= i < n ==> Open(p, Step(row, col, dir, i))
    requires !Open(p, Step(row, col, dir, n))
    ensures n == WordLength(p, row, col, dir)
  {
  }

  /** `getWordCells`: the squares of the word that starts at `(row, col)` and runs along `dir`. */
  method GetWordCells(p: CrosswordPuzzle, row: int, col: int, dir: Direction) returns (cells: seq<Coord>)
    requires WellFormed(p)
    ensures |cells| == WordLength(p, row, col, dir)
    ensures forall i :: 0 <= i < |cells| ==> cells[i] == Step(row, col, dir, i) && Open(p, cells[i])
  {
    cells := [];
    var r, c := row, col;
    while InGrid(p, r, c) && !p.grid[r][c].isBlack
      invariant Coord(r, c) == Step(row, col, dir, |cells|)
      invariant forall i :: 0 <= i < |cells| ==> cells[i] == Step(row, col, dir, i) && Open(p, cells[i])
      decreases if dir == Across then p.cols - c else p.rows - r
    {
      cells := cells + [Coord(r, c)];
      if dir == Across {
        c := c + 1;
      } else {
        r := r + 1;
      }
    }
    WordLengthUnique(p, row, col, dir, |cells|);
  }

  /** The square `(row, col)` is one of the squares of the word starting at `(startRow, startCol)`. */
  predicate InWord(p: CrosswordPuzzle, startRow: int, startCol: int, dir: Direction, row: int, col: int)
    requires WellFormed(p)
  {
    exists i :: 0 <= i < WordLength(p, startRow, startCol, dir) && Step(startRow, startCol, dir, i) == Coord(row, col)
  }

  /**
   * `findClueForCell`: the first clue of the direction whose word holds the
   * square, or nothing when no clue's word does.
   */
  method FindClueForCell(p: CrosswordPuzzle, row: int, col: int, dir: Direction) returns (r: Option<Clue>)
    requires WellFormed(p)
    ensures r.None? <==> forall k :: 0 <= k < |CluesFor(p, dir)| ==>
      !InWord(p, CluesFor(p, dir)[k].startRow, CluesFor(p, dir)[k].startCol, dir, row, col)
    ensures r.Some? ==> exists k ::
      && 0 <= k < |CluesFor(p, dir)| && CluesFor(p, dir)[k] == r.value
      && InWord(p, r.value.startRow, r.value.startCol, dir, row, col)
      && forall j :: 0 <= j < k ==> !InWord(p, CluesFor(p, dir)[j].startRow, CluesFor(p, dir)[j].startCol, dir, row, col)
  {
    var clues := CluesFor(p, dir);
    for k := 0 to |clues|
      invariant forall j :: 0 <= j < k ==> !InWord(p, clues[j].startRow, clues[j].startCol, dir, row, col)
    {
      var clue := clues[k];
      var cells := GetWordCells(p, clue.startRow, clue.startCol, dir);
      if Coord(row, col) in cells {
        return Some(clue);
      }
      forall i | 0 <= i < WordLength(p, clue.startRow, clue.startCol, dir)
        ensures Step(clue.startRow, clue.startCol, dir, i) != Coord(row, col)
      {
        assert cells[i] == Step(clue.startRow, clue.startCol, dir, i);
      }
    }
    return None;
  }

  /**
   * `getWordStart`: walks back from `(row, col)` along `dir` over open squares;
   * the square before the result is the edge or black.
   */
  method GetWordStart(p: CrosswordPuzzle, row: int, col: int, dir: Direction) returns (start: Coord)
    requires WellFormed(p) && InGrid(p, row, col)
    ensures dir == Across ==>
      && start.row == row && 0 <= start.col <= col
      && (start.col == 0 || p.grid[row][start.col - 1].isBlack)
      && forall c :: start.col <= c < col ==> !p.grid[row][c].isBlack
    ensures dir == Down ==>
      && start.col == col && 0 <= start.row <= row
      && (start.row == 0 || p.grid[start.row - 1][col].isBlack)
      && forall r :: start.row <= r < row ==> !p.grid[r][col].isBlack
  {
    var r, c := row, col;
    if dir == Across {
      while c > 0 && !p.grid[r][c - 1].isBlack
        invariant 0 <= c <= col
        invariant forall k :: c <= k < col ==> !p.grid[row][k].isBlack
      {
        c := c - 1;
      }
    } else {
      while r > 0 && !p.grid[r - 1][c].isBlack
        invariant 0 <= r <= row
        invariant forall k :: r <= k < row ==> !p.grid[k][col].isBlack
      {
        r := r - 1;
      }
    }
    return Coord(r, c);
  }

  /** `getNextCell`: the adjacent square along `dir`, or nothing at the edge or a black square. */
  function GetNextCell(p: CrosswordPuzzle, row: int, col: int, dir: Direction): (r: Option<Coord>)
    requires WellFormed(p) && InGrid(p, row, col)
    ensures r.None? <==> !Open(p, Step(row, col, dir, 1))
    ensures r.Some? ==> r.value == Step(row, col, dir, 1)
  {
    if dir == Across then
      var c := col + 1;
      if c >= p.cols || p.grid[row][c].isBlack then None else Some(Coord(row, c))
    else
      var r := row + 1;
      if r >= p.rows || p.grid[r][col].isBlack then None else Some(Coord(r, col))
  }

  /** `getPrevCell`: the adjacent square against `dir`, or nothing at the edge or a black square. */
  function GetPrevCell(p: CrosswordPuzzle, row: int, col: int, dir: Direction): (r: Option<Coord>)
    requires WellFormed(p) && InGrid(p, row, col)
    ensures r.None? <==> !Open(p, Step(row, col, dir, -1))
    ensures r.Some? ==> r.value == Step(row, col, dir, -1)
  {
    if dir == Across then
      var c := col - 1;
      if c < 0 || p.grid[row][c].isBlack then None else Some(Coord(row, c))
    else
      var r := row - 1;
      if r < 0 || p.grid[r][col].isBlack then None else Some(Coord(r, col))
  }

  /** Moving forward from an open square and then back returns to it. */
  lemma NextThenPrev(p: CrosswordPuzzle, row: int, col: int, dir: Direction)
    requires WellFormed(p) && Open(p, Coord(row, col))
    requires GetNextCell(p, row, col, dir).Some?
    ensures var n := GetNextCell(p, row, col, dir).value;
      InGrid(p, n.row, n.col) && GetPrevCell(p, n.row, n.col, dir) == Some(Coord(row, col))
  {
  }

  /**
   * Stepping forward walks a word: from each of its squares but the last,
   * the next square is the following square of the word, and from the last
   * there is none.
   */
  lemma NextCellWalksWord(p: CrosswordPuzzle, row: int, col: int, dir: Direction, i: nat)
    requires WellFormed(p) && i < WordLength(p, row, col, dir)
    ensures var x := Step(row, col, dir, i);
      InGrid(p, x.row, x.col) &&
      GetNextCell(p, x.row, x.col, dir) ==
        (if i + 1 < WordLength(p, row, col, dir) then Some(Step(row, col, dir, i + 1)) else None)
  {
    var x := Step(row, col, dir, i);
    assert Step(x.row, x.col, dir, 1) == Step(row, col, dir, i + 1);
  }

  /** The user's letter at a square is filled in and is the answer letter. */
  predicate LetterRight(p: CrosswordPuzzle, userGrid: seq<seq<string>>, x: Coord)
    requires WellFormed(p) && FitsPuzzle(p, userGrid) && InGrid(p, x.row, x.col)
  {
    userGrid[x.row][x.col] != "" && p.grid[x.row][x.col].letter == Some(userGrid[x.row][x.col])
  }

  /** `checkWord`: every square of the clue's word holds the right, non-empty letter. */
  method CheckWord(p: CrosswordPuzzle, userGrid: seq<seq<string>>, clue: Clue) returns (ok: bool)
    requires WellFormed(p) && FitsPuzzle(p, userGrid)
    ensures ok <==> forall i :: 0 <= i < WordLength(p, clue.startRow, clue.startCol, clue.direction) ==>
      LetterRight(p, userGrid, Step(clue.startRow, clue.startCol, clue.direction, i))
  {
    var cells := GetWordCells(p, clue.startRow, clue.startCol, clue.direction);
    for i := 0 to |cells|
      invariant forall j :: 0 <= j < i ==> LetterRight(p, userGrid, cells[j])
    {
      var x := cells[i];
      var userLetter := userGrid[x.row][x.col];
      var correctLetter := p.grid[x.row][x.col].letter;
      if userLetter == "" || correctLetter != Some(userLetter) {
        return false;
      }
    }
    return true;
  }

  /** `isPuzzleComplete`: every open square holds its answer letter. */
  method IsPuzzleComplete(p: CrosswordPuzzle, userGrid: seq<seq<string>>) returns (ok: bool)
    requires WellFormed(p) && FitsPuzzle(p, userGrid)
    ensures ok <==> forall r, c :: 0 <= r < p.rows && 0 <= c < p.cols && !p.grid[r][c].isBlack ==>
      p.grid[r][c].letter == Some(userGrid[r][c])
  {
    for r := 0 to p.rows
      invariant forall r', c :: 0 <= r' < r && 0 <= c < p.cols && !p.grid[r'][c].isBlack ==>
        p.grid[r'][c].letter == Some(userGrid[r'][c])
    {
      for c := 0 to p.cols
        invariant forall r', c' :: ((0 <= r' < r && 0 <= c' < p.cols) || (r' == r && 0 <= c' < c)) && !p.grid[r'][c'].isBlack ==>
          p.grid[r'][c'].letter == Some(userGrid[r'][c'])
      {
        var cell := p.grid[r][c];
        if !cell.isBlack {
          if Some(userGrid[r][c]) != cell.letter {
            return false;
          }
        }
      }
    }
    return true;
  }

  /** `createEmptyGrid`: `rows` rows of `cols` empty strings (a negative size gives none). */
  function CreateEmptyGrid(rows: int, cols: int): (g: seq<seq<string>>)
    ensures |g| == (if rows < 0 then 0 else rows)
    ensures forall r :: 0 <= r < |g| ==> |g[r]| == (if cols < 0 then 0 else cols) && forall c :: 0 <= c < |g[r]| ==> g[r][c] == ""
  {
    var width := if cols < 0 then 0 else cols;
    seq(if rows < 0 then 0 else rows, _ => seq(width, _ => ""))
  }

  /** A fresh grid fits the puzzle it is made for. */
  lemma EmptyGridFits(p: CrosswordPuzzle)
    requires WellFormed(p)
    ensures FitsPuzzle(p, CreateEmptyGrid(p.rows, p.cols))
  {
  }
}
