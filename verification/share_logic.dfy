/**
 * The share texts of the four games. A text is a sequence of glyphs: plain
 * characters and the emoji symbols (coloured squares and the streak flame),
 * kept abstract instead of as their UTF-8 bytes.
 */
module ShareLogic {
  import opened Text
  import opened ConnectionsLogic
  import WordleLogic

  datatype Glyph = Ch(c: char) | GreenSquare | YellowSquare | BlackSquare | BlueSquare | PurpleSquare | WhiteSquare | Flame

  type ShareText = seq<Glyph>

  const NL: Glyph := Ch('\n')

  /** Plain text as glyphs. */
  function Lit(s: string): (g: ShareText)
    ensures |g| == |s| && forall i :: 0 <= i < |s| ==> g[i] == Ch(s[i])
    ensures Flame !in g
    ensures NL in g <==> '\n' in s
  {
    seq(|s|, i requires 0 <= i < |s| => Ch(s[i]))
  }

  /** The rows joined with `sep` between consecutive ones (`Array.prototype.join`). */
  function Join(rows: seq<ShareText>, sep: Glyph): ShareText
  {
    if rows == [] then []
    else if |rows| == 1 then rows[0]
    else rows[0] + [sep] + Join(rows[1..], sep)
  }

  /** The pieces of `s` between occurrences of `sep` (`String.prototype.split`); always at least one. */
  function Split(s: ShareText, sep: Glyph): (lines: seq<ShareText>)
    ensures |lines| >= 1
  {
    if s == [] then [[]]
    else
      var rest := Split(s[1..], sep);
      if s[0] == sep then [[]] + rest else [[s[0]] + rest[0]] + rest[1..]
  }

  /** A piece free of the separator splits to itself. */
  lemma {:induction false} SplitPlain(a: ShareText, sep: Glyph)
    requires sep !in a
    ensures Split(a, sep) == [a]
  {
    if a != [] {
      SplitPlain(a[1..], sep);
      assert [a[0]] + a[1..] == a;
    }
  }

  /** Splitting at the first separator peels off the piece before it. */
  lemma {:induction false} SplitAfter(a: ShareText, sep: Glyph, b: ShareText)
    requires sep !in a
    ensures Split(a + [sep] + b, sep) == [a] + Split(b, sep)
  {
    if a == [] {
      assert a + [sep] + b == [sep] + b;
      assert ([sep] + b)[1..] == b;
    } else {
      var s := a + [sep] + b;
      assert s[0] == a[0] && s[1..] == a[1..] + [sep] + b;
      SplitAfter(a[1..], sep, b);
      assert [a[0]] + a[1..] == a;
    }
  }

  /** Splitting undoes joining, for rows free of the separator. */
  lemma {:induction false} SplitJoin(rows: seq<ShareText>, sep: Glyph)
    requires |rows| >= 1 && forall k :: 0 <= k < |rows| ==> sep !in rows[k]
    ensures Split(Join(rows, sep), sep) == rows
  {
    if |rows| == 1 {
      SplitPlain(rows[0], sep);
    } else {
      SplitJoin(rows[1..], sep);
      SplitAfter(rows[0], sep, Join(rows[1..], sep));
      assert [rows[0]] + rows[1..] == rows;
    }
  }

  /** Everything in a join comes from a row or is the separator. */
  lemma {:induction false} JoinMembers(rows: seq<ShareText>, sep: Glyph, x: Glyph)
    requires x in Join(rows, sep)
    ensures x == sep || exists k :: 0 <= k < |rows| && x in rows[k]
  {
    if |rows| > 1 {
      if x !in rows[0] && x != sep {
        JoinMembers(rows[1..], sep, x);
        var k :| 0 <= k < |rows[1..]| && x in rows[1..][k];
        assert x in rows[k + 1];
      }
    }
  }

  /** A title line followed by rows: the lines are the title and then the rows (one empty line when there are none). */
  lemma TitleThenRows(title: ShareText, rows: seq<ShareText>)
    requires NL !in title
    requires forall k :: 0 <= k < |rows| ==> NL !in rows[k] && Flame !in rows[k]
    ensures Split(title + [NL] + Join(rows, NL), NL) == [title] + (if rows == [] then [[]] else rows)
    ensures Flame in title + [NL] + Join(rows, NL) <==> Flame in title
  {
    SplitAfter(title, NL, Join(rows, NL));
    if rows != [] {
      SplitJoin(rows, NL);
    }
    if Flame in Join(rows, NL) {
      JoinMembers(rows, NL, Flame);
    }
  }

  /** Two lines that hold no newline split back apart. */
  lemma TwoLines(a: ShareText, b: ShareText)
    requires NL !in a && NL !in b
    ensures Split(a + [NL] + b, NL) == [a, b]
  {
    SplitAfter(a, NL, b);
    SplitPlain(b, NL);
  }

  /** Decimal digits hold no newline. */
  lemma DigitsOneLine(n: nat)
    ensures '\n' !in NatToString(n)
  {
    var d := NatToString(n);
    assert forall i :: 0 <= i < |d| ==> d[i] != '\n';
  }

  /** The streak suffix, ` 🔥<n>`, shown only for a positive streak. */
  function StreakText(streak: int): (t: ShareText)
    ensures Flame in t <==> streak > 0
    ensures NL !in t
  {
    if streak > 0 then [Ch(' '), Flame] + Lit(NatToString(streak)) else []
  }

  /** One share row: green on an exact match, else yellow when the target holds the letter anywhere, else black. */
  function WordleRow(guess: string, target: string): (row: ShareText)
    requires |guess| <= |target|
    ensures |row| == |guess|
    ensures forall i :: 0 <= i < |guess| ==> (row[i] == GreenSquare <==> UpperChar(guess[i]) == UpperChar(target[i]))
    ensures forall i :: 0 <= i < |guess| ==>
      (row[i] == YellowSquare <==> UpperChar(guess[i]) != UpperChar(target[i]) && UpperChar(guess[i]) in Upper(target))
    ensures forall i :: 0 <= i < |guess| ==> row[i] == GreenSquare || row[i] == YellowSquare || row[i] == BlackSquare
  {
    var targetUpper := Upper(target);
    seq(|guess|, i requires 0 <= i < |guess| =>
      var upperLetter := UpperChar(guess[i]);
      if upperLetter == UpperChar(target[i]) then GreenSquare
      else if upperLetter in targetUpper then YellowSquare
      else BlackSquare)
  }

  /**
   * The share row against the game's own scoring: green exactly where the
   * scorer says correct, and yellow wherever it says present. The converse of
   * the second fails: the row ignores how often the target holds a letter.
   */
  lemma WordleRowAgreesWithScore(guess: string, target: string, i: int)
    requires |guess| == |target| && 0 <= i < |guess| && WordleLogic.NoMarkers(Upper(guess))
    ensures var score := WordleLogic.Score(Upper(guess), Upper(target));
      && (WordleRow(guess, target)[i] == GreenSquare <==> score[i] == WordleLogic.Correct)
      && (score[i] == WordleLogic.Present ==> WordleRow(guess, target)[i] == YellowSquare)
  {
    var g, t := Upper(guess), Upper(target);
    var score := WordleLogic.Score(g, t);
    if score[i] == WordleLogic.Present {
      var marked := WordleLogic.MarkTarget(g, t);
      WordleLogic.CountPositive(marked, g[i]);
      var k :| 0 <= k < |marked| && marked[k] == g[i];
      assert g[i] != '#';
      assert t[k] == g[i];
    }
  }

  /** The same guess row shows yellow where the scorer says absent: "EE" against "AE" scores absent first. */
  lemma WordleRowIgnoresMultiplicity()
    ensures WordleLogic.Score("EE", "AE")[0] == WordleLogic.Absent
    ensures WordleRow("EE", "AE")[0] == YellowSquare
  {
    var score := WordleLogic.Score("EE", "AE");
    var mg := WordleLogic.MarkGuess("EE", "AE");
    var mt := WordleLogic.MarkTarget("EE", "AE");
    assert mg[..0] == [];
    assert mt == ['A', '#'];
    assert mt[..1] == ['A'];
    assert WordleLogic.Count(mt, 'E') == 0;
    assert Upper("AE") == "AE";
    assert 'E' in Upper("AE");
  }

  /**
   * `generateWordleShareText`: the title line (with the streak), the result
   * line `<n>/6` or `X/6`, an empty line, and one row per guess.
   */
  function GenerateWordleShareText(guesses: seq<string>, targetWord: string, streak: int, won: bool): (r: ShareText)
    requires forall k :: 0 <= k < |guesses| ==> |guesses[k]| <= |targetWord|
    ensures Split(r, NL) ==
      [Lit("Free York Wordle") + StreakText(streak), ResultLine(|guesses|, won), []] +
      (if guesses == [] then [[]] else seq(|guesses|, k requires 0 <= k < |guesses| => WordleRow(guesses[k], targetWord)))
    ensures Flame in r <==> streak > 0
  {
    var title := Lit("Free York Wordle") + StreakText(streak);
    var line := ResultLine(|guesses|, won);
    var rows := seq(|guesses|, k requires 0 <= k < |guesses| => WordleRow(guesses[k], targetWord));
    WordleTextLines(title, line, rows);
    title + [NL] + line + [NL, NL] + Join(rows, NL)
  }

  lemma WordleTextLines(title: ShareText, line: ShareText, rows: seq<ShareText>)
    requires NL !in title && NL !in line && Flame !in line
    requires forall k :: 0 <= k < |rows| ==> forall j :: 0 <= j < |rows[k]| ==> rows[k][j] in {GreenSquare, YellowSquare, BlackSquare}
    ensures Split(title + [NL] + line + [NL, NL] + Join(rows, NL), NL) == [title, line, []] + (if rows == [] then [[]] else rows)
    ensures Flame in title + [NL] + line + [NL, NL] + Join(rows, NL) <==> Flame in title
  {
    forall k | 0 <= k < |rows|
      ensures NL !in rows[k] && Flame !in rows[k]
    {
      assert forall j :: 0 <= j < |rows[k]| ==> rows[k][j] != NL && rows[k][j] != Flame;
    }
    var rest := [] + [NL] + Join(rows, NL);
    assert title + [NL] + line + [NL, NL] + Join(rows, NL) == title + [NL] + (line + [NL] + rest);
    SplitAfter(title, NL, line + [NL] + rest);
    SplitAfter(line, NL, rest);
    TitleThenRows([], rows);
  }

  function ResultLine(guessCount: nat, won: bool): (line: ShareText)
    ensures NL !in line && Flame !in line
  {
    DigitsOneLine(guessCount);
    if won then Lit(NatToString(guessCount) + "/6") else Lit("X/6")
  }

  /** A category that has been found, with the order it was found in. */
  datatype SolvedCategory = SolvedCategory(category: Category, solvedAt: int)

  predicate SortedBySolvedAt(s: seq<SolvedCategory>)
  {
    forall i, j :: 0 <= i < j < |s| ==> s[i].solvedAt <= s[j].solvedAt
  }

  /** `x` placed into a sorted list before the first element found no earlier than it. */
  function Insert(x: SolvedCategory, s: seq<SolvedCategory>): (r: seq<SolvedCategory>)
    requires SortedBySolvedAt(s)
    ensures SortedBySolvedAt(r) && multiset(r) == multiset(s) + multiset{x}
    ensures forall y :: y in r ==> y == x || y in s
  {
    if s == [] then [x]
    else if x.solvedAt <= s[0].solvedAt then
      HeadEarliest(s);
      EarliestFirst(x, s);
      [x] + s
    else
      assert s == [s[0]] + s[1..];
      assert SortedBySolvedAt(s[1..]);
      var rest := Insert(x, s[1..]);
      HeadEarliest(s);
      assert forall y :: y in rest ==> s[0].solvedAt <= y.solvedAt;
      EarliestFirst(s[0], rest);
      [s[0]] + rest
  }

  /** The head of a sorted list is solved no later than any of its elements. */
  lemma HeadEarliest(s: seq<SolvedCategory>)
    requires SortedBySolvedAt(s) && s != []
    ensures forall y :: y in s ==> s[0].solvedAt <= y.solvedAt
  {
  }

  /** A category solved no later than all of a sorted list may go in front of it. */
  lemma EarliestFirst(a: SolvedCategory, s: seq<SolvedCategory>)
    requires SortedBySolvedAt(s) && forall y :: y in s ==> a.solvedAt <= y.solvedAt
    ensures SortedBySolvedAt([a] + s)
  {
    assert forall j :: 0 < j < |[a] + s| ==> ([a] + s)[j] in s;
  }

  /**
   * The solved categories in the order they were found: a sorted copy that,
   * like `Array.prototype.sort`, keeps categories with equal `solvedAt` in
   * their input order (see `SortStable`).
   */
  function SortBySolvedAt(s: seq<SolvedCategory>): (r: seq<SolvedCategory>)
    ensures SortedBySolvedAt(r) && multiset(r) == multiset(s)
  {
    if s == [] then []
    else
      assert s == [s[0]] + s[1..];
      Insert(s[0], SortBySolvedAt(s[1..]))
  }

  /** The categories of `s` solved at time `t`, in their order in `s`. */
  function SolvedAtTime(s: seq<SolvedCategory>, t: int): (r: seq<SolvedCategory>)
    ensures forall y :: y in r <==> y in s && y.solvedAt == t
  {
    if s == [] then []
    else if s[0].solvedAt == t then [s[0]] + SolvedAtTime(s[1..], t)
    else SolvedAtTime(s[1..], t)
  }

  /** Inserting `x` keeps it ahead of every category solved at the same time. */
  lemma {:induction false} InsertStable(x: SolvedCategory, s: seq<SolvedCategory>, t: int)
    requires SortedBySolvedAt(s)
    ensures SolvedAtTime(Insert(x, s), t) == SolvedAtTime([x] + s, t)
  {
    if s != [] && x.solvedAt > s[0].solvedAt {
      assert SortedBySolvedAt(s[1..]);
      InsertStable(x, s[1..], t);
      var rest := Insert(x, s[1..]);
      assert Insert(x, s) == [s[0]] + rest;
      assert ([s[0]] + rest)[1..] == rest;
      assert ([x] + s)[1..] == s;
      assert ([x] + s[1..])[1..] == s[1..];
    }
  }

  /** The sort is stable: categories solved at the same time keep their input order. */
  lemma {:induction false} SortStable(s: seq<SolvedCategory>, t: int)
    ensures SolvedAtTime(SortBySolvedAt(s), t) == SolvedAtTime(s, t)
  {
    if s != [] {
      var sorted := SortBySolvedAt(s[1..]);
      SortStable(s[1..], t);
      InsertStable(s[0], sorted, t);
      assert ([s[0]] + sorted)[1..] == sorted;
    }
  }

  /** The colour square for a difficulty: yellow, green, blue, purple, and white for anything else. */
  function DifficultySymbol(difficulty: int): (g: Glyph)
    ensures !g.Ch? && g != Flame
  {
    match difficulty
    case 1 => YellowSquare
    case 2 => GreenSquare
    case 3 => BlueSquare
    case 4 => PurpleSquare
    case _ => WhiteSquare
  }

  /** The difficulty's square, four times (`repeat(4)`). */
  function CategoryLine(c: SolvedCategory): (line: ShareText)
    ensures |line| == 4 && forall j :: 0 <= j < 4 ==> line[j] == DifficultySymbol(c.category.difficulty)
    ensures NL !in line && Flame !in line
  {
    var sym := DifficultySymbol(c.category.difficulty);
    [sym, sym, sym, sym]
  }

  /** One line per category, in the given order. */
  function CategoryLines(s: seq<SolvedCategory>): (lines: seq<ShareText>)
    ensures |lines| == |s| && forall k :: 0 <= k < |s| ==> lines[k] == CategoryLine(s[k])
    ensures forall k :: 0 <= k < |s| ==> NL !in lines[k] && Flame !in lines[k]
  {
    seq(|s|, k requires 0 <= k < |s| => CategoryLine(s[k]))
  }

  /**
   * `generateConnectionsShareText`: the title line (with the streak), then
   * one line of four colour squares per solved category, in solving order.
   */
  function GenerateConnectionsShareText(solvedCategories: seq<SolvedCategory>, streak: int): (r: ShareText)
    ensures var sorted := SortBySolvedAt(solvedCategories);
      Split(r, NL) == [Lit("Free York Connections") + StreakText(streak)] +
        (if sorted == [] then [[]] else CategoryLines(sorted))
    ensures Flame in r <==> streak > 0
  {
    var sorted := SortBySolvedAt(solvedCategories);
    var lines := CategoryLines(sorted);
    var title := Lit("Free York Connections") + StreakText(streak);
    TitleThenRows(title, lines);
    title + [NL] + Join(lines, NL)
  }

  /** The lines of a list with a head in front. */
  lemma CategoryLinesCons(c: SolvedCategory, s: seq<SolvedCategory>)
    ensures CategoryLines([c] + s) == [CategoryLine(c)] + CategoryLines(s)
  {
    assert forall k :: 0 < k <= |s| ==> ([c] + s)[k] == s[k - 1];
  }

  /** Inserting a category adds its line to the lines, as a multiset. */
  lemma {:induction false} InsertLines(x: SolvedCategory, s: seq<SolvedCategory>)
    requires SortedBySolvedAt(s)
    ensures multiset(CategoryLines(Insert(x, s))) == multiset(CategoryLines(s)) + multiset{CategoryLine(x)}
  {
    if s == [] {
      assert CategoryLines([x]) == [CategoryLine(x)];
    } else if x.solvedAt <= s[0].solvedAt {
      CategoryLinesCons(x, s);
    } else {
      assert SortedBySolvedAt(s[1..]);
      var rest := Insert(x, s[1..]);
      InsertLines(x, s[1..]);
      CategoryLinesCons(s[0], rest);
      assert s == [s[0]] + s[1..];
      CategoryLinesCons(s[0], s[1..]);
    }
  }

  /** The connections grid lines are exactly the lines of the solved categories, each as often. */
  lemma {:induction false} ConnectionsLinesPermute(solvedCategories: seq<SolvedCategory>)
    ensures multiset(CategoryLines(SortBySolvedAt(solvedCategories))) == multiset(CategoryLines(solvedCategories))
  {
    var s := solvedCategories;
    if s != [] {
      ConnectionsLinesPermute(s[1..]);
      SortLinesStep(s[0], s[1..]);
      assert s == [s[0]] + s[1..];
    }
  }

  /** The inductive step of `ConnectionsLinesPermute`, for a list `[c] + t`. */
  lemma SortLinesStep(c: SolvedCategory, t: seq<SolvedCategory>)
    requires multiset(CategoryLines(SortBySolvedAt(t))) == multiset(CategoryLines(t))
    ensures multiset(CategoryLines(SortBySolvedAt([c] + t))) == multiset(CategoryLines([c] + t))
  {
    var sorted := SortBySolvedAt(t);
    assert ([c] + t)[0] == c && ([c] + t)[1..] == t;
    assert SortBySolvedAt([c] + t) == Insert(c, sorted);
    InsertLines(c, sorted);
    CategoryLinesCons(c, t);
  }

  /** `generateCrosswordShareText`: the title line (with the streak) and `Time: M:SS`. */
  function GenerateCrosswordShareText(elapsedTime: nat, streak: int): (r: ShareText)
    ensures Split(r, NL) == [Lit("Free York Mini") + StreakText(streak), Lit("Time: " + FormatTime(elapsedTime))]
    ensures Flame in r <==> streak > 0
  {
    var title := Lit("Free York Mini") + StreakText(streak);
    var time := Lit("Time: " + FormatTime(elapsedTime));
    FormatTimeOneLine(elapsedTime);
    TwoLines(title, time);
    title + [NL] + time
  }

  /** A time holds digits and a colon only. */
  lemma FormatTimeOneLine(ms: nat)
    ensures '\n' !in FormatTime(ms)
  {
    FormatTimeShape(ms);
    var t := FormatTime(ms);
    assert forall i :: 0 <= i < |t| ==> t[i] != '\n';
  }

  /** `difficulty` with its first character upper-cased. */
  function Capitalize(s: string): (r: string)
    ensures |r| == |s|
    ensures |s| > 0 ==> r[0] == UpperChar(s[0]) && r[1..] == s[1..]
  {
    if s == [] then [] else [UpperChar(s[0])] + s[1..]
  }

  /** `No hints used`, `1 hint used`, or `<n> hints used`. */
  function HintText(hintsUsed: nat): (t: string)
    ensures hintsUsed == 0 ==> t == "No hints used"
    ensures hintsUsed == 1 ==> t == "1 hint used"
    ensures hintsUsed > 1 ==> t == NatToString(hintsUsed) + " hints used"
  {
    if hintsUsed == 0 then "No hints used"
    else NatToString(hintsUsed) + " hint" + (if hintsUsed > 1 then "s" else "") + " used"
  }

  /** The count in a hint line reads back as the number of hints. */
  lemma HintTextCount(hintsUsed: nat)
    requires hintsUsed > 0
    ensures var t := HintText(hintsUsed); var d := NatToString(hintsUsed);
      t[..|d|] == d && DecimalValue(t[..|d|]) == hintsUsed && t[|d|] == ' '
  {
    NatToStringRoundTrip(hintsUsed);
  }

  /**
   * `generateSudokuShareText`: the title line with the capitalised difficulty
   * (and the streak), `Time: M:SS`, and the hint line.
   */
  function GenerateSudokuShareText(difficulty: string, elapsedTime: nat, hintsUsed: nat, streak: int): (r: ShareText)
    requires '\n' !in difficulty
    ensures Split(r, NL) == [
      Lit("Free York Sudoku (" + Capitalize(difficulty) + ")") + StreakText(streak),
      Lit("Time: " + FormatTime(elapsedTime)),
      Lit(HintText(hintsUsed))]
    ensures Flame in r <==> streak > 0
  {
    var title := Lit("Free York Sudoku (" + Capitalize(difficulty) + ")") + StreakText(streak);
    var time := Lit("Time: " + FormatTime(elapsedTime));
    var hints := Lit(HintText(hintsUsed));
    SudokuTitleOneLine(difficulty);
    FormatTimeOneLine(elapsedTime);
    HintTextOneLine(hintsUsed);
    ThreeLines(title, time, hints);
    title + [NL] + time + [NL] + hints
  }

  /** Three lines that hold no newline split back apart. */
  lemma ThreeLines(a: ShareText, b: ShareText, c: ShareText)
    requires NL !in a && NL !in b && NL !in c
    ensures Split(a + [NL] + b + [NL] + c, NL) == [a, b, c]
  {
    TwoLines(b, c);
    assert a + [NL] + b + [NL] + c == a + [NL] + (b + [NL] + c);
    SplitAfter(a, NL, b + [NL] + c);
  }

  /** Capitalising a one-line difficulty keeps the title on one line. */
  lemma SudokuTitleOneLine(difficulty: string)
    requires '\n' !in difficulty
    ensures '\n' !in "Free York Sudoku (" + Capitalize(difficulty) + ")"
  {
    var cap := Capitalize(difficulty);
    forall i | 0 <= i < |cap|
      ensures cap[i] != '\n'
    {
      if i > 0 {
        assert cap[i] == difficulty[i];
      }
    }
  }

  /** A hint line holds no newline. */
  lemma HintTextOneLine(hintsUsed: nat)
    ensures '\n' !in HintText(hintsUsed)
  {
    DigitsOneLine(hintsUsed);
  }
}
