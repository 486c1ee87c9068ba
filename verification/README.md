# Free York Times game logic, in Dafny

This project models the pure game engines of the Free York Times app, plus its Sudoku session hook:

- the Wordle scorer and keyboard merge;
- the Connections guess checker, board shuffle and remaining-categories filter;
- the crossword word walker and answer checks;
- the daily-streak bookkeeping shared by all four games;
- the Sudoku engine: placement rules, error flags, completion, and the puzzle generator with its backtracking search and solution counter;
- the plain-text share summaries;
- the Sudoku session hook (`useSudokuGame`), modelled as a class whose methods are the hook's callbacks.

One Dafny module stands for each source file:

| module | source file |
|---|---|
| `WordleLogic` | `utils/games/wordle-logic.ts` |
| `ConnectionsLogic` | `utils/games/connections-logic.ts` |
| `CrosswordLogic` | `utils/games/crossword-logic.ts` |
| `StreakLogic` | `utils/games/streak-logic.ts` |
| `ShareLogic` | `utils/games/share-logic.ts` |
| `SudokuLogic` | first half of `utils/games/sudoku-logic.ts` |
| `SudokuGenerator` | second half of `utils/games/sudoku-logic.ts` |
| `SudokuGame` | `hooks/games/use-sudoku-game.ts` |

Small shared modules:

- `Wrappers`: `Option`.
- `Text`: upper-casing, decimal printing and `M:SS` times.
- `Random`: the Fisher-Yates shuffle used by both `shuffle` and `shuffleWords`.
- `Seqs`: sequences without repeats.

Randomness is an oracle `rng: nat -> nat`. The k-th draw of a shuffle of slot `i` is `rng(k) % (i + 1)`, which stands for `Math.floor(Math.random() * (i + 1))`. Every method that shuffles returns the index of its first unused draw.

The clock is a parameter in every case:

- `Date.now()` becomes `now` in the Sudoku session.
- The local calendar day becomes `today`, an integer day number, in the streak logic.
- The date thirty days back becomes `cutoff`.

Loops in the source stay loops here, each with its invariants:

- every Sudoku scan;
- the crossword walks;
- both passes of `evaluateGuess`;
- the keyboard merge;
- the Connections category loop;
- the shuffle;
- the three backtracking searches of the generator.

Each loop is proved against a specification function, and the properties the source promises are proved about those functions as lemmas. The grid the generator's searches write into in place is the `SearchGrid` class. The Sudoku session is the `SudokuSession` class.

The generator's counter is specified against `Completions`, the number of leaves the search reaches. `CompletionsCountSolutions` ties that count to the solutions themselves: on a grid whose givens do not clash, it is 0 exactly when the grid has no solution and 1 exactly when it has exactly one. From this, a generated puzzle has its solution as its only solution. The carving itself is specified against `Carve`, the greedy removal along the shuffled order, written as a recursive function.

Where the source's own comments and its code disagree, the model follows the code:

- The doc comment of `countSolutions` (utils/games/sudoku-logic.ts:201) says it counts the solutions of a puzzle. The code never checks the given digits of its grid, so a full grid whose givens clash counts one, not zero. `CountSolutions` is specified against `Completions`, which behaves the same way, and its link to the solutions is stated only for grids without clashing givens. Every grid the generator counts is a carved copy of a solved grid, so that is always the case there.
- The settings screen describes the difficulties as about 38, 30 and 24 clues (components/SettingsModal.tsx:16-18). The comments beside the removal targets (utils/games/sudoku-logic.ts:242-244) say about 46, 36 and 26 given cells. The code blanks at most 35, 45 and 55 cells for easy, medium and hard, so it leaves at least 46, 36 and 26 clues, and the model follows the code.

## Model

| member | source | states |
|---|---|---|
| WordleLogic.EvaluateGuess | utils/games/wordle-logic.ts:11-38 | five results; `correct` exactly where the upper-cased letters agree; with no `#`/`*` in the words, the result is the reference scoring `Score` (exact matches first, then each other letter takes the first unconsumed equal target letter) |
| WordleLogic.ExactPass | utils/games/wordle-logic.ts:18-25 | the first pass: exact matches are correct and are marked `#` in the target and `*` in the guess, everything else absent |
| WordleLogic.PresentPass | utils/games/wordle-logic.ts:27-35 | the second pass turns the first-pass result into the full reference scoring |
| WordleLogic.ConsumeStep | utils/games/wordle-logic.ts:30-34 | one `indexOf` step finds a target letter exactly while an unconsumed one is left, and consuming it keeps the count invariant |
| WordleLogic.SkipStep | utils/games/wordle-logic.ts:29 | a position matched in the first pass consumes nothing |
| WordleLogic.IndexOf | utils/games/wordle-logic.ts:30 | the first index holding the letter, or -1 exactly when it is absent |
| WordleLogic.MarksWithinTarget | utils/games/wordle-logic.ts:11-38 | no letter is scored correct or present more often than the target holds it |
| WordleLogic.PresentPrefix | utils/games/wordle-logic.ts:28-35 | the present marks for a letter over a prefix are the number of unmatched guess occurrences, capped by the target letters left after exact matches |
| WordleLogic.ExactGuessAllCorrect | utils/games/wordle-logic.ts:19-25 | a guess equal to the target ignoring case scores all correct |
| WordleLogic.UpdateKeyboardState | utils/games/wordle-logic.ts:44-68 | the keys are the old keys plus the guessed letters; other letters keep their state; no state is downgraded; each guessed letter ends at least as high as every evaluation it got and equal to its old state or one of them |
| WordleLogic.UpgradesIsHigherRank | utils/games/wordle-logic.ts:57-62 | the three-way replacement test is exactly "the new state ranks higher" under correct > present > absent |
| WordleLogic.SetStep | utils/games/wordle-logic.ts:58-64 | storing an improved evaluation keeps the merge invariant |
| WordleLogic.KeepStep | utils/games/wordle-logic.ts:58-64 | skipping an evaluation that does not improve keeps the merge invariant |
| ConnectionsLogic.CheckGuess | utils/games/connections-logic.ts:12-35 | a selection of other than four words gives neither correct nor one-away; otherwise the first category with three or more matches decides (four is correct with that category, three is one away); never both; a correct guess's category is in the list and holds every selected word |
| ConnectionsLogic.MatchCountAll | utils/games/connections-logic.ts:21-25 | the filtered count equals the selection's size exactly when every selected word is in the category |
| ConnectionsLogic.FirstDecisive | utils/games/connections-logic.ts:20-32 | the index the loop stops at: every earlier category has fewer than three matches and the one found has three or more |
| ConnectionsLogic.ShuffleWords | utils/games/connections-logic.ts:40-47 | the shuffled words are a permutation of the words |
| ConnectionsLogic.GetShuffledWords | utils/games/connections-logic.ts:52-55 | the board is a permutation of all categories' words, as many as they hold together |
| ConnectionsLogic.AllWordsMembers | utils/games/connections-logic.ts:53 | a word is on the board exactly when some category holds it; the board's length is the total word count |
| ConnectionsLogic.GetRemainingCategories | utils/games/connections-logic.ts:60-67 | a category remains exactly when it is in the puzzle and its name has not been solved |
| ConnectionsLogic.RemainingAppend | utils/games/connections-logic.ts:64-66 | the filter distributes over concatenation, so it keeps the categories' order |
| ConnectionsLogic.NothingSolvedKeepsAll | utils/games/connections-logic.ts:64-66 | with nothing solved, every category remains in order |
| CrosswordLogic.WordLength | utils/games/crossword-logic.ts:16-29 | every square before the length is open and the square at the length is the edge or black |
| CrosswordLogic.WordLengthUnique | utils/games/crossword-logic.ts:16-29 | that length is the only one with both properties |
| CrosswordLogic.GetWordCells | utils/games/crossword-logic.ts:6-32 | the word's squares, in order along the direction, all open, up to the first edge or black square |
| CrosswordLogic.FindClueForCell | utils/games/crossword-logic.ts:37-54 | nothing exactly when no clue's word of that direction holds the square; otherwise the first clue whose word holds it |
| CrosswordLogic.GetWordStart | utils/games/crossword-logic.ts:59-79 | the start lies on the same line, at or before the square; the square before it is the edge or black; no black square lies between |
| CrosswordLogic.GetNextCell | utils/games/crossword-logic.ts:84-106 | nothing exactly when the next square is the edge or black, otherwise that square |
| CrosswordLogic.GetPrevCell | utils/games/crossword-logic.ts:111-133 | nothing exactly when the previous square is the edge or black, otherwise that square |
| CrosswordLogic.NextThenPrev | utils/games/crossword-logic.ts:84-133 | stepping forward and then back returns to the starting square |
| CrosswordLogic.NextCellWalksWord | utils/games/crossword-logic.ts:84-106 | stepping forward walks the word's squares in order and stops after its last one |
| CrosswordLogic.CheckWord | utils/games/crossword-logic.ts:138-156 | true exactly when every square of the clue's word holds a non-empty user letter equal to the answer letter |
| CrosswordLogic.IsPuzzleComplete | utils/games/crossword-logic.ts:161-176 | true exactly when every non-black square's answer letter is the user's letter |
| CrosswordLogic.CreateEmptyGrid | utils/games/crossword-logic.ts:181-185 | `rows` rows (none when negative), each of `cols` empty strings (none when negative) |
| CrosswordLogic.EmptyGridFits | utils/games/crossword-logic.ts:181-185 | an empty grid made for a puzzle has the puzzle's number of rows and of columns |
| StreakLogic.CalculateNewStreak | utils/games/streak-logic.ts:20-51 | a new day exactly when there was no play or the last play is earlier; the streak is then one more after a play yesterday and 1 otherwise; on the same day nothing changes |
| StreakLogic.ConsecutiveDaysExtend | utils/games/streak-logic.ts:20-51 | n plays on consecutive days after the last play add n to the streak |
| StreakLogic.FirstRunIsItsLength | utils/games/streak-logic.ts:20-51 | a first run of n consecutive days is a streak of n |
| StreakLogic.GapResets | utils/games/streak-logic.ts:20-51 | a skipped day restarts the streak at 1 |
| StreakLogic.AddGameKeepsDistinct | utils/games/streak-logic.ts:70-72 | recording a game already played that day changes nothing and never creates a duplicate |
| StreakLogic.UpdateStreakHistory | utils/games/streak-logic.ts:57-88 | no entry predates the cutoff; when today is not cut off its entry exists and lists the game; the other entries are the old ones not cut off; today's entries are old ones with the game added, or the new single-game entry when there was none; in order, the result is the old entries not cut off with the game recorded in today's, or, with no entry for today, those entries followed by the new one when today is not cut off |
| StreakLogic.KeepSinceAppend | utils/games/streak-logic.ts:79-87 | the cutoff filter distributes over concatenation, so it keeps the order of the history |
| StreakLogic.KeepSinceMarkToday | utils/games/streak-logic.ts:68-87 | recording the game in today's entry and applying the cutoff can be done in either order |
| StreakLogic.MarkTodayOthers | utils/games/streak-logic.ts:68-76 | the map keeps exactly the entries not dated today |
| StreakLogic.MarkTodayChanged | utils/games/streak-logic.ts:68-76 | each entry dated today after the map is an old one with the game added |
| StreakLogic.ProcessGameCompletion | utils/games/streak-logic.ts:93-132 | the history always records the game; on a new day the streak follows `CalculateNewStreak`, the best streak is the larger of the new streak and the old best, and the last play is today; otherwise only the history changes |
| StreakLogic.MaxStreakKept | utils/games/streak-logic.ts:123-131 | the best streak never falls below the current one |
| StreakLogic.IsStreakAtRisk | utils/games/streak-logic.ts:145-159 | at risk exactly when there is a streak and the last play was yesterday |
| StreakLogic.PlayingSavesStreak | utils/games/streak-logic.ts:145-159 | a streak at risk is extended by playing today and is then no longer at risk |
| ShareLogic.GenerateWordleShareText | utils/games/share-logic.ts:16-42 | the text's lines are the title (with the streak), the `<n>/6` or `X/6` line, an empty line, and one row per guess; a flame appears exactly when the streak is positive |
| ShareLogic.WordleRow | utils/games/share-logic.ts:26-37 | one square per letter: green exactly on an exact upper-cased match, yellow exactly when the target holds the letter elsewhere, black otherwise |
| ShareLogic.WordleRowAgreesWithScore | utils/games/share-logic.ts:30-36 | a green square is exactly a correct score, and a present score always shows yellow |
| ShareLogic.WordleRowIgnoresMultiplicity | utils/games/share-logic.ts:34 | the converse fails: a yellow square can stand where the scorer says absent |
| ShareLogic.GenerateConnectionsShareText | utils/games/share-logic.ts:54-75 | the lines are the title and then one line of four colour squares per solved category, in solving order |
| ShareLogic.SortBySolvedAt | utils/games/share-logic.ts:69-70 | the categories sorted by solving order, and a permutation of them |
| ShareLogic.InsertStable | utils/games/share-logic.ts:70 | an inserted category goes ahead of every category solved at the same time |
| ShareLogic.SortStable | utils/games/share-logic.ts:69-70 | the sort is stable, as `Array.prototype.sort` is: categories solved at the same time keep their input order |
| ShareLogic.InsertLines | utils/games/share-logic.ts:70-71 | inserting a category adds exactly its line to the multiset of lines |
| ShareLogic.ConnectionsLinesPermute | utils/games/share-logic.ts:69-72 | the grid lines are a permutation of the solved categories' lines |
| ShareLogic.DifficultySymbol | utils/games/share-logic.ts:58-71 | difficulties 1 to 4 give yellow, green, blue and purple; anything else gives white |
| ShareLogic.GenerateCrosswordShareText | utils/games/share-logic.ts:94-102 | two lines: the title (with the streak) and `Time: ` followed by the formatted time |
| ShareLogic.GenerateSudokuShareText | utils/games/share-logic.ts:112-127 | three lines: the title with the capitalised difficulty (and the streak), the time line, and the hint line |
| ShareLogic.HintTextCount | utils/games/share-logic.ts:121-124 | `No hints used` for 0, `1 hint used`, and otherwise the count, which reads back as the number, followed by ` hints used` |
| ShareLogic.SplitJoin | utils/games/share-logic.ts:39 | splitting a newline-joined text gives its rows back when no row holds a newline |
| Text.FormatTimeShape | utils/games/sudoku-logic.ts:123-128 | `M:SS`: the minutes in decimal, a colon and two digits reading as the seconds within the minute |
| Text.NatToStringRoundTrip | utils/games/share-logic.ts:22 | a printed number reads back as itself |
| Random.Shuffle | utils/games/sudoku-logic.ts:165-172 | the result is a permutation of the input, and one draw is used per slot above the first |
| SudokuLogic.IsValidPlacement | utils/games/sudoku-logic.ts:16-48 | true exactly when no other cell of the row, the column or the box holds the value |
| SudokuLogic.PlacementReadsValuesOnly | utils/games/sudoku-logic.ts:16-48 | placement depends on the values only, never on the flags or notes |
| SudokuLogic.CheckForErrors | utils/games/sudoku-logic.ts:50-67 | the grid with every flag recomputed: a filled non-given cell is flagged exactly when a peer holds its value, every other cell is unflagged, and values, givens and notes are unchanged |
| SudokuLogic.CheckedIdempotent | utils/games/sudoku-logic.ts:50-67 | checking a checked grid changes nothing |
| SudokuLogic.IsGridComplete | utils/games/sudoku-logic.ts:69-79 | true exactly when every cell is filled and none is flagged |
| SudokuLogic.IsSolutionCorrect | utils/games/sudoku-logic.ts:81-90 | true exactly when every cell holds the solution's value |
| SudokuLogic.CreateGridFromPuzzle | utils/games/sudoku-logic.ts:5-14 | each cell holds the initial value, is given exactly when that value is present, and has no notes and no flag |
| SudokuLogic.FreshGridStatus | utils/games/sudoku-logic.ts:5-90 | a fresh grid is complete and correct exactly when the puzzle has no blank (clues agreeing with the solution), and checking flags none of its cells |
| SudokuLogic.GetRelatedCells | utils/games/sudoku-logic.ts:92-121 | exactly 20 distinct cells, and they are exactly the cells other than the given one that share its row, column or box |
| SudokuGenerator.IsValidForGeneration | utils/games/sudoku-logic.ts:139-160 | true exactly when the number is nowhere in the row, column or box, the cell itself included |
| SudokuGenerator.PlaceKeepsConsistent | utils/games/sudoku-logic.ts:187-188 | writing a number that passes the test into an empty cell keeps the grid free of clashes |
| SudokuGenerator.CountSolutions | utils/games/sudoku-logic.ts:200-230 | the number of completions the search visits, capped at the limit (0 for a limit of 0 or less); the grid is left as it was; on a grid without clashing givens, 0 exactly when it has no solution, and with a limit above 1, 1 exactly when it has exactly one |
| SudokuGenerator.CappedCount | utils/games/sudoku-logic.ts:200-230 | what the capped count says about the solutions of a grid without clashing givens |
| SudokuGenerator.CompletionsCountSolutions | utils/games/sudoku-logic.ts:200-230 | on a grid without clashing givens, no completion exactly when there is no solution, and one completion exactly when there is exactly one solution |
| SudokuGenerator.ExtensionCounted | utils/games/sudoku-logic.ts:206-226 | every solution of the grid is reached by the search |
| SudokuGenerator.TwoExtensionsCounted | utils/games/sudoku-logic.ts:206-226 | two different solutions are two completions of the search |
| SudokuGenerator.CountedExtension | utils/games/sudoku-logic.ts:206-226 | a completion of the search on a grid without clashes is a solution |
| SudokuGenerator.CountedTwoExtensions | utils/games/sudoku-logic.ts:206-226 | two completions of the search give two different solutions |
| SudokuGenerator.OneCompletionUnique | utils/games/sudoku-logic.ts:206-226 | with at most one completion, a grid has at most one solution |
| SudokuGenerator.CountFrom | utils/games/sudoku-logic.ts:206-226 | the inner `solve`: the counter grows by the completions from that cell on, capped at the limit; the answer says whether the cap was reached; the grid is restored |
| SudokuGenerator.CountCandidates | utils/games/sudoku-logic.ts:215-224 | the candidate loop adds the completions of every candidate, capped |
| SudokuGenerator.TryCandidate | utils/games/sudoku-logic.ts:216-223 | one candidate adds its completions, capped, and clears the cell again |
| SudokuGenerator.FilledHasOneCompletion | utils/games/sudoku-logic.ts:208-213 | a grid with no blank left has exactly one completion |
| SudokuGenerator.PlaceRestore | utils/games/sudoku-logic.ts:217-222 | writing a cell and writing back its old value restores the grid |
| SudokuGenerator.GenerateSolvedGrid | utils/games/sudoku-logic.ts:177-198 | on success the grid is solved; the search fails only when the empty grid has no solution at all |
| SudokuGenerator.FillFrom | utils/games/sudoku-logic.ts:180-194 | the inner `solve`: on success a solved extension of the grid; on failure the grid as it was, and no solved extension exists, so the search is exhaustive |
| SudokuGenerator.FillCandidates | utils/games/sudoku-logic.ts:185-193 | the loop over the shuffled numbers: success gives a solved extension, failure excludes every number and so every extension |
| SudokuGenerator.TryFill | utils/games/sudoku-logic.ts:187-191 | one number: success gives a solved extension; failure restores the cell and no solved extension holds that number there |
| SudokuGenerator.DigitPermutation | utils/games/sudoku-logic.ts:185 | a shuffle of 1..9 holds each of 1..9 and nothing else |
| SudokuGenerator.Values | utils/games/sudoku-logic.ts:197 | a full generator grid read as numbers lifts back to the same grid |
| SudokuGenerator.AllPositions | utils/games/sudoku-logic.ts:248-250 | the 81 cells, in range and without repeats |
| SudokuGenerator.TryBlank | utils/games/sudoku-logic.ts:258-268 | a blank is kept exactly when the capped count of the copy is 1, and the carved grid still has exactly one completion |
| SudokuGenerator.CreatePuzzleFromSolution | utils/games/sudoku-logic.ts:236-272 | the puzzle is the greedy carving `Carve` of the solution along a shuffled order of the 81 cells, with the difficulty's target; the clues agree with the solution, at most the target is blanked, the puzzle has exactly one completion, and a solved solution is its only solution |
| SudokuGenerator.CarveCells | utils/games/sudoku-logic.ts:252-269 | the loop: the grid ends as `Carve` of the grid it started from, along the given order, still carved from the solution with at most the target blanked |
| SudokuGenerator.CarvedUnique | utils/games/sudoku-logic.ts:258-268 | a grid whose clues come from a solved grid and which has one completion has that grid as its only solution |
| SudokuGenerator.GenerateSudokuPuzzle | utils/games/sudoku-logic.ts:277-290 | the solution is solved and is the initial grid's only solution; the clues agree with it and have exactly one completion; at most the target is blanked; the difficulty, id and date are carried over |
| SudokuGame.ToggleNote | hooks/games/use-sudoku-game.ts:118-123 | the note is present afterwards exactly when it was absent, and other notes are unchanged |
| SudokuGame.SetCell | hooks/games/use-sudoku-game.ts:112-129 | the copied grid differs from the old one only at the edited cell |
| SudokuGame.FindHintCell | hooks/games/use-sudoku-game.ts:226-262 | the first cell in row-major order that is not given and does not hold the solution's value, or nothing when there is none |
| SudokuGame.NothingToHintIffCorrect | hooks/games/use-sudoku-game.ts:225-264 | with the givens in place, there is nothing to hint exactly when the grid holds the solution |
| SudokuGame.EditKeepsGivens | hooks/games/use-sudoku-game.ts:110-131 | editing a non-given cell and rechecking the grid keeps every given as it was |
| SudokuGame.SudokuSession.constructor | hooks/games/use-sudoku-game.ts:60-73 | a new game: the grid is made from the puzzle, with no selection, notes mode off, not complete, the start time set, no hints and no completion recorded |
| SudokuGame.SudokuSession.SelectCell | hooks/games/use-sudoku-game.ts:95-101 | ignored after completion; otherwise only the selection changes |
| SudokuGame.SudokuSession.Commit | hooks/games/use-sudoku-game.ts:131-145 | the grid is rechecked; complete exactly when it is complete and correct; the end time is stamped only then; the callback runs once, on the first completion |
| SudokuGame.SudokuSession.EnterNumber | hooks/games/use-sudoku-game.ts:103-150 | ignored with no selection, after completion or on a given; otherwise the cell's note is toggled and its value cleared (notes mode) or its value set and notes emptied, then the grid is committed |
| SudokuGame.SudokuSession.ClearCell | hooks/games/use-sudoku-game.ts:152-173 | ignored in the same cases; otherwise only the selected cell is emptied and unflagged, and other flags are not recomputed |
| SudokuGame.SudokuSession.ToggleNotesMode | hooks/games/use-sudoku-game.ts:175-180 | only notes mode flips, even after completion |
| SudokuGame.SudokuSession.UseHint | hooks/games/use-sudoku-game.ts:183-266 | ignored after completion or after three hints; otherwise the selected cell takes the solution's value if it needs it, else the first cell that needs it does and becomes selected, else nothing changes; a hint that fills a cell uses one hint and commits the grid |
| SudokuGame.SudokuSession.StartNewGame | hooks/games/use-sudoku-game.ts:268-285 | a fresh game on the new puzzle, with the hint counter and the completion flag reset |

## Left out

- Persistence is not modelled. This covers the `AsyncStorage` loading and saving of the Sudoku game and the restoring of a saved game in `loadGameState` (the saved-game branch, the `gameState === null` state before loading, and the JSON round trip of the notes sets). `quitGame` is `StartNewGame` after the stored game is removed.
- The `settings` hook, React state batching and rendering are not modelled. The difficulty a new game uses is an argument.
- `getLocalDateString` and `hasPlayedToday` read the clock. They are not modelled; days are integer day numbers and "today" is a parameter.
- The day difference of `calculateNewStreak` is not modelled at the level of milliseconds. The source divides milliseconds by 86 400 000, which on a 23-hour daylight-saving day gives 0, not 1.
- `getRandomWord` picks from a word list and `Math.random`, neither of which is part of this model.
- `EvaluateGuess`: the inputs must be five characters long, as every caller's are. The source indexes five slots whatever the length.
- `EvaluateGuess`: the link to `Score` is stated only for words without the marker characters `#` and `*`, which the source itself uses as markers.
- `UpdateKeyboardState` requires at least one evaluation per letter. The source would store `undefined` for a missing one.
- `Text.UpperChar` upper-cases ASCII letters only. Other characters are left unchanged, unlike `toUpperCase`.
- `ShareLogic.Lit`: emoji are abstract glyphs, not UTF-16 text.
- `ShareLogic.GenerateSudokuShareText` requires a difficulty without a newline. The line structure it states would not hold otherwise.
- `ShareLogic.GenerateWordleShareText` requires every guess to be no longer than the target, because the source reads `targetWord[i]`.
- `solvedAt` is always present in the model. The source sorts a missing one as 0; that case is not modelled.
- `ShareLogic.GenerateCrosswordShareText` takes the elapsed time as a natural number. Negative times are not modelled.
- `Text.FormatTimeShape` states the time format for non-negative milliseconds only.
- `CrosswordLogic.GetWordStart`, `CrosswordLogic.GetNextCell` and `CrosswordLogic.GetPrevCell` require the square to be on the grid. Every caller in the crossword hook passes the selected square, which is on the grid. Off the grid the source throws a `TypeError` for most squares, and for the rest it returns a square or `null` that means nothing.
- `SudokuGenerator.GenerateSolvedGrid` does not prove that the search succeeds. That would need a proof that the empty grid has a solution reachable by the search. The model returns the search's result flag, and on failure its contract states that no solution exists at all.
- `SudokuGenerator.GenerateSudokuPuzzle` returns `None` when the search fails; the source would go on with the partial grid. The id (built from `Date.now()` and `Math.random()`) and the date are parameters.
- `SudokuGame.SudokuSession.UseHint` counts hints in a field of the session. The source keeps them in separate React state; a stale `hintsUsed` captured by the callback is not modelled.
- `SudokuGame.SudokuSession`: `mistakes` is never changed by any callback in the source, and stays 0 here.
- `ConnectionsLogic.CheckGuess` counts matching selected words, as the source's filter does. A selection that repeats a word can therefore match more times than the category has distinct words. The model follows the code.
