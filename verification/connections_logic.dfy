/**
 * Connections: checking a selection of four words against the categories,
 * shuffling the board, and the categories still to be found.
 */
module ConnectionsLogic {
  import opened Wrappers
  import Random

  datatype CategoryColor = Yellow | Green | Blue | Purple

  /** `difficulty` is 1 to 4 on a well-formed puzzle; it is kept as a plain number. */
  datatype Category = Category(name: string, words: seq<string>, difficulty: int, color: CategoryColor)

  datatype ConnectionsPuzzle = ConnectionsPuzzle(id: string, date: string, categories: seq<Category>)

  datatype GuessResult = GuessResult(correct: bool, category: Option<Category>, isOneAway: bool)

  /** The number of selected words that belong to `words` (the length of the filtered selection). */
  function MatchCount(selected: seq<string>, words: seq<string>): (n: nat)
    ensures n <= |selected|
  {
    if selected == [] then 0
    else MatchCount(selected[1..], words) + (if selected[0] in words then 1 else 0)
  }

  /** Every selected word matches exactly when the count reaches the selection's size. */
  lemma {:induction false} MatchCountAll(selected: seq<string>, words: seq<string>)
    ensures MatchCount(selected, words) == |selected| <==> forall w :: w in selected ==> w in words
  {
    if selected != [] {
      MatchCountAll(selected[1..], words);
      assert forall w :: w in selected ==> w == selected[0] || w in selected[1..];
    }
  }

  /**
   * The first category, from index `from` on, that three or more selected words
   * belong to; `|categories|` when there is none.
   */
  function FirstDecisive(selected: seq<string>, categories: seq<Category>, from: nat): (k: nat)
    requires from <= |categories|
    ensures from <= k <= |categories|
    ensures forall j :: from <= j < k ==> MatchCount(selected, categories[j].words) < 3
    ensures k < |categories| ==> MatchCount(selected, categories[k].words) >= 3
    decreases |categories| - from
  {
    if from == |categories| then from
    else if MatchCount(selected, categories[from].words) >= 3 then from
    else FirstDecisive(selected, categories, from + 1)
  }

  /**
   * `checkGuess`: a selection of other than four words is neither correct nor
   * one away; otherwise the first category with four matches makes it correct
   * and the first with three makes it one away, whichever comes first.
   */
  method CheckGuess(selected: seq<string>, categories: seq<Category>) returns (r: GuessResult)
    ensures |selected| != 4 ==> r == GuessResult(false, None, false)
    ensures |selected| == 4 ==>
      var k := FirstDecisive(selected, categories, 0);
      && r.correct == (k < |categories| && MatchCount(selected, categories[k].words) == 4)
      && r.isOneAway == (k < |categories| && MatchCount(selected, categories[k].words) == 3)
      && r.category == (if r.correct then Some(categories[k]) else None)
    ensures !(r.correct && r.isOneAway)
    ensures r.correct ==> (r.category.Some? && r.category.value in categories &&
                           forall w :: w in selected ==> w in r.category.value.words)
  {
    if |selected| != 4 {
      return GuessResult(false, None, false);
    }
    for i := 0 to |categories|
      invariant FirstDecisive(selected, categories, 0) == FirstDecisive(selected, categories, i)
    {
      var matches := MatchCount(selected, categories[i].words);
      if matches == 4 {
        MatchCountAll(selected, categories[i].words);
        return GuessResult(true, Some(categories[i]), false);
      }
      if matches == 3 {
        return GuessResult(false, None, true);
      }
    }
    return GuessResult(false, None, false);
  }

  /** `shuffleWords`: a Fisher-Yates shuffle of a copy of the words. */
  method ShuffleWords(words: seq<string>, rng: nat -> nat, draw: nat) returns (shuffled: seq<string>, next: nat)
    ensures |shuffled| == |words| && multiset(shuffled) == multiset(words)
    ensures next == draw + (if |words| > 0 then |words| - 1 else 0)
  {
    shuffled, next := Random.Shuffle(words, rng, draw);
  }

  /** The words of all categories, in category order (`flatMap`). */
  function AllWords(categories: seq<Category>): (ws: seq<string>)
  {
    if categories == [] then [] else categories[0].words + AllWords(categories[1..])
  }

  /** A word is on the board exactly when some category holds it, and the board has every category's words. */
  lemma {:induction false} AllWordsMembers(categories: seq<Category>)
    ensures forall w :: w in AllWords(categories) <==> exists k :: 0 <= k < |categories| && w in categories[k].words
    ensures |AllWords(categories)| == WordTotal(categories)
  {
    if categories != [] {
      AllWordsMembers(categories[1..]);
      forall w | w in AllWords(categories)
        ensures exists k :: 0 <= k < |categories| && w in categories[k].words
      {
        if w !in categories[0].words {
          var k :| 0 <= k < |categories[1..]| && w in categories[1..][k].words;
          assert w in categories[k + 1].words;
        }
      }
      forall w, k | 0 <= k < |categories| && w in categories[k].words
        ensures w in AllWords(categories)
      {
        if k > 0 {
          assert categories[1..][k - 1] == categories[k];
        }
      }
    }
  }

  /** The total number of words over all categories. */
  function WordTotal(categories: seq<Category>): nat
  {
    if categories == [] then 0 else |categories[0].words| + WordTotal(categories[1..])
  }

  /** `getShuffledWords`: every word of every category, shuffled. */
  method GetShuffledWords(puzzle: ConnectionsPuzzle, rng: nat -> nat, draw: nat) returns (words: seq<string>, next: nat)
    ensures multiset(words) == multiset(AllWords(puzzle.categories))
    ensures |words| == WordTotal(puzzle.categories)
  {
    var allWords := AllWords(puzzle.categories);
    AllWordsMembers(puzzle.categories);
    words, next := ShuffleWords(allWords, rng, draw);
  }

  /** `getRemainingCategories`: the categories whose name has not been solved, in their order. */
  function RemainingCategories(categories: seq<Category>, solvedNames: seq<string>): (r: seq<Category>)
    ensures forall c :: c in r <==> c in categories && c.name !in solvedNames
    ensures |r| <= |categories|
  {
    if categories == [] then []
    else
      var rest := RemainingCategories(categories[1..], solvedNames);
      if categories[0].name !in solvedNames then [categories[0]] + rest else rest
  }

  function GetRemainingCategories(puzzle: ConnectionsPuzzle, solvedNames: seq<string>): (r: seq<Category>)
    ensures forall c :: c in r <==> c in puzzle.categories && c.name !in solvedNames
  {
    RemainingCategories(puzzle.categories, solvedNames)
  }

  /**
   * The filter keeps order: it distributes over concatenation, so each kept
   * category stays in its place relative to the others.
   */
  lemma {:induction false} RemainingAppend(a: seq<Category>, b: seq<Category>, solvedNames: seq<string>)
    ensures RemainingCategories(a + b, solvedNames) == RemainingCategories(a, solvedNames) + RemainingCategories(b, solvedNames)
  {
    if a == [] {
      assert a + b == b;
    } else {
      assert (a + b)[0] == a[0] && (a + b)[1..] == a[1..] + b;
      RemainingAppend(a[1..], b, solvedNames);
    }
  }

  /** With nothing solved, every category remains, in order. */
  lemma {:induction false} NothingSolvedKeepsAll(categories: seq<Category>)
    ensures RemainingCategories(categories, []) == categories
  {
    if categories != [] {
      NothingSolvedKeepsAll(categories[1..]);
    }
  }
}
