/**
 * Wordle scoring (`evaluateGuess`) and the on-screen keyboard colouring
 * (`updateKeyboardState`). Letters are compared after ASCII upper-casing.
 * The scorer marks consumed target letters with '#' and matched guess letters
 * with '*', exactly as the source does; the reference definition `Score`
 * describes the result for words that contain neither marker.
 */
module WordleLogic {
  import opened Text

  datatype LetterState = Correct | Present | Absent

  /** The keyboard priority: correct > present > absent. */
  function Rank(s: LetterState): nat
  {
    match s
    case Absent => 0
    case Present => 1
    case Correct => 2
  }

  lemma RankDetermines(a: LetterState, b: LetterState)
    ensures Rank(a) == Rank(b) <==> a == b
  {
  }

  /** Number of occurrences of `x` in `s`. */
  function Count(s: seq<char>, x: char): nat
  {
    if s == [] then 0 else Count(s[..|s| - 1], x) + (if s[|s| - 1] == x then 1 else 0)
  }

  lemma CountAppend(s: seq<char>, y: char, x: char)
    ensures Count(s + [y], x) == Count(s, x) + (if y == x then 1 else 0)
  {
    assert (s + [y])[..|s|] == s;
  }

  /** Overwriting one position changes the count by what left and what came in. */
  lemma {:induction false} CountUpdate(s: seq<char>, k: int, y: char, x: char)
    requires 0 <= k < |s|
    ensures Count(s[k := y], x) == Count(s, x) - (if s[k] == x then 1 else 0) + (if y == x then 1 else 0)
  {
    var n := |s| - 1;
    assert s == s[..n] + [s[n]];
    if k == n {
      assert s[k := y] == s[..n] + [y];
      CountAppend(s[..n], y, x);
      CountAppend(s[..n], s[n], x);
    } else {
      assert s[k := y] == s[..n][k := y] + [s[n]];
      CountUpdate(s[..n], k, y, x);
      CountAppend(s[..n][k := y], s[n], x);
      CountAppend(s[..n], s[n], x);
    }
  }

  /** A letter that does not occur has count zero, and one that occurs has a positive count. */
  lemma {:induction false} CountPositive(s: seq<char>, x: char)
    ensures Count(s, x) > 0 <==> x in s
  {
    if s != [] {
      var n := |s| - 1;
      assert s == s[..n] + [s[n]];
      CountPositive(s[..n], x);
    }
  }

  /** `Array.prototype.indexOf` on characters: the first index holding `x`, or -1. */
  function IndexOf(s: seq<char>, x: char): (k: int)
    ensures -1 <= k < |s|
    ensures k == -1 <==> x !in s
    ensures k >= 0 ==> s[k] == x && forall j :: 0 <= j < k ==> s[j] != x
  {
    if s == [] then -1
    else if s[0] == x then 0
    else
      var k := IndexOf(s[1..], x);
      if k == -1 then -1 else k + 1
  }

  /** The target after the exact matches are consumed. */
  function MarkTarget(g: seq<char>, t: seq<char>): (m: seq<char>)
    requires |g| == |t|
    ensures |m| == |t|
  {
    seq(|t|, i requires 0 <= i < |t| => if g[i] == t[i] then '#' else t[i])
  }

  /** The guess with its exact matches set aside. */
  function MarkGuess(g: seq<char>, t: seq<char>): (m: seq<char>)
    requires |g| == |t|
    ensures |m| == |g|
  {
    seq(|g|, i requires 0 <= i < |g| => if g[i] == t[i] then '*' else g[i])
  }

  predicate NoMarkers(s: seq<char>)
  {
    '#' !in s && '*' !in s
  }

  /**
   * The reference scoring of an (upper-cased) guess: a position is correct
   * when the letters agree; otherwise it is present exactly when fewer earlier
   * unmatched guess positions hold the same letter than there are target
   * letters of that kind left after the exact matches, i.e. while an
   * unconsumed target letter remains in the left-to-right scan.
   */
  ghost function Score(g: seq<char>, t: seq<char>): (r: seq<LetterState>)
    requires |g| == |t|
    ensures |r| == |g|
  {
    seq(|g|, i requires 0 <= i < |g| =>
      if g[i] == t[i] then Correct
      else if Count(MarkGuess(g, t)[..i], g[i]) < Count(MarkTarget(g, t), g[i]) then Present
      else Absent)
  }

  /** The result of the first pass alone: exact matches are correct, the rest absent. */
  function ExactOnly(g: seq<char>, t: seq<char>): (r: seq<LetterState>)
    requires |g| == |t|
    ensures |r| == |g|
  {
    seq(|g|, i requires 0 <= i < |g| => if g[i] == t[i] then Correct else Absent)
  }

  /**
   * `evaluateGuess`: the first pass marks exact matches, the second gives each
   * remaining guess letter the first unconsumed equal target letter, if any.
   */
  method EvaluateGuess(guess: string, target: string) returns (result: seq<LetterState>)
    requires |guess| == 5 && |target| == 5
    ensures |result| == 5
    ensures forall i :: 0 <= i < 5 ==> (result[i] == Correct <==> Upper(guess)[i] == Upper(target)[i])
    ensures NoMarkers(Upper(guess)) && NoMarkers(Upper(target)) ==> result == Score(Upper(guess), Upper(target))
  {
    var g := Upper(guess);
    var t := Upper(target);
    var exact, targetLetters, guessLetters := ExactPass(g, t);
    result := PresentPass(g, t, exact, targetLetters, guessLetters);
  }

  /** The first pass of `evaluateGuess`: exact matches become correct and are marked on both sides. */
  method ExactPass(g: seq<char>, t: seq<char>) returns (result: seq<LetterState>, targetLetters: seq<char>, guessLetters: seq<char>)
    requires |g| == 5 && |t| == 5
    ensures result == ExactOnly(g, t)
    ensures targetLetters == MarkTarget(g, t) && guessLetters == MarkGuess(g, t)
  {
    result := [Absent, Absent, Absent, Absent, Absent];
    targetLetters := t;
    guessLetters := g;
    for i := 0 to 5
      invariant |result| == 5 && |targetLetters| == 5 && |guessLetters| == 5
      invariant forall j :: 0 <= j < i ==> result[j] == (if g[j] == t[j] then Correct else Absent)
      invariant forall j :: i <= j < 5 ==> result[j] == Absent
      invariant forall j :: 0 <= j < i ==> targetLetters[j] == MarkTarget(g, t)[j] && guessLetters[j] == MarkGuess(g, t)[j]
      invariant forall j :: i <= j < 5 ==> targetLetters[j] == t[j] && guessLetters[j] == g[j]
    {
      if guessLetters[i] == targetLetters[i] {
        result := result[i := Correct];
        targetLetters := targetLetters[i := '#'];
        guessLetters := guessLetters[i := '*'];
      }
    }
  }

  /** The second pass of `evaluateGuess`: unmatched guess letters consume the first equal unconsumed target letter. */
  method PresentPass(g: seq<char>, t: seq<char>, exact: seq<LetterState>, marked: seq<char>, guessLetters: seq<char>)
    returns (result: seq<LetterState>)
    requires |g| == 5 && |t| == 5
    requires exact == ExactOnly(g, t) && marked == MarkTarget(g, t) && guessLetters == MarkGuess(g, t)
    ensures |result| == 5
    ensures forall i :: 0 <= i < 5 ==> (result[i] == Correct <==> g[i] == t[i])
    ensures NoMarkers(g) && NoMarkers(t) ==> result == Score(g, t)
  {
    ghost var noMarkers := NoMarkers(g) && NoMarkers(t);
    ghost var score := Score(g, t);
    result := exact;
    var targetLetters := marked;
    if noMarkers {
      MarkedTargetHasNoStar(g, t);
      assert Consumed(targetLetters, guessLetters[..0], marked);
    }
    for i := 0 to 5
      invariant |result| == 5 && |targetLetters| == 5
      invariant forall j :: i <= j < 5 ==> result[j] == exact[j]
      invariant forall j :: 0 <= j < i ==> (result[j] == Correct <==> g[j] == t[j])
      invariant noMarkers ==> Agrees(result, score, i)
      invariant noMarkers ==> Consumed(targetLetters, guessLetters[..i], marked)
    {
      assert guessLetters[..i + 1] == guessLetters[..i] + [guessLetters[i]];
      if guessLetters[i] == '*' {
        if noMarkers {
          assert g[i] == t[i] && score[i] == Correct;
          SkipStep(targetLetters, guessLetters[..i], marked);
          AgreesExtend(result, score, i, result[i]);
        }
        continue;
      }
      var letter := guessLetters[i];
      var targetIndex := IndexOf(targetLetters, letter);
      if noMarkers {
        assert g[i] != t[i] && letter == g[i] && letter != '#';
        ConsumeStep(targetLetters, guessLetters[..i], marked, letter);
        assert score[i] == (if targetIndex != -1 then Present else Absent);
      }
      ghost var before := result;
      if targetIndex != -1 {
        result := result[i := Present];
        targetLetters := targetLetters[targetIndex := '#'];
      }
      if noMarkers {
        AgreesExtend(before, score, i, result[i]);
      }
    }
    if noMarkers {
      assert Agrees(result, score, 5);
    }
  }

  /** The first `n` entries of `r` and `s` agree. */
  ghost predicate Agrees(r: seq<LetterState>, s: seq<LetterState>, n: nat)
  {
    n <= |r| && n <= |s| && forall j :: 0 <= j < n ==> r[j] == s[j]
  }

  lemma AgreesExtend(r: seq<LetterState>, s: seq<LetterState>, n: nat, v: LetterState)
    requires Agrees(r, s, n) && n < |r| && n < |s| && v == s[n]
    ensures Agrees(r[n := v], s, n + 1)
  {
  }

  /**
   * What the second pass keeps: every target letter other than '#' is still
   * available as many times as the matched-away target holds it, minus the
   * (capped) number of earlier guess letters that consumed one.
   */
  ghost predicate Consumed(targetLetters: seq<char>, seen: seq<char>, marked: seq<char>)
  {
    forall x :: x != '#' ==> Count(targetLetters, x) + Min(Count(seen, x), Count(marked, x)) == Count(marked, x)
  }

  /** A scan step for a guess letter: it finds a target letter exactly while one is left, and consumes it. */
  lemma ConsumeStep(targetLetters: seq<char>, seen: seq<char>, marked: seq<char>, letter: char)
    requires letter != '#' && Consumed(targetLetters, seen, marked)
    ensures (IndexOf(targetLetters, letter) != -1) <==> Count(seen, letter) < Count(marked, letter)
    ensures var k := IndexOf(targetLetters, letter);
      Consumed(if k != -1 then targetLetters[k := '#'] else targetLetters, seen + [letter], marked)
  {
    CountPositive(targetLetters, letter);
    var k := IndexOf(targetLetters, letter);
    var after := if k != -1 then targetLetters[k := '#'] else targetLetters;
    forall x | x != '#'
      ensures Count(after, x) + Min(Count(seen + [letter], x), Count(marked, x)) == Count(marked, x)
    {
      CountAppend(seen, letter, x);
      if k != -1 {
        CountUpdate(targetLetters, k, '#', x);
      }
    }
  }

  /** A scan step over a matched position ('*') consumes nothing. */
  lemma SkipStep(targetLetters: seq<char>, seen: seq<char>, marked: seq<char>)
    requires Consumed(targetLetters, seen, marked) && '*' !in marked
    ensures Consumed(targetLetters, seen + ['*'], marked)
  {
    CountPositive(marked, '*');
    forall x | x != '#'
      ensures Count(targetLetters, x) + Min(Count(seen + ['*'], x), Count(marked, x)) == Count(marked, x)
    {
      CountAppend(seen, '*', x);
    }
  }

  function Min(a: int, b: int): int { if a <= b then a else b }

  /** Without a '*' in the target, the consumed target has none either. */
  lemma MarkedTargetHasNoStar(g: seq<char>, t: seq<char>)
    requires |g| == |t| && NoMarkers(t)
    ensures '*' !in MarkTarget(g, t)
  {
  }

  /** A guess equal to the target, ignoring case, scores all correct. */
  lemma ExactGuessAllCorrect(guess: string, target: string)
    requires |guess| == |target| && Upper(guess) == Upper(target)
    ensures forall i :: 0 <= i < |guess| ==> Score(Upper(guess), Upper(target))[i] == Correct
  {
  }

  /** Letters that scored correct or present, with '#' at the absent positions. */
  function Marked(g: seq<char>, r: seq<LetterState>): (m: seq<char>)
    requires |r| == |g|
    ensures |m| == |g|
  {
    seq(|g|, i requires 0 <= i < |g| => if r[i] != Absent then g[i] else '#')
  }

  /** The exactly matched letters, with '#' elsewhere. */
  function ExactLetters(g: seq<char>, t: seq<char>): (m: seq<char>)
    requires |g| == |t|
    ensures |m| == |g|
  {
    seq(|g|, i requires 0 <= i < |g| => if g[i] == t[i] then g[i] else '#')
  }

  /** The letters scored present, with '#' elsewhere. */
  ghost function PresentLetters(g: seq<char>, t: seq<char>): (m: seq<char>)
    requires |g| == |t|
    ensures |m| == |g|
  {
    seq(|g|, i requires 0 <= i < |g| => if Score(g, t)[i] == Present then g[i] else '#')
  }

  /** Counting is additive over sequences that split a third one position by position. */
  lemma {:induction false} CountPointwise(a: seq<char>, b: seq<char>, c: seq<char>, x: char)
    requires |a| == |c| && |b| == |c|
    requires forall i :: 0 <= i < |c| ==> (if a[i] == x then 1 else 0) + (if b[i] == x then 1 else 0) == (if c[i] == x then 1 else 0)
    ensures Count(a, x) + Count(b, x) == Count(c, x)
  {
    if c != [] {
      var n := |c| - 1;
      CountPointwise(a[..n], b[..n], c[..n], x);
    }
  }

  /** Present marks for a letter track the scan: as many as were looked for, capped by what the target had left. */
  lemma {:induction false} PresentPrefix(g: seq<char>, t: seq<char>, n: nat, x: char)
    requires |g| == |t| && n <= |g| && x != '#' && x != '*'
    ensures Count(PresentLetters(g, t)[..n], x) == Min(Count(MarkGuess(g, t)[..n], x), Count(MarkTarget(g, t), x))
  {
    if n > 0 {
      var p := PresentLetters(g, t);
      var mg := MarkGuess(g, t);
      PresentPrefix(g, t, n - 1, x);
      assert p[..n] == p[..n - 1] + [p[n - 1]];
      assert mg[..n] == mg[..n - 1] + [mg[n - 1]];
      CountAppend(p[..n - 1], p[n - 1], x);
      CountAppend(mg[..n - 1], mg[n - 1], x);
    }
  }

  /**
   * No letter is marked (correct or present) more often than it occurs in the
   * target: the exact matches use up some occurrences and the present marks
   * never exceed the rest.
   */
  lemma MarksWithinTarget(g: seq<char>, t: seq<char>, x: char)
    requires |g| == |t| && x != '#' && x != '*'
    ensures Count(Marked(g, Score(g, t)), x) <= Count(t, x)
  {
    var e := ExactLetters(g, t);
    var p := PresentLetters(g, t);
    CountPointwise(e, p, Marked(g, Score(g, t)), x);
    CountPointwise(e, MarkTarget(g, t), t, x);
    PresentPrefix(g, t, |g|, x);
    assert p[..|g|] == p;
  }

  /** The keyboard rule of `updateKeyboardState`: replace a letter's state only by a higher one. */
  predicate Upgrades(existing: LetterState, newEval: LetterState)
  {
    (existing == Absent && newEval != Absent) || (existing == Present && newEval == Correct)
  }

  lemma UpgradesIsHigherRank(existing: LetterState, newEval: LetterState)
    ensures Upgrades(existing, newEval) <==> Rank(newEval) > Rank(existing)
  {
  }

  /**
   * `updateKeyboardState`: a copy of the keyboard where each guessed letter
   * holds the best state among its old one and all its evaluations.
   */
  method UpdateKeyboardState(current: map<char, LetterState>, guess: string, evaluation: seq<LetterState>)
    returns (newState: map<char, LetterState>)
    requires |evaluation| >= |guess|
    ensures forall x :: x in newState <==> x in current || x in Upper(guess)
    ensures forall x :: x in current && x !in Upper(guess) ==> newState[x] == current[x]
    ensures forall x :: x in current ==> Rank(newState[x]) >= Rank(current[x])
    ensures forall i :: 0 <= i < |guess| ==> Rank(newState[Upper(guess)[i]]) >= Rank(evaluation[i])
    ensures forall x :: x in newState ==>
      (x in current && newState[x] == current[x]) ||
      exists i :: 0 <= i < |guess| && Upper(guess)[i] == x && newState[x] == evaluation[i]
  {
    newState := current;
    var guessUpper := Upper(guess);
    for i := 0 to |guessUpper|
      invariant KeyboardMerged(current, guessUpper, evaluation, i, newState)
    {
      var letter := guessUpper[i];
      var newEval := evaluation[i];
      if letter !in newState || Upgrades(newState[letter], newEval) {
        SetStep(current, guessUpper, evaluation, i, newState);
        newState := newState[letter := newEval];
      } else {
        KeepStep(current, guessUpper, evaluation, i, newState);
      }
    }
    assert guessUpper[..|guessUpper|] == guessUpper;
  }

  /** What the keyboard holds after merging the first `n` letters of `g` into `current`. */
  ghost predicate KeyboardMerged(current: map<char, LetterState>, g: seq<char>, ev: seq<LetterState>, n: nat, state: map<char, LetterState>)
    requires n <= |g| && |g| <= |ev|
  {
    && (forall x :: x in state <==> x in current || x in g[..n])
    && (forall x :: x in current && x !in g[..n] ==> state[x] == current[x])
    && (forall x :: x in current ==> Rank(state[x]) >= Rank(current[x]))
    && (forall j :: 0 <= j < n ==> Rank(state[g[j]]) >= Rank(ev[j]))
    && (forall x :: x in state ==>
         (x in current && state[x] == current[x]) ||
         exists j :: 0 <= j < n && g[j] == x && state[x] == ev[j])
  }

  /** Merging a letter whose state does not improve keeps the keyboard. */
  lemma KeepStep(current: map<char, LetterState>, g: seq<char>, ev: seq<LetterState>, n: nat, state: map<char, LetterState>)
    requires n < |g| && |g| <= |ev|
    requires KeyboardMerged(current, g, ev, n, state)
    requires g[n] in state && !Upgrades(state[g[n]], ev[n])
    ensures KeyboardMerged(current, g, ev, n + 1, state)
  {
    var letter := g[n];
    assert g[..n + 1] == g[..n] + [letter];
    forall x | x in current && x !in g[..n + 1]
      ensures state[x] == current[x]
    {
      assert x !in g[..n];
    }
    forall x | x in state
      ensures (x in current && state[x] == current[x]) ||
              exists j :: 0 <= j < n + 1 && g[j] == x && state[x] == ev[j]
    {
    }
  }

  /** Merging a new or improved letter stores its evaluation. */
  lemma SetStep(current: map<char, LetterState>, g: seq<char>, ev: seq<LetterState>, n: nat, state: map<char, LetterState>)
    requires n < |g| && |g| <= |ev|
    requires KeyboardMerged(current, g, ev, n, state)
    requires g[n] !in state || Upgrades(state[g[n]], ev[n])
    ensures KeyboardMerged(current, g, ev, n + 1, state[g[n] := ev[n]])
  {
    var letter, e := g[n], ev[n];
    var next := state[letter := e];
    assert g[..n + 1] == g[..n] + [letter];
    forall x | x in current && x !in g[..n + 1]
      ensures next[x] == current[x]
    {
      assert x != letter && x !in g[..n];
    }
    forall j | 0 <= j < n + 1
      ensures Rank(next[g[j]]) >= Rank(ev[j])
    {
      assert g[j] in state || j == n;
    }
    forall x | x in next
      ensures (x in current && next[x] == current[x]) ||
              exists j :: 0 <= j < n + 1 && g[j] == x && next[x] == ev[j]
    {
      if x == letter {
        assert next[x] == ev[n];
      } else {
        assert x in state && next[x] == state[x];
      }
    }
  }
}
