/**
 * The daily play streak shared by all games. Dates are day numbers (one per
 * calendar day in the user's time zone); "today" and the history cutoff are
 * parameters instead of clock reads.
 */
module StreakLogic {
  import opened Wrappers
  import opened Seqs

  datatype GameType = Wordle | Connections | Crossword | Sudoku

  datatype StreakHistoryEntry = StreakHistoryEntry(date: int, gamesPlayed: seq<GameType>)

  datatype StreakData = StreakData(currentStreak: int, maxStreak: int, lastPlayedDate: Option<int>, streakHistory: seq<StreakHistoryEntry>)

  datatype StreakStep = StreakStep(newStreak: int, isNewDay: bool)

  datatype Completion = Completion(updatedData: StreakData, isNewDay: bool)

  /**
   * `calculateNewStreak`: the first play ever starts a streak of 1, a play on
   * the day after the last one extends the streak, a later play restarts it at
   * 1, and a play on the same day (or, defensively, an earlier one) changes nothing.
   */
  function CalculateNewStreak(currentStreak: int, lastPlayedDate: Option<int>, today: int): (r: StreakStep)
    ensures r.isNewDay <==> lastPlayedDate.None? || lastPlayedDate.value < today
    ensures !r.isNewDay ==> r.newStreak == currentStreak
    ensures r.isNewDay ==> r.newStreak == (if lastPlayedDate == Some(today - 1) then currentStreak + 1 else 1)
  {
    if lastPlayedDate.None? then StreakStep(1, true)
    else if lastPlayedDate.value == today then StreakStep(currentStreak, false)
    else
      var diffDays := today - lastPlayedDate.value;
      if diffDays == 1 then StreakStep(currentStreak + 1, true)
      else if diffDays > 1 then StreakStep(1, true)
      else StreakStep(currentStreak, false)
  }

  /** The streak after playing on each of `days` in turn, starting from `streak` and `last`. */
  function Replay(streak: int, last: Option<int>, days: seq<int>): (r: (int, Option<int>))
    decreases |days|
  {
    if days == [] then (streak, last)
    else
      var step := CalculateNewStreak(streak, last, days[0]);
      var last' := if step.isNewDay then Some(days[0]) else last;
      Replay(step.newStreak, last', days[1..])
  }

  /** `n` consecutive days of play, from the day after the last play, add `n` to the streak. */
  lemma {:induction false} ConsecutiveDaysExtend(streak: int, last: int, n: nat)
    ensures Replay(streak, Some(last), seq(n, i => last + 1 + i)) == (streak + n, Some(last + n))
    decreases n
  {
    if n > 0 {
      var days := seq(n, i => last + 1 + i);
      assert days[0] == last + 1;
      assert days[1..] == seq(n - 1, i => (last + 1) + 1 + i);
      ConsecutiveDaysExtend(streak + 1, last + 1, n - 1);
    }
  }

  /** A first-ever run of `n` consecutive days of play is a streak of `n`. */
  lemma FirstRunIsItsLength(first: int, n: nat)
    requires n > 0
    ensures Replay(0, None, seq(n, i => first + i)).0 == n
  {
    var days := seq(n, i => first + i);
    assert days[1..] == seq(n - 1, i => first + 1 + i);
    ConsecutiveDaysExtend(1, first, n - 1);
  }

  /** A skipped day restarts the streak at 1, whatever it was. */
  lemma GapResets(streak: int, last: int, today: int)
    requires today > last + 1
    ensures Replay(streak, Some(last), [today]) == (1, Some(today))
  {
  }

  /** `gameType` recorded in an entry: kept as it is when already there, appended otherwise. */
  function AddGame(e: StreakHistoryEntry, gameType: GameType): (r: StreakHistoryEntry)
    ensures r.date == e.date && gameType in r.gamesPlayed
    ensures forall g :: g in r.gamesPlayed <==> g in e.gamesPlayed || g == gameType
  {
    if gameType in e.gamesPlayed then e
    else
      e.(gamesPlayed := e.gamesPlayed + [gameType])
  }

  /** Recording a game never creates a duplicate in the day's list. */
  lemma AddGameKeepsDistinct(e: StreakHistoryEntry, gameType: GameType)
    requires Distinct(e.gamesPlayed)
    ensures Distinct(AddGame(e, gameType).gamesPlayed)
    ensures gameType in e.gamesPlayed ==> AddGame(e, gameType) == e
  {
    if gameType !in e.gamesPlayed {
      DistinctAppend(e.gamesPlayed, gameType);
    }
  }

  /** Records `gameType` in every entry dated `today`. */
  function MarkToday(history: seq<StreakHistoryEntry>, today: int, gameType: GameType): (r: seq<StreakHistoryEntry>)
    ensures |r| == |history|
    ensures forall i :: 0 <= i < |r| ==> r[i] == (if history[i].date == today then AddGame(history[i], gameType) else history[i])
  {
    if history == [] then []
    else
      var e := history[0];
      [if e.date == today then AddGame(e, gameType) else e] + MarkToday(history[1..], today, gameType)
  }

  /** The entries dated on or after `cutoff`, in order. */
  function KeepSince(history: seq<StreakHistoryEntry>, cutoff: int): (r: seq<StreakHistoryEntry>)
    ensures forall e :: e in r <==> e in history && e.date >= cutoff
    ensures |r| <= |history|
  {
    if history == [] then []
    else
      var rest := KeepSince(history[1..], cutoff);
      if history[0].date >= cutoff then [history[0]] + rest else rest
  }

  predicate HasEntry(history: seq<StreakHistoryEntry>, today: int)
  {
    exists e :: e in history && e.date == today
  }

  /**
   * `updateStreakHistory`: records the game in today's entry (creating the
   * entry when there is none) and drops the entries dated before the cutoff.
   */
  function UpdateStreakHistory(history: seq<StreakHistoryEntry>, today: int, cutoff: int, gameType: GameType): (r: seq<StreakHistoryEntry>)
    ensures forall e :: e in r ==> e.date >= cutoff
    ensures today >= cutoff ==> exists e :: e in r && e.date == today && gameType in e.gamesPlayed
    ensures forall e :: e in r && e.date != today <==> e in history && e.date != today && e.date >= cutoff
    ensures forall e :: e in r && e.date == today ==>
      if HasEntry(history, today) then exists h :: h in history && h.date == today && e == AddGame(h, gameType)
      else e == StreakHistoryEntry(today, [gameType])
    ensures |r| <= |history| + 1
    ensures !HasEntry(history, today) ==>
      r == KeepSince(history, cutoff) + (if today >= cutoff then [StreakHistoryEntry(today, [gameType])] else [])
    ensures HasEntry(history, today) ==> r == MarkToday(KeepSince(history, cutoff), today, gameType)
  {
    var updatedHistory := RecordToday(history, today, gameType);
    RecordTodayFacts(history, today, gameType);
    if HasEntry(history, today) then
      KeepSinceMarkToday(history, today, gameType, cutoff);
      KeepSince(updatedHistory, cutoff)
    else
      KeepSinceAppend(history, [StreakHistoryEntry(today, [gameType])], cutoff);
      KeepSince(updatedHistory, cutoff)
  }

  /** Filtering by date distributes over concatenation. */
  lemma {:induction false} KeepSinceAppend(a: seq<StreakHistoryEntry>, b: seq<StreakHistoryEntry>, cutoff: int)
    ensures KeepSince(a + b, cutoff) == KeepSince(a, cutoff) + KeepSince(b, cutoff)
  {
    if a != [] {
      assert (a + b)[0] == a[0] && (a + b)[1..] == a[1..] + b;
      KeepSinceAppend(a[1..], b, cutoff);
    } else {
      assert a + b == b;
    }
  }

  /** Recording the game keeps every date, so it commutes with filtering by date. */
  lemma {:induction false} KeepSinceMarkToday(history: seq<StreakHistoryEntry>, today: int, gameType: GameType, cutoff: int)
    ensures KeepSince(MarkToday(history, today, gameType), cutoff) == MarkToday(KeepSince(history, cutoff), today, gameType)
  {
    if history != [] {
      var marked := MarkToday(history, today, gameType);
      assert marked[1..] == MarkToday(history[1..], today, gameType);
      KeepSinceMarkToday(history[1..], today, gameType, cutoff);
      var kept := KeepSince(history[1..], cutoff);
      if history[0].date >= cutoff {
        assert ([history[0]] + kept)[1..] == kept;
      }
    }
  }

  /** Today's entry gains the game, or is appended when there is none (the history before the cutoff is applied). */
  function RecordToday(history: seq<StreakHistoryEntry>, today: int, gameType: GameType): seq<StreakHistoryEntry>
  {
    if HasEntry(history, today) then MarkToday(history, today, gameType)
    else history + [StreakHistoryEntry(today, [gameType])]
  }

  lemma RecordTodayFacts(history: seq<StreakHistoryEntry>, today: int, gameType: GameType)
    ensures var u := RecordToday(history, today, gameType);
      && (exists e :: e in u && e.date == today && gameType in e.gamesPlayed)
      && (forall e :: e in u && e.date != today <==> e in history && e.date != today)
      && (forall e :: e in u && e.date == today ==>
           if HasEntry(history, today) then exists h :: h in history && h.date == today && e == AddGame(h, gameType)
           else e == StreakHistoryEntry(today, [gameType]))
      && |u| <= |history| + 1
  {
    if HasEntry(history, today) {
      MarkTodayFacts(history, today, gameType);
    } else {
      var u := history + [StreakHistoryEntry(today, [gameType])];
      assert u[|history|] == StreakHistoryEntry(today, [gameType]);
    }
  }

  /** With an entry for today, marking changes only the entries dated today, each by `AddGame`. */
  lemma MarkTodayFacts(history: seq<StreakHistoryEntry>, today: int, gameType: GameType)
    requires HasEntry(history, today)
    ensures var u := MarkToday(history, today, gameType);
      && (exists e :: e in u && e.date == today && gameType in e.gamesPlayed)
      && (forall e :: e in u && e.date != today <==> e in history && e.date != today)
      && (forall e :: e in u && e.date == today ==> exists h :: h in history && h.date == today && e == AddGame(h, gameType))
  {
    var u := MarkToday(history, today, gameType);
    var e :| e in history && e.date == today;
    var i :| 0 <= i < |history| && history[i] == e;
    assert u[i] == AddGame(e, gameType);
    MarkTodayOthers(history, today, gameType);
    MarkTodayChanged(history, today, gameType);
  }

  /** Marking keeps exactly the entries not dated today. */
  lemma MarkTodayOthers(history: seq<StreakHistoryEntry>, today: int, gameType: GameType)
    ensures var u := MarkToday(history, today, gameType);
      forall e :: e in u && e.date != today <==> e in history && e.date != today
  {
    var u := MarkToday(history, today, gameType);
    forall x | x in u && x.date != today
      ensures x in history
    {
      var k :| 0 <= k < |u| && u[k] == x;
      assert history[k] == x;
    }
    forall x | x in history && x.date != today
      ensures x in u
    {
      var k :| 0 <= k < |history| && history[k] == x;
      assert u[k] == x;
    }
  }

  /** Every entry dated today after marking is an old entry of today with the game added. */
  lemma MarkTodayChanged(history: seq<StreakHistoryEntry>, today: int, gameType: GameType)
    ensures var u := MarkToday(history, today, gameType);
      forall e :: e in u && e.date == today ==> exists h :: h in history && h.date == today && e == AddGame(h, gameType)
  {
    var u := MarkToday(history, today, gameType);
    forall x | x in u && x.date == today
      ensures exists h :: h in history && h.date == today && x == AddGame(h, gameType)
    {
      var k :| 0 <= k < |u| && u[k] == x;
      assert history[k] in history;
    }
  }

  function Max(a: int, b: int): int { if a >= b then a else b }

  /**
   * `processGameCompletion`: the history always records the game; on a new
   * day the streak, the best streak and the last play date move on, and
   * otherwise they stay as they were.
   */
  function ProcessGameCompletion(current: StreakData, gameType: GameType, today: int, cutoff: int): (r: Completion)
    ensures var step := CalculateNewStreak(current.currentStreak, current.lastPlayedDate, today);
      && r.isNewDay == step.isNewDay
      && r.updatedData.streakHistory == UpdateStreakHistory(current.streakHistory, today, cutoff, gameType)
      && (!r.isNewDay ==> r.updatedData == current.(streakHistory := r.updatedData.streakHistory))
      && (r.isNewDay ==> r.updatedData.currentStreak == step.newStreak && r.updatedData.lastPlayedDate == Some(today))
      && (r.isNewDay ==> r.updatedData.maxStreak == Max(step.newStreak, current.maxStreak))
    ensures r.updatedData.maxStreak >= current.maxStreak
    ensures r.isNewDay ==> r.updatedData.maxStreak >= r.updatedData.currentStreak
  {
    var step := CalculateNewStreak(current.currentStreak, current.lastPlayedDate, today);
    var updatedHistory := UpdateStreakHistory(current.streakHistory, today, cutoff, gameType);
    if !step.isNewDay then
      Completion(current.(streakHistory := updatedHistory), false)
    else
      Completion(StreakData(step.newStreak, Max(step.newStreak, current.maxStreak), Some(today), updatedHistory), true)
  }

  /** The best streak is never below the current one, before and after a completion. */
  lemma MaxStreakKept(current: StreakData, gameType: GameType, today: int, cutoff: int)
    requires current.maxStreak >= current.currentStreak
    ensures var d := ProcessGameCompletion(current, gameType, today, cutoff).updatedData;
      d.maxStreak >= d.currentStreak
  {
  }

  /** `isStreakAtRisk`: there is a streak, and the last play was yesterday (so not yet today). */
  function IsStreakAtRisk(currentStreak: int, lastPlayedDate: Option<int>, today: int): (r: bool)
    ensures r <==> currentStreak != 0 && lastPlayedDate == Some(today - 1)
  {
    if currentStreak == 0 || lastPlayedDate.None? then false
    else if lastPlayedDate.value == today then false
    else lastPlayedDate.value == today - 1
  }

  /** A streak at risk is saved by playing today: the play extends it. */
  lemma PlayingSavesStreak(currentStreak: int, lastPlayedDate: Option<int>, today: int)
    requires IsStreakAtRisk(currentStreak, lastPlayedDate, today)
    ensures CalculateNewStreak(currentStreak, lastPlayedDate, today) == StreakStep(currentStreak + 1, true)
    ensures !IsStreakAtRisk(currentStreak + 1, Some(today), today)
  {
  }
}
