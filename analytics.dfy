/** The per-habit monthly summary the main view derives from the state on
    every render, and the one-line digest of it sent for an AI insight. */
module Analytics {
  import opened Wrappers
  import opened Builtins
  import opened Calendar
  import opened HabitModel
  import opened Store
  import opened Seqs
  import opened Counting

  // ---------------------------------------------------------------------
  // Counting a habit's days

  /** Whether habit `id` is done on day `d` of `month`. */
  function DoneOn(history: History, year: int, month: nat, id: string): nat -> bool
  {
    (d: nat) => IsDone(history, DateKey(year, month, d), id)
  }

  /** The number of days among 1..n of `month` on which habit `id` is
      done. */
  function CompletedDays(history: History, year: int, month: nat, id: string, n: nat): nat
  {
    CountDays(DoneOn(history, year, month, id), n)
  }

  /** The inner loop of `analyticsData`: one pass over days 1..daysInMonth
      counting the days on which the habit is done. */
  method CountActual(history: History, year: int, month: nat, id: string, daysInMonth: nat)
    returns (actual: nat)
    ensures actual == CompletedDays(history, year, month, id, daysInMonth)
  {
    actual := 0;
    var d := 1;
    while d <= daysInMonth
      invariant 1 <= d <= daysInMonth + 1
      invariant actual == CountDays(DoneOn(history, year, month, id), d - 1)
    {
      var dateKey := DateKey(year, month, d);
      if IsDone(history, dateKey, id) {
        actual := actual + 1;
      }
      d := d + 1;
    }
  }

  // ---------------------------------------------------------------------
  // Summaries

  /** A habit's percentage of its goal; 0 when the goal is not positive, so
      there is never a division by zero. */
  function Progress(actual: nat, goal: int): (p: real)
    ensures p >= 0.0
    ensures goal <= 0 ==> p == 0.0
  {
    if goal > 0 then (actual as real / goal as real) * 100.0 else 0.0
  }

  /** With a positive goal the progress is the share of the goal reached,
      in percent: `progress * goal == actual * 100`, so reaching the goal
      means at least 100 and a zero count means 0. */
  lemma ProgressOfPositiveGoal(actual: nat, goal: int)
    requires goal > 0
    ensures Progress(actual, goal) * goal as real == actual as real * 100.0
    ensures actual >= goal ==> Progress(actual, goal) >= 100.0
    ensures actual == 0 ==> Progress(actual, goal) == 0.0
  {
    var a, g := actual as real, goal as real;
    var p := Progress(actual, goal);
    assert p == (a / g) * 100.0;
    assert (a / g) * g == a;
    assert p * g == a * 100.0;
    if actual >= goal {
      assert p * g >= 100.0 * g;
    }
  }

  /** One habit's summary for a month of `daysInMonth` days: its id, name
      and goal, the number of days it was done (at most the month's length)
      and its progress towards the goal. */
  function Summarize(h: Habit, history: History, year: int, month: nat, daysInMonth: nat): (r: AnalyticSummary)
    ensures r.habitId == h.id && r.name == h.name && r.goal == h.goal
    ensures r.actual <= daysInMonth
    ensures r.progress == Progress(r.actual, h.goal)
  {
    var actual := CompletedDays(history, year, month, h.id, daysInMonth);
    AnalyticSummary(h.id, h.name, actual, h.goal, Progress(actual, h.goal))
  }

  /** `analyticsData`: `habits.map(...)`, each habit summarized over the
      month on view, of `daysInMonth` days. */
  function Summaries(habits: seq<Habit>, history: History, year: int, month: nat, daysInMonth: nat)
    : (r: seq<AnalyticSummary>)
    ensures |r| == |habits|
  {
    if habits == [] then []
    else Summaries(habits[..|habits| - 1], history, year, month, daysInMonth)
         + [Summarize(habits[|habits| - 1], history, year, month, daysInMonth)]
  }

  /** Summarizing one more habit of `habits` appends that habit's
      summary. */
  lemma SummariesOfLonger(habits: seq<Habit>, i: nat, history: History, year: int, month: nat, daysInMonth: nat)
    requires i < |habits|
    ensures Summaries(habits[..i + 1], history, year, month, daysInMonth)
         == Summaries(habits[..i], history, year, month, daysInMonth)
            + [Summarize(habits[i], history, year, month, daysInMonth)]
  {
    assert habits[..i + 1][..i] == habits[..i];
  }

  /** The summaries are `habits.map(...)` with each habit's summary. */
  lemma {:induction false} SummariesAreMap(habits: seq<Habit>, history: History, year: int, month: nat, daysInMonth: nat)
    ensures Summaries(habits, history, year, month, daysInMonth)
         == Map((h: Habit) => Summarize(h, history, year, month, daysInMonth), habits)
  {
    if habits != [] {
      var f := (h: Habit) => Summarize(h, history, year, month, daysInMonth);
      var front, last := habits[..|habits| - 1], habits[|habits| - 1];
      SummariesAreMap(front, history, year, month, daysInMonth);
      assert habits == front + [last];
      MapSnoc(f, front, last);
      assert Summaries(habits, history, year, month, daysInMonth)
          == Summaries(front, history, year, month, daysInMonth) + [f(last)];
    }
  }

  /** One summary per habit, in the order of `habits`, with its id, name
      and goal copied, a count between 0 and the month's length and the
      progress that count makes towards the goal. */
  lemma SummariesFollowHabits(habits: seq<Habit>, history: History, year: int, month: nat, daysInMonth: nat)
    ensures var r := Summaries(habits, history, year, month, daysInMonth);
      && |r| == |habits|
      && forall i :: 0 <= i < |r| ==>
           && r[i].habitId == habits[i].id && r[i].name == habits[i].name && r[i].goal == habits[i].goal
           && r[i].actual <= daysInMonth
           && r[i].progress == Progress(r[i].actual, r[i].goal)
  {
    SummariesAreMap(habits, history, year, month, daysInMonth);
  }

  /** The `analyticsData` memo: the length of the month on view, then a
      summary of each habit over that many days. */
  method AnalyticsData(s: HabitState, year: int, month: nat) returns (data: seq<AnalyticSummary>)
    requires month < 12
    ensures data == Summaries(s.habits, s.history, year, month, DaysInMonth(year, month))
  {
    var daysInMonth := DaysInMonth(year, month);
    data := SummarizeEach(s.habits, s.history, year, month, daysInMonth);
  }

  /** The loop of `analyticsData`: for each habit in turn, count its done
      days with `CountActual` and append its summary. */
  method SummarizeEach(habits: seq<Habit>, history: History, year: int, month: nat, daysInMonth: nat)
    returns (data: seq<AnalyticSummary>)
    ensures data == Summaries(habits, history, year, month, daysInMonth)
  {
    data := [];
    var i := 0;
    while i < |habits|
      invariant 0 <= i <= |habits|
      invariant data == Summaries(habits[..i], history, year, month, daysInMonth)
    {
      var habit := habits[i];
      var actual := CountActual(history, year, month, habit.id, daysInMonth);
      var summary := AnalyticSummary(habit.id, habit.name, actual, habit.goal, Progress(actual, habit.goal));
      SummariesOfLonger(habits, i, history, year, month, daysInMonth);
      data := data + [summary];
      i := i + 1;
    }
    assert habits[..i] == habits;
  }

  // ---------------------------------------------------------------------
  // How the transitions move the summaries

  /** Toggling a cell of another habit, on any date, leaves a habit's count
      alone. */
  lemma ToggleOtherHabitKeepsCount(s: HabitState, date: string, other: string,
                                   year: int, month: nat, id: string, n: nat)
    requires other != id
    ensures CompletedDays(Toggled(s, date, other).history, year, month, id, n)
            == CompletedDays(s.history, year, month, id, n)
  {
    var r := Toggled(s, date, other);
    forall d | 1 <= d <= n
      ensures DoneOn(r.history, year, month, id)(d) == DoneOn(s.history, year, month, id)(d)
    {
      ToggleLeavesOtherCells(s, date, other, DateKey(year, month, d), id);
    }
    CountDaysAgree(DoneOn(r.history, year, month, id), DoneOn(s.history, year, month, id), n);
  }

  /** Toggling a date that is none of days 1..n of the month leaves every
      count of those days alone. */
  lemma ToggleOtherDateKeepsCount(s: HabitState, date: string, other: string,
                                  year: int, month: nat, id: string, n: nat)
    requires forall d :: 1 <= d <= n ==> DateKey(year, month, d) != date
    ensures CompletedDays(Toggled(s, date, other).history, year, month, id, n)
            == CompletedDays(s.history, year, month, id, n)
  {
    var r := Toggled(s, date, other);
    forall d | 1 <= d <= n
      ensures DoneOn(r.history, year, month, id)(d) == DoneOn(s.history, year, month, id)(d)
    {
      ToggleLeavesOtherCells(s, date, other, DateKey(year, month, d), id);
    }
    CountDaysAgree(DoneOn(r.history, year, month, id), DoneOn(s.history, year, month, id), n);
  }

  /** Toggling day `day` (one of 1..n) of the month for a habit moves that
      habit's count of days 1..n by exactly one: up if the day was not
      done, down if it was. */
  lemma ToggleMovesCountByOne(s: HabitState, year: int, month: nat, day: nat, id: string, n: nat)
    requires month < 99 && 1 <= day <= n < 100
    ensures var key := DateKey(year, month, day);
      CompletedDays(Toggled(s, key, id).history, year, month, id, n)
      == CompletedDays(s.history, year, month, id, n) + (if IsDone(s.history, key, id) then -1 else 1)
  {
    var key := DateKey(year, month, day);
    var r := Toggled(s, key, id);
    var p, q := DoneOn(s.history, year, month, id), DoneOn(r.history, year, month, id);
    forall d | 1 <= d <= n && d != day
      ensures p(d) == q(d)
    {
      if DateKey(year, month, d) == key {
        DateKeyInjective(year, month, d, year, month, day);
      }
      ToggleLeavesOtherCells(s, key, id, DateKey(year, month, d), id);
    }
    CountDaysFlip(p, q, day, n);
  }

  /** History kept for a deleted (or never added) habit is inert: toggling
      it changes no summary. */
  lemma ToggleOrphanKeepsSummaries(s: HabitState, date: string, orphan: string, year: int, month: nat, daysInMonth: nat)
    requires orphan !in Ids(s.habits)
    ensures var r := Toggled(s, date, orphan);
      Summaries(r.habits, r.history, year, month, daysInMonth) == Summaries(s.habits, s.history, year, month, daysInMonth)
  {
    var r := Toggled(s, date, orphan);
    var before, after := Summaries(s.habits, s.history, year, month, daysInMonth),
                         Summaries(r.habits, r.history, year, month, daysInMonth);
    SummariesAreMap(s.habits, s.history, year, month, daysInMonth);
    SummariesAreMap(r.habits, r.history, year, month, daysInMonth);
    forall i | 0 <= i < |s.habits|
      ensures after[i] == before[i]
    {
      assert s.habits[i] in s.habits;
      ToggleOtherHabitKeepsCount(s, date, orphan, year, month, s.habits[i].id, daysInMonth);
    }
  }

  /** After a confirmed delete the summaries are the old ones with the
      deleted habit's left out; every other habit's summary is unchanged,
      because the history is kept. */
  lemma DeleteDropsOnlyItsSummary(s: HabitState, id: string, year: int, month: nat, daysInMonth: nat)
    ensures var r := WithoutHabit(s, id);
      Summaries(r.habits, r.history, year, month, daysInMonth)
      == Filter((d: AnalyticSummary) => d.habitId != id, Summaries(s.habits, s.history, year, month, daysInMonth))
  {
    SummariesAreMap(s.habits, s.history, year, month, daysInMonth);
    SummariesAreMap(WithoutHabit(s, id).habits, s.history, year, month, daysInMonth);
    FilterOfMap((d: AnalyticSummary) => d.habitId != id,
                (h: Habit) => Summarize(h, s.history, year, month, daysInMonth),
                (h: Habit) => h.id != id, s.habits);
  }

  /** Adding a habit appends exactly its summary and leaves the others. */
  lemma AddAppendsOneSummary(s: HabitState, nameInput: Option<string>, goalInput: Option<string>,
                             now: int, year: int, month: nat, daysInMonth: nat)
    requires !NameMissing(nameInput)
    ensures var r := WithNewHabit(s, nameInput, goalInput, now);
      Summaries(r.habits, r.history, year, month, daysInMonth)
      == Summaries(s.habits, s.history, year, month, daysInMonth)
         + [Summarize(NewHabit(nameInput.value, goalInput, now), s.history, year, month, daysInMonth)]
  {
    var habits := WithNewHabit(s, nameInput, goalInput, now).habits;
    assert habits[..|habits| - 1] == s.habits;
  }

  // ---------------------------------------------------------------------
  // The insight digest

  /** The text after the last `c` in `s`; all of `s` when there is no `c`. */
  function AfterLast(s: string, c: char): string
  {
    if s == [] || s[|s| - 1] == c then [] else AfterLast(s[..|s| - 1], c) + [s[|s| - 1]]
  }

  /** What follows the last `c` is the text after a `c` that no later `c`
      follows. */
  lemma {:induction false} AfterLastOf(x: string, c: char, g: string)
    requires c !in g
    ensures AfterLast(x + [c] + g, c) == g
  {
    var s := x + [c] + g;
    if g != [] {
      var init := g[..|g| - 1];
      assert s[..|s| - 1] == x + [c] + init;
      AfterLastOf(x, c, init);
      assert init + [g[|g| - 1]] == g;
    }
  }

  /** A printed integer holds no '/'. */
  lemma NoSlashInNumber(n: int)
    ensures '/' !in IntToDecimal(n)
  {
    var s := IntToDecimal(n);
    forall i | 0 <= i < |s|
      ensures s[i] != '/'
    {
      if n < 0 && i > 0 {
        assert s[i] == s[1..][i - 1];
        assert DigitValue(s[1..][i - 1]) < 10;
      } else if n >= 0 {
        assert DigitValue(s[i]) < 10;
      }
    }
  }

  /** The days done read back from the text after the name and ": ". */
  lemma ActualReadsBack(name: string, actual: nat, goalText: string)
    ensures var e := name + ": " + IntToDecimal(actual) + ['/'] + goalText;
      ParseInt(e[|name| + 2..]) == Some(actual as int)
  {
    var e := name + ": " + IntToDecimal(actual) + ['/'] + goalText;
    assert e[|name| + 2..] == NatToDecimal(actual) + (['/'] + goalText);
    ParseIntOfPrefix(actual, ['/'] + goalText);
  }

  /** The goal read back from the text after the last '/'. */
  lemma GoalReadsBack(head: string, goal: int)
    ensures ParseInt(AfterLast(head + ['/'] + IntToDecimal(goal), '/')) == Some(goal)
  {
    NoSlashInNumber(goal);
    AfterLastOf(head, '/', IntToDecimal(goal));
    ParseIntRoundTrip(goal);
  }

  /** `${name}: ${actual}/${goal}` for one summary. It reads back: it starts
      with the name and ": ", `parseInt` of the rest is the days done, and
      the text after the last '/' parses as the goal. */
  function InsightEntry(d: AnalyticSummary): (e: string)
    ensures |d.name| + 2 <= |e| && e[..|d.name| + 2] == d.name + ": "
    ensures ParseInt(e[|d.name| + 2..]) == Some(d.actual as int)
    ensures ParseInt(AfterLast(e, '/')) == Some(d.goal)
  {
    var head := d.name + ": " + IntToDecimal(d.actual);
    var e := head + ['/'] + IntToDecimal(d.goal);
    assert e[..|d.name| + 2] == d.name + ": ";
    ActualReadsBack(d.name, d.actual, IntToDecimal(d.goal));
    GoalReadsBack(head, d.goal);
    e
  }

  /** `analyticsData.map(...).join(', ')`: empty exactly when there are no
      summaries; otherwise, with ", " added at its end, it is every
      summary's entry followed by ", ", in the order of the summaries. */
  function InsightSummary(data: seq<AnalyticSummary>): (r: string)
    ensures r == [] <==> data == []
    ensures data != [] ==> r + ", " == Concat(Map((d: AnalyticSummary) => InsightEntry(d) + ", ", data))
  {
    var parts := Map(InsightEntry, data);
    var r := Join(parts, ", ");
    if data != [] then
      JoinThenSep(parts, ", ");
      assert Map((p: string) => p + ", ", parts) == Map((d: AnalyticSummary) => InsightEntry(d) + ", ", data);
      JoinTileAt(parts, ", ", 0);
      r
    else r
  }
}
