/** The month grid: one row per habit, one column per day, a header of
    week spans, a footer of per-day counts and the completed/percentage
    stats shown above it. */
module Grid {
  import opened Builtins
  import opened Calendar
  import opened HabitModel
  import opened Seqs
  import opened Counting
  import opened Analytics

  // ---------------------------------------------------------------------
  // Columns and weeks

  /** `daysArray`: the day numbers of the month, 1 to `daysInMonth`, in
      increasing order. */
  function DaysArray(daysInMonth: nat): (r: seq<nat>)
    ensures |r| == daysInMonth
    ensures forall d :: d in r <==> 1 <= d <= daysInMonth
    ensures forall i, j :: 0 <= i < j < |r| ==> r[i] < r[j]
    ensures forall i :: 0 <= i < |r| ==> r[i] == i + 1
  {
    var r := seq(daysInMonth, i requires 0 <= i < daysInMonth => (i + 1) as nat);
    assert forall d :: 1 <= d <= daysInMonth ==> d in r by {
      forall d | 1 <= d <= daysInMonth
        ensures d in r
      {
        assert r[d - 1] == d;
      }
    }
    r
  }

  /** `getWeekNumber`: the week of the month a day falls in, weeks being
      days 1-7, 8-14, and so on; the days of a month fall in weeks 1 to 5. */
  function WeekNumber(day: nat): (w: int)
    ensures day >= 1 ==> 7 * (w - 1) < day <= 7 * w
    ensures w == (day + 6) / 7
    ensures 1 <= day <= 35 ==> 1 <= w <= 5
  {
    Ceil(day as real / 7.0)
  }

  /** The header span of week `w`: seven columns, except the fifth week,
      which takes the days past the 28th. */
  function WeekSpan(w: nat, daysInMonth: int): int
  {
    if w == 5 then daysInMonth - 28 else 7
  }

  /** The spans of the five week headers. */
  function WeekSpans(daysInMonth: int): (r: seq<int>)
    ensures |r| == 5
    ensures r[..4] == [7, 7, 7, 7] && r[4] == daysInMonth - 28
  {
    Map((w: nat) => WeekSpan(w, daysInMonth), [1, 2, 3, 4, 5])
  }

  /** The number of days among 1..n that fall in week `w`. */
  function DaysOfWeek(w: int, n: nat): nat
  {
    CountDays((d: nat) => WeekNumber(d) == w, n)
  }

  /** Four full weeks and a last span of `rest` columns make 28 + `rest`
      columns. */
  lemma SpansTotal(rest: int)
    ensures Sum((s: int) => s, [7, 7, 7, 7, rest]) == 28 + rest
  {
    var id := (s: int) => s;
    var r := [7, 7, 7, 7, rest];
    assert r[..4] == [7, 7, 7, 7] && [7, 7, 7, 7][..3] == [7, 7, 7];
    assert [7, 7, 7][..2] == [7, 7] && [7, 7][..1] == [7] && [7][..0] == [];
    assert Sum(id, [7]) == 7;
    assert Sum(id, [7, 7]) == 14;
    assert Sum(id, [7, 7, 7]) == 21;
    assert Sum(id, [7, 7, 7, 7]) == 28;
  }

  /** For a month of 28 to 35 days the week spans are 7, 7, 7, 7 and the
      days past the 28th: each is the number of the month's days with that
      week number, none is negative, and together they cover the month. */
  lemma WeekSpansCoverMonth(daysInMonth: nat)
    requires 28 <= daysInMonth <= 35
    ensures var r := WeekSpans(daysInMonth);
      && r == [7, 7, 7, 7, daysInMonth - 28]
      && (forall i :: 0 <= i < 5 ==> 0 <= r[i])
      && Sum((s: int) => s, r) == daysInMonth
      && forall w :: 1 <= w <= 5 ==> DaysOfWeek(w, daysInMonth) == r[w - 1]
  {
    var r := WeekSpans(daysInMonth);
    assert r == r[..4] + [r[4]];
    SpansTotal(daysInMonth - 28);
    forall w | 1 <= w <= 5
      ensures DaysOfWeek(w, daysInMonth) == r[w - 1]
    {
      DaysOfEachWeek(w, daysInMonth);
    }
  }

  /** Weeks 1 to 4 of a month of 28 to 35 days hold seven days each and
      week 5 the days past the 28th. */
  lemma DaysOfEachWeek(w: nat, daysInMonth: nat)
    requires 1 <= w <= 5 && 28 <= daysInMonth <= 35
    ensures DaysOfWeek(w, daysInMonth) == if w < 5 then 7 else daysInMonth - 28
  {
    CountInterval((d: nat) => WeekNumber(d) == w, 7 * (w - 1), 7 * w, daysInMonth);
  }

  /** The month lengths of the calendar all fall in the range of
      `WeekSpansCoverMonth`. */
  lemma MonthFitsFiveWeeks(year: int, month: nat)
    requires month < 12
    ensures 28 <= DaysInMonth(year, month) <= 35
  {
  }

  /** The columns a header cell occupies when its span is set to `span`:
      HTML reads a span of zero (or less) as one column and caps spans at
      1000 (the `colspan` rules of the table processing model, section
      4.9.12 of the HTML Living Standard). */
  function RenderedSpan(span: int): (c: int)
    ensures 1 <= c <= 1000
    ensures 1 <= span <= 1000 ==> c == span
  {
    if span < 1 then 1 else if span > 1000 then 1000 else span
  }

  /** The columns a row of header cells occupies. */
  function HeaderColumns(spans: seq<int>): int
  {
    Sum(RenderedSpan, spans)
  }

  /** Four full weeks and a last cell of span `rest` occupy 28 columns and
      the last cell's. */
  lemma RenderedTotal(rest: int)
    ensures HeaderColumns([7, 7, 7, 7, rest]) == 28 + RenderedSpan(rest)
  {
    var r := [7, 7, 7, 7, rest];
    assert r[..4] == [7, 7, 7, 7] && [7, 7, 7, 7][..3] == [7, 7, 7];
    assert [7, 7, 7][..2] == [7, 7] && [7, 7][..1] == [7] && [7][..0] == [];
    assert Sum(RenderedSpan, [7]) == 7;
    assert Sum(RenderedSpan, [7, 7]) == 14;
    assert Sum(RenderedSpan, [7, 7, 7]) == 21;
    assert Sum(RenderedSpan, [7, 7, 7, 7]) == 28;
  }

  /** In a 28-day month (February 2023, say) the fifth week header gets a
      span of 0, which renders as one column: the header row is one column
      wider than the 28 day columns beneath it. */
  lemma WeekHeaderOverhangs()
    ensures DaysInMonth(2023, 1) == 28
    ensures WeekSpans(28)[4] == 0
    ensures HeaderColumns(WeekSpans(28)) == 29
  {
    assert WeekSpans(28) == [7, 7, 7, 7, 0];
    RenderedTotal(0);
  }

  /** The week headers as evidently intended: the fifth week only when the
      month has days past the 28th. */
  function WeekHeaders(daysInMonth: int): (r: seq<int>)
    ensures r <= WeekSpans(daysInMonth)
  {
    if daysInMonth > 28 then WeekSpans(daysInMonth) else WeekSpans(daysInMonth)[..4]
  }

  /** For every month of 28 to 35 days the intended headers each span at
      least one column, as written, and together span exactly the month's
      day columns. */
  lemma WeekHeadersFitGrid(daysInMonth: nat)
    requires 28 <= daysInMonth <= 35
    ensures var r := WeekHeaders(daysInMonth);
      && (forall i :: 0 <= i < |r| ==> 1 <= r[i] && RenderedSpan(r[i]) == r[i])
      && HeaderColumns(r) == daysInMonth
  {
    var spans := WeekSpans(daysInMonth);
    assert spans == [7, 7, 7, 7, daysInMonth - 28];
    RenderedTotal(daysInMonth - 28);
  }

  // ---------------------------------------------------------------------
  // Cells and counts

  /** Whether the cell of habit `h` on day `d` of the month is checked. */
  function Cell(history: History, year: int, month: nat): (Habit, nat) -> bool
  {
    (h: Habit, d: nat) => IsDone(history, DateKey(year, month, d), h.id)
  }

  /** The footer count of day `d`: `habits.filter(...).length` over the
      habits whose cell that day is checked. */
  function DayDone(habits: seq<Habit>, history: History, year: int, month: nat, d: nat): (c: nat)
    ensures c <= |habits|
  {
    ColumnCount(Cell(history, year, month), habits, d)
  }

  /** The number of checked cells of the grid: every habit's completed
      days summed over the habits. */
  function GridCompleted(habits: seq<Habit>, history: History, year: int, month: nat, daysInMonth: nat): int
  {
    Sum((h: Habit) => CompletedDays(history, year, month, h.id, daysInMonth), habits)
  }

  /** Counting one more habit adds its completed days. */
  lemma GridCompletedOfLonger(habits: seq<Habit>, i: nat, history: History, year: int, month: nat, daysInMonth: nat)
    requires i < |habits|
    ensures GridCompleted(habits[..i + 1], history, year, month, daysInMonth)
         == GridCompleted(habits[..i], history, year, month, daysInMonth)
            + CompletedDays(history, year, month, habits[i].id, daysInMonth)
  {
    assert habits[..i + 1][..i] == habits[..i];
  }

  /** The grid never counts more checked cells than it has:
      `0 <= completed <= habits.length * daysInMonth`. */
  lemma GridCompletedBounds(habits: seq<Habit>, history: History, year: int, month: nat, daysInMonth: nat)
    ensures 0 <= GridCompleted(habits, history, year, month, daysInMonth) <= |habits| * daysInMonth
  {
    SumBounds((h: Habit) => CompletedDays(history, year, month, h.id, daysInMonth), habits, daysInMonth);
  }

  /** The footer counts of all days add up to the grid's completed count:
      counting the checked cells column by column agrees with counting
      them row by row. */
  lemma FooterSumsToCompleted(habits: seq<Habit>, history: History, year: int, month: nat, daysInMonth: nat)
    ensures SumDays((d: nat) => DayDone(habits, history, year, month, d), daysInMonth)
         == GridCompleted(habits, history, year, month, daysInMonth)
  {
    var cell := Cell(history, year, month);
    CountRowsThenColumns(cell, habits, daysInMonth);
    forall h: Habit
      ensures CompletedDays(history, year, month, h.id, daysInMonth) == RowCount(cell, h, daysInMonth)
    {
      CountDaysAgree(DoneOn(history, year, month, h.id), (d: nat) => cell(h, d), daysInMonth);
    }
    SumAgree((h: Habit) => CompletedDays(history, year, month, h.id, daysInMonth),
             (h: Habit) => RowCount(cell, h, daysInMonth), habits);
    SumDaysAgree((d: nat) => DayDone(habits, history, year, month, d),
                 (d: nat) => ColumnCount(cell, habits, d), daysInMonth);
  }

  /** The grid's completed count is the total of the `actual` counts of the
      per-habit summaries for the same state and month. */
  lemma StatsMatchSummaries(habits: seq<Habit>, history: History, year: int, month: nat, daysInMonth: nat)
    ensures GridCompleted(habits, history, year, month, daysInMonth)
         == Sum((d: AnalyticSummary) => d.actual as int, Summaries(habits, history, year, month, daysInMonth))
  {
    SummariesAreMap(habits, history, year, month, daysInMonth);
    SumOfMap((d: AnalyticSummary) => d.actual as int,
             (h: Habit) => Summarize(h, history, year, month, daysInMonth),
             (h: Habit) => CompletedDays(history, year, month, h.id, daysInMonth), habits);
  }

  /** The percentage shown: `completed` of `totalPossible` rounded to a
      whole percent, or 0 when there is nothing to complete. */
  function GridProgress(completed: int, totalPossible: int): (p: int)
    ensures totalPossible <= 0 ==> p == 0
    ensures totalPossible > 0 ==> var share := (completed as real / totalPossible as real) * 100.0;
      share - 0.5 < p as real <= share + 0.5
  {
    if totalPossible > 0 then Round((completed as real / totalPossible as real) * 100.0) else 0
  }

  /** With no more checked cells than cells, the percentage is a whole
      number from 0 to 100: 0 when nothing is checked or there are no
      cells, 100 when everything is. */
  lemma GridProgressBounds(completed: int, totalPossible: int)
    requires 0 <= completed
    requires completed <= totalPossible || totalPossible <= 0
    ensures 0 <= GridProgress(completed, totalPossible) <= 100
    ensures completed == 0 ==> GridProgress(completed, totalPossible) == 0
    ensures completed == totalPossible > 0 ==> GridProgress(completed, totalPossible) == 100
  {
    if totalPossible > 0 {
      var share := completed as real / totalPossible as real;
      assert share * totalPossible as real == completed as real;
      assert 0.0 <= share <= 1.0;
      if completed == totalPossible {
        assert share == 1.0;
      }
    }
  }

  /** One habit's row of the `stats` memo: a pass over the days array,
      counting the days on which the habit is done. */
  method CountRow(history: History, year: int, month: nat, id: string, daysArray: seq<nat>)
    returns (count: nat)
    requires forall j :: 0 <= j < |daysArray| ==> daysArray[j] == j + 1
    ensures count == CompletedDays(history, year, month, id, |daysArray|)
  {
    count := 0;
    var j := 0;
    while j < |daysArray|
      invariant 0 <= j <= |daysArray|
      invariant count == CompletedDays(history, year, month, id, j)
    {
      var d := daysArray[j];
      var dateKey := DateKey(year, month, d);
      if IsDone(history, dateKey, id) {
        count := count + 1;
      }
      j := j + 1;
    }
  }

  /** The `stats` memo: nested passes over the habits and the days of the
      month, adding one for each checked cell, then the percentage. */
  method Stats(habits: seq<Habit>, history: History, year: int, month: nat, daysInMonth: nat)
    returns (completed: nat, progress: int)
    ensures completed == GridCompleted(habits, history, year, month, daysInMonth)
    ensures progress == GridProgress(completed, |habits| * daysInMonth)
  {
    var daysArray := DaysArray(daysInMonth);
    completed := 0;
    var totalPossible := |habits| * daysInMonth;
    var i := 0;
    while i < |habits|
      invariant 0 <= i <= |habits|
      invariant completed == GridCompleted(habits[..i], history, year, month, daysInMonth)
    {
      var row := CountRow(history, year, month, habits[i].id, daysArray);
      completed := completed + row;
      GridCompletedOfLonger(habits, i, history, year, month, daysInMonth);
      i := i + 1;
    }
    assert habits[..i] == habits;
    progress := if totalPossible > 0 then Round((completed as real / totalPossible as real) * 100.0) else 0;
  }
}
