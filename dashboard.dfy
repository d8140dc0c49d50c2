/** The analytics dashboard under the grid: the analysis table, the pie of
    completed days per habit with the overall completion below it, and the
    list of monthly targets padded with blank rows. */
module Dashboard {
  import opened Builtins
  import opened HabitModel
  import opened Seqs
  import opened Analytics
  import opened Grid

  // ---------------------------------------------------------------------
  // The pie

  /** One slice of the pie: a habit's name and its completed days. */
  datatype PieSlice = PieSlice(name: string, value: nat)

  /** The slice of one summary. */
  function SliceOf(d: AnalyticSummary): PieSlice
  {
    PieSlice(d.name, d.actual)
  }

  /** `pieData`: every summary turned into a slice, keeping the slices with
      a positive value. */
  function PieData(data: seq<AnalyticSummary>): (r: seq<PieSlice>)
    ensures forall s :: s in r ==> s.value > 0
  {
    Filter((s: PieSlice) => s.value > 0, Map(SliceOf, data))
  }

  /** The pie holds exactly the slices of the summaries with a positive
      count, in the order of the summaries. */
  lemma PieDataKeepsDoneHabits(data: seq<AnalyticSummary>)
    ensures PieData(data) == Map(SliceOf, Filter((d: AnalyticSummary) => d.actual > 0, data))
  {
    FilterOfMap((s: PieSlice) => s.value > 0, SliceOf, (d: AnalyticSummary) => d.actual > 0, data);
  }

  // ---------------------------------------------------------------------
  // Totals

  /** `totalPossible`: the goals of all summaries added up. */
  function TotalPossible(data: seq<AnalyticSummary>): (t: int)
    ensures data == [] ==> t == 0
    ensures (forall d :: d in data ==> 0 <= d.goal) ==> 0 <= t
  {
    var goal := (d: AnalyticSummary) => d.goal;
    if forall d :: d in data ==> 0 <= d.goal then
      SumAtLeast(goal, data, 0);
      Sum(goal, data)
    else Sum(goal, data)
  }

  /** `totalActual`: the completed days of all summaries added up. */
  function TotalActual(data: seq<AnalyticSummary>): (t: int)
    ensures 0 <= t
  {
    SumAtLeast((d: AnalyticSummary) => d.actual as int, data, 0);
    Sum((d: AnalyticSummary) => d.actual as int, data)
  }

  /** The pie's slices add up to the total of completed days: leaving out
      the empty slices loses nothing. */
  lemma PieSumsToTotalActual(data: seq<AnalyticSummary>)
    ensures Sum((s: PieSlice) => s.value as int, PieData(data)) == TotalActual(data)
  {
    var value := (s: PieSlice) => s.value as int;
    SumOfFilter(value, (s: PieSlice) => s.value > 0, Map(SliceOf, data));
    SumOfMap(value, SliceOf, (d: AnalyticSummary) => d.actual as int, data);
  }

  /** The pie is drawn (rather than the "add data" placeholder) exactly when
      some day of some habit is done. */
  lemma PieShownIffSomethingDone(data: seq<AnalyticSummary>)
    ensures |PieData(data)| > 0 <==> TotalActual(data) > 0
  {
    PieSumsToTotalActual(data);
    SumAtLeast((s: PieSlice) => s.value as int, PieData(data), 1);
  }

  /** `overallProgress`: completed days as a percentage of all goals, 0
      when the goals add up to nothing. */
  function OverallProgress(data: seq<AnalyticSummary>): (p: real)
    ensures TotalPossible(data) <= 0 ==> p == 0.0
    ensures data == [] ==> p == 0.0
  {
    var totalPossible := TotalPossible(data);
    if totalPossible > 0 then (TotalActual(data) as real / totalPossible as real) * 100.0 else 0.0
  }

  /** With positive goals the overall progress is the share of the goals
      reached, in percent, and is never negative. */
  lemma OverallProgressIsShare(data: seq<AnalyticSummary>)
    requires TotalPossible(data) > 0
    ensures OverallProgress(data) * TotalPossible(data) as real == TotalActual(data) as real * 100.0
    ensures OverallProgress(data) >= 0.0
  {
    var a, g := TotalActual(data) as real, TotalPossible(data) as real;
    assert (a / g) * g == a;
  }

  /** For the summaries of a month the dashboard's total is the grid's
      completed count, and its possible total is the habits' goals added
      up. */
  lemma DashboardTotalsOfSummaries(habits: seq<Habit>, history: History, year: int, month: nat, daysInMonth: nat)
    ensures var data := Summaries(habits, history, year, month, daysInMonth);
      && TotalActual(data) == GridCompleted(habits, history, year, month, daysInMonth)
      && TotalPossible(data) == Sum((h: Habit) => h.goal, habits)
  {
    StatsMatchSummaries(habits, history, year, month, daysInMonth);
    SummariesAreMap(habits, history, year, month, daysInMonth);
    SumOfMap((d: AnalyticSummary) => d.goal,
             (h: Habit) => Summarize(h, history, year, month, daysInMonth),
             (h: Habit) => h.goal, habits);
  }

  // ---------------------------------------------------------------------
  // Table, palette and targets

  /** The "No habits added yet" row: shown when there are no summaries. */
  predicate ShowsEmptyRow(data: seq<AnalyticSummary>)
  {
    |data| == 0
  }

  /** For the summaries of a month the empty row shows exactly when there
      are no habits. */
  lemma EmptyRowIffNoHabits(habits: seq<Habit>, history: History, year: int, month: nat, daysInMonth: nat)
    ensures ShowsEmptyRow(Summaries(habits, history, year, month, daysInMonth)) <==> habits == []
  {
  }

  /** `COLORS`: the six slice colours. */
  const Colors: seq<string> := ["#3b82f6", "#10b981", "#f59e0b", "#ef4444", "#8b5cf6", "#ec4899"]

  /** The colour of slice `index`: the palette read cyclically. */
  function SliceColor(index: nat): (c: string)
    ensures c in Colors
  {
    Colors[index % |Colors|]
  }

  /** The palette repeats every six slices, and neighbouring slices (the
      last and first of a full turn included) never share a colour. */
  lemma SliceColorsCycle(index: nat)
    ensures SliceColor(index + 6) == SliceColor(index)
    ensures SliceColor(index + 1) != SliceColor(index)
  {
    assert forall i, j :: 0 <= i < j < 6 ==> Colors[i] != Colors[j];
  }

  /** The blank rows under the targets: `10 - targets` of them while there
      are fewer than ten targets, none otherwise. */
  function FillerRows(monthlyTargets: seq<string>): (n: nat)
    ensures |monthlyTargets| < 10 ==> |monthlyTargets| + n == 10
    ensures |monthlyTargets| >= 10 ==> n == 0
  {
    if |monthlyTargets| < 10 then 10 - |monthlyTargets| else 0
  }
}
