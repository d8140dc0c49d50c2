# Habit tracker state model

A Dafny model of the habit-state core of a React habit tracker.

- **The store.** `App.tsx` holds the habits, a sparse completion history (date key → habit id → done) and a list of monthly targets. It changes them in three ways: toggle one day of one habit, add a habit, delete a habit.
- **The derived views.** On every render the tracker computes:
  - a per-habit monthly summary (days done, goal, percentage);
  - the month grid's completed count, percentage, per-day footer counts and week header spans;
  - the dashboard's pie slices, totals, overall completion, slice colours and blank target rows;
  - the one-line digest that is sent for an AI insight.
- **Calendar facts.** The month length comes from `new Date(y, m + 1, 0)`. Each day is stored under a `YYYY-MM-DD` key: the extended calendar-date form of section 4.1.2.2 of ISO 8601:2004.

Modules, in dependency order:

| module | file | what it holds |
|---|---|---|
| `Wrappers` | wrappers.dfy | `Option` |
| `Builtins` | builtins.dfy | the JavaScript built-ins the tracker relies on: `String(n)`, `padStart`, `parseInt`, `Math.round`, `Math.ceil` |
| `Seqs` | seqs.dfy | `map`, `filter`, a summing `reduce` and `join`, with their algebra |
| `Counting` | counting.dfy | counting days 1..n and summing over them; counting a grid by rows or by columns |
| `Calendar` | calendar.dfy | leap years, month lengths, the date key and its parser |
| `HabitModel` | habit_model.dfy | the datatypes of `types.ts`, the done-lookup and the first-visit state |
| `Store` | store.dfy | the three transitions as functions, and the `HabitStore` class whose methods replace its `state` with them |
| `Analytics` | analytics.dfy | `analyticsData` (a loop method proved against `Summaries`), and how each transition moves the summaries; the insight digest |
| `Grid` | grid.dfy | `HabitGrid`: days, weeks, header spans, footer counts, and the nested-loop `stats` method |
| `Dashboard` | dashboard.dfy | `AnalyticsDashboard`: pie data, totals, overall progress, palette, filler rows |

Two counting routines cover the same cells:
- `Analytics.SummarizeEach` runs the per-habit day loop of `App.tsx`.
- `Grid.Stats` runs the nested habit/day loops of `HabitGrid.tsx`.

Both are proved against recursive specification functions. Lemmas then tie those functions together: the grid count equals the summed summaries (`Grid.StatsMatchSummaries`), and it also equals the summed footer (`Grid.FooterSumsToCompleted`).

Percentages are exact rationals (`real`). `Math.round(x)` is `Floor(x + 0.5)`.

## Model

| member | source | states |
|---|---|---|
| Builtins.NatToDecimal | App.tsx:78 | `String(n)` of a natural is a non-empty string of decimal digits; it has one character exactly when n < 10, and at most two when n < 100; it starts with '0' only for 0 (no leading zero) |
| Builtins.NatToDecimalValue | App.tsx:78 | the digits `String(n)` prints denote n |
| Builtins.IntToDecimal | App.tsx:53 | `String(n)` of an integer starts with '-' exactly when n is negative; otherwise it is the natural's digits, with the magnitude's digits after the minus |
| Builtins.PadStart | App.tsx:78 | `padStart(width, fill)`: length is max(|s|, width), `s` is a suffix, and every character before it is the filler |
| Builtins.TwoDigitsValue | App.tsx:78 | for n < 100, `String(n).padStart(2, '0')` is exactly two decimal digits denoting n |
| Builtins.TrimStart | App.tsx:51 | parseInt's leading-white-space strip returns a suffix that does not start with white space, and everything removed is white space |
| Builtins.RadixPrefix | App.tsx:51 | the digits parseInt reads are the longest prefix of radix digits |
| Builtins.ParseUnsigned | App.tsx:51 | unsigned text gives NaN exactly when no digit follows (after `0x`/`0X` for hex) |
| Builtins.ParseInt | App.tsx:51 | `parseInt(s)` is NaN exactly when no digit follows the white space and the sign |
| Builtins.ParseIntRoundTrip | App.tsx:51 | `parseInt(String(n)) == n` for every integer n |
| Builtins.ParseIntOfPrefix | App.tsx:94 | `parseInt` reads a printed natural at the front of a string and stops at a following character that is no digit |
| Builtins.Round | components/HabitGrid.tsx:45 | `Math.round(x)` is the integer within half of x, halves rounded up |
| Builtins.Ceil | components/HabitGrid.tsx:30 | `Math.ceil(x)` is the least integer not below x |
| Calendar.DaysInMonth | App.tsx:73 | `new Date(y, m + 1, 0).getDate()` lies between 28 and 31 |
| Calendar.MonthLengths | App.tsx:73 | 31 days for months 1, 3, 5, 7, 8, 10 and 12; 30 for 4, 6, 9 and 11; 29 for a Gregorian leap February; 28 otherwise (each as an if-and-only-if) |
| Calendar.DaysInMonthMatchesMonthStarts | App.tsx:73 | each month length is the distance between consecutive month starts of ECMA-262's day-in-year table |
| Calendar.YearLength | App.tsx:73 | the twelve month lengths add up to 366 in a leap year and 365 otherwise |
| Calendar.DateKey | App.tsx:78 | for month and day below 100, the key is six characters longer than the printed year |
| Calendar.WholeIntRoundTrip | App.tsx:78 | the printed year is read back as the year |
| Calendar.ParseAssembledKey | components/HabitGrid.tsx:38 | a key assembled from a year and two two-digit fields splits back into those fields |
| Calendar.DateKeyRoundTrip | components/HabitGrid.tsx:38 | parsing a date key gives back its year, month and day |
| Calendar.DateKeyInjective | components/HabitGrid.tsx:106 | distinct dates have distinct keys |
| HabitModel.IsDone | components/HabitGrid.tsx:107 | a cell is done exactly when the date has an entry, the habit has a key in it, and that key is true; a missing date or habit reads as not done |
| Store.Toggled | App.tsx:37-46 | toggling negates the cell's reading (a missing entry becomes true); it adds the date and habit keys; every other date and every other habit of that day keep their values; habits and targets are unchanged |
| Store.ToggleTwice | App.tsx:37-46 | toggling twice restores every cell's reading, and restores the history exactly when the entry already existed |
| Store.GoalFromInput | App.tsx:51-55 | a cancelled or empty goal answer gives 31, text with no leading number gives 31, and otherwise the parsed integer is the goal, negative or not |
| Store.DefaultGoalText | App.tsx:51 | the fallback text '31' parses to 31 and the empty text to NaN |
| Store.GoalOfTypedNumber | App.tsx:51-55 | a typed integer becomes the goal unchanged |
| Store.NewHabit | App.tsx:52-57 | the new habit's id reads back (`parseInt`) as the clock value `Date.now()`; its name is the answer, its goal comes from the goal answer, its category is 'General' |
| Store.WithNewHabit | App.tsx:48-59 | a missing name leaves the state unchanged; otherwise exactly one habit (id from the clock, category 'General') is appended after the unchanged old habits, and history and targets are untouched |
| Store.WithoutHabit | App.tsx:61-68 | deleting removes every habit with the id and keeps each other habit as many times as it occurred, in their order (a subsequence); history and targets are unchanged |
| Store.HabitStore.constructor | App.tsx:11-27 | a first visit starts from the four sample habits, an empty history and the three sample targets |
| Store.HabitStore.ToggleDay | App.tsx:37-46 | the new state is `Toggled` of the old |
| Store.HabitStore.AddHabit | App.tsx:48-59 | the new state is `WithNewHabit` of the old |
| Store.HabitStore.DeleteHabit | App.tsx:61-68 | unconfirmed, the state is unchanged; confirmed, it is `WithoutHabit` of the old |
| Counting.CountDaysIsCardinality | App.tsx:76-80 | the day counter equals the number of distinct done days in 1..n |
| Counting.CountRowsThenColumns | components/HabitGrid.tsx:36-41 | counting a grid's set cells row by row equals counting them column by column |
| Analytics.CountActual | App.tsx:76-80 | the day loop's `actual` is the count of done days among 1..daysInMonth |
| Analytics.Progress | App.tsx:86 | progress is never negative, and it is 0 when the goal is not positive (no division by zero) |
| Analytics.ProgressOfPositiveGoal | App.tsx:86 | with a positive goal, progress × goal = actual × 100; reaching the goal means at least 100, and no days means 0 |
| Analytics.Summarize | App.tsx:81-87 | a summary copies the habit's id, name and goal; its actual is at most the month's length; its progress is `Progress(actual, goal)` |
| Analytics.Summaries | App.tsx:75-88 | one summary per habit |
| Analytics.SummariesAreMap | App.tsx:75 | the summaries are `habits.map` of the per-habit summary |
| Analytics.SummariesFollowHabits | App.tsx:75-88 | summary i belongs to habit i, with its fields copied and 0 ≤ actual ≤ daysInMonth |
| Analytics.SummarizeEach | App.tsx:75-88 | the habit loop returns exactly `Summaries` |
| Analytics.AnalyticsData | App.tsx:70-89 | `analyticsData` is the summaries over the length of the month on view |
| Analytics.ToggleOtherHabitKeepsCount | App.tsx:37-80 | toggling another habit's cell leaves this habit's count unchanged |
| Analytics.ToggleOtherDateKeepsCount | App.tsx:37-80 | toggling a date outside the month's days leaves every count unchanged |
| Analytics.ToggleMovesCountByOne | App.tsx:37-80 | toggling a day of the month moves that habit's count by exactly one: down if the day was done, up otherwise |
| Analytics.ToggleOrphanKeepsSummaries | App.tsx:75-80 | history of an id with no habit never affects the summaries |
| Analytics.DeleteDropsOnlyItsSummary | App.tsx:61-88 | after a delete the summaries are the old ones with the deleted habit's summary filtered out; the others are unchanged |
| Analytics.AddAppendsOneSummary | App.tsx:48-88 | after an add the summaries are the old ones plus the new habit's |
| Analytics.InsightEntry | App.tsx:94 | an entry starts with the habit's name and ": "; `parseInt` of the rest gives the days done, and the text after the last '/' parses as the goal |
| Analytics.InsightSummary | App.tsx:94 | the digest is empty exactly when there are no summaries; otherwise, with ", " added at its end, it is every summary's entry followed by ", ", one after another in the order of the summaries |
| Grid.DaysArray | components/HabitGrid.tsx:28 | `daysArray` has daysInMonth elements, holds exactly the days 1..daysInMonth, and is strictly increasing |
| Grid.WeekNumber | components/HabitGrid.tsx:30 | `ceil(d / 7)` is the w with 7(w − 1) < d ≤ 7w, equals (d + 6) div 7, and maps days 1..35 into weeks 1..5 |
| Grid.WeekSpans | components/HabitGrid.tsx:75-76 | five header spans: 7 for weeks 1 to 4, and daysInMonth − 28 for week 5 |
| Grid.WeekSpansCoverMonth | components/HabitGrid.tsx:75-76 | for 28..35 days the spans are 7, 7, 7, 7 and daysInMonth − 28; none is negative; they sum to daysInMonth; each is the number of days with that week number |
| Grid.MonthFitsFiveWeeks | components/HabitGrid.tsx:25 | every month length lies in 28..35, so the span lemma applies |
| Grid.RenderedSpan | components/HabitGrid.tsx:76 | a header cell occupies between 1 and 1000 columns, and a span already in that range is kept |
| Grid.WeekHeaderOverhangs | components/HabitGrid.tsx:76 | as written, a 28-day month (February 2023) gives week 5 a span of 0; that renders as one column, so the header row spans 29 columns |
| Grid.WeekHeaders | components/HabitGrid.tsx:75-76 | the corrected headers are a prefix of the written spans |
| Grid.WeekHeadersFitGrid | components/HabitGrid.tsx:75-76 | for 28..35 days every corrected header spans at least one column, and together they span exactly the day columns |
| Grid.DayDone | components/HabitGrid.tsx:127 | a day's footer count is at most the number of habits |
| Grid.GridCompletedBounds | components/HabitGrid.tsx:33-41 | 0 ≤ completed ≤ habits.length × daysInMonth |
| Grid.FooterSumsToCompleted | components/HabitGrid.tsx:126-127 | the footer counts of all days add up to `stats.completed` |
| Grid.StatsMatchSummaries | components/HabitGrid.tsx:36-41 | `stats.completed` is the sum of `actual` over the summaries of the same state and month |
| Grid.GridProgress | components/HabitGrid.tsx:45 | with cells to count, the percentage is the whole number within one half of completed / totalPossible × 100 (halves rounded up); with none it is 0 |
| Grid.GridProgressBounds | components/HabitGrid.tsx:45 | the percentage lies in 0..100; it is 0 when nothing is done or nothing is possible, and 100 when everything is done |
| Grid.CountRow | components/HabitGrid.tsx:37-40 | the pass over `daysArray` for one habit counts exactly its done days of the month |
| Grid.Stats | components/HabitGrid.tsx:32-47 | the nested loops return the grid's completed count, and the rounded percentage of habits × days (0 with no habits) |
| Dashboard.PieData | components/AnalyticsDashboard.tsx:14-17 | every slice has a positive value |
| Dashboard.PieDataKeepsDoneHabits | components/AnalyticsDashboard.tsx:14-17 | the pie holds exactly the slices (name, actual) of the summaries with actual > 0, in their order |
| Dashboard.TotalPossible | components/AnalyticsDashboard.tsx:19 | `totalPossible` is 0 for no data and is never negative when no goal is |
| Dashboard.TotalActual | components/AnalyticsDashboard.tsx:20 | `totalActual` is never negative |
| Dashboard.PieSumsToTotalActual | components/AnalyticsDashboard.tsx:14-20 | the slice values add up to `totalActual` |
| Dashboard.PieShownIffSomethingDone | components/AnalyticsDashboard.tsx:63 | the pie is drawn (not the placeholder) exactly when `totalActual` is positive |
| Dashboard.OverallProgress | components/AnalyticsDashboard.tsx:21 | overall progress is 0 when the goals sum to 0 or less, in particular for no data |
| Dashboard.OverallProgressIsShare | components/AnalyticsDashboard.tsx:21 | with positive total goals, progress × totalPossible = totalActual × 100, and progress is not negative |
| Dashboard.DashboardTotalsOfSummaries | components/AnalyticsDashboard.tsx:19-20 | over a month's summaries, `totalActual` is the grid's completed count and `totalPossible` is the sum of the habits' goals |
| Dashboard.EmptyRowIffNoHabits | components/AnalyticsDashboard.tsx:49 | the "No habits added yet" row is shown exactly when there are no habits |
| Dashboard.SliceColor | components/AnalyticsDashboard.tsx:76 | a slice's colour is always one of the six palette entries |
| Dashboard.SliceColorsCycle | components/AnalyticsDashboard.tsx:76 | colours repeat every six slices, and neighbouring slices never share a colour |
| Dashboard.FillerRows | components/AnalyticsDashboard.tsx:107 | with fewer than ten targets, targets plus blank rows make ten; with ten or more there are no blank rows |
| Seqs.Filter | App.tsx:65 | `filter` keeps the elements that satisfy the predicate, each as many times as it occurs, and drops the others, as a subsequence that is never longer |
| Seqs.FilterOfMap | components/AnalyticsDashboard.tsx:14-17 | filtering after a map equals mapping after the matching filter |
| Seqs.JoinThenSep | App.tsx:94 | `parts.join(sep)` followed by one more `sep` is each part followed by `sep`, one after another |
| Seqs.JoinLayout | App.tsx:94 | in `parts.join(sep)`, part i (followed by `sep`, counting one extra `sep` at the end) starts after the earlier parts and their separators, and the whole is exactly that long |

## Findings

| source | as written | input that shows it | evidently intended | confidence | as-written member | corrected member |
|---|---|---|---|---|---|---|
| components/HabitGrid.tsx:76 | week 5's header gets `colSpan = daysInMonth - 28`; in a 28-day month that is 0, and HTML's "forming a table" rules read a span of 0 as 1 | February 2023 (28 days): the header cells span 7+7+7+7+1 = 29 columns over 28 day columns | no fifth-week header when no day follows the 28th, so the headers span exactly the day columns | medium; not executed | Grid.WeekHeaderOverhangs | Grid.WeekHeaders |

`Grid.WeekHeadersFitGrid` proves the intended property of `Grid.WeekHeaders` for every month length from 28 to 35.

## Left out

- Persistence is not modelled: reading and writing `localStorage` and the `JSON.parse`/`JSON.stringify` round trip. The model starts from `DefaultState`, the first-visit state.
- Browser dialogs and the clock are inputs:
  - a `prompt` answer is an `Option<string>`, where `None` means cancelled;
  - `confirm` is a boolean;
  - `Date.now()` is the integer `now`;
  - the month on view is a year and a 0-based month.
- Habit ids are not proved unique, because the code does not make them so: two adds in the same millisecond repeat an id. `WithoutHabit` removes every habit with the id.
- Floating point is not modelled: percentages are exact rationals, so IEEE-754 rounding of `/` and `* 100` before `Math.round` is out of scope.
- `Builtins.IntToDecimal` does not model the exponent form `String(n)` uses from 1e21 upward, because clock readings and years stay far below it.
- `Builtins.ParseInt` does not model the loss of precision past 2^53 or `-0`, because exact integers cannot represent either.
- `Calendar.DateKey` follows the code, not ISO 8601's four-digit year. A year outside 1000..9999 prints with fewer or more digits; the code only ever uses the current year.
- The insight request is not modelled: the Gemini call, its loading flag and the fallback message on failure are network I/O. Only the digest string it sends is modelled (`InsightSummary`).
- The Gemini and Veo services and the Veo animator component are not part of this model. They are network and file I/O.
- Rendering is not modelled: JSX, recharts, CSS classes, the `toLocaleString` month name, and the percentage strings. Only the grid's percentage (components/HabitGrid.tsx:45) is rounded in the model; the dashboard's `Math.round(item.progress)` and `Math.round(overallProgress)` are display formatting and are left out.
- The monthly targets are only displayed. No transition changes them, so the model keeps them as a list that every transition preserves.
