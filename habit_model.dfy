/** The tracker's data: habits, the sparse completion history keyed by date
    and habit id, and the derived per-habit summary. */
module HabitModel {

  /** A habit the user tracks; `goal` is its target number of days in a
      month. Nothing in the tracker checks that `goal` is positive. */
  datatype Habit = Habit(id: string, name: string, goal: int, category: string)

  /** Which habits were done on one day; a habit never toggled that day has
      no key. */
  type DayCompletion = map<string, bool>

  /** Completions by date key; a day on which nothing was toggled has no
      key. */
  type History = map<string, DayCompletion>

  /** The whole persisted state. */
  datatype HabitState = HabitState(habits: seq<Habit>, history: History, monthlyTargets: seq<string>)

  /** One habit's record for the month on view: days done, goal and the
      percentage of the goal reached. */
  datatype AnalyticSummary = AnalyticSummary(habitId: string, name: string, actual: nat, goal: int, progress: real)

  /** `history[date] || {}`: the completions of a day, empty when the day has
      no entry. */
  function DayOf(history: History, date: string): DayCompletion
  {
    if date in history then history[date] else map[]
  }

  /** `history[date]?.[id]` read as a boolean: a missing date or a missing
      habit on that date reads as not done. */
  predicate IsDone(history: History, date: string, id: string)
    ensures IsDone(history, date, id) <==> date in history && id in history[date] && history[date][id]
  {
    var day := DayOf(history, date);
    id in day && day[id]
  }

  function Ids(habits: seq<Habit>): set<string>
  {
    set h | h in habits :: h.id
  }

  /** The state a first visit starts from: four sample habits, no history
      and three sample monthly targets. */
  function DefaultState(): HabitState
  {
    HabitState(
      [ Habit("1", "Morning Exercise", 31, "Health"),
        Habit("2", "Read 20 Pages", 31, "Mind"),
        Habit("3", "Meditation", 31, "Mind"),
        Habit("4", "Deep Work (4hrs)", 20, "Work") ],
      map[],
      [ "Complete 75% of all habits",
        "Finish a new book",
        "Run 50km total" ])
  }
}
