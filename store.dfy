/** The state store: the three transitions the tracker applies to its state
    (toggle a day, add a habit, delete a habit), each a copy-on-write update
    of the whole state, and the store object whose `state` they replace.
    Browser dialogs are inputs: a prompt's answer is `None` when cancelled,
    a confirmation is a boolean, and `Date.now()` is the number `now`. */
module Store {
  import opened Wrappers
  import opened Builtins
  import opened HabitModel
  import opened Seqs

  // ---------------------------------------------------------------------
  // toggleDay

  /** The state after `toggleDay(date, habitId)`: the habit's entry on that
      day is set to the negation of what it read before (a missing entry
      reads false, so it becomes true), and nothing else changes. */
  function Toggled(s: HabitState, date: string, habitId: string): (r: HabitState)
    ensures IsDone(r.history, date, habitId) == !IsDone(s.history, date, habitId)
    ensures r.habits == s.habits && r.monthlyTargets == s.monthlyTargets
    ensures r.history.Keys == s.history.Keys + {date}
    ensures forall d :: d in s.history && d != date ==> r.history[d] == s.history[d]
    ensures r.history[date].Keys == DayOf(s.history, date).Keys + {habitId}
    ensures forall k :: k in DayOf(s.history, date) && k != habitId
                     ==> r.history[date][k] == DayOf(s.history, date)[k]
  {
    var day := DayOf(s.history, date);
    s.(history := s.history[date := day[habitId := !IsDone(s.history, date, habitId)]])
  }

  /** Toggling one cell leaves every other (date, habit) cell reading as it
      did. */
  lemma ToggleLeavesOtherCells(s: HabitState, date: string, habitId: string, d: string, k: string)
    requires d != date || k != habitId
    ensures IsDone(Toggled(s, date, habitId).history, d, k) == IsDone(s.history, d, k)
  {
  }

  /** Toggling a cell twice restores every cell's reading and leaves the
      habits and targets alone; the history itself is restored exactly when
      the cell had an entry (otherwise the entry stays behind, as false). */
  lemma ToggleTwice(s: HabitState, date: string, habitId: string)
    ensures var r := Toggled(Toggled(s, date, habitId), date, habitId);
      && r.habits == s.habits && r.monthlyTargets == s.monthlyTargets
      && (forall d, k :: IsDone(r.history, d, k) == IsDone(s.history, d, k))
      && (r.history == s.history <==> date in s.history && habitId in s.history[date])
  {
    var r := Toggled(Toggled(s, date, habitId), date, habitId);
    forall d, k
      ensures IsDone(r.history, d, k) == IsDone(s.history, d, k)
    {
      if d != date || k != habitId {
        ToggleLeavesOtherCells(s, date, habitId, d, k);
        ToggleLeavesOtherCells(Toggled(s, date, habitId), date, habitId, d, k);
      }
    }
    if date in s.history && habitId in s.history[date] {
      assert r.history[date] == s.history[date];
    } else {
      assert habitId in r.history[date];
    }
  }

  // ---------------------------------------------------------------------
  // addHabit

  /** `parseInt(answer || '31')` with `NaN` replaced by 31: a cancelled or
      empty answer and an answer with no leading number give 31. */
  function GoalFromInput(goalInput: Option<string>): (goal: int)
    ensures goalInput == None || goalInput == Some("") ==> goal == 31
    ensures goalInput.Some? && goalInput.value != [] && ParseInt(goalInput.value) == None ==> goal == 31
    ensures goalInput.Some? && ParseInt(goalInput.value).Some? ==> goal == ParseInt(goalInput.value).value
  {
    var text := if goalInput == None || goalInput == Some("") then "31" else goalInput.value;
    DefaultGoalText();
    match ParseInt(text)
    case None => 31
    case Some(g) => g
  }

  /** The default answer '31' reads as 31. */
  lemma DefaultGoalText()
    ensures ParseInt("31") == Some(31)
    ensures ParseInt("") == None
  {
    DefaultGoalParses();
    EmptyGoalIsNaN();
  }

  /** The fallback text "31" reads as 31. */
  lemma DefaultGoalParses()
    ensures ParseInt("31") == Some(31)
  {
    assert IntToDecimal(31) == "31" by {
      assert NatToDecimal(31) == NatToDecimal(3) + [DecimalDigit(1)];
    }
    ParseIntRoundTrip(31);
  }

  /** An empty text reads as NaN. */
  lemma EmptyGoalIsNaN()
    ensures ParseInt("") == None
  {
    assert TrimStart("") == "";
    assert Unsigned("") == "";
  }

  /** A typed number is taken as the goal as it is, negative or not. */
  lemma GoalOfTypedNumber(n: int)
    ensures GoalFromInput(Some(IntToDecimal(n))) == n
  {
    ParseIntRoundTrip(n);
  }

  /** The habit `addHabit` builds: its id is `Date.now()` printed in decimal
      and its category is always "General". */
  function NewHabit(name: string, goalInput: Option<string>, now: int): (h: Habit)
    ensures ParseInt(h.id) == Some(now)
    ensures h.name == name && h.goal == GoalFromInput(goalInput) && h.category == "General"
  {
    ParseIntRoundTrip(now);
    Habit(IntToDecimal(now), name, GoalFromInput(goalInput), "General")
  }

  /** `!name`: the prompt was cancelled or answered with nothing. */
  predicate NameMissing(nameInput: Option<string>)
  {
    nameInput == None || nameInput == Some("")
  }

  /** The state after `addHabit`: unchanged when the name is missing;
      otherwise the new habit is appended after the existing ones, which
      keep their order, and history and targets are untouched. */
  function WithNewHabit(s: HabitState, nameInput: Option<string>, goalInput: Option<string>, now: int): (r: HabitState)
    ensures NameMissing(nameInput) ==> r == s
    ensures !NameMissing(nameInput) ==>
      && |r.habits| == |s.habits| + 1
      && r.habits[..|s.habits|] == s.habits
      && r.habits[|s.habits|] == NewHabit(nameInput.value, goalInput, now)
      && r.history == s.history && r.monthlyTargets == s.monthlyTargets
  {
    if NameMissing(nameInput) then s
    else s.(habits := s.habits + [NewHabit(nameInput.value, goalInput, now)])
  }

  // ---------------------------------------------------------------------
  // deleteHabit

  /** The state after a confirmed `deleteHabit(id)`: the habits are
      filtered; history and targets stay exactly as they were, so the
      deleted habit's completions remain stored. */
  function WithoutHabit(s: HabitState, id: string): (r: HabitState)
    ensures id !in Ids(r.habits)
    ensures forall h :: h in r.habits <==> h in s.habits && h.id != id
    ensures forall h :: multiset(r.habits)[h] == if h.id != id then multiset(s.habits)[h] else 0
    ensures IsSubsequence(r.habits, s.habits)
    ensures r.history == s.history && r.monthlyTargets == s.monthlyTargets
  {
    s.(habits := Filter((h: Habit) => h.id != id, s.habits))
  }

  // ---------------------------------------------------------------------
  // The store

  /** The component's state cell: each user action replaces `state` by the
      result of a transition. */
  class HabitStore {
    var state: HabitState

    /** A first visit: nothing saved, so the default state. */
    constructor ()
      ensures state == DefaultState()
    {
      state := DefaultState();
    }

    method ToggleDay(date: string, habitId: string)
      modifies this
      ensures state == Toggled(old(state), date, habitId)
    {
      state := Toggled(state, date, habitId);
    }

    /** `nameInput` and `goalInput` are the two prompts' answers and `now`
        the clock reading the new id is made from. */
    method AddHabit(nameInput: Option<string>, goalInput: Option<string>, now: int)
      modifies this
      ensures state == WithNewHabit(old(state), nameInput, goalInput, now)
    {
      if NameMissing(nameInput) {
        return;
      }
      var habit := NewHabit(nameInput.value, goalInput, now);
      state := state.(habits := state.habits + [habit]);
    }

    /** `confirmed` is the answer to the confirmation dialog. */
    method DeleteHabit(id: string, confirmed: bool)
      modifies this
      ensures state == if confirmed then WithoutHabit(old(state), id) else old(state)
    {
      if confirmed {
        state := state.(habits := Filter((h: Habit) => h.id != id, state.habits));
      }
    }
  }
}
