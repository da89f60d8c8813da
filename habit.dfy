/**
 * The habit ledger of src/habit.rs: habits, their completion records, the
 * queries over them, and the streak rule that every mark and unmark reruns.
 */
module Ledger {
  import opened Wrappers

  /**
   * A calendar date as a day number (see Dates.DayNumber). The ledger only
   * compares dates and steps back one day at a time.
   */
  type Day = int

  type u8 = x: int | 0 <= x < 0x100

  /** `created_at` is an opaque timestamp read from the clock by the caller. */
  datatype Habit = Habit(
    id: string,
    name: string,
    description: string,
    createdAt: int,
    targetDaysPerWeek: u8,
    streak: nat,
    longestStreak: nat)

  datatype HabitCompletion = HabitCompletion(
    habitId: string,
    date: Day,
    completedAt: int,
    notes: Option<string>)

  // ---------------------------------------------------------------------------
  // Vec::retain and iter().filter().collect()

  /** The elements of `s` that satisfy `keep`, in their original order. */
  function Filter<T(!new)>(s: seq<T>, keep: T -> bool): (r: seq<T>)
    ensures |r| <= |s|
    ensures forall x :: x in r <==> x in s && keep(x)
  {
    if s == [] then []
    else (if keep(s[0]) then [s[0]] else []) + Filter(s[1..], keep)
  }

  /** Filtering a concatenation filters each part: the kept elements keep their relative order. */
  lemma {:induction false} FilterConcat<T(!new)>(a: seq<T>, b: seq<T>, keep: T -> bool)
    ensures Filter(a + b, keep) == Filter(a, keep) + Filter(b, keep)
  {
    if a == [] {
      assert a + b == b;
    } else {
      assert (a + b)[1..] == a[1..] + b;
      FilterConcat(a[1..], b, keep);
    }
  }

  function IdIsNot(habitId: string): Habit -> bool
  {
    (h: Habit) => h.id != habitId
  }

  function BelongsTo(habitId: string): HabitCompletion -> bool
  {
    (c: HabitCompletion) => c.habitId == habitId
  }

  function BelongsElsewhere(habitId: string): HabitCompletion -> bool
  {
    (c: HabitCompletion) => c.habitId != habitId
  }

  function NotOn(habitId: string, date: Day): HabitCompletion -> bool
  {
    (c: HabitCompletion) => !(c.habitId == habitId && c.date == date)
  }

  // ---------------------------------------------------------------------------
  // Queries

  /** `is_completed_on_date`: some completion record has this habit and this date. */
  function IsCompletedOnDate(completions: seq<HabitCompletion>, habitId: string, date: Day): (r: bool)
    ensures r <==> exists i :: 0 <= i < |completions| && completions[i].habitId == habitId && completions[i].date == date
  {
    if completions == [] then false
    else if completions[0].habitId == habitId && completions[0].date == date then true
    else
      var rest := IsCompletedOnDate(completions[1..], habitId, date);
      assert forall i :: 1 <= i < |completions| ==> completions[i] == completions[1..][i - 1];
      rest
  }

  /** Position of the first habit with this id, as `iter().find` and `iter_mut().find` locate it. */
  function HabitIndex(habits: seq<Habit>, habitId: string): (r: Option<nat>)
    ensures r.Some? ==> r.value < |habits| && habits[r.value].id == habitId
    ensures r.Some? ==> forall j :: 0 <= j < r.value ==> habits[j].id != habitId
    ensures r.None? <==> forall j :: 0 <= j < |habits| ==> habits[j].id != habitId
  {
    if habits == [] then None
    else if habits[0].id == habitId then Some(0)
    else
      match HabitIndex(habits[1..], habitId)
      case None => None
      case Some(i) => Some(i + 1)
  }

  predicate HasHabit(habits: seq<Habit>, habitId: string)
  {
    exists h :: h in habits && h.id == habitId
  }

  /** `get_habit_by_id`: the first habit with this id, if any. */
  function GetHabitById(habits: seq<Habit>, habitId: string): (r: Option<Habit>)
    ensures r.Some? <==> HasHabit(habits, habitId)
    ensures r.Some? ==> r.value in habits && r.value.id == habitId
    ensures r.Some? ==>
      exists i :: 0 <= i < |habits| && habits[i] == r.value && forall j :: 0 <= j < i ==> habits[j].id != habitId
  {
    match HabitIndex(habits, habitId)
    case None => None
    case Some(i) => Some(habits[i])
  }

  /** `get_completions_for_habit`: the habit's completion records in insertion order. */
  function GetCompletionsForHabit(completions: seq<HabitCompletion>, habitId: string): (r: seq<HabitCompletion>)
    ensures forall c :: c in r <==> c in completions && c.habitId == habitId
    ensures |r| <= |completions|
  {
    Filter(completions, BelongsTo(habitId))
  }

  /** The habit's records keep their insertion order: records added later come later. */
  lemma GetCompletionsInOrder(a: seq<HabitCompletion>, b: seq<HabitCompletion>, habitId: string)
    ensures GetCompletionsForHabit(a + b, habitId) == GetCompletionsForHabit(a, habitId) + GetCompletionsForHabit(b, habitId)
  {
    FilterConcat(a, b, BelongsTo(habitId));
  }

  // ---------------------------------------------------------------------------
  // The streak rule

  /** The dates on which this habit has a completion record. */
  function CompletedDays(completions: seq<HabitCompletion>, habitId: string): (days: set<Day>)
    ensures forall d :: d in days <==> IsCompletedOnDate(completions, habitId, d)
    ensures |days| <= |GetCompletionsForHabit(completions, habitId)|
  {
    if completions == [] then {}
    else
      var rest := CompletedDays(completions[1..], habitId);
      assert Filter(completions, BelongsTo(habitId))
        == (if completions[0].habitId == habitId then [completions[0]] else [])
           + Filter(completions[1..], BelongsTo(habitId));
      if completions[0].habitId == habitId then {completions[0].date} + rest else rest
  }

  /**
   * Length of the run of consecutive days of `days` ending at `today`. It
   * terminates because each step removes a day from the finite set.
   */
  function Run(days: set<Day>, today: Day): (n: nat)
    ensures n <= |days|
    decreases |days|
  {
    if today in days then 1 + Run(days - {today}, today - 1) else 0
  }

  /** Run counts a run of completed days ending at today, and the day before the run is missing. */
  lemma {:induction false} RunIsMaximal(days: set<Day>, today: Day)
    ensures forall d :: today - Run(days, today) < d <= today ==> d in days
    ensures today - Run(days, today) !in days
    decreases |days|
  {
    if today in days {
      var rest := days - {today};
      assert Run(days, today) == 1 + Run(rest, today - 1);
      RunIsMaximal(rest, today - 1);
      forall d | today - Run(days, today) < d <= today
        ensures d in days
      {
        if d < today {
          assert d in rest;
        }
      }
    }
  }

  /** A run ending at today whose preceding day is missing is exactly what Run counts. */
  lemma RunIsUnique(days: set<Day>, today: Day, n: nat)
    requires forall d :: today - n < d <= today ==> d in days
    requires today - n !in days
    ensures Run(days, today) == n
  {
    RunIsMaximal(days, today);
  }

  /** A run of `n` distinct days inside `days` needs at least `n` elements. */
  lemma {:induction false} RunFitsInDays(days: set<Day>, today: Day, n: nat)
    requires forall d :: today - n < d <= today ==> d in days
    ensures n <= |days|
  {
    if n > 0 {
      RunFitsInDays(days - {today}, today - 1, n - 1);
    }
  }

  /**
   * The streak `update_streak` computes: 0 when today is not completed,
   * otherwise the length of the run of completed days ending at today.
   */
  function Streak(completions: seq<HabitCompletion>, habitId: string, today: Day): (n: nat)
    ensures n == 0 <==> !IsCompletedOnDate(completions, habitId, today)
    ensures n <= |GetCompletionsForHabit(completions, habitId)|
  {
    Run(CompletedDays(completions, habitId), today)
  }

  /** The field writes of `update_streak` on the habit it finds. */
  function RecordStreak(habit: Habit, streak: nat): (r: Habit)
    ensures r.streak == streak
    ensures r.longestStreak >= habit.longestStreak && r.longestStreak >= streak
    ensures r.longestStreak == habit.longestStreak || r.longestStreak == streak
    ensures r == habit.(streak := streak, longestStreak := r.longestStreak)
  {
    if streak > habit.longestStreak then habit.(streak := streak, longestStreak := streak)
    else habit.(streak := streak)
  }

  /** `update_streak`'s effect on the habits: only the first habit with the id changes, and only if there is one. */
  ghost predicate StreakUpdated(before: seq<Habit>, after: seq<Habit>, habitId: string, streak: nat): (r: bool)
    ensures r ==> |after| == |before|
    ensures r ==> forall j :: 0 <= j < |before| && before[j].id != habitId ==> after[j] == before[j]
    ensures r && !HasHabit(before, habitId) ==> after == before
  {
    match HabitIndex(before, habitId)
    case None => after == before
    case Some(i) => after == before[i := RecordStreak(before[i], streak)]
  }

  // ---------------------------------------------------------------------------
  // Ledger invariants

  /** `longest_streak >= streak` for every habit. */
  predicate StreaksBounded(habits: seq<Habit>)
  {
    forall h :: h in habits ==> h.streak <= h.longestStreak
  }

  predicate SameEntry(a: HabitCompletion, b: HabitCompletion)
  {
    a.habitId == b.habitId && a.date == b.date
  }

  /** At most one completion record per habit and date. */
  predicate UniqueCompletions(completions: seq<HabitCompletion>)
  {
    forall i, j :: 0 <= i < j < |completions| ==> !SameEntry(completions[i], completions[j])
  }

  /** Every completion record refers to a habit of the ledger. */
  predicate AllReferenced(habits: seq<Habit>, completions: seq<HabitCompletion>)
  {
    forall c :: c in completions ==> HasHabit(habits, c.habitId)
  }

  predicate SameIds(a: seq<Habit>, b: seq<Habit>)
  {
    |a| == |b| && forall j :: 0 <= j < |a| ==> a[j].id == b[j].id
  }

  lemma SameIdsKeepHabits(a: seq<Habit>, b: seq<Habit>)
    requires SameIds(a, b)
    ensures forall id :: HasHabit(a, id) ==> HasHabit(b, id)
  {
    forall id | HasHabit(a, id)
      ensures HasHabit(b, id)
    {
      var h :| h in a && h.id == id;
      var j :| 0 <= j < |a| && a[j] == h;
      assert b[j] in b;
    }
  }

  /**
   * Recording a streak changes only the first habit with the id: ids are
   * kept, no longest streak decreases, and the updated habit's longest streak
   * covers its new streak.
   */
  lemma StreakUpdateKeepsLongest(before: seq<Habit>, after: seq<Habit>, habitId: string, streak: nat)
    requires StreakUpdated(before, after, habitId, streak)
    ensures SameIds(before, after)
    ensures forall j :: 0 <= j < |after| ==> after[j].longestStreak >= before[j].longestStreak
    ensures StreaksBounded(before) ==> StreaksBounded(after)
    ensures HasHabit(before, habitId) ==> GetHabitById(after, habitId) == Some(RecordStreak(before[HabitIndex(before, habitId).value], streak))
  {
    match HabitIndex(before, habitId)
    case None =>
    case Some(i) =>
      assert HabitIndex(after, habitId) == Some(i) by {
        assert forall j :: 0 <= j < |after| ==> after[j].id == before[j].id;
        HabitIndexSameIds(before, after, habitId);
      }
  }

  lemma {:induction false} HabitIndexSameIds(a: seq<Habit>, b: seq<Habit>, habitId: string)
    requires SameIds(a, b)
    ensures HabitIndex(a, habitId) == HabitIndex(b, habitId)
  {
    if a != [] {
      HabitIndexSameIds(a[1..], b[1..], habitId);
    }
  }

  /** Filtering keeps completion records unique. */
  lemma {:induction false} FilterKeepsUnique(completions: seq<HabitCompletion>, keep: HabitCompletion -> bool)
    requires UniqueCompletions(completions)
    ensures UniqueCompletions(Filter(completions, keep))
  {
    if completions != [] {
      var rest := completions[1..];
      assert UniqueCompletions(rest) by {
        forall i, j | 0 <= i < j < |rest|
          ensures !SameEntry(rest[i], rest[j])
        {
          assert rest[i] == completions[i + 1] && rest[j] == completions[j + 1];
        }
      }
      FilterKeepsUnique(rest, keep);
      var r := Filter(rest, keep);
      if keep(completions[0]) {
        forall c | c in r
          ensures !SameEntry(completions[0], c)
        {
          var j :| 0 <= j < |rest| && rest[j] == c;
          assert completions[j + 1] == c;
        }
        assert Filter(completions, keep) == [completions[0]] + r;
      } else {
        assert Filter(completions, keep) == r;
      }
    }
  }

  /** Appending a record for a (habit, date) not yet completed keeps records unique. */
  lemma AppendKeepsUnique(completions: seq<HabitCompletion>, c: HabitCompletion)
    requires UniqueCompletions(completions)
    requires !IsCompletedOnDate(completions, c.habitId, c.date)
    ensures UniqueCompletions(completions + [c])
  {
    var cs := completions + [c];
    forall i, j | 0 <= i < j < |cs|
      ensures !SameEntry(cs[i], cs[j])
    {
      assert cs[i] == completions[i];
      if j < |completions| {
        assert cs[j] == completions[j];
      }
    }
  }

  /** Appending a record for an existing habit, with ids kept, keeps every record referenced. */
  lemma AppendKeepsReferenced(before: seq<Habit>, after: seq<Habit>, completions: seq<HabitCompletion>, c: HabitCompletion)
    requires AllReferenced(before, completions)
    requires HasHabit(before, c.habitId)
    requires SameIds(before, after)
    ensures AllReferenced(after, completions + [c])
  {
    SameIdsKeepHabits(before, after);
  }

  // ---------------------------------------------------------------------------
  // The ledger object

  /** `HabitData`: the ordered habits and the ordered completion records. */
  class HabitData {
    var habits: seq<Habit>
    var completions: seq<HabitCompletion>

    /** The invariants of a well-formed ledger. */
    ghost predicate Consistent()
      reads this
    {
      StreaksBounded(habits) && UniqueCompletions(completions) && AllReferenced(habits, completions)
    }

    /** `HabitData::new`: an empty ledger. */
    constructor ()
      ensures habits == [] && completions == []
      ensures Consistent()
    {
      habits := [];
      completions := [];
    }

    /** `add_habit`: appends the habit; ids are not checked. */
    method AddHabit(habit: Habit)
      modifies this
      ensures habits == old(habits) + [habit]
      ensures completions == old(completions)
      ensures old(Consistent()) && habit.streak <= habit.longestStreak ==> Consistent()
    {
      habits := habits + [habit];
      assert forall id :: HasHabit(old(habits), id) ==> HasHabit(habits, id) by {
        forall id | HasHabit(old(habits), id)
          ensures HasHabit(habits, id)
        {
          var h :| h in old(habits) && h.id == id;
          assert h in habits;
        }
      }
    }

    /** `remove_habit`: drops the habit and, in cascade, its completion records. */
    method RemoveHabit(habitId: string)
      modifies this
      ensures habits == Filter(old(habits), IdIsNot(habitId))
      ensures completions == Filter(old(completions), BelongsElsewhere(habitId))
      ensures !HasHabit(habits, habitId)
      ensures forall c :: c in completions ==> c.habitId != habitId
      ensures old(Consistent()) ==> Consistent()
    {
      habits := Filter(habits, IdIsNot(habitId));
      completions := Filter(completions, BelongsElsewhere(habitId));
      if old(Consistent()) {
        FilterKeepsUnique(old(completions), BelongsElsewhere(habitId));
        forall c | c in completions
          ensures HasHabit(habits, c.habitId)
        {
          assert HasHabit(old(habits), c.habitId);
          var h :| h in old(habits) && h.id == c.habitId;
          assert h in habits;
        }
      }
    }

    /** `update_habit`: renames the first habit with the id; a no-op when there is none. */
    method UpdateHabit(habitId: string, newName: string, newDescription: string)
      modifies this
      ensures completions == old(completions)
      ensures match HabitIndex(old(habits), habitId)
        case None => habits == old(habits)
        case Some(i) => habits == old(habits)[i := old(habits)[i].(name := newName, description := newDescription)]
      ensures SameIds(old(habits), habits)
      ensures old(Consistent()) ==> Consistent()
    {
      var index := HabitIndex(habits, habitId);
      if index.Some? {
        var i := index.value;
        habits := habits[i := habits[i].(name := newName, description := newDescription)];
      }
      SameIdsKeepHabits(old(habits), habits);
    }

    /**
     * `mark_completed`: nothing happens when the habit is already completed on
     * that date; otherwise one record is appended and the streak recomputed.
     */
    method MarkCompleted(habitId: string, date: Day, notes: Option<string>, completedAt: int, today: Day)
      modifies this
      ensures IsCompletedOnDate(completions, habitId, date)
      ensures old(IsCompletedOnDate(completions, habitId, date)) ==>
        habits == old(habits) && completions == old(completions)
      ensures !old(IsCompletedOnDate(completions, habitId, date)) ==>
        completions == old(completions) + [HabitCompletion(habitId, date, completedAt, notes)]
        && StreakUpdated(old(habits), habits, habitId, Streak(completions, habitId, today))
      ensures old(Consistent()) && HasHabit(old(habits), habitId) ==> Consistent()
    {
      if IsCompletedOnDate(completions, habitId, date) {
        return;
      }
      var completion := HabitCompletion(habitId, date, completedAt, notes);
      completions := completions + [completion];
      assert completions[|completions| - 1] == completion;
      UpdateStreak(habitId, today);
      StreakUpdateKeepsLongest(old(habits), habits, habitId, Streak(completions, habitId, today));
      if old(Consistent()) && HasHabit(old(habits), habitId) {
        AppendKeepsUnique(old(completions), completion);
        AppendKeepsReferenced(old(habits), habits, old(completions), completion);
      }
    }

    /**
     * `unmark_completed`: drops the record for that habit and date, keeps
     * every other record in order, and recomputes the streak.
     */
    method UnmarkCompleted(habitId: string, date: Day, today: Day)
      modifies this
      ensures completions == Filter(old(completions), NotOn(habitId, date))
      ensures !IsCompletedOnDate(completions, habitId, date)
      ensures StreakUpdated(old(habits), habits, habitId, Streak(completions, habitId, today))
      ensures old(Consistent()) ==> Consistent()
    {
      UnmarkDropsDay(completions, habitId, date);
      completions := Filter(completions, NotOn(habitId, date));
      UpdateStreak(habitId, today);
      StreakUpdateKeepsLongest(old(habits), habits, habitId, Streak(completions, habitId, today));
      SameIdsKeepHabits(old(habits), habits);
      if old(Consistent()) {
        FilterKeepsUnique(old(completions), NotOn(habitId, date));
      }
    }

    /**
     * The counting loop of `update_streak`: if `today` is completed, step
     * back one day at a time while the day is completed.
     */
    method CountStreak(habitId: string, today: Day) returns (streak: nat)
      ensures streak == Streak(completions, habitId, today)
    {
      ghost var days := CompletedDays(completions, habitId);
      streak := 0;
      if IsCompletedOnDate(completions, habitId, today) {
        streak := 1;
        var daysBack: nat := 1;
        while true
          invariant streak == daysBack <= |days|
          invariant forall d :: today - daysBack < d <= today ==> d in days
          decreases |days| - daysBack
        {
          var checkDate := today - daysBack;
          if IsCompletedOnDate(completions, habitId, checkDate) {
            assert checkDate in days;
            streak := streak + 1;
          } else {
            break;
          }
          daysBack := daysBack + 1;
          RunFitsInDays(days, today, daysBack);
        }
        RunIsUnique(days, today, streak);
      }
    }

    /**
     * `update_streak`: counts the run of completed days ending at `today`
     * (the clock read of the source is this parameter) and records it on the
     * first habit with the id, raising its longest streak when exceeded.
     */
    method UpdateStreak(habitId: string, today: Day)
      modifies this
      ensures completions == old(completions)
      ensures StreakUpdated(old(habits), habits, habitId, Streak(completions, habitId, today))
    {
      var streak := CountStreak(habitId, today);
      var index := HabitIndex(habits, habitId);
      if index.Some? {
        var i := index.value;
        habits := habits[i := habits[i].(streak := streak)];
        if streak > habits[i].longestStreak {
          habits := habits[i := habits[i].(longestStreak := streak)];
        }
      }
    }
  }

  // ---------------------------------------------------------------------------
  // Worked cases of the streak rule

  /** Completions on today, yesterday and the day before, but not three days back, give a streak of 3. */
  lemma ThreeDayRun(completions: seq<HabitCompletion>, habitId: string, today: Day)
    requires IsCompletedOnDate(completions, habitId, today)
    requires IsCompletedOnDate(completions, habitId, today - 1)
    requires IsCompletedOnDate(completions, habitId, today - 2)
    requires !IsCompletedOnDate(completions, habitId, today - 3)
    ensures Streak(completions, habitId, today) == 3
  {
    RunIsUnique(CompletedDays(completions, habitId), today, 3);
  }

  /** After a day is unmarked it is no longer completed, whatever records it had. */
  lemma UnmarkDropsDay(completions: seq<HabitCompletion>, habitId: string, date: Day)
    ensures !IsCompletedOnDate(Filter(completions, NotOn(habitId, date)), habitId, date)
  {
    var r := Filter(completions, NotOn(habitId, date));
    forall i | 0 <= i < |r|
      ensures !(r[i].habitId == habitId && r[i].date == date)
    {
      assert r[i] in r;
    }
  }

  /** After today is unmarked the streak is 0, whatever came before. */
  lemma UnmarkTodayEndsStreak(completions: seq<HabitCompletion>, habitId: string, today: Day)
    ensures Streak(Filter(completions, NotOn(habitId, today)), habitId, today) == 0
  {
    UnmarkDropsDay(completions, habitId, today);
  }

  /**
   * Unmarking today after a five-day streak: the habit found by the id
   * afterwards has streak 0, and its longest streak stays at 5.
   */
  lemma UnmarkAfterFiveKeepsLongest(before: seq<Habit>, after: seq<Habit>, completions: seq<HabitCompletion>,
                                    habitId: string, today: Day)
    requires HasHabit(before, habitId)
    requires GetHabitById(before, habitId).value.streak == 5
    requires GetHabitById(before, habitId).value.longestStreak == 5
    requires StreakUpdated(before, after, habitId, Streak(Filter(completions, NotOn(habitId, today)), habitId, today))
    ensures GetHabitById(after, habitId).Some?
    ensures GetHabitById(after, habitId).value.streak == 0
    ensures GetHabitById(after, habitId).value.longestStreak == 5
  {
    UnmarkTodayEndsStreak(completions, habitId, today);
    StreakUpdateKeepsLongest(before, after, habitId, 0);
  }
}
