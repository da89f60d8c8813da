/**
 * The month calendar of src/calendar.rs without its widgets: the month it
 * shows and how the arrows move it, the layout of the day grid, the styling
 * of each day button, and the click that toggles a day's completion.
 */
module Calendar {
  import opened Dates
  import opened Ledger
  import opened Vault
  import opened Wrappers

  // ---------------------------------------------------------------------------
  // Month arithmetic

  /** `with_day(1)`: the 1st of the date's month. */
  function MonthStart(d: Date): (r: Date)
    ensures r.day == 1 && r.year == d.year && r.month == d.month
  {
    Ymd(d.year, d.month, 1)
  }

  /** The 1st of the following month; December rolls into January of the next year. */
  function NextMonthStart(d: Date): (r: Date)
    ensures r.day == 1
    ensures r.month == if d.month == 12 then 1 else d.month + 1
    ensures r.year == if d.month == 12 then d.year + 1 else d.year
  {
    if d.month == 12 then Ymd(d.year + 1, 1, 1) else Ymd(d.year, d.month + 1, 1)
  }

  /** The 1st of the preceding month; January rolls back to December of the previous year. */
  function PrevMonthStart(d: Date): (r: Date)
    ensures r.day == 1
    ensures r.month == if d.month == 1 then 12 else d.month - 1
    ensures r.year == if d.month == 1 then d.year - 1 else d.year
  {
    if d.month == 1 then Ymd(d.year - 1, 12, 1) else Ymd(d.year, d.month - 1, 1)
  }

  /** Forward then back, or back then forward, returns to the same month start. */
  lemma NavigationRoundTrip(d: Date)
    requires d.day == 1
    ensures PrevMonthStart(NextMonthStart(d)) == d
    ensures NextMonthStart(PrevMonthStart(d)) == d
  {
  }

  /** The next month starts as many days later as the current month is long. */
  lemma NextMonthIsMonthLater(d: Date)
    requires d.day == 1
    ensures DayNumber(NextMonthStart(d)) == DayNumber(d) + DaysInMonth(d.year, d.month)
  {
    if d.month == 12 {
      MonthsFillYear(d.year);
    } else {
      MonthFollowsMonth(d.year, d.month);
    }
  }

  /**
   * `last_day` in `add_calendar_grid`: one day before the 1st of the
   * following month, which is the final day of the month.
   */
  function LastDay(currentMonth: Date): (r: Date)
    ensures r == Ymd(currentMonth.year, currentMonth.month, DaysInMonth(currentMonth.year, currentMonth.month))
    ensures Succ(r) == NextMonthStart(currentMonth)
  {
    Pred(NextMonthStart(currentMonth))
  }

  // ---------------------------------------------------------------------------
  // Dates around a month

  /**
   * The date `k` days after the 1st of `first`'s month, for the stretch from
   * four weeks before it to four weeks after the month's end: the grid never
   * leaves the previous, current and next month.
   */
  function DateAt(first: Date, k: int): (r: Date)
    requires first.day == 1
    requires -28 <= k < DaysInMonth(first.year, first.month) + 28
    ensures r.month == first.month <==> 0 <= k < DaysInMonth(first.year, first.month)
    ensures 0 <= k < DaysInMonth(first.year, first.month) ==> r == Ymd(first.year, first.month, k + 1)
  {
    var len := DaysInMonth(first.year, first.month);
    if k < 0 then
      var p := PrevMonthStart(first);
      Ymd(p.year, p.month, DaysInMonth(p.year, p.month) + k + 1)
    else if k < len then
      Ymd(first.year, first.month, k + 1)
    else
      var n := NextMonthStart(first);
      Ymd(n.year, n.month, k - len + 1)
  }

  lemma DateAtSucc(first: Date, k: int)
    requires first.day == 1
    requires -28 <= k < DaysInMonth(first.year, first.month) + 27
    ensures Succ(DateAt(first, k)) == DateAt(first, k + 1)
  {
  }

  lemma DateAtPred(first: Date, k: int)
    requires first.day == 1
    requires -27 <= k < DaysInMonth(first.year, first.month) + 28
    ensures Pred(DateAt(first, k)) == DateAt(first, k - 1)
  {
    DateAtSucc(first, k - 1);
    PredSuccInverse(DateAt(first, k - 1));
  }

  /** DateAt(first, k) really is `k` days after `first`. */
  lemma {:induction false} DateAtDayNumber(first: Date, k: int)
    requires first.day == 1
    requires -28 <= k < DaysInMonth(first.year, first.month) + 28
    ensures DayNumber(DateAt(first, k)) == DayNumber(first) + k
    decreases if k < 0 then -k else k
  {
    if k > 0 {
      DateAtDayNumber(first, k - 1);
      DateAtSucc(first, k - 1);
    } else if k < 0 {
      DateAtDayNumber(first, k + 1);
      DateAtSucc(first, k);
    }
  }

  /** Chronological order of these dates is the order of their offsets. */
  lemma DateAtOrder(first: Date, a: int, b: int)
    requires first.day == 1
    requires -28 <= a < DaysInMonth(first.year, first.month) + 28
    requires -28 <= b < DaysInMonth(first.year, first.month) + 28
    ensures Less(DateAt(first, a), DateAt(first, b)) <==> a < b
  {
    DateAtDayNumber(first, a);
    DateAtDayNumber(first, b);
  }

  // ---------------------------------------------------------------------------
  // Day buttons

  datatype DayStyle = OtherMonth | Completed | Today | Plain

  /** What `create_day_button` sets up: the day number it shows, the style class and whether it can be clicked. */
  datatype DayButton = DayButton(dayOfMonth: int, style: DayStyle, sensitive: bool)

  /**
   * `create_day_button`: a day of another month is greyed out and cannot be
   * clicked; otherwise completed takes precedence over today. Only the month
   * number is compared with the shown month, as in the source.
   */
  function CreateDayButton(date: Date, currentMonth: Date, isCompleted: bool, isToday: bool): (b: DayButton)
    ensures b.dayOfMonth == date.day
    ensures b.sensitive <==> date.month == currentMonth.month
    ensures b.style == OtherMonth <==> !b.sensitive
    ensures b.style == Completed <==> b.sensitive && isCompleted
    ensures b.style == Today <==> b.sensitive && !isCompleted && isToday
  {
    var isCurrentMonth := date.month == currentMonth.month;
    var style :=
      if !isCurrentMonth then OtherMonth
      else if isCompleted then Completed
      else if isToday then Today
      else Plain;
    DayButton(date.day, style, isCurrentMonth)
  }

  // ---------------------------------------------------------------------------
  // The grid

  /** A button attached at (col, row) of the grid; row 0 holds the weekday headers. */
  datatype GridCell = GridCell(date: Date, row: int, col: int, button: DayButton)

  /**
   * How many day cells the grid shows: whole weeks from the Monday on or
   * before the 1st up to the first week boundary after the last day.
   */
  function GridLength(currentMonth: Date): (n: int)
    ensures n % 7 == 0
    ensures 28 <= n <= 42
    ensures Weekday(currentMonth) + DaysInMonth(currentMonth.year, currentMonth.month) <= n
    ensures n < Weekday(currentMonth) + DaysInMonth(currentMonth.year, currentMonth.month) + 7
  {
    var lead := Weekday(currentMonth) + DaysInMonth(currentMonth.year, currentMonth.month);
    (lead + 6) / 7 * 7
  }

  /**
   * Cell `k` of the grid in closed form: the date `k` days after the Monday
   * on or before the 1st, at row 1 + k / 7 and column k % 7, with the button
   * `create_day_button` makes for it.
   */
  function GridCellAt(currentMonth: Date, completions: seq<HabitCompletion>, habitId: string, today: Date, k: int): (r: GridCell)
    requires currentMonth.day == 1
    requires 0 <= k < 42
    ensures r.row == 1 + k / 7 && r.col == k % 7
    ensures r.button.dayOfMonth == r.date.day
    ensures r.button.sensitive <==> Weekday(currentMonth) <= k < Weekday(currentMonth) + DaysInMonth(currentMonth.year, currentMonth.month)
    ensures r.button.style == Completed ==> IsCompletedOnDate(completions, habitId, DayNumber(r.date))
  {
    var date := DateAt(currentMonth, k - Weekday(currentMonth));
    var button := CreateDayButton(date, currentMonth,
      IsCompletedOnDate(completions, habitId, DayNumber(date)), date == today);
    GridCell(date, 1 + k / 7, k % 7, button)
  }

  lemma ShiftMod7(n: int, k: int)
    ensures (n + k - n % 7) % 7 == k % 7
  {
    var q := n / 7;
    assert n - n % 7 == 7 * q;
    assert n + k - n % 7 == k + 7 * q;
  }

  /** Columns are weekdays: column 0 is Monday, column 6 is Sunday. */
  lemma GridColumnIsWeekday(currentMonth: Date, completions: seq<HabitCompletion>, habitId: string, today: Date, k: int)
    requires currentMonth.day == 1
    requires 0 <= k < 42
    ensures Weekday(GridCellAt(currentMonth, completions, habitId, today, k).date) == k % 7
  {
    DateAtDayNumber(currentMonth, k - Weekday(currentMonth));
    ShiftMod7(DayNumber(currentMonth), k);
  }

  /** The first cell is the Monday on or before the 1st, at most six days earlier. */
  lemma GridStartsOnMonday(currentMonth: Date, completions: seq<HabitCompletion>, habitId: string, today: Date)
    requires currentMonth.day == 1
    ensures var start := GridCellAt(currentMonth, completions, habitId, today, 0).date;
      Weekday(start) == 0
      && DayNumber(currentMonth) - 6 <= DayNumber(start) <= DayNumber(currentMonth)
  {
    GridColumnIsWeekday(currentMonth, completions, habitId, today, 0);
    DateAtDayNumber(currentMonth, -Weekday(currentMonth));
  }

  /**
   * Every day of the month has its cell, and exactly the cells outside the
   * month are styled as another month's and cannot be clicked.
   */
  lemma GridCoversMonth(currentMonth: Date, completions: seq<HabitCompletion>, habitId: string, today: Date, k: int)
    requires currentMonth.day == 1
    requires 0 <= k < GridLength(currentMonth)
    ensures var cell := GridCellAt(currentMonth, completions, habitId, today, k);
      var w := Weekday(currentMonth);
      var len := DaysInMonth(currentMonth.year, currentMonth.month);
      (cell.button.style == OtherMonth <==> !(w <= k < w + len))
      && (w <= k < w + len ==> cell.date == Ymd(currentMonth.year, currentMonth.month, k - w + 1))
  {
  }

  /** A multiple of 7 that reaches past the month, but not by a whole week, is the grid's length. */
  lemma GridLengthIsFirstBoundary(currentMonth: Date, n: int)
    requires n % 7 == 0
    requires Weekday(currentMonth) + DaysInMonth(currentMonth.year, currentMonth.month) <= n
    requires n - 7 < Weekday(currentMonth) + DaysInMonth(currentMonth.year, currentMonth.month)
    ensures n == GridLength(currentMonth)
  {
  }

  /**
   * Proof step of LayOutGrid: the cell the loop builds from its current date,
   * row and column is the closed-form cell GridCellAt of the same index.
   */
  lemma GridCellIsCellAt(currentMonth: Date, completions: seq<HabitCompletion>, habitId: string, today: Date,
                         i: int, date: Date, row: int, col: int)
    requires currentMonth.day == 1
    requires 0 <= i < 42
    requires date == DateAt(currentMonth, i - Weekday(currentMonth))
    requires i == 7 * (row - 1) + col && 0 <= col < 7
    ensures GridCellAt(currentMonth, completions, habitId, today, i)
      == GridCell(date, row, col, CreateDayButton(date, currentMonth,
           IsCompletedOnDate(completions, habitId, DayNumber(date)), date == today))
  {
    PositionInWeeks(i, row, col);
  }

  /** Cell number 7 * (row - 1) + col lies in week row - 1 of the grid, on day col of that week. */
  lemma PositionInWeeks(i: int, row: int, col: int)
    requires i == 7 * (row - 1) + col && 0 <= col < 7
    ensures i / 7 == row - 1 && i % 7 == col
  {
  }

  /** Appending the next cell in closed form keeps the laid-out prefix in closed form. */
  lemma AppendGridCell(currentMonth: Date, completions: seq<HabitCompletion>, habitId: string, today: Date,
                       cells: seq<GridCell>, cell: GridCell)
    requires currentMonth.day == 1
    requires |cells| < 42
    requires forall k :: 0 <= k < |cells| ==> cells[k] == GridCellAt(currentMonth, completions, habitId, today, k)
    requires cell == GridCellAt(currentMonth, completions, habitId, today, |cells|)
    ensures forall k :: 0 <= k < |cells| + 1 ==>
      (cells + [cell])[k] == GridCellAt(currentMonth, completions, habitId, today, k)
  {
  }

  /**
   * One pass of the grid loop: the next date is one offset further, and the
   * loop stops exactly when the cell count reaches the grid's length. The
   * column wraps to 0 after Sunday, when the row advances, so the count stays
   * 7 * (row - 1) + col.
   */
  lemma GridStep(currentMonth: Date, i: int, date: Date, row: int, col: int)
    requires currentMonth.day == 1
    requires 0 <= i < 42
    requires i == 7 * (row - 1) + col && 0 <= col < 7
    requires i - col < Weekday(currentMonth) + DaysInMonth(currentMonth.year, currentMonth.month)
    requires date == DateAt(currentMonth, i - Weekday(currentMonth))
    ensures Succ(date) == DateAt(currentMonth, i + 1 - Weekday(currentMonth))
    ensures var col' := if col + 1 >= 7 then 0 else col + 1;
      var stop := Less(LastDay(currentMonth), Succ(date)) && col' == 0;
      (stop ==> i + 1 == GridLength(currentMonth))
      && (!stop ==> i + 1 - col' < Weekday(currentMonth) + DaysInMonth(currentMonth.year, currentMonth.month))
  {
    DateAtSucc(currentMonth, i - Weekday(currentMonth));
    var row' := if col + 1 >= 7 then row + 1 else row;
    var col' := if col + 1 >= 7 then 0 else col + 1;
    GridStop(currentMonth, i + 1, row', col');
  }

  /**
   * The loop's stop test, past the last day at a week boundary, holds
   * exactly when the count of cells reaches the grid's length.
   */
  lemma GridStop(currentMonth: Date, n: int, row: int, col: int)
    requires currentMonth.day == 1
    requires 0 < n <= 42
    requires n == 7 * (row - 1) + col && 0 <= col < 7
    requires (if col == 0 then n - 7 else n - col) < Weekday(currentMonth) + DaysInMonth(currentMonth.year, currentMonth.month)
    ensures var stop := Less(LastDay(currentMonth), DateAt(currentMonth, n - Weekday(currentMonth))) && col == 0;
      (stop ==> n == GridLength(currentMonth))
      && (!stop ==> n - col < Weekday(currentMonth) + DaysInMonth(currentMonth.year, currentMonth.month))
  {
    var w := Weekday(currentMonth);
    var len := DaysInMonth(currentMonth.year, currentMonth.month);
    LastDayIsLastOffset(currentMonth);
    DateAtOrder(currentMonth, len - 1, n - w);
    if w + len <= n && col == 0 {
      GridLengthIsFirstBoundary(currentMonth, n);
    }
  }

  /** The month's last day is the grid date at offset length - 1. */
  lemma LastDayIsLastOffset(currentMonth: Date)
    requires currentMonth.day == 1
    ensures LastDay(currentMonth) == DateAt(currentMonth, DaysInMonth(currentMonth.year, currentMonth.month) - 1)
  {
  }


  /**
   * The first loop of `add_calendar_grid`: step back one day at a time from
   * the 1st until the date is a Monday.
   */
  method MondayOnOrBefore(firstDay: Date) returns (currentDate: Date)
    requires firstDay.day == 1
    ensures currentDate == DateAt(firstDay, -Weekday(firstDay))
    ensures Weekday(currentDate) == 0
  {
    currentDate := firstDay;
    ghost var back := 0;
    while NumberFromMonday(currentDate) != 1
      invariant 0 <= back <= Weekday(firstDay)
      invariant currentDate == DateAt(firstDay, -back)
      invariant Weekday(currentDate) == Weekday(firstDay) - back
      decreases Weekday(currentDate)
    {
      DateAtPred(firstDay, -back);
      WeekdayOfPred(currentDate);
      currentDate := Pred(currentDate);
      back := back + 1;
    }
  }

  /**
   * `add_calendar_grid` without widgets: from the Monday on or before the
   * 1st, attach up to 42 day buttons row by row, stopping after the first
   * completed week that passes the month's last day. The habit's records,
   * the habit id and today's date are what the source reads through `self`
   * and the clock.
   */
  method LayOutGrid(currentMonth: Date, completions: seq<HabitCompletion>, habitId: string, today: Date)
    returns (cells: seq<GridCell>)
    requires currentMonth.day == 1
    ensures |cells| == GridLength(currentMonth)
    ensures forall k :: 0 <= k < |cells| ==> cells[k] == GridCellAt(currentMonth, completions, habitId, today, k)
  {
    var firstDay := currentMonth;
    var lastDay := LastDay(currentMonth);
    ghost var len := DaysInMonth(currentMonth.year, currentMonth.month);
    ghost var w := Weekday(currentMonth);

    var currentDate := MondayOnOrBefore(firstDay);

    var row, col := 1, 0;
    cells := [];
    for i := 0 to 42
      invariant |cells| == i
      invariant i == 7 * (row - 1) + col && 0 <= col < 7
      invariant currentDate == DateAt(currentMonth, i - w)
      invariant i - col < w + len
      invariant forall k :: 0 <= k < i ==> cells[k] == GridCellAt(currentMonth, completions, habitId, today, k)
    {
      var isCompleted := IsCompletedOnDate(completions, habitId, DayNumber(currentDate));
      var button := CreateDayButton(currentDate, currentMonth, isCompleted, currentDate == today);
      GridCellIsCellAt(currentMonth, completions, habitId, today, i, currentDate, row, col);
      AppendGridCell(currentMonth, completions, habitId, today, cells, GridCell(currentDate, row, col, button));
      cells := cells + [GridCell(currentDate, row, col, button)];
      GridStep(currentMonth, i, currentDate, row, col);

      col := col + 1;
      if col >= 7 {
        col := 0;
        row := row + 1;
      }

      currentDate := Succ(currentDate);

      if Less(lastDay, currentDate) && col == 0 {
        break;
      }
    }
  }

  // ---------------------------------------------------------------------------
  // The calendar object

  /** `HabitCalendar`: one habit's calendar, sharing the ledger and the password cell with the rest of the application. */
  class HabitCalendar {
    const habitId: string
    const habitData: HabitData
    const password: PasswordCell
    var currentMonth: Date
    /** The day buttons of the grid, in the order they are attached. */
    var grid: seq<GridCell>

    /** The month shown is always held as its 1st. */
    ghost predicate Valid()
      reads this
    {
      currentMonth.day == 1
    }

    /**
     * `HabitCalendar::new`: shows the month of `today` (the source reads the
     * clock) and builds its grid.
     */
    constructor (habitId: string, habitData: HabitData, password: PasswordCell, today: Date)
      ensures Valid()
      ensures this.habitId == habitId && this.habitData == habitData && this.password == password
      ensures currentMonth == MonthStart(today)
      ensures |grid| == GridLength(currentMonth)
      ensures forall k :: 0 <= k < |grid| ==> grid[k] == GridCellAt(currentMonth, habitData.completions, habitId, today, k)
    {
      var cells := LayOutGrid(MonthStart(today), habitData.completions, habitId, today);
      this.habitId := habitId;
      this.habitData := habitData;
      this.password := password;
      currentMonth := MonthStart(today);
      grid := cells;
    }

    /**
     * `navigate_month`: a positive direction moves to the next month, any
     * other to the previous one; then the grid is rebuilt for the new month.
     */
    method NavigateMonth(direction: int, today: Date)
      modifies this
      ensures Valid()
      ensures currentMonth == if direction > 0 then NextMonthStart(old(currentMonth)) else PrevMonthStart(old(currentMonth))
      ensures |grid| == GridLength(currentMonth)
      ensures forall k :: 0 <= k < |grid| ==> grid[k] == GridCellAt(currentMonth, habitData.completions, habitId, today, k)
    {
      if direction > 0 {
        if currentMonth.month == 12 {
          currentMonth := Ymd(currentMonth.year + 1, 1, 1);
        } else {
          currentMonth := Ymd(currentMonth.year, currentMonth.month + 1, 1);
        }
      } else {
        if currentMonth.month == 1 {
          currentMonth := Ymd(currentMonth.year - 1, 12, 1);
        } else {
          currentMonth := Ymd(currentMonth.year, currentMonth.month - 1, 1);
        }
      }
      grid := LayOutGrid(currentMonth, habitData.completions, habitId, today);
    }

    /**
     * The day button's click handler: unmark the day when it is completed,
     * mark it otherwise (either reruns `update_streak`), then save the ledger
     * when a password is held. Returns whether the button now shows as
     * completed, and the vault calls made. `today` is the date
     * `update_streak` reads from the clock.
     */
    method OnDayClicked(date: Date, completedAt: int, today: Day)
      returns (shownCompleted: bool, calls: seq<VaultCall>)
      modifies habitData
      ensures shownCompleted == !old(IsCompletedOnDate(habitData.completions, habitId, DayNumber(date)))
      ensures IsCompletedOnDate(habitData.completions, habitId, DayNumber(date)) == shownCompleted
      ensures !shownCompleted ==>
        habitData.completions == Filter(old(habitData.completions), NotOn(habitId, DayNumber(date)))
      ensures shownCompleted ==>
        habitData.completions == old(habitData.completions) + [HabitCompletion(habitId, DayNumber(date), completedAt, None)]
      ensures StreakUpdated(old(habitData.habits), habitData.habits, habitId, Streak(habitData.completions, habitId, today))
      ensures calls == SaveIfHeld(password.value, habitData.habits, habitData.completions)
      ensures old(habitData.Consistent()) && HasHabit(old(habitData.habits), habitId) ==> habitData.Consistent()
    {
      var isCompleted := IsCompletedOnDate(habitData.completions, habitId, DayNumber(date));
      if isCompleted {
        habitData.UnmarkCompleted(habitId, DayNumber(date), today);
      } else {
        habitData.MarkCompleted(habitId, DayNumber(date), None, completedAt, today);
      }
      shownCompleted := !isCompleted;
      calls := SaveIfHeld(password.value, habitData.habits, habitData.completions);
    }
  }
}
