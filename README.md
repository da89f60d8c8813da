# HabitVault core in Dafny

A Dafny model of the logic of HabitVault, a GTK habit tracker that keeps its
data in an encrypted file. The model covers four parts.

- **The habit ledger** (`src/habit.rs`, module `Ledger`, file `habit.dfy`).
  `HabitData` holds the ordered habits and the ordered completion records.
  Its methods add, remove (with the habit's completions), rename, mark and
  unmark, and `update_streak` recomputes the streak after every mark and
  unmark. The streak is the run of consecutive completed days ending at
  today. It is specified by the function `Streak`, proved to be the unique
  maximal run, and proved never to exceed the number of the habit's records.
  That bound is also the termination argument of the source's unbounded
  `for days_back in 1..` loop.
- **Dates** (module `Dates`, file `dates.dfy`). These are proleptic Gregorian
  dates as chrono's `NaiveDate` holds them. The module defines a day number
  from 0001-01-01, the next and previous day, the weekday, and the
  chronological order.
- **The month calendar** (`src/calendar.rs`, module `Calendar`, file
  `calendar.dfy`). It covers the month shown and how the arrows move it, and
  the walk that lays out the day grid. That walk goes back to the Monday on
  or before the 1st, then fills at most 42 cells and stops at the first week
  boundary after the month's last day. It also covers each day button's
  style and clickability, and the click that toggles a day.
  The grid is given in closed form (`GridCellAt`), and the loop is proved
  to build exactly that. The lemmas show that:
  - columns are weekdays;
  - every day of the month gets a cell;
  - only out-of-month cells are greyed out.
- **The decision rules next to the widgets** (`src/ui.rs`, module `Ui`, file
  `ui.dfy`). These are the streak emoji and the "high-streak" style, and the
  id format of new habits. They also include the guards of the
  change-password, add-habit, edit and delete-all handlers, and the "today"
  toggle. The encrypted vault is not modelled. Each handler returns the vault
  calls it makes, with the ledger contents a save would write, and takes the
  success of each call as a parameter.

Clock reads become parameters: today's date, the `completed_at` and
`created_at` timestamps, and the timestamp a new habit's id is made from.
In the ledger a date is an integer day number. The calendar converts a date
to one with `Dates.DayNumber`.

Two observations come from the model:
- Adding a habit only checks that the name is not empty, while editing checks
  that the trimmed name is not empty. A whitespace-only name can therefore be
  created but not set by an edit.
- A habit's id is `habit_` followed by the Unix time in seconds.
  `Ui.HabitIdsDifferBySecond` shows that ids differ exactly when the seconds
  differ. Two habits added within the same second therefore share an id, and
  `add_habit` does not check for that.

## Model

| member | source | states |
|---|---|---|
| Ledger.Filter | src/habit.rs:42-43 | `retain`/`filter`: the result holds exactly the elements of the input that satisfy the predicate, and is no longer |
| Ledger.FilterConcat | src/habit.rs:70 | filtering keeps relative order: filtering a concatenation is the concatenation of the filtered parts |
| Ledger.IsCompletedOnDate | src/habit.rs:74-76 | true exactly when some record has this habit id and this date |
| Ledger.HabitIndex | src/habit.rs:82-84 | `iter_mut().find`: the index of the first habit with the id, with no earlier match, and None exactly when no habit has the id |
| Ledger.GetHabitById | src/habit.rs:78-80 | Some exactly when a habit with the id exists, and then the first habit of the ledger with that id, no earlier habit having it |
| Ledger.GetCompletionsForHabit | src/habit.rs:114-118 | a record is in the result exactly when it is in the ledger and belongs to this habit; never more than all records |
| Ledger.GetCompletionsInOrder | src/habit.rs:114-118 | the habit's records keep insertion order: the result for a + b is the result for a followed by the result for b |
| Ledger.CompletedDays | src/habit.rs:92-103 | the set of dates completed for the habit, no larger than the habit's record count |
| Ledger.Run | src/habit.rs:96-103 | the run of consecutive completed days ending at today is bounded by the number of completed days |
| Ledger.RunIsMaximal | src/habit.rs:96-103 | every day of the counted run is completed and the day before it is not |
| Ledger.RunIsUnique | src/habit.rs:96-103 | any run ending at today whose preceding day is missing has exactly the counted length |
| Ledger.RunFitsInDays | src/habit.rs:96-103 | a run of n consecutive completed days needs n distinct completed days, which is why the backward loop stops |
| Ledger.Streak | src/habit.rs:87-104 | 0 exactly when today is not completed, and never more than the habit's completion records |
| Ledger.RecordStreak | src/habit.rs:106-111 | sets the streak and raises the longest streak to it when exceeded, never lowering it, changing no other field |
| Ledger.StreakUpdated | src/habit.rs:106-111 | the ledger after a streak update: same length, every habit with another id unchanged, and nothing changed when no habit has the id |
| Ledger.StreakUpdateKeepsLongest | src/habit.rs:106-111 | updating the streak keeps habit ids and every longest streak, and keeps `streak <= longest_streak`; the found habit becomes its recorded form |
| Ledger.HabitIndexSameIds | src/habit.rs:106 | the habit found by id depends only on the ids |
| Ledger.SameIdsKeepHabits | src/habit.rs:46-51 | a change that keeps ids keeps every id present |
| Ledger.FilterKeepsUnique | src/habit.rs:69-70 | `retain` keeps at most one record per habit and date |
| Ledger.AppendKeepsUnique | src/habit.rs:54-65 | the guard of `mark_completed` keeps at most one record per habit and date |
| Ledger.AppendKeepsReferenced | src/habit.rs:58-65 | a record appended for an existing habit keeps every record referring to a habit |
| Ledger.HabitData.constructor | src/habit.rs:30-35 | `new`: no habits, no records, and a consistent ledger |
| Ledger.HabitData.AddHabit | src/habit.rs:37-39 | appends the habit without checking its id; records unchanged; consistency kept |
| Ledger.HabitData.RemoveHabit | src/habit.rs:41-44 | drops every habit with the id and, in cascade, every record of it; the rest keep their order; consistency kept |
| Ledger.HabitData.UpdateHabit | src/habit.rs:46-51 | only the name and description of the first habit with the id change; a no-op when absent; records unchanged |
| Ledger.HabitData.MarkCompleted | src/habit.rs:53-67 | afterwards the day is completed; a no-op when it already was; otherwise exactly one record is appended and the streak is updated |
| Ledger.HabitData.UnmarkCompleted | src/habit.rs:69-72 | drops exactly the records of that habit and date, keeping the others in order; the day is no longer completed; the streak is updated |
| Ledger.HabitData.CountStreak | src/habit.rs:87-104 | the counting loop returns `Streak`, the maximal run of completed days ending at today |
| Ledger.HabitData.UpdateStreak | src/habit.rs:86-112 | records the computed streak on the first habit with the id, raising its longest streak; records unchanged; no-op without such a habit |
| Ledger.ThreeDayRun | src/habit.rs:92-103 | completions today and on the two days before, but not three days back, give a streak of 3 |
| Ledger.UnmarkDropsDay | src/habit.rs:69-71 | after `unmark_completed` the day is no longer completed for the habit |
| Ledger.UnmarkTodayEndsStreak | src/habit.rs:69-71 | after unmarking today the streak is 0 |
| Ledger.UnmarkAfterFiveKeepsLongest | src/habit.rs:69-111 | a habit at streak 5 and longest streak 5 whose today is unmarked, followed by the streak update, ends with streak 0 and longest streak 5 |
| Dates.DaysInMonth | src/calendar.rs:158-162 | months have 28 to 31 days, and 29 exactly for February of a leap year |
| Dates.DayNumberInYear | src/calendar.rs:159 | `DayNumber`, the day count from 0001-01-01, puts every date within its own year |
| Dates.Succ | src/calendar.rs:184 | `+ Duration::days(1)` gives the date whose day number is one more, rolling over month and year ends |
| Dates.Pred | src/calendar.rs:167 | `- Duration::days(1)` gives the date whose day number is one less, rolling back over month and year starts |
| Dates.Less | src/calendar.rs:187 | `>` on dates: comparing by year, month and day is exactly comparing day numbers |
| Dates.LexBeforeIsEarlier | src/calendar.rs:187 | a date before another by year, month and day has the smaller day number |
| Dates.DaysBeforeYearMonotone | src/calendar.rs:158-159 | a later year starts no earlier |
| Dates.MonthEndsInYear | src/calendar.rs:158-161 | every month ends within its year |
| Dates.MonthsInOrder | src/calendar.rs:160-161 | an earlier month of a year ends before a later one starts |
| Dates.MonthFollowsMonth | src/calendar.rs:161 | each month starts the day after the previous month ends |
| Dates.Weekday | src/calendar.rs:166 | a weekday number in 0..6 |
| Dates.NumberFromMonday | src/calendar.rs:166 | `number_from_monday` lies in 1..7 and is 1 exactly on Mondays |
| Dates.YearLength | src/calendar.rs:159 | a year has 366 days exactly when it is a leap year |
| Dates.DivStep4 | src/calendar.rs:159 | the count of years divisible by 4 goes up by one exactly at such a year |
| Dates.DivStep100 | src/calendar.rs:159 | the same for centuries |
| Dates.DivStep400 | src/calendar.rs:159 | the same for years divisible by 400 |
| Dates.MonthsFillYear | src/calendar.rs:158-160 | the twelve months add up to the year, so December rolls into the next year |
| Dates.PredSuccInverse | src/calendar.rs:158-167 | one day back and one day forward undo each other |
| Dates.WeekdayOfPred | src/calendar.rs:166-167 | one day back is one weekday back, Monday wrapping to Sunday |
| Dates.KnownWeekdays | src/calendar.rs:166 | the weekday count is anchored: 0001-01-01 and 2024-01-01 are Mondays, 2026-10-18 is a Sunday |
| Calendar.MonthStart | src/calendar.rs:30 | `with_day(1)` keeps year and month and sets day 1 |
| Calendar.NextMonthStart | src/calendar.rs:60-72 | forward from December gives January 1 of the next year, otherwise the 1st of the next month |
| Calendar.PrevMonthStart | src/calendar.rs:73-86 | back from January gives December 1 of the previous year, otherwise the 1st of the previous month |
| Calendar.NavigationRoundTrip | src/calendar.rs:58-86 | forward then back, and back then forward, return to the same month |
| Calendar.NextMonthIsMonthLater | src/calendar.rs:60-72 | the next month starts as many days later as the month is long |
| Calendar.LastDay | src/calendar.rs:157-162 | `last_day` is the month's final day, one day before the 1st of the following month |
| Calendar.DateAtSucc | src/calendar.rs:184 | stepping a grid date forward one day gives the next offset |
| Calendar.DateAtPred | src/calendar.rs:167 | stepping a grid date back one day gives the previous offset |
| Calendar.DateAtDayNumber | src/calendar.rs:164-184 | the grid date at offset k is k days after the 1st |
| Calendar.DateAtOrder | src/calendar.rs:187 | grid dates are ordered as their offsets |
| Calendar.DateAt | src/calendar.rs:164-184 | the date at an offset from the 1st carries the shown month's number exactly for offsets inside the month, and is then day offset + 1 of it |
| Calendar.CreateDayButton | src/calendar.rs:195-213 | shows the day of month; clickable exactly in the shown month; style precedence other-month, then completed, then today |
| Calendar.GridLength | src/calendar.rs:171-190 | a multiple of 7 between 28 and 42, reaching past the last day by less than a week |
| Calendar.GridCellAt | src/calendar.rs:174-184 | cell k sits at row 1 + k / 7 and column k % 7, shows its date's day, is clickable exactly for the month's days, and is styled completed only when the day is completed |
| Calendar.GridColumnIsWeekday | src/calendar.rs:148-182 | column k % 7 holds the weekday under header k % 7 (Monday first) |
| Calendar.GridStartsOnMonday | src/calendar.rs:164-168 | the first cell is a Monday at most 6 days before the 1st |
| Calendar.GridCoversMonth | src/calendar.rs:171-208 | every day of the month has its cell, and exactly the cells outside the month are greyed out |
| Calendar.GridLengthIsFirstBoundary | src/calendar.rs:187 | the first multiple of 7 past the last day is the grid length |
| Calendar.GridCellIsCellAt | src/calendar.rs:175-176 | the button attached at the loop's date, row and column is the closed-form cell |
| Calendar.AppendGridCell | src/calendar.rs:176 | attaching the next cell keeps the laid-out prefix equal to the closed form |
| Calendar.GridStep | src/calendar.rs:178-189 | one pass moves to the next offset, wraps the column into a new row after Sunday, and stops exactly at the grid length |
| Calendar.PositionInWeeks | src/calendar.rs:171-182 | the cell counted as 7 * (row - 1) + col sits in that row and column, as the closed form places it |
| Calendar.GridStop | src/calendar.rs:186-189 | past the last day at a week boundary is reached exactly when the cell count equals the grid length |
| Calendar.LastDayIsLastOffset | src/calendar.rs:157-162 | the month's last day is the grid date at offset length - 1 |
| Calendar.MondayOnOrBefore | src/calendar.rs:164-168 | the backward loop ends on the Monday on or before the 1st |
| Calendar.LayOutGrid | src/calendar.rs:141-193 | the walk attaches exactly `GridLength` cells, cell k being the closed-form cell k |
| Calendar.HabitCalendar.constructor | src/calendar.rs:22-48 | the calendar opens on the 1st of today's month and its grid is the laid-out grid of that month |
| Calendar.HabitCalendar.NavigateMonth | src/calendar.rs:58-89 | moves to the next or previous month start, keeps day 1, and replaces the grid with the one laid out for the new month |
| Calendar.HabitCalendar.OnDayClicked | src/calendar.rs:222-250 | unmarks a completed day and marks any other, so the day's state flips and the button shows the new state; the habit's streak is recomputed; the new ledger is saved under the held password, and not saved without one |
| Ui.EmojiMonotone | src/ui.rs:25-31 | a longer streak never shows a worse emoji |
| Ui.StreakNumberClasses | src/ui.rs:958-961 | the streak number carries "high-streak" exactly when the flame is shown |
| Ui.RefreshStreakClasses | src/ui.rs:1033-1037 | "high-streak" present exactly at 7 or more; no other class touched |
| Ui.RefreshMatchesRebuild | src/ui.rs:1033-1037 | refreshing shows the same classes as building afresh for the new streak |
| Ui.Decimal | src/ui.rs:764 | `{}` formatting of a non-negative number: at least one character, all decimal digits |
| Ui.IntToString | src/ui.rs:764 | `{}` formatting of a signed number: non-empty, starting with a minus sign exactly when negative |
| Ui.DecimalRoundTrip | src/ui.rs:764 | the decimal digits of a number read back as the number |
| Ui.DecimalInjective | src/ui.rs:764 | different numbers print differently |
| Ui.IntToStringInjective | src/ui.rs:764 | different signed timestamps print differently |
| Ui.HabitIdFor | src/ui.rs:764 | ids start with `habit_` |
| Ui.HabitIdsDifferBySecond | src/ui.rs:764 | two ids are equal exactly when their timestamps are |
| Ui.NewHabit | src/ui.rs:763-771 | a new habit has the typed name and description, streak 0, longest streak 0, target 7 |
| Ui.GetStreakEmoji | src/ui.rs:25-31 | 0-2 unhappy, 3-6 happy, flame exactly from the high-streak threshold 7 |
| Ui.IsWhitespace | src/ui.rs:897 | `char::is_whitespace`: space, tab, newline and carriage return are whitespace, ASCII letters and digits never are |
| Ui.TrimStart | src/ui.rs:897 | drops exactly a blank prefix and keeps a suffix starting with non-whitespace; empty exactly for a blank string |
| Ui.TrimEnd | src/ui.rs:897 | drops exactly a blank suffix and keeps a prefix ending with non-whitespace; empty exactly for a blank string |
| Ui.Trim | src/ui.rs:897 | `trim`: the result is no longer than the name and neither starts nor ends with whitespace |
| Ui.TrimEmptyIffBlank | src/ui.rs:897 | `trim().is_empty()` holds exactly for whitespace-only names |
| Ui.PasswordChange | src/ui.rs:393-430 | an empty field is reported exactly when one is empty; a mismatch only for differing entries; the vault is consulted only with filled, matching fields; a save is attempted exactly when the current password opens the vault |
| Ui.ChangedOnlyWhenAllChecksPass | src/ui.rs:393-430 | the password changes exactly when all fields are filled, new equals confirmation, the current password opens the vault and the save succeeds |
| Ui.FieldChecksPrecedeVault | src/ui.rs:393-403 | empty fields and a mismatch are reported whatever the vault would answer |
| Ui.HabitApp.ChangePassword | src/ui.rs:388-430 | the vault is untouched when a field check fails, loaded with the current password next, saved under the new one last; the held password changes only on success |
| Ui.HabitApp.AddHabitResponse | src/ui.rs:756-784 | a habit is added exactly on Ok with a non-empty name while a password is held, then saved under it; otherwise nothing changes |
| Ui.HabitApp.EditResponse | src/ui.rs:892-910 | applied exactly on Accept with a non-blank name, storing the untrimmed name; saved when a password is held |
| Ui.HabitApp.DeleteAllResponse | src/ui.rs:657-666 | on Yes the data is deleted; only when that succeeds are the ledger emptied and the password forgotten |
| Ui.HabitApp.TodayClicked | src/ui.rs:1127-1143 | today's completion flips (unmark when completed, mark otherwise), the streak is updated and the ledger saved when a password is held |
| Vault.SaveIfHeld | src/ui.rs:1138-1142 | at most one save, made exactly when a password is held, writing the current ledger under it |

## Left out

- The encrypted vault (src/storage.rs, src/encryption.rs): file I/O, serde_json, AES-GCM and Argon2 are foreign code. The handlers of the main window and the calendar's day click record the vault calls they make and take each call's success as a parameter. A failed save in a click handler is only logged by the source, so it changes nothing in the model.
- Ui.HabitApp.ChangePassword: "the current password opens the vault" is the parameter `currentOpensVault`. The source checks it by loading, and a load succeeds without any check when no data file exists yet.
- Clock reads (`Utc::now()`) become parameters: today's date, `completed_at`, `created_at` and the id timestamp. The source reads the clock separately in the handler and in `update_streak`; the model passes the same `today` to both.
- Widgets, CSS providers, dialogs, toasts, the theme switch, the file choosers, export and import of backups, and the 3-second timer fallback.
- The shared `Rc<RefCell<…>>` cells are modelled as shared objects: one `HabitData` ledger and one `PasswordCell`, referenced by the application and every calendar. The weak `self_ref` plumbing is not modelled, and neither is the calendar's call of its `on_change` callback (src/calendar.rs:253-255) or the label updates that callback makes; the callback's "high-streak" class logic is `Ui.RefreshStreakClasses`.
- The Enter-key handlers of the add-habit dialog only emit the Ok response, which `AddHabitResponse` handles.
- The single-habit delete dialog and the password setup dialog that follows delete-all are not part of this model.
- Ledger.Habit: `streak` and `longest_streak` are `u32` in the source and unbounded here. The streak is proved no larger than the habit's record count, so it overflows only with over four billion records.
- Ledger.Habit: `target_days_per_week` is stored but never read by the core.
- Ledger.HabitCompletion: dates are integer day numbers. chrono's date range limits and the panicking `unwrap` on dates it cannot build are not modelled.
- Ui.Trim: the contract does not restate that the result is the middle of the name. `Ui.TrimStart` and `Ui.TrimEnd`, which it composes, state which prefix and which suffix each drops.
- Dates.Less: chrono compares dates by year and ordinal day; the model compares by year, month and day, which is the same order for valid dates.
- Calendar.CreateDayButton: like the source, it compares only the month number with the shown month. `Calendar.GridCoversMonth` shows that this is exact for every date the grid shows.
- JSON serialisation of the ledger and main.rs's application bootstrap.
