/**
 * The decision rules of src/ui.rs that sit beside the widgets: the streak
 * emoji and the high-streak style, the id a new habit gets, and the guards of
 * the handlers that change the password, add a habit, edit a habit, clear all
 * data and toggle today's completion. The encrypted vault is outside the
 * model: what the handlers ask of it is returned as a list of vault calls,
 * and whether a call succeeds is a parameter.
 */
module Ui {
  import opened Wrappers
  import opened Ledger
  import opened Vault

  // ---------------------------------------------------------------------------
  // Streak display

  /** The streak from which the flame is shown and the number gets the "high-streak" style. */
  const HighStreakThreshold: nat := 7

  datatype StreakEmoji = Unhappy | Happy | Flame

  /** `get_streak_emoji`: 0 to 2 days unhappy, 3 to 6 happy, 7 or more the flame. */
  function GetStreakEmoji(streak: nat): (e: StreakEmoji)
    ensures e == Unhappy <==> streak < 3
    ensures e == Happy <==> 3 <= streak < 7
    ensures e == Flame <==> streak >= HighStreakThreshold
  {
    if streak <= 2 then Unhappy
    else if streak <= 6 then Happy
    else Flame
  }

  /** The emojis ordered from worst to best. */
  function EmojiRank(e: StreakEmoji): (r: nat)
    ensures r < 3
  {
    match e
    case Unhappy => 0
    case Happy => 1
    case Flame => 2
  }

  /** A longer streak never shows a worse emoji. */
  lemma EmojiMonotone(a: nat, b: nat)
    requires a <= b
    ensures EmojiRank(GetStreakEmoji(a)) <= EmojiRank(GetStreakEmoji(b))
  {
  }

  /** The CSS classes of a freshly built streak number. */
  function StreakNumberClasses(streak: nat): (r: set<string>)
    ensures "streak-number" in r
    ensures "high-streak" in r <==> GetStreakEmoji(streak) == Flame
  {
    if streak >= HighStreakThreshold then {"streak-number", "high-streak"} else {"streak-number"}
  }

  /**
   * The refresh after a calendar change: add "high-streak" at or above the
   * threshold, remove it below, leave every other class alone.
   */
  function RefreshStreakClasses(classes: set<string>, streak: nat): (r: set<string>)
    ensures "high-streak" in r <==> streak >= HighStreakThreshold
    ensures forall c :: c != "high-streak" ==> (c in r <==> c in classes)
  {
    if streak >= HighStreakThreshold then classes + {"high-streak"} else classes - {"high-streak"}
  }

  /** Refreshing a rendered number gives what a fresh render of the new streak would show. */
  lemma RefreshMatchesRebuild(before: nat, after: nat)
    ensures RefreshStreakClasses(StreakNumberClasses(before), after) == StreakNumberClasses(after)
  {
    var r := RefreshStreakClasses(StreakNumberClasses(before), after);
    assert forall c :: c in r <==> c in StreakNumberClasses(after);
  }

  // ---------------------------------------------------------------------------
  // Habit ids

  function DigitChar(d: nat): (c: char)
    requires d < 10
    ensures '0' <= c <= '9'
    ensures (c as int) - ('0' as int) == d
  {
    (('0' as int) + d) as char
  }

  predicate IsDigits(s: string)
  {
    forall i :: 0 <= i < |s| ==> '0' <= s[i] <= '9'
  }

  /** Decimal digits of `n`, most significant first, as `{}` formats an integer. */
  function Decimal(n: nat): (s: string)
    ensures |s| >= 1 && IsDigits(s)
  {
    if n < 10 then [DigitChar(n)] else Decimal(n / 10) + [DigitChar(n % 10)]
  }

  /** Reads decimal digits back. */
  function ParseDecimal(s: string): (n: nat)
    requires IsDigits(s)
  {
    if s == [] then 0
    else ParseDecimal(s[..|s| - 1]) * 10 + ((s[|s| - 1] as int) - ('0' as int))
  }

  lemma {:induction false} DecimalRoundTrip(n: nat)
    ensures ParseDecimal(Decimal(n)) == n
  {
    if n >= 10 {
      DecimalRoundTrip(n / 10);
      var s := Decimal(n);
      assert s[..|s| - 1] == Decimal(n / 10);
    }
  }

  /** A signed integer as `{}` formats it: a minus sign, then the digits of its magnitude. */
  function IntToString(t: int): (s: string)
    ensures |s| >= 1
    ensures s[0] == '-' <==> t < 0
  {
    if t < 0 then "-" + Decimal(-t) else Decimal(t)
  }

  lemma DecimalInjective(a: nat, b: nat)
    requires Decimal(a) == Decimal(b)
    ensures a == b
  {
    DecimalRoundTrip(a);
    DecimalRoundTrip(b);
  }

  lemma IntToStringInjective(a: int, b: int)
    requires IntToString(a) == IntToString(b)
    ensures a == b
  {
    if a < 0 && b < 0 {
      assert IntToString(a)[1..] == Decimal(-a);
      assert IntToString(b)[1..] == Decimal(-b);
      DecimalInjective(-a, -b);
    } else if a >= 0 && b >= 0 {
      DecimalInjective(a, b);
    }
  }

  /** `format!("habit_{}", timestamp)`: the id the add-habit dialog gives a new habit. */
  function HabitIdFor(timestamp: int): (id: string)
    ensures |id| > 6 && id[..6] == "habit_"
  {
    "habit_" + IntToString(timestamp)
  }

  /**
   * Ids come from the clock in whole seconds: habits added in different
   * seconds get different ids, while two added in the same second share one.
   */
  lemma HabitIdsDifferBySecond(a: int, b: int)
    ensures HabitIdFor(a) == HabitIdFor(b) <==> a == b
  {
    if HabitIdFor(a) == HabitIdFor(b) {
      assert HabitIdFor(a)[6..] == IntToString(a);
      assert HabitIdFor(b)[6..] == IntToString(b);
      IntToStringInjective(a, b);
    }
  }

  /** The habit the add-habit dialog builds: no streak yet and a target of every day of the week. */
  function NewHabit(idTimestamp: int, name: string, description: string, createdAt: int): (h: Habit)
    ensures h.id == HabitIdFor(idTimestamp) && h.name == name && h.description == description
    ensures h.createdAt == createdAt && h.targetDaysPerWeek == 7
    ensures h.streak == 0 && h.longestStreak == 0
  {
    Habit(HabitIdFor(idTimestamp), name, description, createdAt, 7, 0, 0)
  }

  // ---------------------------------------------------------------------------
  // str::trim

  /** `char::is_whitespace`: the characters with the Unicode White_Space property. */
  predicate IsWhitespace(c: char): (r: bool)
    ensures c == ' ' || c == '\t' || c == '\n' || c == '\r' ==> r
    ensures '0' <= c <= '9' || 'A' <= c <= 'Z' || 'a' <= c <= 'z' ==> !r
  {
    ('\t' <= c <= '\r') || c == ' ' || c == '\U{0085}' || c == '\U{00A0}' || c == '\U{1680}'
    || ('\U{2000}' <= c <= '\U{200A}') || c == '\U{2028}' || c == '\U{2029}'
    || c == '\U{202F}' || c == '\U{205F}' || c == '\U{3000}'
  }

  predicate IsBlank(s: string)
  {
    forall i :: 0 <= i < |s| ==> IsWhitespace(s[i])
  }

  /** `trim_start`: the suffix left after dropping leading whitespace. */
  function TrimStart(s: string): (r: string)
    ensures |r| <= |s| && r == s[|s| - |r|..]
    ensures IsBlank(s[..|s| - |r|])
    ensures r != [] ==> !IsWhitespace(r[0])
    ensures r == [] <==> IsBlank(s)
  {
    if s != [] && IsWhitespace(s[0]) then
      var r := TrimStart(s[1..]);
      assert s[1..][..|s| - 1 - |r|] == s[1..|s| - |r|];
      r
    else s
  }

  /** `trim_end`: the prefix left after dropping trailing whitespace. */
  function TrimEnd(s: string): (r: string)
    ensures |r| <= |s| && r == s[..|r|]
    ensures IsBlank(s[|r|..])
    ensures r != [] ==> !IsWhitespace(r[|r| - 1])
    ensures r == [] <==> IsBlank(s)
  {
    if s != [] && IsWhitespace(s[|s| - 1]) then
      var r := TrimEnd(s[..|s| - 1]);
      forall i | |r| <= i < |s|
        ensures IsWhitespace(s[i])
      {
        if i < |s| - 1 {
          assert s[..|s| - 1][|r|..][i - |r|] == s[i];
        }
      }
      r
    else s
  }

  /**
   * `str::trim`: leading whitespace goes first, then trailing whitespace, so
   * what is kept neither starts nor ends with whitespace.
   */
  function Trim(s: string): (r: string)
    ensures |r| <= |s|
    ensures r != [] ==> !IsWhitespace(r[0]) && !IsWhitespace(r[|r| - 1])
  {
    var t := TrimStart(s);
    var r := TrimEnd(t);
    assert r != [] ==> r[0] == t[0];
    r
  }

  /** A name trims to nothing exactly when it is made of whitespace only. */
  lemma TrimEmptyIffBlank(s: string)
    ensures Trim(s) == [] <==> IsBlank(s)
  {
    var t := TrimStart(s);
    if t != [] {
      // The first character kept is not whitespace, so the rest is not blank either.
      assert !IsWhitespace(t[0]);
    }
  }

  // ---------------------------------------------------------------------------
  // Handlers

  /** The dialog responses the handlers test for. */
  datatype Response = Ok | Accept | Yes | No | Cancel

  datatype PasswordChangeOutcome = FieldsEmpty | Mismatch | WrongCurrent | SaveFailed | Changed

  /**
   * The verdict of the change-password button: an empty field first, then a
   * confirmation that differs, then a current password that does not open
   * the vault, then a failed save.
   */
  function PasswordChange(currentPass: string, newPass: string, confirmPass: string,
                          currentOpensVault: bool, saveSucceeds: bool): (r: PasswordChangeOutcome)
    ensures r == FieldsEmpty <==> currentPass == [] || newPass == [] || confirmPass == []
    ensures r == Mismatch ==> newPass != confirmPass
    ensures r in {WrongCurrent, SaveFailed, Changed} ==> currentPass != [] && newPass != [] && newPass == confirmPass
    ensures r in {SaveFailed, Changed} <==> r !in {FieldsEmpty, Mismatch} && currentOpensVault
  {
    if currentPass == [] || newPass == [] || confirmPass == [] then FieldsEmpty
    else if newPass != confirmPass then Mismatch
    else if !currentOpensVault then WrongCurrent
    else if !saveSucceeds then SaveFailed
    else Changed
  }

  /** The password changes exactly when every check passes. */
  lemma ChangedOnlyWhenAllChecksPass(currentPass: string, newPass: string, confirmPass: string,
                                     currentOpensVault: bool, saveSucceeds: bool)
    ensures PasswordChange(currentPass, newPass, confirmPass, currentOpensVault, saveSucceeds) == Changed
      <==> currentPass != [] && newPass != [] && newPass == confirmPass && currentOpensVault && saveSucceeds
  {
  }

  /** The field checks come first: their verdict does not depend on what the vault would answer. */
  lemma FieldChecksPrecedeVault(currentPass: string, newPass: string, confirmPass: string,
                                opens1: bool, saves1: bool, opens2: bool, saves2: bool)
    requires currentPass == [] || newPass == [] || confirmPass == [] || newPass != confirmPass
    ensures PasswordChange(currentPass, newPass, confirmPass, opens1, saves1) == PasswordChange(currentPass, newPass, confirmPass, opens2, saves2)
    ensures PasswordChange(currentPass, newPass, confirmPass, opens1, saves1) in {FieldsEmpty, Mismatch}
  {
  }

  /** `HabitApp`: the ledger and the password cell, both shared with every calendar. */
  class HabitApp {
    const habitData: HabitData
    const password: PasswordCell

    constructor (habitData: HabitData, password: PasswordCell)
      ensures this.habitData == habitData && this.password == password
    {
      this.habitData := habitData;
      this.password := password;
    }

    /**
     * The change-password button. The vault is consulted only after the
     * field checks pass: first loading with the current password, then
     * saving the ledger under the new one; the held password is replaced only
     * when that save succeeds.
     */
    method ChangePassword(currentPass: string, newPass: string, confirmPass: string,
                          currentOpensVault: bool, saveSucceeds: bool)
      returns (outcome: PasswordChangeOutcome, calls: seq<VaultCall>)
      modifies password
      ensures outcome == PasswordChange(currentPass, newPass, confirmPass, currentOpensVault, saveSucceeds)
      ensures outcome in {FieldsEmpty, Mismatch} ==> calls == []
      ensures outcome == WrongCurrent ==> calls == [Load(currentPass)]
      ensures outcome in {SaveFailed, Changed} ==>
        calls == [Load(currentPass), Save(habitData.habits, habitData.completions, newPass)]
      ensures password.value == if outcome == Changed then Some(newPass) else old(password.value)
    {
      calls := [];
      if currentPass == [] || newPass == [] || confirmPass == [] {
        return FieldsEmpty, calls;
      }
      if newPass != confirmPass {
        return Mismatch, calls;
      }
      calls := calls + [Load(currentPass)];
      if !currentOpensVault {
        return WrongCurrent, calls;
      }
      calls := calls + [Save(habitData.habits, habitData.completions, newPass)];
      if !saveSucceeds {
        return SaveFailed, calls;
      }
      password.value := Some(newPass);
      outcome := Changed;
    }

    /**
     * The add-habit dialog's response: on Ok with a non-empty name, and only
     * while a password is held, the new habit is appended and the ledger
     * saved. The id and the creation time are two clock reads.
     */
    method AddHabitResponse(response: Response, name: string, description: string,
                            idTimestamp: int, createdAt: int)
      returns (added: bool, calls: seq<VaultCall>)
      modifies habitData
      ensures added <==> response == Ok && name != [] && password.value.Some?
      ensures habitData.completions == old(habitData.completions)
      ensures habitData.habits == if added then old(habitData.habits) + [NewHabit(idTimestamp, name, description, createdAt)]
                                  else old(habitData.habits)
      ensures calls == if added then [Save(habitData.habits, habitData.completions, password.value.value)] else []
      ensures old(habitData.Consistent()) ==> habitData.Consistent()
    {
      added, calls := false, [];
      if response == Ok {
        if name != [] {
          if password.value.Some? {
            var habit := NewHabit(idTimestamp, name, description, createdAt);
            habitData.AddHabit(habit);
            calls := [Save(habitData.habits, habitData.completions, password.value.value)];
            added := true;
          }
        }
      }
    }

    /**
     * The edit dialog's response: on Accept, and when the new name is not
     * blank, the habit is renamed with the name as typed (untrimmed); the
     * ledger is saved when a password is held.
     */
    method EditResponse(response: Response, habitId: string, newName: string, newDescription: string)
      returns (applied: bool, calls: seq<VaultCall>)
      modifies habitData
      ensures applied <==> response == Accept && !IsBlank(newName)
      ensures habitData.completions == old(habitData.completions)
      ensures !applied ==> habitData.habits == old(habitData.habits)
      ensures applied ==> match HabitIndex(old(habitData.habits), habitId)
        case None => habitData.habits == old(habitData.habits)
        case Some(i) => habitData.habits == old(habitData.habits)[i := old(habitData.habits)[i].(name := newName, description := newDescription)]
      ensures calls == if applied then SaveIfHeld(password.value, habitData.habits, habitData.completions) else []
      ensures old(habitData.Consistent()) ==> habitData.Consistent()
    {
      applied, calls := false, [];
      TrimEmptyIffBlank(newName);
      if response == Accept {
        if Trim(newName) != [] {
          habitData.UpdateHabit(habitId, newName, newDescription);
          calls := SaveIfHeld(password.value, habitData.habits, habitData.completions);
          applied := true;
        }
      }
    }

    /**
     * The delete-all confirmation: on Yes the vault file is deleted, and only
     * when that succeeds are the ledger emptied and the password forgotten.
     */
    method DeleteAllResponse(response: Response, deletionSucceeds: bool)
      returns (cleared: bool, calls: seq<VaultCall>)
      modifies password, habitData
      ensures calls == if response == Yes then [DeleteAllData] else []
      ensures cleared <==> response == Yes && deletionSucceeds
      ensures cleared ==> habitData.habits == [] && habitData.completions == [] && password.value == None
      ensures !cleared ==>
        habitData.habits == old(habitData.habits) && habitData.completions == old(habitData.completions)
        && password.value == old(password.value)
      ensures cleared ==> habitData.Consistent()
    {
      cleared, calls := false, [];
      if response == Yes {
        calls := [DeleteAllData];
        if deletionSucceeds {
          habitData.habits := [];
          habitData.completions := [];
          password.value := None;
          cleared := true;
        }
      }
    }

    /**
     * The today button: unmark today when it is completed, mark it
     * otherwise, then save when a password is held. `today` is the clock
     * read of the handler, also used by `update_streak`.
     */
    method TodayClicked(habitId: string, today: Day, completedAt: int)
      returns (calls: seq<VaultCall>)
      modifies habitData
      ensures IsCompletedOnDate(habitData.completions, habitId, today) == !old(IsCompletedOnDate(habitData.completions, habitId, today))
      ensures old(IsCompletedOnDate(habitData.completions, habitId, today)) ==>
        habitData.completions == Filter(old(habitData.completions), NotOn(habitId, today))
      ensures !old(IsCompletedOnDate(habitData.completions, habitId, today)) ==>
        habitData.completions == old(habitData.completions) + [HabitCompletion(habitId, today, completedAt, None)]
      ensures StreakUpdated(old(habitData.habits), habitData.habits, habitId, Streak(habitData.completions, habitId, today))
      ensures calls == SaveIfHeld(password.value, habitData.habits, habitData.completions)
      ensures old(habitData.Consistent()) && HasHabit(old(habitData.habits), habitId) ==> habitData.Consistent()
    {
      var isCompleted := IsCompletedOnDate(habitData.completions, habitId, today);
      if isCompleted {
        habitData.UnmarkCompleted(habitId, today, today);
      } else {
        habitData.MarkCompleted(habitId, today, None, completedAt, today);
      }
      calls := SaveIfHeld(password.value, habitData.habits, habitData.completions);
    }
  }
}
