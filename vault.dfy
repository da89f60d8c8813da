/**
 * What the handlers of src/ui.rs and src/calendar.rs ask of the encrypted
 * vault of src/storage.rs, and the password cell they share. The vault itself
 * (files, JSON, encryption) is not modelled: a handler returns the calls it
 * makes, and whether a call succeeds is a parameter of the handler.
 */
module Vault {
  import opened Wrappers
  import opened Ledger

  /** A request to the vault, with the ledger contents a save writes. */
  datatype VaultCall =
    | Load(password: string)
    | Save(habits: seq<Habit>, completions: seq<HabitCompletion>, password: string)
    | DeleteAllData

  /**
   * The `Rc<RefCell<Option<String>>>` holding the session's password: one
   * cell shared by the application and every calendar, so a change made by
   * one handler is seen by all.
   */
  class PasswordCell {
    var value: Option<string>

    constructor (value: Option<string>)
      ensures this.value == value
    {
      this.value := value;
    }
  }

  /**
   * The save that follows a change to the ledger: one save of the current
   * ledger under the password the cell holds, and none when it holds none.
   */
  function SaveIfHeld(password: Option<string>, habits: seq<Habit>, completions: seq<HabitCompletion>): (calls: seq<VaultCall>)
    ensures |calls| <= 1
    ensures calls != [] <==> password.Some?
    ensures forall c :: c in calls ==> c == Save(habits, completions, password.value)
  {
    if password.Some? then [Save(habits, completions, password.value)] else []
  }
}
