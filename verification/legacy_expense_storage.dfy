/**
 * The legacy `ExpenseStorage`: `addExpense` and `saveUserData` have no guard,
 * so any username, the empty one included, gets a ledger and a file. A save
 * that reaches a record Gson refuses throws out of `addExpense` after the
 * record has been appended, as in the current copy. The other operations are those of the `Ledger` module, which the two copies
 * share word for word.
 */
module LegacyExpenseStorage {
  import opened Wrappers
  import opened JavaText
  import opened Expenses
  import opened Ledger
  import ExpenseStorage

  /** `saveUserData`: the user's file is rewritten from the user's ledger. */
  function SaveUserData(p: Platform, s: Storage, username: string): Outcome {
    WriteLedgerFile(p, s, username)
  }

  /** `addExpense`: the user's ledger (created empty if absent) gets the
      record at its end and the user's file is rewritten up to the first
      record Gson refuses, whose message is thrown, whatever the username;
      nothing else changes. */
  function AddExpense(p: Platform, s: Storage, username: string, expense: Expense): (r: Outcome)
    ensures r.storage.ledgers.Keys == s.ledgers.Keys + {username}
    ensures r.storage.ledgers[username] == GetExpenses(s, username) + [expense]
    ensures forall v :: v in s.ledgers && v != username ==> r.storage.ledgers[v] == s.ledgers[v]
    ensures r.storage.disk.Keys == s.disk.Keys + {UserFilePath(username)}
    ensures r.storage.disk[UserFilePath(username)] == EncodeLedger(p, SavedPrefix(r.storage.ledgers[username]))
    ensures forall path :: path in s.disk && path != UserFilePath(username) ==> r.storage.disk[path] == s.disk[path]
    ensures r.thrown == EncodeFailure(p, r.storage.ledgers[username])
  {
    var present := if username in s.ledgers then s else s.(ledgers := s.ledgers[username := []]);
    var appended := present.(ledgers := present.ledgers[username := present.ledgers[username] + [expense]]);
    SaveUserData(p, appended, username)
  }

  /** The ledgers after a legacy add. */
  lemma AddExpenseLedgers(p: Platform, s: Storage, username: string, expense: Expense)
    ensures AddExpense(p, s, username, expense).storage.ledgers ==
      s.ledgers[username := GetExpenses(s, username) + [expense]]
  {
    var present := if username in s.ledgers then s else s.(ledgers := s.ledgers[username := []]);
    var extended := GetExpenses(s, username) + [expense];
    assert present.ledgers[username := extended] == s.ledgers[username := extended];
  }

  /** The two copies are one state machine: wherever the current guard lets a
      call through, the legacy add does exactly what the current one does. */
  lemma AgreesWithCurrent(p: Platform, s: Storage, username: string, expense: Expense)
    requires !IsBlank(username)
    ensures AddExpense(p, s, username, expense) == ExpenseStorage.AddExpense(p, s, Some(username), Some(expense))
  {
    AddExpenseLedgers(p, s, username, expense);
    ExpenseStorage.AddExpenseLedgers(p, s, Some(username), Some(expense));
  }

  /** Where the current guard refuses a blank username, the legacy copy
      creates a ledger for it. */
  lemma BlankUserGetsLedger(p: Platform, s: Storage, username: string, expense: Expense)
    requires IsBlank(username)
    ensures ExpenseStorage.AddExpense(p, s, Some(username), Some(expense)) == Outcome(s, None)
    ensures username in AddExpense(p, s, username, expense).storage.ledgers
    ensures GetExpenses(AddExpense(p, s, username, expense).storage, username) == GetExpenses(s, username) + [expense]
  {
  }

  /** Every legacy add raises the total record count by one, and the user
      count by one exactly when the username had no ledger. */
  lemma AddExpenseCounts(p: Platform, s: Storage, username: string, expense: Expense)
    ensures var r := AddExpense(p, s, username, expense).storage;
      && SumLengths(r.ledgers) == SumLengths(s.ledgers) + 1
      && UserCount(r) == UserCount(s) + (if username in s.ledgers then 0 else 1)
  {
    var r := AddExpense(p, s, username, expense).storage;
    AddExpenseLedgers(p, s, username, expense);
    SumLengthsUpdate(s.ledgers, username, GetExpenses(s, username) + [expense]);
    if username !in s.ledgers {
      assert |r.ledgers.Keys| == |s.ledgers.Keys + {username}| == |s.ledgers.Keys| + 1;
    } else {
      assert r.ledgers.Keys == s.ledgers.Keys;
    }
  }

  /** Every legacy add leaves each ledger in agreement with its file. */
  lemma AddExpenseKeepsConsistent(p: Platform, s: Storage, username: string, expense: Expense)
    requires Consistent(p, s)
    ensures Consistent(p, AddExpense(p, s, username, expense).storage)
  {
    UpdateAndWriteConsistent(p, s, username, GetExpenses(s, username) + [expense]);
    AddExpenseLedgers(p, s, username, expense);
    assert AddExpense(p, s, username, expense) ==
      WriteLedgerFile(p, s.(ledgers := s.ledgers[username := GetExpenses(s, username) + [expense]]), username);
  }

  /** The calls, made one after another. */
  function AddAll(p: Platform, s: Storage, calls: seq<AddCall>): Storage
    decreases |calls|
  {
    if calls == [] then s
    else
      var last := calls[|calls| - 1];
      AddExpense(p, AddAll(p, s, calls[..|calls| - 1]), last.username, last.expense).storage
  }

  /** Append-only ordering: after any sequence of legacy adds, every user's
      ledger is the old one followed by exactly the records added for that
      user, in call order. */
  lemma {:induction false} AddAllInCallOrder(p: Platform, s: Storage, calls: seq<AddCall>, username: string)
    ensures GetExpenses(AddAll(p, s, calls), username) == GetExpenses(s, username) + ExpensesFor(calls, username)
    decreases |calls|
  {
    if calls != [] {
      var init := calls[..|calls| - 1];
      var last := calls[|calls| - 1];
      AddAllInCallOrder(p, s, init, username);
      var before := AddAll(p, s, init);
      AddExpenseLedgers(p, before, last.username, last.expense);
    }
  }
}
