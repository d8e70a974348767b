/**
 * The current `ExpenseStorage`: `addExpense` refuses a null or blank
 * username and a null record, and `saveUserData` refuses a blank username.
 * A save that reaches a record Gson refuses throws out of `addExpense`
 * after the record has been appended. The other operations are those of
 * the `Ledger` module.
 */
module ExpenseStorage {
  import opened Wrappers
  import opened JavaText
  import opened Expenses
  import opened Ledger

  /** True iff `addExpense` returns at its guard: a null or blank username, or
      a null record. */
  predicate Refuses(username: Option<string>, expense: Option<Expense>) {
    username.None? || IsBlank(username.value) || expense.None?
  }

  /** `saveUserData`: nothing is written for a blank username; otherwise the
      user's file is rewritten from the user's ledger. */
  function SaveUserData(p: Platform, s: Storage, username: string): Outcome
  {
    if IsBlank(username) then Outcome(s, None) else WriteLedgerFile(p, s, username)
  }

  /** `addExpense`: past the guard, the user's ledger (created empty if absent)
      gets the record at its end and the user's file is rewritten up to the
      first record Gson refuses, whose message is thrown; nothing else
      changes. At the guard nothing changes at all and nothing is thrown. */
  function AddExpense(p: Platform, s: Storage, username: Option<string>, expense: Option<Expense>): (r: Outcome)
    ensures Refuses(username, expense) ==> r == Outcome(s, None)
    ensures !Refuses(username, expense) ==>
      var u := username.value;
      var t := r.storage;
      && t.ledgers.Keys == s.ledgers.Keys + {u}
      && t.ledgers[u] == GetExpenses(s, u) + [expense.value]
      && (forall v :: v in s.ledgers && v != u ==> t.ledgers[v] == s.ledgers[v])
      && t.disk.Keys == s.disk.Keys + {UserFilePath(u)}
      && t.disk[UserFilePath(u)] == EncodeLedger(p, SavedPrefix(t.ledgers[u]))
      && (forall path :: path in s.disk && path != UserFilePath(u) ==> t.disk[path] == s.disk[path])
      && r.thrown == EncodeFailure(p, t.ledgers[u])
  {
    if username.None? || IsBlank(username.value) || expense.None? then Outcome(s, None)
    else
      var u := username.value;
      var present := if u in s.ledgers then s else s.(ledgers := s.ledgers[u := []]);
      var appended := present.(ledgers := present.ledgers[u := present.ledgers[u] + [expense.value]]);
      SaveUserData(p, appended, u)
  }

  /** The ledgers after an add: the user's ledger extended by the record, when
      the guard lets the call through. */
  lemma AddExpenseLedgers(p: Platform, s: Storage, username: Option<string>, expense: Option<Expense>)
    ensures AddExpense(p, s, username, expense).storage.ledgers ==
      if Refuses(username, expense) then s.ledgers
      else s.ledgers[username.value := GetExpenses(s, username.value) + [expense.value]]
  {
    if !Refuses(username, expense) {
      var u := username.value;
      var present := if u in s.ledgers then s else s.(ledgers := s.ledgers[u := []]);
      assert present.ledgers[u] == GetExpenses(s, u);
      var extended := GetExpenses(s, u) + [expense.value];
      var appended := present.(ledgers := present.ledgers[u := extended]);
      assert present.ledgers[u := extended] == s.ledgers[u := extended];
      assert AddExpense(p, s, username, expense) == SaveUserData(p, appended, u);
    }
  }

  /** An add only appends: every ledger before it is a prefix of the same
      user's ledger after it, whether or not the save throws. */
  lemma AddExpenseExtends(p: Platform, s: Storage, username: Option<string>, expense: Option<Expense>)
    ensures Extends(s, AddExpense(p, s, username, expense).storage)
  {
    AddExpenseLedgers(p, s, username, expense);
  }

  /** When an add throws: exactly when the guard lets it through and the new
      record, or a record already in the user's ledger, is one Gson refuses.
      So a single refused record makes every later add for that user throw. */
  lemma AddExpenseThrows(p: Platform, s: Storage, username: Option<string>, expense: Option<Expense>)
    ensures AddExpense(p, s, username, expense).thrown.Some? <==>
      && !Refuses(username, expense)
      && !(SavedPrefix(GetExpenses(s, username.value)) == GetExpenses(s, username.value) && Serializable(expense.value))
  {
    if !Refuses(username, expense) {
      var u := username.value;
      AddExpenseLedgers(p, s, username, expense);
      SavedPrefixAppend(GetExpenses(s, u), expense.value);
    }
  }

  /** What one add does to the records any user gets back. */
  lemma GetAfterAdd(p: Platform, s: Storage, username: Option<string>, expense: Option<Expense>, v: string)
    ensures GetExpenses(AddExpense(p, s, username, expense).storage, v) ==
      GetExpenses(s, v) + (if !Refuses(username, expense) && username.value == v then [expense.value] else [])
  {
    AddExpenseLedgers(p, s, username, expense);
  }

  /** A successful add raises the total record count by one and the user count
      by one exactly when the username had no ledger; a refused add changes
      neither. */
  lemma AddExpenseCounts(p: Platform, s: Storage, username: Option<string>, expense: Option<Expense>)
    ensures var r := AddExpense(p, s, username, expense).storage;
      && SumLengths(r.ledgers) == SumLengths(s.ledgers) + (if Refuses(username, expense) then 0 else 1)
      && UserCount(r) == UserCount(s) + (if Refuses(username, expense) || username.value in s.ledgers then 0 else 1)
  {
    if !Refuses(username, expense) {
      var u := username.value;
      var r := AddExpense(p, s, username, expense).storage;
      AddExpenseLedgers(p, s, username, expense);
      SumLengthsUpdate(s.ledgers, u, GetExpenses(s, u) + [expense.value]);
      if u !in s.ledgers {
        assert |r.ledgers.Keys| == |s.ledgers.Keys + {u}| == |s.ledgers.Keys| + 1;
      } else {
        assert r.ledgers.Keys == s.ledgers.Keys;
      }
    }
  }

  /** Every add leaves each ledger in agreement with its file, a throwing
      one included. */
  lemma AddExpenseKeepsConsistent(p: Platform, s: Storage, username: Option<string>, expense: Option<Expense>)
    requires Consistent(p, s)
    ensures Consistent(p, AddExpense(p, s, username, expense).storage)
  {
    if !Refuses(username, expense) {
      var u := username.value;
      UpdateAndWriteConsistent(p, s, u, GetExpenses(s, u) + [expense.value]);
      assert AddExpense(p, s, username, expense) ==
        WriteLedgerFile(p, s.(ledgers := s.ledgers[u := GetExpenses(s, u) + [expense.value]]), u);
    }
  }

  /** The calls, made one after another. */
  function AddAll(p: Platform, s: Storage, calls: seq<AddCall>): Storage
    decreases |calls|
  {
    if calls == [] then s
    else
      var last := calls[|calls| - 1];
      AddExpense(p, AddAll(p, s, calls[..|calls| - 1]), Some(last.username), Some(last.expense)).storage
  }

  /** Append-only ordering: after any sequence of adds, for any users, a
      non-blank user's ledger is the old one followed by exactly the records
      added for that user, in call order; a blank user's is unchanged. */
  lemma {:induction false} AddAllInCallOrder(p: Platform, s: Storage, calls: seq<AddCall>, username: string)
    ensures GetExpenses(AddAll(p, s, calls), username) ==
      GetExpenses(s, username) + (if IsBlank(username) then [] else ExpensesFor(calls, username))
    decreases |calls|
  {
    if calls != [] {
      var init := calls[..|calls| - 1];
      var last := calls[|calls| - 1];
      AddAllInCallOrder(p, s, init, username);
      var before := AddAll(p, s, init);
      GetAfterAdd(p, before, Some(last.username), Some(last.expense), username);
      assert calls[..|calls| - 1] == init;
    }
  }

  /** N adds for one user, with no other call in between, leave exactly those
      N records at the end of that user's ledger, in call order. */
  lemma AddsForOneUser(p: Platform, s: Storage, username: string, es: seq<Expense>)
    requires !IsBlank(username)
    ensures GetExpenses(AddAll(p, s, seq(|es|, k requires 0 <= k < |es| => AddCall(username, es[k]))), username)
      == GetExpenses(s, username) + es
  {
    var calls := seq(|es|, k requires 0 <= k < |es| => AddCall(username, es[k]));
    AddAllInCallOrder(p, s, calls, username);
    ExpensesForSingleUser(calls, username);
    assert seq(|calls|, k requires 0 <= k < |calls| => calls[k].expense) == es;
  }

  /** The records of the calls. */
  ghost function CallRecords(calls: seq<AddCall>): set<Expense> {
    set k | 0 <= k < |calls| :: calls[k].expense
  }

  /** Every record of every ledger is one of `rs`. */
  ghost predicate RecordsAmong(m: Ledgers, rs: set<Expense>) {
    forall u, k :: u in m && 0 <= k < |m[u]| ==> m[u][k] in rs
  }

  /** Adds from a fresh start store only the records of the calls. */
  lemma {:induction false} AddAllRecordsAmong(p: Platform, calls: seq<AddCall>)
    ensures RecordsAmong(AddAll(p, Storage(map[], map[]), calls).ledgers, CallRecords(calls))
    decreases |calls|
  {
    if calls != [] {
      var init := calls[..|calls| - 1];
      var last := calls[|calls| - 1];
      AddAllRecordsAmong(p, init);
      var before := AddAll(p, Storage(map[], map[]), init);
      AddExpenseLedgers(p, before, Some(last.username), Some(last.expense));
      var m := AddAll(p, Storage(map[], map[]), calls).ledgers;
      assert CallRecords(init) <= CallRecords(calls) by {
        forall k | 0 <= k < |init| ensures init[k].expense in CallRecords(calls) {
          assert init[k] == calls[k];
        }
      }
      assert last.expense in CallRecords(calls);
      forall u, k | u in m && 0 <= k < |m[u]| ensures m[u][k] in CallRecords(calls) {
        if u in before.ledgers && k < |before.ledgers[u]| {
          assert m[u][k] == before.ledgers[u][k];
        }
      }
    }
  }

  /** A store built by adds from a fresh start survives a restart up to what
      Gson refused to write: if every writable record of the calls reads
      back, every username is free of ".json" and the directory lists exactly
      the files written, reloading gives each user the records before its
      first refused one, and every ledger whole when no call had a refused
      record. */
  lemma AddAllThenRestart(p: Platform, calls: seq<AddCall>, listing: seq<string>)
    requires forall k :: 0 <= k < |calls| && Serializable(calls[k].expense) ==> ReadsBack(p, calls[k].expense)
    requires forall k :: 0 <= k < |calls| ==> !Contains(calls[k].username, JsonSuffix)
    requires var s := AddAll(p, Storage(map[], map[]), calls);
      ListsFilesOf(listing, s.ledgers) && forall u :: u in s.ledgers ==> FileName(u) in listing
    ensures var s := AddAll(p, Storage(map[], map[]), calls);
      LoadAllUserData(p, s.disk, listing).ledgers == SavedLedgers(s.ledgers)
    ensures var s := AddAll(p, Storage(map[], map[]), calls);
      (forall k :: 0 <= k < |calls| ==> Serializable(calls[k].expense)) ==>
        LoadAllUserData(p, s.disk, listing).ledgers == s.ledgers
  {
    var s := AddAll(p, Storage(map[], map[]), calls);
    AddAllKeepsConsistent(p, calls);
    AddAllRecordsAmong(p, calls);
    var m := s.ledgers;
    forall u, k | u in m && 0 <= k < |m[u]| && Serializable(m[u][k]) ensures ReadsBack(p, m[u][k]) {
      assert m[u][k] in CallRecords(calls);
    }
    if forall k :: 0 <= k < |calls| ==> Serializable(calls[k].expense) {
      forall u | u in m ensures SavedPrefix(m[u]) == m[u] {
        forall k | 0 <= k < |m[u]| ensures Serializable(m[u][k]) {
          assert m[u][k] in CallRecords(calls);
        }
        SavedPrefixWhole(m[u]);
      }
    }
    RestartRestores(p, s, listing);
  }

  /** Adds from a fresh start keep every ledger consistent with its file and
      create ledgers only for the usernames called with. */
  lemma {:induction false} AddAllKeepsConsistent(p: Platform, calls: seq<AddCall>)
    ensures var s := AddAll(p, Storage(map[], map[]), calls);
      && Consistent(p, s)
      && forall u :: u in s.ledgers ==> exists k :: 0 <= k < |calls| && calls[k].username == u
    decreases |calls|
  {
    if calls != [] {
      var init := calls[..|calls| - 1];
      var last := calls[|calls| - 1];
      AddAllKeepsConsistent(p, init);
      var before := AddAll(p, Storage(map[], map[]), init);
      AddExpenseKeepsConsistent(p, before, Some(last.username), Some(last.expense));
      var s := AddAll(p, Storage(map[], map[]), calls);
      forall u | u in s.ledgers
        ensures exists k :: 0 <= k < |calls| && calls[k].username == u
      {
        if u in before.ledgers {
          var k :| 0 <= k < |init| && init[k].username == u;
          assert calls[k] == init[k];
        } else {
          assert calls[|calls| - 1].username == u;
        }
      }
    }
  }
}
